# SQIsign: the integer, lattice and group algorithms, proved

A Dafny model of the loop-heavy algorithms under SQIsign's curve and quaternion layers, with proofs of what they are for.
`dafny verify dfyconfig.toml` checks everything.

What is modelled, by theme:

* **x-only ladders** (`Groups`, `XOnly`, `Biscalar`, `ThreePoint`, `Bytes`, `Limbs`). A curve is an abelian group seen through
  an x-coordinate that forgets the sign. Differential addition is right only when it is given the difference of its operands,
  and only when that difference is neither the identity nor the point with x = 0; so a proof about a ladder is a proof that every
  addition it issues gets the right difference. Scalars are byte arrays and limbs, recoded in place as in the source.
* **Change of basis** (`Modular`, `Matrices2`, `ChangeOfBasis`). Matrices modulo 2^e act on a basis given by three x-coordinates.
* **The balanced (2,2)-chain** (`ThetaChain`). The stack machine of strategy points against the naive chain, for abstract
  isogenies that commute with doubling.
* **Rank-4 lattices** (`Linear4`, `Lattices`, `HermiteForm`, `Membership`, `Duals`, `Intersections`, `KernelIntersection`, `HnfEquality`,
  `BallSampling`). A lattice means a set of rational 4-vectors; every algorithm is proved against that meaning.
* **Discrete logarithms** (`Dlog`), four bits at a time.
* **The action of quaternions on torsion** (`Quaternions`, `Deuring`, `Actions`, `KernelToIdeal`, `EvenResponse`), including the stored
  248-bit matrices of the first curve.
* **The response phase and the byte formats** (`Response`, `ResponseChain`, `TwosComplement`, `KeyCodec`, `SignatureCodec`, `Hints`).

## Readings of the source

* Where comments say that a remainder can be negative (`src/deuring/endomorphism.rs:271-273`, `src/keys/signing.rs:1228-1231`), the code
  disagrees: `vt_div_rem` (`src/quaternions/bigint/div.rs:40-65`) gives remainders in [0, |d|) for either sign, which is Dafny's `/` and
  `%`. The model follows the code; the corrections after it never act.
* `canonicalize` (`src/quaternions/lattice.rs:1404-1435`) is documented to bring the off-diagonal entries below their pivots. It indexes the
  matrix as if stored by columns and so visits only entries under the diagonal: a triangular matrix comes back unchanged
  (`Intersections.Canonicalize`). After the classical Hermite form there is nothing left to do: the constructor already reduces
  (`Intersections.ToHnf`).
* Two `HnfLattice` values are documented to be comparable directly for lattice equality (`src/quaternions/lattice.rs:1324-1326`). The
  constructors keep the sign of the denominator, and a dual's denominator is a determinant of either sign. For full-rank lattices the
  comparison is equality of lattices exactly when the denominators have the same sign (`HnfEquality.EqualityExact`); the integer lattice
  over 1 and over −1 compares unequal (`HnfEquality.SignComparesWrongly`). The constructor also accepts bases of lower rank, whose
  Hermite form need not be determined by the lattice: `HnfEquality.FindsAllIff` says exactly when it is, and
  `HnfEquality.DeficientComparesWrongly` gives two forms of one lattice.
* `contains` skips a row whose pivot is zero after looking at the target entry only. With non-zero pivots it decides membership. With zero
  pivots it can accept a non-member (`Membership.SkippedRowAccepts`); `Membership.SoundIff` says exactly when its answers are coordinate
  vectors, and `Membership.DecidesIff` exactly when it decides membership.
* `ChangeOfBasisMatrix::mul` (`src/curves/mod.rs:1078-1095`) hands its second column to the slot `PmQ`, as `from_propagated` takes
  (P, P − Q, Q). With that slot order two applications compose to the matrix product, and `Stands` is stated for it.
* The signer drops a response of remaining length one, as the chain needs two steps (`src/surfaces/mod.rs:654-656`); the verifier rejects
  that length whatever the kernel is. The emitted lengths are at least two (`ResponseChain.SplitAuxiliary`).
* The signer's branch for a remaining response length of zero (`src/keys/signing.rs:1175-1191`) is not reachable: the length is at least
  one (`Response.TryResponse`), and the backtracking length needs no separate bound.
* The signing-key parser accepts matrix entries of 2^248 and more and reduces them; printing then gives other bytes
  (`KeyCodec.KeyReprint` says exactly when).
* The two chain functions share one main loop in the model, with the step roles as a parameter.

## Model

| member | source | states |
|---|---|---|
| Biscalar.BiscalarMulOnBasis | src/curves/mod.rs:536-696 | x(mP + n(P − Q)) for all 256-bit m, n, every exponent from 1 to 248 and every basis of order 2^e, including even and zero scalars and the two-torsion lookup |
| Biscalar.BiscalarMul | src/curves/mod.rs:536-696 | the same for any two points killed by 2^e, dependent or not, whose four small combinations do not degenerate |
| Biscalar.Recode | src/curves/mod.rs:600-629 | each digit says whether a scalar's bit differs from the next one, and every second digit flips the roles of the scalars; scalars swapped and shifted in place |
| Biscalar.EvalStep | src/curves/mod.rs:655-687 | one doubling and two additions take the three running points and four stored differences of a pair of prefixes to those of the prefixes one bit longer; each addition gets plus or minus its true difference |
| Biscalar.Evaluate | src/curves/mod.rs:631-687 | after all digits the three points stand for the whole recoded scalars |
| Biscalar.Restored | src/curves/mod.rs:590-598 | lowering an even scalar with wrap-around and picking the even output coefficient agrees with the scalar modulo 2^k |
| Biscalar.TrueBasisFits | src/curves/mod.rs:550-565 | a basis of order 2^e with e at least two meets the ladder's demand on differences |
| Bytes.SubOne | src/curves/mod.rs:1103-1110 | in-place conditional decrement with the borrow run off the top |
| Bytes.DecrementValue | src/curves/mod.rs:1103-1110 | its value: minus one, wrapping at zero |
| Bytes.Shr1 | src/curves/mod.rs:1113-1121 | in-place halving that returns the dropped bit |
| Bytes.HalveValue | src/curves/mod.rs:1113-1121 | its value: the floor of half, and the parity read from the first byte |
| Bytes.SwapBytes | src/curves/mod.rs:1124-1130 | conditional exchange of two buffers, both contents |
| ThreePoint.ScalarMulAdd | src/curves/mod.rs:473-501 | x(P + m(P − Q)) for every scalar of four limbs |
| ThreePoint.LadderBit | src/curves/mod.rs:491-498 | increment, running point and their difference keep their relation over one bit, for either bit and either swap |
| ThreePoint.LineOfDifference | src/curves/mod.rs:473-501 | on a true basis (P, Q) of order 2^e, e at least two, no difference of a run on (P, P − Q) degenerates |
| XOnly.CurveLadder | src/curves/montgomery/point.rs:349-375 | doubling and differential addition in coordinates over two generators follow from the group laws |
| Modular.InvMod2k | src/curves/scalar/mod.rs:172-189 | Hensel lifting: no inverse exactly for even numbers, otherwise a reduced inverse modulo 2^k |
| ChangeOfBasis.FromBasesInvert | src/curves/mod.rs:1034-1065 | nothing exactly when the determinant is even, otherwise a two-sided inverse modulo 2^k |
| ChangeOfBasis.Multiply | src/curves/mod.rs:1078-1095 | three ladder runs give the transformed pair and their difference, so the triple stays coherent |
| ChangeOfBasis.ApplyScaledBasis | src/deuring/endomorphism.rs:110-134 | the same for a matrix times a scalar, with entries modulo 2^f and ladders at the full exponent |
| ChangeOfBasis.Compose | src/curves/mod.rs:1078-1095 | one matrix after another acts as the product |
| ChangeOfBasis.InverseRestores | src/curves/mod.rs:1034-1065 | a matrix and then its inverse give back the two points |
| ChangeOfBasis.RestoresIff | src/curves/mod.rs:1078-1095 | two matrices restore the three x-coordinates of a basis exactly when their product is plus or minus the identity |
| ChangeOfBasis.BasisUsable | src/curves/mod.rs:549-565 | a basis of order 2^e with e at least two can be handed to the ladder, so bases stay usable from one matrix to the next |
| ChangeOfBasis.KeepsBasis | src/curves/mod.rs:1078-1095 | an invertible matrix takes bases to bases |
| ThetaChain.Isogeny | src/surfaces/mod.rs:641-871 | None below length two; otherwise the result, passengers and kernels are those of the naive chain; of the steps after the gluing the last is the ultimate one, the one before it the penultimate one, all others interior; stack depth logarithmic in the length |
| ThetaChain.IsogenyNoExtraTorsion | src/surfaces/mod.rs:893-1076 | None below length four; otherwise interior steps only, and then the 4- and 2-isogeny on the fully pushed first point; the last step and kernel are always there |
| ThetaChain.NaiveTrace | src/surfaces/mod.rs:745-860 | the naive chain written out: the glued state, and for each step its role, its kernel as so many doublings of the pushed kernel, and the next pushed kernel, passengers and surface |
| ThetaChain.MainStep | src/surfaces/mod.rs:792-860 | one loop pass is one naive step: its kernel is the pushed kernel doubled all the way down, its role depends on the steps that remain, and the stack left behind is a stack for one step less |
| ThetaChain.PushedStack | src/surfaces/mod.rs:847-855 | pushing the upper levels and lowering their orders keeps every level a doubling of the pushed kernel |
| ThetaChain.DepthBound | src/surfaces/mod.rs:670-686 | the orders' excess over one halves from level to level |
| ThetaChain.ChainOrders | src/surfaces/mod.rs:574-583 | on a kernel of order 2^(n+2) all n steps get points of order exactly 8, and what is left has order exactly 4 |
| Dlog.NormalizedDlog | src/curves/pairing.rs:118-192 | below 2^e for every target, and the unique logarithm whenever the base has order 2^e and the target is a power of it, for every e up to 248 |
| Dlog.LogExists | src/curves/pairing.rs:98-118 | every power has a logarithm in range |
| Dlog.SquareN | src/curves/pairing.rs:44-50 | repeated squaring is the multiple by a power of two |
| Dlog.ScanMultiples | src/curves/pairing.rs:146-151 | the last matching table entry is the window digit |
| Limbs.SetBits | src/curves/pairing.rs:153-154 | or-ing a window into fresh bits of a limb adds its value to the scalar |
| Linear4.FastCofactors | src/quaternions/linear/matrix.rs:199-240 | the shared 2x2-minor computation gives cofactors and determinant |
| Linear4.AdjugateInverts | src/quaternions/linear/matrix.rs:167-187 | the adjugate inverts up to the determinant on both sides |
| Linear4.ProductRule | src/quaternions/linear/matrix.rs:101-136 | the determinant is multiplicative |
| Membership.Decompose | src/quaternions/lattice.rs:778-820 | Cramer's rule finds the coordinate vector exactly for the members |
| Membership.Contains | src/quaternions/lattice.rs:1451-1503 | back-substitution: exactly the accepted coordinates on every upper-triangular basis, which are the coordinates when no pivot is zero |
| Membership.SoundIff | src/quaternions/lattice.rs:1478-1487 | every answer is a coordinate vector exactly when the rows with a zero pivot vanish in the columns with a non-zero one |
| Membership.DecidesIff | src/quaternions/lattice.rs:1478-1487 | membership is decided for all elements exactly when the four basis columns pass, and then every answer is a coordinate vector |
| Membership.SkippedRowAccepts | src/quaternions/lattice.rs:1481-1486 | a Hermite form with a zero pivot and a non-member that is accepted |
| Membership.TestsAgree | src/quaternions/lattice.rs:778-820 | accepted coordinates and Cramer's coordinates are the same on every triangular basis and every denominator |
| Duals.DualExact | src/quaternions/lattice.rs:126-154 | the dual is exactly the vectors that pair integrally with the lattice |
| Duals.DualInvolution | src/quaternions/lattice.rs:134-154 | an element has the same coordinates in the double dual |
| Duals.ModulusIsRedundant | src/quaternions/lattice.rs:442-474 | the gcd of the two determinants times any vector is already in the span of the eight columns |
| Duals.DualSumDual | src/quaternions/lattice.rs:402-566 | the dual of the sum of the duals is exactly the intersection |
| HermiteForm.FromHnfColumns | src/quaternions/linear/matrix/hnf.rs:865-998 | for any list of at least four generators: an upper-triangular matrix with non-negative pivots, residues right of the positive ones, and the span of the generators; columns in that form come back unchanged |
| HermiteForm.ClearPivotRow | src/quaternions/linear/matrix/hnf.rs:882-939 | the gcd steps on a row keep the span and the rows already finished, and clear the row outside its pivot and later columns |
| HermiteForm.ReducePivotRow | src/quaternions/linear/matrix/hnf.rs:941-987 | making the pivot positive and reducing against it finishes the row and keeps the span |
| HermiteForm.FullRankReduced | src/quaternions/linear/matrix/hnf.rs:18-30 | all pivots are positive exactly at full rank |
| Intersections.ToHnf | src/quaternions/lattice.rs:118-123 | the same lattice over the same denominator, fully reduced exactly at full rank |
| Intersections.IntersectionViaDualSumDual | src/quaternions/lattice.rs:402-566 | the whole function: a primitive reduced basis of exactly the intersection, for any modular Hermite form that adds only multiples of its modulus |
| Intersections.IntersectionViaKernel | src/quaternions/lattice.rs:230-382 | the whole function: a Hermite form of exactly the intersection over the first denominator, fully reduced when both lattices have full rank |
| Intersections.ReduceDenom | src/quaternions/lattice.rs:1350-1375 | divides out exactly the common content, with early exit, leaving a primitive basis |
| Intersections.ContentIrrelevant | src/quaternions/lattice.rs:1342-1349 | dividing the content out changes no coordinates |
| Intersections.Canonicalize | src/quaternions/lattice.rs:1404-1435 | a triangular matrix is returned unchanged |
| HnfEquality.Equals | src/quaternions/lattice.rs:1567-1593 | entry-wise comparison over a common denominator |
| HnfEquality.FormUnique | src/quaternions/lattice.rs:1320-1326 | no other Hermite form has the span of one whose zero pivots come first, over zero columns |
| HnfEquality.ReducedUnique | src/quaternions/lattice.rs:1320-1326 | a column span of full rank has one Hermite form |
| HnfEquality.SameIsEqual | src/quaternions/lattice.rs:1325-1326 | equal lattices over denominators of one sign compare equal when the span determines its form |
| HnfEquality.EqualIsSame | src/quaternions/lattice.rs:1567-1593 | what compares equal is the same lattice, for all bases and denominators |
| HnfEquality.EqualityExact | src/quaternions/lattice.rs:1325-1326 | for forms determined by their span, full rank included: equal exactly for the same lattice over denominators of one sign (or the zero lattice) |
| HnfEquality.FindsAllIff | src/quaternions/lattice.rs:1325-1326 | no equality over one sign is missed exactly when the zero pivots come first, over zero columns |
| HnfEquality.AnotherForm | src/quaternions/lattice.rs:1306-1310 | every other Hermite form has a second one of the same span |
| HnfEquality.SignComparesWrongly | src/quaternions/lattice.rs:1567-1593 | the integer lattice over 1 and −1: one lattice, unequal |
| HnfEquality.DeficientComparesWrongly | src/quaternions/lattice.rs:1567-1593 | two Hermite forms of one lattice of rank one, unequal |
| HnfEquality.CompareAsHnf | src/quaternions/lattice.rs:1306-1310 | two arbitrary lattices converted and compared: never equal for different lattices, and for a full-rank one equal exactly for the same lattice over one sign |
| KernelIntersection.CommonGenerators | src/quaternions/lattice.rs:230-363 | four columns whose images over the first denominator generate exactly the intersection |
| KernelIntersection.EliminateRow | src/quaternions/lattice.rs:274-335 | clearing one row in place keeps the columns unimodular and adds one pivot to the echelon form |
| KernelIntersection.FourKernelColumns | src/quaternions/lattice.rs:337-349 | with four pivots exactly four columns have a zero top block |
| KernelIntersection.KernelImages | src/quaternions/lattice.rs:350-363 | their images span exactly the common vectors |
| Gcds.Xgcd | src/quaternions/bigint/gcd.rs:443-513 | a non-negative common divisor with its cofactors, for either signs and zero inputs |
| BallSampling.SampleFromBall | src/quaternions/lattice.rs:1032-1269 | the sample is the non-zero lattice element of norm at most the radius that the first successful attempt draws; giving up means that no attempt drew one; an all-zero box means that there is none |
| BallSampling.DrawFromBox | src/quaternions/lattice.rs:1198-1206 | each coordinate is a draw from [0, 2b] less b, and zero without a draw for a zero bound |
| BallSampling.BoxPointDrawn | src/quaternions/lattice.rs:1183-1206 | every point of the box is drawn by some source |
| BallSampling.BallIsNorm | src/quaternions/lattice.rs:1040-1046 | the ball is the one of the reduced norm |
| BallSampling.BoundingBox | src/quaternions/lattice.rs:1128-1144 | the box covers every integer vector inside the ball, and each bound is the floor of the root of the floored quotient |
| BallSampling.CauchySchwarz | src/quaternions/lattice.rs:1040-1046 | the integer inequality behind the box: det(G)(u.x)^2 is at most (u adj(G) u)(x G x) |
| BallSampling.BallIsReachable | src/quaternions/lattice.rs:1156-1213 | every ball vector comes from a point of the box |
| BallSampling.GramPositive | src/quaternions/lattice/nrd_basis.rs:57-82 | the Gram matrix of a full-rank basis is positive definite |
| BallSampling.SqrtFloor | src/quaternions/bigint/sqrt.rs:15-46 | the bitwise root is the floor of the square root |
| Quaternions.OrderMulIsProduct | src/quaternions/algebra/mod.rs:723-756 | multiplication of order coordinates is quaternion multiplication |
| Quaternions.NormOfCoordinates | src/quaternions/algebra/mod.rs:692-704 | the reduced norm of an order element is the integer norm form of its coordinates |
| Deuring.Curve0Acts | src/deuring/precomputed.rs:717-876 | the stored matrices satisfy the order's multiplication table and traces modulo 2^248 |
| Deuring.StoredJ | src/deuring/precomputed.rs:719-876 | the row for j is twice that of (i+j)/2 minus that of i |
| Deuring.StoredK | src/deuring/precomputed.rs:719-876 | the row for k is twice that of (1+k)/2 minus the identity |
| Deuring.RhoMul | src/deuring/endomorphism.rs:1-12 | the matrix of a product of order elements is the product of matrices modulo 2^248 |
| Deuring.RhoConj | src/deuring/mod.rs:399-403 | the matrix of the conjugate is the adjugate |
| Deuring.RhoDet | src/deuring/mod.rs:399-403 | the determinant is the reduced norm |
| Actions.Apply | src/deuring/endomorphism.rs:231-312 | nothing exactly outside the order, otherwise the reduced matrix of the element |
| Actions.ActionUnique | src/deuring/endomorphism.rs:231-312 | there is only one such matrix |
| Actions.ActionOfProduct | src/deuring/endomorphism.rs:147-168 | the matrix product modulo 2^f is the matrix of the product of elements, for every f up to 248 |
| Actions.ActionOfConjugate | src/deuring/endomorphism.rs:136-144 | the adjugate modulo 2^f is the matrix of the conjugate |
| Actions.ActionDeterminant | src/deuring/mod.rs:399-403 | the determinant of the computed matrix is the reduced norm modulo 2^f |
| Actions.TotalDeterminant | src/deuring/mod.rs:795-822 | with nrd(β₁) = d₁·nrd(I), the chain's degree d₁u² and the scaled matrix multiply to nrd(I) |
| Actions.OuterKernelIsotropic | src/deuring/mod.rs:470-527 | with u·d₁ + v·d₂ = 2^e the degrees of the two kernel components cancel modulo 2^e, with the connecting norms of both curves in norms, pairings and the scale's denominator |
| KernelToIdeal.KernelQuaternion | src/curves/mod.rs:400-444 | nothing exactly when the determinant is even, otherwise an order element whose matrix kills the point modulo 2^f, in spite of the 256-bit wrap-around of all products |
| KernelToIdeal.Curve0Rows | src/deuring/precomputed.rs:717-876 | the first curve's rows meet what the conversion asks of them |
| KernelToIdeal.FullWidth | src/quaternions/bigint/mul.rs:144-156 | 2^256 is wide enough for every f up to 248 |
| KernelToIdeal.WrapCong | src/quaternions/bigint/mul.rs:144-156 | dropping the magnitude bits above the width changes nothing modulo 2^f |
| KernelToIdeal.InvertMod | src/quaternions/bigint/gcd.rs:410-418 | an inverse whenever there is one |
| KernelToIdeal.EvalMod | src/deuring/endomorphism.rs:80-90 | matrix times signed vector modulo 2^f |
| EvenResponse.ReduceResponse | src/keys/signing.rs:1219-1255 | coordinates in [0, 2^r) in the response's class modulo 2^r times the order |
| EvenResponse.ReducedGeneratesSame | src/keys/signing.rs:1192-1218 | the reduced response generates the same left ideal together with 2^r |
| EvenResponse.ReducedActsSame | src/keys/signing.rs:1192-1218 | and acts by the same matrix modulo 2^r |
| EvenResponse.IdealIsAnnihilator | src/curves/mod.rs:400-444 | with an odd determinant the left ideal of the kernel quaternion and 2^f consists of exactly the order elements that kill the point |
| EvenResponse.IdealKills | src/curves/mod.rs:443 | every member of the ideal of any killing quaternion and 2^f kills the point |
| Response.TryResponse | src/keys/signing.rs:885-977 | a result exactly when both divisions are exact, said of the sample's coordinates; it is the sample with its whole content taken out, and n is the content's two-adic valuation; then r + n at most 125, odd q below 2^e', positive odd auxiliary norm, and degree 2^r·q over the content |
| Response.ComputeBacktracking | src/quaternions/algebra/mod.rs:516-582 | divides the element's whole content out; n is its two-adic valuation |
| Response.DegreeBound | src/keys/signing.rs:952-977 | exact divisibility bounds 2^n·d by the response bound for every n |
| Response.VerifyCounts | src/keys/verifying.rs:103-200 | rejected exactly beyond the response length; otherwise every doubling count is non-negative and the matrix exponent is 128 − n |
| ResponseChain.SplitAuxiliary | src/keys/signing/response/split_aux.rs:111-290 | nothing when the kernel cannot be lifted or the remaining length is one, otherwise the naive chain's result; so emitted lengths are at least two |
| ResponseChain.VerifyChain | src/keys/verifying.rs:212-296 | without a chain exactly when the remaining length is zero and the points are a basis of the 4-torsion, rejection at length one and beyond the response length, otherwise the naive chain's result for a lifted and isotropic kernel |
| ResponseChain.SpansFourTorsion | src/keys/verifying.rs:232-243 | the doubling test passes exactly for bases of the 4-torsion |
| TwosComplement.AppendSigned | src/keys/signing.rs:461-481 | magnitude bytes negated in place |
| TwosComplement.SignedRoundTrip | src/quaternions/bigint/encoding.rs:35-63 | a number survives printing and parsing exactly when it lies in the two's complement range |
| TwosComplement.SignedResidue | src/keys/signing.rs:461-481 | for every number, in range or not, the bytes are those of its residue modulo 2^(8·len) |
| TwosComplement.SignedReprint | src/quaternions/bigint/encoding.rs:35-63 | every byte string is printed back |
| KeyCodec.ToBytes | src/keys/signing.rs:440-509 | the buffer filled field by field: public key, then little-endian blocks of 32 bytes for the norm, the four coordinates modulo 2^256, and the rows of T times the secret matrix modulo 2^248 |
| KeyCodec.ExchangeIsProduct | src/keys/signing.rs:484-499 | the slot exchange multiplies by T = [[1, 1], [0, −1]] from the left modulo 2^f |
| KeyCodec.ParsedKey | src/keys/signing.rs:355-424 | which bytes parse, which error the others give, and what each field of the key is in terms of its bytes |
| KeyCodec.ExchangeTwice | src/keys/signing.rs:484-499 | the slot exchange T is its own inverse modulo 2^f |
| KeyCodec.KeyRoundTrip | src/keys/signing.rs:355-509 | norm, key and matrix always come back, the whole key exactly when the generator's coordinates fit two's complement |
| KeyCodec.KeyReprint | src/keys/signing.rs:355-509 | parse and print restores the bytes exactly when the four entries are below 2^248 |
| SignatureCodec.ToBytes | src/keys/mod.rs:298-328 | the buffer filled field by field: curve, two lengths, the matrix entries row by row and the challenge in little-endian blocks of 16 bytes, two hints |
| SignatureCodec.ParsedSignature | src/keys/mod.rs:239-296 | which bytes parse, when the curve is to blame, and what each field of the signature is in terms of its bytes |
| SignatureCodec.SignatureRoundTrip | src/keys/mod.rs:239-328 | print and parse restores a signature exactly when its curve is canonical and non-singular, its lengths and entries within bounds and its challenge short |
| SignatureCodec.SignatureReprint | src/keys/mod.rs:239-328 | parse and print restores the bytes exactly when the coefficient was encoded canonically |
| SignatureCodec.SignerOutputParses | src/keys/mod.rs:259-271 | the signer's bounds are what the parser and the verifier's first check demand |
| Hints.OnCurveMeans | src/curves/mod.rs:1132-1137 | the test says whether x³ + Ax² + x has a square root |
| Hints.CandidateMeans | src/curves/mod.rs:1157-1209 | the candidates are n·A, and the x with x·(1 + i·n) = −A |
| Hints.ToHint | src/curves/mod.rs:840-893 | special curve; otherwise the first candidate x with y² = x³ + Ax² + x solvable and x no square, its partner x' with x + x' + A = 0, and the byte made of index and residuosity of A; nothing exactly when no candidate up to 1024 is such |
| Hints.FromHint | src/curves/mod.rs:709-824 | the candidate with the byte's index, or for index zero the first such candidate from 128 on, with its partner |
| Hints.FindNaXWithHint | src/curves/mod.rs:1171-1181 | repeated addition meets the first valid multiple |
| Hints.FindNqrFactor | src/curves/mod.rs:1186-1196 | the first valid quotient from the start on |
| Hints.HintRoundTrip | src/curves/mod.rs:709-893 | the hint made for a curve leads back to the same basis, also when the first hit is 128 or more |
| Hints.ToHintFailsIff | src/curves/mod.rs:1140-1151 | no hint exactly when none of the first 1024 candidates is valid |

## Left out

- Field arithmetic in F_p and F_p², point formulas (Montgomery, Jacobian, theta), gluing and splitting, pairings and y-recovery: abstract groups, maps and predicates stand for them.
- Projective representatives and byte-for-byte agreement with other implementations: points are compared as group elements or x-coordinates.
- Biscalar.BiscalarMul: exponent zero and points with a degenerate small combination are outside it; on a true basis `Biscalar.BiscalarMulOnBasis` has neither demand from exponent one on.
- Degenerate differences: the ladders are proved where no difference is the identity or the point with x = 0, which for exponents of two and more every true basis guarantees; exponent zero is outside that.
- Timing: constant-time selections and swaps are plain conditionals.
- Big-integer widths, widening and narrowing: unbounded integers, except the 256-bit wrap-around in `KernelToIdeal`. The source reports that the kernel intersection diverges at its working width; the theorem here is over the integers.
- Intersections.IntersectionViaDualSumDual: the modular Hermite form is a parameter with a contract (it adds only multiples of its modulus); its internals, and the other lattice operations that use one, are not modelled. The classical one is `HermiteForm.FromHnfColumns`.
- BallSampling.SampleFromBall: lattice reduction is a parameter that returns a unimodular matrix and the transformed form; randomness is a parameter; the source's two failures, the empty ball and the end of the attempts, are told apart.
- ThetaChain.ChainOrders: assumes that an isogeny computed from two points of order 8 kills four times each of them and otherwise only points of order two.
- Actions.TotalDeterminant: the norm relation nrd(β₁) = d₁·nrd(I) and the chain's degree are assumptions, as they come from the ideal search and from pairings; connecting norms are not part of it.
- Actions.OuterKernelIsotropic: that the norms and the pairings of the bases carry the connecting norms of their curves is an assumption.
- ResponseChain.VerifyChain: the point bookkeeping before the chain and the challenge comparison after it are not part of it; the lifted kernel and the isotropy check are arguments.
- ResponseChain.SplitAuxiliary: how the kernel's points are scaled and lifted is not part of it; the lifted kernel is an argument.
- Response.TryResponse: takes the sampled quaternion as a non-zero element of the standard order inside the ball; that the intersection lattice lies in the order is not derived.
- The ideal built from generator and norm, its smallest generators and equivalent ideals: only membership in a left ideal by its two generators is modelled.
- Lattice products and multiplication by an algebra element: their moduli are heuristics that may coarsen the lattice.
- `from_bases` itself (discrete logarithms of pairings) and `cross_pairings`: the forward matrix is an argument of the inversion.
- The other six curves' matrices and orders: the representation theorem is parametric in the generators, but only the first curve's constants are checked.
- The signing loop around one response, hashing, random generation, and the other byte formats' field decoding: opaque or absent.
