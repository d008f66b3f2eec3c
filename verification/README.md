# Verification model of the proof engine's host-side verifier mathematics

The engine proves statements about quantum circuits with Circle STARKs over Mersenne-31 and composes the proofs into
trees. This project models the part of `wqc-stark-core` that the host computes itself, around the external prover, and
proves what that part is for. `dafny verify dfyconfig.toml` checks all of it.

| modules, one file each | what they model |
|---|---|
| M31, Ef3, PowersOfTwo, Circle, Primality, Fermat, Ef3Field | Mersenne-31 as canonical integers, the extension X^3 - 5 as triples, the circle group and its towers of generators; 2^31 - 1 is proved prime and the extension a field |
| Ordering, FoldGeometry, Multilinears, FoldRows | index permutation, bit reversal, twiddles, the two row folds, folding of whole layers |
| FoldWalk, FoldRefinement, CommitPhase, CommittedLayers, HonestFri | the query walk in the three places that have it, its refinement of whole-layer folding, and the walk against committed layers |
| FriFoldBind, BundlePositions, WrongTwiddle, EfLimbs, FriFoldGroup | fold bundles, their binding to a proof, a proof whose bundle can go wrong, limb arithmetic, the packed group circuit and the native checks |
| ReducedOpenings, QueryOpenings, DeepNative, DeepDomain, DeepMeaning, DeepLeafAir, DeepLeafOutput, DeepLeafLayout | the alpha accumulator by height and what it adds up, the native DEEP quotient, where it exists and what it means, the variable-width DEEP circuit, what it leaves free, and its public vector |
| MerkleBatch, MerkleOpenings, RecordedOpenings, MerklePath | openings of many matrices of different heights: the tree, one prover, two verifiers and what they compare, the single-matrix path |
| Complex, Overlap, OverlapParts | the matrix-product overlap of two states, and the same over real and imaginary parts |
| BornAir, BornTrace, BornIntegers, ShotSampling, ShotSamplingAir | the streaming Born circuit with its trace builder, both also over the integers, and the sampling circuit with its witness search |
| Bytes, ComposeV3, ProofTree | byte readers, the compose transcript, the audit walk over a tree of transcripts |
| AuxTails, ListCodec, Trajectory, TranscriptBytes | stripping of auxiliary tails, the trajectory segment codec, and transcripts written out byte by byte |

Loops of the source are methods with invariants, proved against functions; the theorems are about those functions.
Source paths below are relative to the repository.

## What the main theorems say

* **Low-degree codewords fold to one constant, and every query sees it.** The permutation, bit reversal, twiddles and the
  map x to 2x^2 - 1 fit together: an x fold of a codeword is the codeword of the folded coefficients on the doubled
  domain. With codewords injected at any heights, the last layer is constant, and the local walk of each query, fed with
  siblings from the whole layers, accepts exactly when its end equals the final polynomial and every reduced opening was
  read. No hypothesis on the twiddles is needed: each is shown invertible.
* **What is accepted against committed layers is honest.** With Merkle roots over the pairs of the whole layers, a walk is
  accepted exactly when its siblings are those of the layers and its end is right, or a collision is at hand.
* **Contraction is the inner product.** Site-by-site contraction with its zero skips returns the sum over all 2^n
  bitstrings, part by part the two real sums; of a state with itself it is the squared norm. Two of its error exits are
  unreachable.
* **The DEEP quotient batches what it should**: for every column the real and imaginary part of the division by v_zeta, on
  the openings a query visits, chunk by chunk.
* **Circuits mean what the native code computes**, in both directions, for whole traces or whole public vectors, and with
  no primality assumption, since the modulus is proved prime.
* **An opening accepted by either verifier binds every row that is hashed in**, or shows a collision of the leaf hash or
  of compress, and every honest opening is accepted by both.
* **A DEEP opening is refused exactly at zeta's own point.** The extension is a field, so no other denominator vanishes.
* **Acceptance of a tree is the local checks everywhere in it**, and bottom-up composing gets through and is accepted
  exactly when the tree is sound.
* **Codecs** are exact: the decoder returns a value if and only if that value is encodable and its encoding is there.

## Where a property fails, and exactly when it holds

* A Born trace need not start with an active row. `BornAir.Soundness` needs it; `BornAir.PadStart` and `BornAir.AllPad`
  give the exact condition otherwise, and `BornAir.PadRowsClaimAnything` and `BornAir.PadStartClaimsMore` are four-row
  traces whose claims nothing adds up to. The builder's traces do start active (`BornTrace.Completeness`).
* The host check of a built row does not show that its selectors are bits: it is zero exactly when their squares add up to
  one (`BornTrace.LocalCheckIff`), and a selector of -1 passes (`BornTrace.NegativeSelectorPasses`).
* The sampling circuit does not range-check p0, p1 and u. `ShotSamplingAir.DecidesIff` says for which of them it forces
  the integer decision: exactly when the gap of the wrong outcome, modulo P, does not fit 20 bits. On the grid it always
  does, `ShotSamplingAir.OffGridWraps` is a case where it does not, `ShotSamplingAir.OffGridMayDecide` one off the grid
  where it does.
* The comment at `plonky3_stark/shot_sampling_air.rs:29` says that the row sum is zero if and only if the constraints
  hold. Terms can cancel (`ShotSamplingAir.TermsCancel`). For an active row of bits it is so exactly when the bits spell
  the gap column or miss the gap that the outcome calls for (`ShotSamplingAir.SumDecidesIff`), for a pad row always
  (`ShotSamplingAir.PadRowSums`). On the grid a zero sum forces the decision all the same
  (`ShotSamplingAir.ZeroSumDecides`): only the gap column can be wrong.
* The witness search does not always find a witness for a true outcome. `ShotSampling.FailsIffCoarse` says for which
  quantized masses it can fail, `ShotSampling.CoarseMisses` gives the failing masses and sample. From a total of 143 grid
  steps on it fails exactly when the outcome is 0 and p0 quantizes to 0 (`ShotSampling.SearchFollowsDecision`), and at 142
  it can fail otherwise (`ShotSampling.LittleMass`). The comment at `air/shot_sampling.rs:112-113` speaks of moving u by
  one step; the code moves it by up to four, and the model follows the code.
* In a batch opening, a matrix whose height is neither a power of two nor rounds up to the tallest is never hashed in
  (`MerkleBatch.AbsorbedExactlyOnce`), and its row is free (`MerkleBatch.UnabsorbedOpens`, `MerkleBatch.HeightThreeIsFree`);
  every other row is bound (`MerkleBatch.OpeningsBind`). Neither batch verifier compares widths, so that rows of one height
  can shift into each other in proofs that both accept (`MerkleOpenings.WidthsShift`): equal widths are exactly the
  condition.
* Stripping recovers the base exactly when an even number of markers is chained onto the tail's own marker
  (`AuxTails.StripRecoversBase`); a length field other than the bytes of M31_ is enough (`AuxTails.NoChain`).
* A version 1 segment loses its version 2 fields (`Trajectory.V1KeepsView`). The tail writer chooses version 1 whenever
  witnesses and unitary link are empty, even if the qubit count or a measurement digest is not; `Trajectory.AppendedKeeps`
  says exactly which segments survive.
* Composing does not make sure that its result is accepted. With children verified and fields the codec can carry it is
  accepted exactly when the parent id is free of the compose marker, the tail is clean, the aggregation proof verifies and
  a root check fits (`ProofTree.ComposedIsAccepted`). With the marker as parent id composing succeeds and every verifier
  rejects the result (`ProofTree.MarkerAsParent`).
* Nodes below a unitary+aux compose carry that compose's parent id, not the root's (`ProofTree.ParentBelowAux`);
  `ProofTree.InnerIdDiffers` is an accepted tree with such a node. Elsewhere they carry the root's
  (`ProofTree.NodesCarryRootParent`).
* The DEEP circuit determines its output exactly when zeta's point is not the base point and neither is the next point
  unless alpha is zero (`DeepLeafOutput.OutputForcedIff`, `DeepLeafOutput.DefinedOnCircle`). At the base point numerator and
  denominator are both zero and every output satisfies it (`DeepLeafOutput.EveryOutputPasses`); the host refuses exactly
  such a zeta (`DeepDomain.QuotientExistsIff`).
* Binding a fold bundle does not compare inverse twiddles. A bound step satisfies the circuit exactly when it carries the
  domain's or beta (v0 - v1) is zero (`FriFoldBind.BoundStepFoldsIff`); with the native split the bundle is the builder's
  exactly when those vanishing steps carry their own (`FriFoldBind.BoundNativeIsBuilt`), and
  `WrongTwiddle.WrongTwiddlePasses` is one, for two queries of the zero polynomial's proof, whose step does not.

## Model

| member | source | states |
|---|---|---|
| Circle.PAddAssoc | wqc-stark-core/src/plonky3_stark/recursion/fri_fold_native.rs:31-36 | addition of circle points is associative, for all pairs of coordinates |
| Circle.OnCircleAdd | wqc-stark-core/src/plonky3_stark/recursion/fri_fold_native.rs:31-36 | the sum of two points of the unit circle is on the circle |
| Circle.CircleIffInverse | wqc-stark-core/src/plonky3_stark/recursion/fri_fold_native.rs:31-36 | a point is on the circle exactly when its conjugate is its inverse |
| Circle.MulUsize | wqc-stark-core/src/plonky3_stark/recursion/fri_fold_native.rs:38-52 | double-and-add returns the n-fold sum of the point, for every n |
| Circle.TimesTimes | wqc-stark-core/src/plonky3_stark/recursion/fri_fold_native.rs:38-52 | multiplying by m and then by n multiplies by m n |
| Circle.GeneratorOrder | wqc-stark-core/src/plonky3_stark/recursion/fri_fold_native.rs:23-29 | the k-th generator of the tower has order 2^k: 2^k of it give the identity and 2^(k-1) the half turn |
| Circle.StandardTowerValid | wqc-stark-core/src/plonky3_stark/recursion/fri_fold_native.rs:23-29 | the doublings of the standard point of order 2^31 form such a tower, down to the half turn and the identity |
| Ordering.CfftBijection | wqc-stark-core/src/plonky3_stark/recursion/fri_fold_native.rs:140-150 | the CFFT index permutation is a bijection of [0, 2^n), with its inverse written out |
| Ordering.CfftPairSlots | wqc-stark-core/src/plonky3_stark/recursion/fri_fold_native.rs:140-150 | slots 2i and 2i+1 are sent to 2 rev(i) and 2 (2^m - 1 - rev(i)) + 1 |
| Ordering.RevInvolution | wqc-stark-core/src/plonky3_stark/recursion/fri_fold_native.rs:56-65 | bit reversal of n bits is its own inverse |
| FoldGeometry.CfftSlotsConjugate | wqc-stark-core/src/plonky3_stark/recursion/fri_fold_native.rs:140-166 | slots 2i and 2i+1 of a layer are a point and its conjugate, so their y is negated and their x is shared |
| FoldGeometry.FoldXGeometry | wqc-stark-core/src/plonky3_stark/recursion/fri_fold_native.rs:56-65 | the two slots of an x fold hold x and -x, the twiddle is slot 0, and the folded index lands on the doubled point of the next layer, x going to 2x^2-1 |
| FoldGeometry.FoldYGeometry | wqc-stark-core/src/plonky3_stark/recursion/fri_fold_native.rs:83-88 | the twiddle point of a y fold is the point of slot 0 |
| FoldGeometry.FoldXTwiddleInverts | wqc-stark-core/src/plonky3_stark/recursion/fri_fold_native.rs:56-65 | every x twiddle in range is invertible and the function returns its inverse, so the source never inverts zero |
| FoldGeometry.FoldYTwiddleInverts | wqc-stark-core/src/plonky3_stark/recursion/fri_fold_native.rs:83-88 | every y twiddle in range is invertible and the function returns its inverse |
| FoldGeometry.PointVn | wqc-stark-core/src/plonky3_stark/recursion/fri_fold_native.rs:169-175 | the loop applies x to 2x^2-1 exactly log_n - 1 times |
| FoldGeometry.PointVnIsMultiple | wqc-stark-core/src/plonky3_stark/recursion/fri_fold_native.rs:169-175 | doing so n times gives the x-coordinate of 2^n times the point |
| FoldRows.FoldXLayerOfCodeword | wqc-stark-core/src/plonky3_stark/recursion/fri_fold_native.rs:68-80 | folding a whole layer in x takes the codeword of 2^(n+1) coefficients to the codeword of the coefficients folded by beta, on the next domain |
| FoldRows.FoldYLayerOfCodeword | wqc-stark-core/src/plonky3_stark/recursion/fri_fold_native.rs:91-103 | folding in y takes a bivariate circle codeword to a codeword in x alone, with the coefficients folded by beta |
| Multilinears.MultilinearFold | wqc-stark-core/src/plonky3_stark/recursion/fri_fold_native.rs:68-80 | folding coefficients by the first challenge keeps the multilinear value at all challenges |
| FoldRefinement.CodewordFoldsToConstant | wqc-stark-core/src/plonky3_stark/recursion/fri_fold_bind.rs:303-349 | R rounds of x folding take the evaluations of the 2^R coefficients to their multilinear value at the challenges, the same at every index |
| FoldRefinement.CircleCodewordFoldsToConstant | wqc-stark-core/src/plonky3_stark/recursion/fri_fold_bind.rs:303-349 | the same from the circle domain: one y fold and R x folds |
| FoldRefinement.LowDegreeReachesFinalPoly | wqc-stark-core/src/plonky3_stark/recursion/fri_fold_bind.rs:303-349 | with low-degree codewords injected at any heights above the blowup, the last layer is constant and equals the sum of their multilinear values at the challenges left when each joins |
| FoldWalk.ExtractQueryFoldChainForward | wqc-stark-core/src/plonky3_stark/recursion/fri_fold_bind.rs:270-354 | the loop over index, height, folded value and reduced-opening cursor returns exactly the result of the state walk, each error included and in order |
| FoldWalk.VerifyCommitPhaseMmcs | wqc-stark-core/src/plonky3_stark/recursion/fri_mmcs.rs:150-243 | the second copy accepts exactly when the first does (with four rounds allowed), the commitment count fits and every round's pair, slot 0 first, opens at the folded index |
| CommitPhase.AcceptedIffHonest | wqc-stark-core/src/plonky3_stark/recursion/fri_mmcs.rs:150-243 | with commitments that open exactly the pairs of slots 2j and 2j+1 of the whole layers, the walk is accepted and all its rounds open exactly when there are at most four rounds, every sibling is the slot of its layer beside the query, the last layer holds the final polynomial there and nothing was injected at or below the final height |
| CommitPhase.CheckCommittedQuery | wqc-stark-core/src/plonky3_stark/recursion/fri_mmcs.rs:150-243 | so the check, run on such commitments, accepts exactly the honest openings |
| CommittedLayers.AcceptedIsHonest | wqc-stark-core/src/plonky3_stark/recursion/fri_mmcs.rs:150-243 | with Merkle roots over the flattened pairs of the layers, whatever openings and paths are accepted are honest, or a collision of the hash is at hand |
| CommittedLayers.HonestIsAccepted | wqc-stark-core/src/plonky3_stark/recursion/fri_mmcs.rs:150-243 | and honest openings with the paths of those trees are accepted |
| CommittedLayers.RowDetermined | wqc-stark-core/src/plonky3_stark/recursion/merkle_keccak.rs:58-74 | under a hasher that gives no digest twice, root and index determine the opened row |
| FoldWalk.CommitPhaseBundle | wqc-stark-core/src/plonky3_stark/recursion/fri_mmcs_bind.rs:956-998 | the third copy emits, round by round, the folded indices of that same walk and the paths of its pairs, failing only when a path does; betas past the openings stay unread |
| CommittedLayers.HonestBundle | wqc-stark-core/src/plonky3_stark/recursion/fri_mmcs_bind.rs:956-998 | on an honest query it asks, in each round, for the path of the six limbs of slots 2j and 2j+1 of the whole layer at the shifted index j, and returns those indices and paths |
| FoldRefinement.WalkReadsLayers | wqc-stark-core/src/plonky3_stark/recursion/fri_fold_bind.rs:303-341 | with siblings read from the whole layers G_r = Fold(G_(r-1)) + RO, the witness of round r is the pair of G_r at slots 2i and 2i+1, i the shifted query |
| FoldRefinement.WalkEndsOnLastLayer | wqc-stark-core/src/plonky3_stark/recursion/fri_fold_bind.rs:303-349 | the walk ends holding the last layer's value at the shifted query, with exactly the reduced openings at or below that height unread |
| FoldRefinement.HonestWalkAccepts | wqc-stark-core/src/plonky3_stark/recursion/fri_fold_bind.rs:303-354 | the walk of an honest query accepts exactly when the last layer at its index is the final polynomial and nothing was injected at or below the blowup |
| FoldRefinement.HonestWalkShowsPair | wqc-stark-core/src/plonky3_stark/recursion/fri_fold_bind.rs:303-354 | an accepted honest query returns one pair of every whole layer |
| FoldRefinement.TooHighNeverAbsorbed | wqc-stark-core/src/plonky3_stark/recursion/fri_fold_bind.rs:308-314 | a reduced opening above the current height is never consumed, nor any behind it |
| HonestFri.HonestQueryAccepted | wqc-stark-core/src/plonky3_stark/recursion/fri_fold_bind.rs:270-354 | if what was injected is low-degree and the final polynomial is its folded value, every query of every index is accepted |
| HonestFri.HonestProofAccepted | wqc-stark-core/src/plonky3_stark/recursion/fri_fold_bind.rs:85-121 | both passes of a query together: on low-degree circle layers with honest siblings, the list the reconstruction returns makes the walk accept, at every query index and with one final value |
| FriFoldBind.FriFoldBundleFromProof | wqc-stark-core/src/plonky3_stark/recursion/fri_fold_bind.rs:63-126 | the builder succeeds exactly when query count, per-query counts and heights are within bounds; its y and x steps are those of all queries in order |
| FriFoldBind.BindFriFoldBundle | wqc-stark-core/src/plonky3_stark/recursion/fri_fold_bind.rs:143-219 | binding accepts exactly when the two step lists are, entry by entry, the folds of every query's chain, with none left over |
| FriFoldBind.QueryInDomain | wqc-stark-core/src/plonky3_stark/recursion/fri_fold_bind.rs:63-126 | what reconstruction and walk of a query contribute lies in the domain of its height, so builder and binding are only ever asked about points they can fold |
| FriFoldBind.BuiltBundleBinds | wqc-stark-core/src/plonky3_stark/recursion/fri_fold_bind.rs:63-219 | what the builder returns is bound, and every step of it is a correct fold |
| BundlePositions.BoundIff | wqc-stark-core/src/plonky3_stark/recursion/fri_fold_bind.rs:143-219 | binding accepts exactly the bundles of 1 to 40 queries, none failed, whose y steps and x steps are as many as the witnesses and in which the i-th step of query q, behind those of the queries before it, publishes the i-th witness of q and its fold of that kind |
| BundlePositions.BuiltIff | wqc-stark-core/src/plonky3_stark/recursion/fri_fold_bind.rs:63-126 | and the builder returns exactly the one with at most four y steps a query, heights 1 to 16 and the inverse twiddle of the domain in every step |
| BundlePositions.YStepFeedsWalk | wqc-stark-core/src/plonky3_stark/recursion/fri_ro.rs:200-240 | what a bound y step publishes as its fold is the reduced opening that the walk takes in at that height |
| FriFoldBind.BoundStepFoldsIff | wqc-stark-core/src/plonky3_stark/recursion/fri_fold_bind.rs:235-267 | a bound step, whose inverse twiddle binding does not compare, satisfies the circuit exactly when it carries the domain's inverse twiddle or beta (v0 - v1) is zero |
| FriFoldBind.BoundNativeIsBuilt | wqc-stark-core/src/plonky3_stark/recursion/fri_fold_group.rs:196-205 | a bound bundle that also passes the native split is the builder's exactly when its steps with vanishing beta (v0 - v1) carry the twiddle of their own kind; the other steps always do |
| FriFoldBind.BuiltSplits | wqc-stark-core/src/plonky3_stark/recursion/fri_fold_group.rs:196-205 | the builder's bundle splits at its own seam into y steps and x steps, each passing its native check |
| WrongTwiddle.ZeroVisited | wqc-stark-core/src/plonky3_stark/recursion/fri_ro.rs:55-199 | a query at index 0 of a zero trace and a zero quotient chunk has its three openings, all zero, for every zeta and successor outside the base field |
| WrongTwiddle.WrongTwiddlePasses | wqc-stark-core/src/plonky3_stark/recursion/fri_fold_group.rs:196-214 | on every tower and for all such challenges, two queries at index 0 of the zero polynomial, as reconstruction and a one-round walk give them, have a bundle that is bound and passes the native split and is not the builder's: its first x step carries the y twiddle |
| FriFoldBind.TwiddlesDiffer | wqc-stark-core/src/plonky3_stark/recursion/fri_fold_native.rs:56-88 | the x and y twiddle inverses of the pair at index 0 and height 1 differ on every tower |
| ReducedOpenings.Accumulate | wqc-stark-core/src/plonky3_stark/recursion/fri_ro.rs:129-139 | one call adds alpha-offset times the quotient at its height and multiplies the offset by alpha^(2 width), other heights unchanged |
| ReducedOpenings.AlphaOffsetIsPower | wqc-stark-core/src/plonky3_stark/recursion/fri_ro.rs:129-139 | the offset at a height is alpha to twice the total width visited there |
| ReducedOpenings.AccumulateOpenings | wqc-stark-core/src/plonky3_stark/recursion/fri_ro.rs:141-199 | after all openings the map holds, for each height that occurs, the sum over its openings in visiting order; it fails exactly when an opening does, with that error |
| QueryOpenings.OpeningsVisited | wqc-stark-core/src/plonky3_stark/recursion/fri_ro.rs:55-199 | the openings visited are the trace at zeta, the trace at the next point and then every quotient chunk at zeta, chunk i at height quotLogSizes[i] + blowup, with its own width and the DEEP quotient of its row against its own values at zeta; visiting succeeds exactly when all shapes fit and all those quotients exist |
| QueryOpenings.ShapeErrors | wqc-stark-core/src/plonky3_stark/recursion/fri_ro.rs:55-165 | with shapes that do not fit each error says which check failed |
| QueryOpenings.QuotientErrors | wqc-stark-core/src/plonky3_stark/recursion/fri_ro.rs:155-196 | with fitting shapes a missing trace quotient is degenerate, and otherwise the first chunk that does not open gives a width mismatch or a degenerate quotient |
| QueryOpenings.HeightSum | wqc-stark-core/src/plonky3_stark/recursion/fri_ro.rs:129-199 | the sum at any height is local + alpha^{2w} next, if the trace sits there, plus the quotient of every chunk there times alpha to twice the width visited before it |
| QueryOpenings.ChunkAloneIsQuotient | wqc-stark-core/src/plonky3_stark/recursion/fri_ro.rs:181-199 | where one chunk sits alone the sum is its DEEP quotient |
| ReducedOpenings.ReconstructQueryRo | wqc-stark-core/src/plonky3_stark/recursion/fri_ro.rs:55-240 | the output has, for each height, the lambda-corrected sum placed in the query's slot and folded in y; it is an error exactly when an opening fails or the number of heights is not the number of lambdas |
| ReducedOpenings.ReducedDescending | wqc-stark-core/src/plonky3_stark/recursion/fri_ro.rs:200-239 | the returned list is strictly descending, one entry for each height |
| ReducedOpenings.TraceAloneIsWitness | wqc-stark-core/src/plonky3_stark/recursion/fri_ro.rs:141-199 | when only the trace sits at a height, the sum there and its correction are `combined` and `out` of the DEEP leaf witness |
| HonestFri.FirstLayerReads | wqc-stark-core/src/plonky3_stark/recursion/fri_ro.rs:200-237 | with an honest sibling the first-layer fold of a height is the y-folded layer at the shifted query |
| HonestFri.ReconstructionReads | wqc-stark-core/src/plonky3_stark/recursion/fri_ro.rs:55-240 | with honest siblings at every height the reconstructed list is exactly what the commit walk expects to read |
| HonestFri.FirstFoldsLowDegree | wqc-stark-core/src/plonky3_stark/recursion/fri_ro.rs:200-237 | if every circle layer is a low-degree codeword its first fold is one too, so the folding theorem applies to what is injected |
| DeepNative.TryDeepQuotientReduceRow | wqc-stark-core/src/plonky3_stark/recursion/deep_ro_native.rs:37-61 | the loop over alpha powers returns the DEEP quotient of the row, or nothing when a projection or denominator is not invertible |
| DeepNative.WitnessMatchesReduction | wqc-stark-core/src/plonky3_stark/recursion/deep_ro_native.rs:222-266 | the leaf witness exists exactly when both native quotients do and the width is 1 to 68; its two partial outputs are those quotients |
| DeepMeaning.QuotientBatchesParts | wqc-stark-core/src/plonky3_stark/recursion/deep_ro_native.rs:20-61 | the quotient batches, for each column, real and imaginary part of (p(x) - p(zeta)) / v_zeta(x): the real parts times alpha^0 to alpha^{w-1}, the imaginary parts times alpha^w to alpha^{2w-1} |
| DeepMeaning.PartsUnique | wqc-stark-core/src/plonky3_stark/recursion/deep_ro_native.rs:20-61 | and those parts are determined by the division |
| DeepMeaning.VanishesIff | wqc-stark-core/src/plonky3_stark/recursion/fri_fold_native.rs:169-175 | v_n vanishes at a point of the circle exactly when it belongs to the standard coset of size 2^n |
| DeepMeaning.LayerInCoset | wqc-stark-core/src/plonky3_stark/recursion/fri_fold_native.rs:56-65 | as the points of every layer do |
| DeepMeaning.LambdaTermVanishesIff | wqc-stark-core/src/plonky3_stark/recursion/deep_ro_native.rs:222-266 | for a nonzero lambda output and combined value agree exactly on the coset of the trace |
| DeepMeaning.WitnessAddsBack | wqc-stark-core/src/plonky3_stark/recursion/deep_ro_native.rs:222-266 | adding lambda v_n to the output gives the combined value, in the leaf witness |
| DeepMeaning.VectorAddsBack | wqc-stark-core/src/plonky3_stark/recursion/deep_ro_leaf_trace_air.rs:320-337 | in every satisfying public vector |
| DeepMeaning.CorrectedAddsBack | wqc-stark-core/src/plonky3_stark/recursion/fri_ro.rs:200-239 | and, to the sum of its height, in the reconstruction |
| DeepDomain.ProjectiveOnCircle | wqc-stark-core/src/plonky3_stark/recursion/deep_ro_native.rs:14-18 | the point at a projective parameter lies on the circle over the extension |
| DeepDomain.DenominatorIsTwiceReal | wqc-stark-core/src/plonky3_stark/recursion/deep_ro_native.rs:26-61 | at a circle point the denominator re^2 + im^2 of v_p is twice its real part |
| DeepDomain.EveryZetaHasPoint | wqc-stark-core/src/plonky3_stark/recursion/deep_ro_native.rs:14-18 | every parameter has a point: 1 + zeta^2 never vanishes, so the projection never fails |
| DeepDomain.RealVanishesIff | wqc-stark-core/src/plonky3_stark/recursion/deep_ro_native.rs:26-33 | the real part of v_p vanishes only where the extension point is the base point itself |
| DeepDomain.QuotientExistsIff | wqc-stark-core/src/plonky3_stark/recursion/deep_ro_native.rs:37-61 | the row reduction at a circle point fails exactly when zeta's point is that point |
| DeepDomain.OutsideBaseFieldExists | wqc-stark-core/src/plonky3_stark/recursion/deep_ro_native.rs:37-61 | for a zeta outside the base field it never fails, at any point |
| DeepDomain.QueryPointIsDomainPoint | wqc-stark-core/src/plonky3_stark/recursion/fri_ro.rs:141-199 | the query's point at a height is the folding domain's point over its index, or its conjugate in the odd slot, and lies on the circle |
| DeepDomain.OpeningExistsIff | wqc-stark-core/src/plonky3_stark/recursion/fri_ro.rs:141-199 | so an opening of a query is refused as degenerate exactly when zeta's point is the query's |
| DeepLeafAir.FlagsArePrefix | wqc-stark-core/src/plonky3_stark/recursion/deep_ro_leaf_trace_air.rs:219-243 | in any satisfying public vector the active flags are ones up to a width w in 1..68 and zeros after, with zero columns there, and the width column is w |
| DeepLeafAir.VpMeaning | wqc-stark-core/src/plonky3_stark/recursion/deep_ro_leaf_trace_air.rs:80-123 | the numerator and denominator constraints hold exactly when the entries are those of the native v_p |
| DeepLeafAir.PaddedSum | wqc-stark-core/src/plonky3_stark/recursion/deep_ro_leaf_trace_air.rs:126-176 | zero columns add nothing: the padded Horner sum is the sum over the first w columns |
| DeepLeafAir.Soundness | wqc-stark-core/src/plonky3_stark/recursion/deep_ro_leaf_trace_air.rs:182-337 | any satisfying vector has alpha^w as its last power, the sum of alpha^i (px_i - pz_i) over i < w as each linear part, the native numerators and denominators, quotients that times the denominator give numerator times sum, and the `combined` and `out` of those quotients; with an invertible denominator a partial result is the native one |
| DeepLeafOutput.NormVanishesIff | wqc-stark-core/src/plonky3_stark/recursion/deep_ro_leaf_trace_air.rs:111-123 | re^2 + im^2 vanishes only when both do, on or off the circle |
| DeepLeafOutput.VpVanishesIff | wqc-stark-core/src/plonky3_stark/recursion/deep_ro_native.rs:26-33 | for a base point of the circle both vanish exactly at that point |
| DeepLeafOutput.OutputForcedIff | wqc-stark-core/src/plonky3_stark/recursion/deep_ro_leaf_trace_air.rs:182-337 | the inputs of a satisfying vector determine its output if and only if v_p does not vanish at zeta's point and, unless alpha is zero, at the next one |
| DeepLeafOutput.DefinedOnCircle | wqc-stark-core/src/plonky3_stark/recursion/deep_ro_leaf_trace_air.rs:182-337 | for a base point of the circle that is: zeta's point is not the base point and neither is the next one unless alpha is zero |
| DeepLeafOutput.FreeOutput | wqc-stark-core/src/plonky3_stark/recursion/deep_ro_leaf_trace_air.rs:320-337 | otherwise every value of the output satisfies the circuit on the same inputs |
| DeepLeafOutput.EveryOutputPasses | wqc-stark-core/src/plonky3_stark/recursion/deep_ro_leaf_trace_air.rs:320-337 | with zeta's point at the base point, every row and every value of the output have satisfying public values |
| DeepLeafAir.Completeness | wqc-stark-core/src/plonky3_stark/recursion/deep_ro_leaf_trace_air.rs:182-337 | every native witness, padded to 68 columns, satisfies every constraint |
| DeepLeafLayout.ViewFlat | wqc-stark-core/src/plonky3_stark/recursion/deep_ro_leaf_trace_air.rs:390-482 | reading the vector at the circuit's offsets gives back every field that was laid out |
| DeepLeafLayout.PushHornerBlocksPadded | wqc-stark-core/src/plonky3_stark/recursion/deep_ro_leaf_trace_air.rs:345-370 | appends the 68 powers and then the 68 running sums |
| DeepLeafLayout.BuildPublicValues | wqc-stark-core/src/plonky3_stark/recursion/deep_ro_leaf_trace_air.rs:390-482 | succeeds exactly when the width is the row length and the native witness exists, and returns the laid-out witness, 1634 values, with its output |
| DeepLeafLayout.BuiltSatisfies | wqc-stark-core/src/plonky3_stark/recursion/deep_ro_leaf_trace_air.rs:182-482 | what it returns, read at the circuit's offsets, satisfies every constraint |
| EfLimbs.LimbsAreProduct | wqc-stark-core/src/plonky3_stark/recursion/ef_limbs.rs:7-26 | the Karatsuba limb product is the product modulo X^3 - 5 |
| FriFoldGroup.ConstraintIsFold | wqc-stark-core/src/plonky3_stark/recursion/fri_fold_group.rs:103-165 | a step's constraint holds exactly when out = (v0 + v1 + beta (v0 - v1) t) / 2 in the extension |
| FriFoldGroup.BuildGroupPublicValues | wqc-stark-core/src/plonky3_stark/recursion/fri_fold_group.rs:168-186 | the vector holds every step in order, the challenge once in front when all share it and in each step otherwise, and has the declared length |
| FriFoldGroup.UnpackPacked | wqc-stark-core/src/plonky3_stark/recursion/fri_fold_group.rs:103-186 | reading step i at the circuit's offsets gives back step i, in both layouts |
| FriFoldGroup.GroupHoldsIffAllFold | wqc-stark-core/src/plonky3_stark/recursion/fri_fold_group.rs:103-186 | the packed publics satisfy the circuit exactly when every step is a correct fold |
| FriFoldGroup.SatisfiedFolds | wqc-stark-core/src/plonky3_stark/recursion/fri_fold_group.rs:103-165 | any public vector that satisfies the circuit, packed or not, reads as correct folds |
| FriFoldGroup.SatisfiesIff | wqc-stark-core/src/plonky3_stark/recursion/fri_fold_group.rs:103-165 | any trace and public vector satisfy the circuit exactly when the trace is all ones, the length is 4 + 10 n or 1 + 13 n by layout, the first value is n modulo P and every position reads as a correct fold |
| FriFoldGroup.PackedLength | wqc-stark-core/src/plonky3_stark/recursion/fri_fold_group.rs:60-186 | the packed vector has the short layout exactly when there are at least two steps and no two differ in their challenge |
| FriFoldGroup.PackedFields | wqc-stark-core/src/plonky3_stark/recursion/fri_fold_group.rs:60-186 | every value of step i at its place, limb by limb, in both layouts |
| FriFoldGroup.BuiltStepPasses | wqc-stark-core/src/plonky3_stark/recursion/fri_fold_air.rs:211-302 | the step builders succeed exactly for heights 1 to 16 and an index in range, and what they build passes the matching native check |
| FriFoldGroup.NativeCheckYxSplit | wqc-stark-core/src/plonky3_stark/recursion/fri_fold_group.rs:196-205 | the greedy split accepts exactly when some split into a nonempty y part and a nonempty x part exists and not every step is a valid y step |
| FriFoldBind.NativeCheckYx | wqc-stark-core/src/plonky3_stark/recursion/fri_fold_group.rs:196-205 | with the two row checks of a tower it accepts exactly when the first step passes as a y step, some step does not, and from the first that does not all pass as x steps |
| Overlap.GetSiteInRange | wqc-stark-core/src/air/overlap.rs:20-24 | a shape-valid site is never read out of range |
| Overlap.AddOuter | wqc-stark-core/src/air/overlap.rs:64-80 | the two inner loops, zero skips included, add one outer product to the new environment in place |
| Overlap.AddPhysical | wqc-stark-core/src/air/overlap.rs:64-80 | skipping a zero coefficient changes nothing: both physical values are added either way |
| Overlap.ContractSite | wqc-stark-core/src/air/overlap.rs:39-83 | the errors occur exactly on a left-bond or length mismatch, the size limit is never hit, and each slot of the result is the sum over both left bonds and the physical index |
| Overlap.InnerStep | wqc-stark-core/src/air/overlap.rs:39-83 | if the environment holds the partial inner products over all bitstrings of the first n sites, the contracted one holds those of n+1 |
| Overlap.OverlapConstraintFailure | wqc-stark-core/src/air/overlap.rs:86-142 | returns the documented code, zero exactly when shapes and bonds fit and the claimed amplitude is within epsilon of the sum over all 2^n bitstrings; codes for a wrong final length are never returned |
| OverlapParts.GetSiteIsEntry | wqc-stark-core/src/air/overlap.rs:20-24 | a site whose values are a table [left][phys][right] row by row is read at that entry |
| OverlapParts.TableExists | wqc-stark-core/src/air/overlap.rs:10-18 | every well-shaped site is such a table |
| OverlapParts.InnerParts | wqc-stark-core/src/air/overlap.rs:26-83 | the inner product of two chains is, over real and imaginary parts, the two real sums of kr br + ki bi and ki br - kr bi over all bitstrings |
| OverlapParts.SelfInnerIsNorm | wqc-stark-core/src/air/overlap.rs:34-83 | of a chain with itself it is the sum of re^2 + im^2 over all bitstrings, real and nonnegative |
| OverlapParts.AcceptedIff | wqc-stark-core/src/air/overlap.rs:86-142 | the check accepts exactly when both chains have n sites with bonds from 1 to 16 that meet and are open at the ends, and both parts of the claim are within 0.000005 of the two real sums |
| OverlapParts.OwnOverlapAccepted | wqc-stark-core/src/air/overlap.rs:86-142 | for ket equal to bra exactly when the claim is within 0.000005 of the squared norm, imaginary part zero |
| Overlap.ExchangeConjugates | wqc-stark-core/src/air/overlap.rs:86-142 | exchanging ket and bra conjugates the overlap |
| BornAir.RowMeaning | wqc-stark-core/src/plonky3_stark/distribution_air.rs:128-218 | the per-row constraints say exactly: pad is a bit; an active row has boolean selectors summing to one; a pad row has no amplitude and no selector |
| BornAir.TransitionMeaning | wqc-stark-core/src/plonky3_stark/distribution_air.rs:160-218 | the transition constraints say exactly: claims are constant, an active row adds its share to the mass, a pad row keeps it, and entering the padding the mass is the scaled claim |
| BornAir.ActiveRowsOneHot | wqc-stark-core/src/plonky3_stark/distribution_air.rs:145-154 | an active row selects exactly one outcome |
| BornAir.Soundness | wqc-stark-core/src/plonky3_stark/distribution_air.rs:128-218 | in any satisfying trace of any height whose first row is active, however pad and active rows interleave, claim_k times the scale is the sum over all rows of sel_k (re^2 + im^2) |
| BornIntegers.ClaimsAreSums | wqc-stark-core/src/plonky3_stark/distribution_air.rs:60-218 | the same over the integers and by column number: 10000 times column 2 + 2K + k is, modulo P, the sum of column 2 + k times the squares of columns 0 and 1 |
| BornAir.PadStart | wqc-stark-core/src/plonky3_stark/distribution_air.rs:128-218 | when the first row is padding and some row is active that equation holds exactly when the first row's mass is zero: nothing in the circuit forces it |
| BornAir.AllPad | wqc-stark-core/src/plonky3_stark/distribution_air.rs:128-218 | when every row is padding it holds exactly when the claim is zero |
| BornAir.PadRowsClaimAnything | wqc-stark-core/src/plonky3_stark/distribution_air.rs:128-218 | four pad rows, the least height in use, satisfy every constraint with any claim, which the rows add up to only if it is zero |
| BornAir.PadStartClaimsMore | wqc-stark-core/src/plonky3_stark/distribution_air.rs:128-218 | a satisfying four-row trace that starts with a pad row of nonzero mass, goes on with an active row, and claims more than it adds up to |
| BornTrace.AccumulateMasses | wqc-stark-core/src/plonky3_stark/streaming_distribution.rs:18-48 | the first pass fails exactly on a missing or too large outcome and otherwise returns the total masses |
| BornTrace.BuildStreamingDistributionMatrix | wqc-stark-core/src/plonky3_stark/streaming_distribution.rs:18-76 | the two-pass builder with its padding returns the specified trace exactly when the shapes fit and every basis has an outcome |
| BornIntegers.BuiltRow | wqc-stark-core/src/plonky3_stark/streaming_distribution.rs:18-104 | row t of that trace, column by column: the converted amplitude of basis t with the selector of its outcome alone or zeros in the padding, the mass of each outcome over the bases so far, its claim, 10000 times which is the total mass, and the pad flag |
| BornTrace.PadStreamingWithInactive | wqc-stark-core/src/plonky3_stark/streaming_distribution.rs:79-104 | padding appends inactive rows, carrying the final masses and claims, up to the circuit height |
| BornTrace.HeightIsLeast | wqc-stark-core/src/plonky3_stark/streaming_distribution.rs:84-90 | the height is the least power of two that is at least 4 and holds every row |
| BornTrace.Completeness | wqc-stark-core/src/plonky3_stark/streaming_distribution.rs:18-104 | for every state vector and total outcome map, the built and padded trace satisfies every constraint of the circuit and starts with an active row |
| BornTrace.MassesSumToNorm | wqc-stark-core/src/plonky3_stark/streaming_distribution.rs:30-48 | the masses of all outcomes add up to the squared norm of the state |
| BornTrace.EvaluateActiveRowLocal | wqc-stark-core/src/plonky3_stark/distribution_air.rs:94-110 | the loop returns the sum of the selector terms and the one-hot term |
| BornTrace.LocalCheckVanishes | wqc-stark-core/src/plonky3_stark/distribution_air.rs:94-110 | that sum is zero on every active row that meets the constraints |
| BornTrace.LocalCheckIff | wqc-stark-core/src/plonky3_stark/distribution_air.rs:94-110 | on any row it is zero exactly when the pad flag is one or the squares of the selectors add up to one more than the flag |
| BornTrace.LocalCheckOneHot | wqc-stark-core/src/plonky3_stark/distribution_air.rs:94-110 | so on an active row of selector bits exactly when one selector is set |
| BornTrace.NegativeSelectorPasses | wqc-stark-core/src/plonky3_stark/distribution_air.rs:94-110 | a selector of -1, which is no bit, gives zero too |
| ShotSampling.QuantizeIsNearest | wqc-stark-core/src/air/shot_sampling.rs:99-108 | any real is quantized to the nearest grid point, halves up, and outside [0, 1] to the nearer end |
| ShotSampling.VanishedMasses | wqc-stark-core/src/air/shot_sampling.rs:121-128 | two masses both below half a grid step count as 1000 and 0, any others as their grid points |
| ShotSampling.FixedPointBernoulliWitnesses | wqc-stark-core/src/air/shot_sampling.rs:114-177 | a witness is returned exactly when some grid point within 4 steps decides as claimed; then u is a nearest such point, outcome is 0 exactly when u (p0 + p1) < 1000 p0, and the gap is the exact slack, below 2^20 |
| ShotSampling.ExtremeDecides | wqc-stark-core/src/air/shot_sampling.rs:140-164 | some reachable point matches the outcome exactly when the farthest one in its direction does |
| ShotSampling.GapFits | wqc-stark-core/src/air/shot_sampling.rs:166-176 | on the grid the gap always fits 20 bits, so the overflow guard is dead |
| ShotSampling.FailsIffCoarse | wqc-stark-core/src/air/shot_sampling.rs:34-177 | for any quantized masses and outcome, some real masses in [0, 1] and sample in [0, 1) that quantize to them draw that outcome and find no witness if and only if the masses are coarse: a condition on the two integers and the rounded-up quotient 1000 a / (a + b) |
| ShotSampling.FineMassFollows | wqc-stark-core/src/air/shot_sampling.rs:34-177 | unless they are, every draw whose exact decision is the outcome finds its witness |
| ShotSampling.CoarseMisses | wqc-stark-core/src/air/shot_sampling.rs:34-177 | if they are, the masses and sample of such a draw |
| ShotSampling.EnoughMass | wqc-stark-core/src/air/shot_sampling.rs:34-177 | masses that quantize to a total of 143 or more are coarse only for outcome 0 from a first mass of zero |
| ShotSampling.LittleMass | wqc-stark-core/src/air/shot_sampling.rs:34-177 | 143 cannot be improved: two equal masses of n grid steps are coarse for outcome 0 exactly up to n = 71 |
| ShotSampling.SearchFollowsDecision | wqc-stark-core/src/air/shot_sampling.rs:34-177 | for masses in [0, 1] that quantize to a total of 143 or more and the outcome the exact rule decides, the search fails exactly when the outcome is 0 and p0 quantizes to 0 |
| ShotSampling.LittleMassFails | wqc-stark-core/src/air/shot_sampling.rs:34-177 | with masses 0.0054 and 0.0046 a true outcome 0 has no witness although p0 quantizes to 5 |
| ShotSamplingAir.ConstraintsAreIntegerRule | wqc-stark-core/src/plonky3_stark/shot_sampling_air.rs:91-130 | for a row with p0, p1 and u at most 1000, the constraints modulo 2^31-1 hold exactly when the integer rule does: bits spell the gap and the branch equation is exact |
| ShotSamplingAir.Soundness | wqc-stark-core/src/plonky3_stark/shot_sampling_air.rs:91-130 | so the outcome is a bit, and 0 exactly when u (p0 + p1) < 1000 p0 |
| ShotSamplingAir.ShownIff | wqc-stark-core/src/plonky3_stark/shot_sampling_air.rs:91-130 | for any p0, p1, u some active row of the circuit shows an outcome exactly when the gap it calls for, modulo P, is below 2^20 |
| ShotSamplingAir.DecidesIff | wqc-stark-core/src/plonky3_stark/shot_sampling_air.rs:91-130 | for any p0, p1, u with excess D = 1000 p0 - u (p0 + p1), every satisfying active row shows outcome 0 exactly when D > 0, if and only if (D > 0 and -D mod P is at least 2^20) or (D is at most 0 and D - 1 mod P is at least 2^20) |
| ShotSamplingAir.OnGridDecides | wqc-stark-core/src/plonky3_stark/shot_sampling_air.rs:91-130 | on the grid that condition always holds |
| ShotSamplingAir.OffGridWraps | wqc-stark-core/src/plonky3_stark/shot_sampling_air.rs:91-130 | it fails at p0 = 2147483, p1 = u = 0, where D is positive and outcome 1 is accepted |
| ShotSamplingAir.OffGridMayDecide | wqc-stark-core/src/plonky3_stark/shot_sampling_air.rs:91-130 | it holds at p0 = 1001, p1 = u = 0, off the grid |
| ShotSamplingAir.EvaluateRowSum | wqc-stark-core/src/plonky3_stark/shot_sampling_air.rs:30-73 | the loop over the bit columns returns the sum of all constraint terms |
| ShotSamplingAir.SumVanishes | wqc-stark-core/src/plonky3_stark/shot_sampling_air.rs:30-73 | a row that meets every constraint has sum zero, so the builder's check passes |
| ShotSamplingAir.ZeroSumIff | wqc-stark-core/src/plonky3_stark/shot_sampling_air.rs:30-73 | an active row of bits has sum zero if and only if the bits spell the gap its outcome calls for, whatever stands in the gap column |
| ShotSamplingAir.HoldsIff | wqc-stark-core/src/plonky3_stark/shot_sampling_air.rs:30-73 | it meets the constraints if and only if the gap column agrees too |
| ShotSamplingAir.SumDecidesIff | wqc-stark-core/src/plonky3_stark/shot_sampling_air.rs:29-73 | so the sum is zero if and only if the constraints hold, exactly when the bits spell the gap column or miss the gap called for |
| ShotSamplingAir.PadRowSums | wqc-stark-core/src/plonky3_stark/shot_sampling_air.rs:30-73 | on a pad row the sum is zero and the constraints hold |
| ShotSamplingAir.ZeroSumDecides | wqc-stark-core/src/plonky3_stark/shot_sampling_air.rs:30-73 | on the grid a zero sum of an active row of bits already forces outcome 0 exactly when u (p0 + p1) < 1000 p0 |
| ShotSamplingAir.TermsCancel | wqc-stark-core/src/plonky3_stark/shot_sampling_air.rs:30-73 | terms can cancel: an on-grid row of bits with sum zero that breaks the constraints |
| ShotSamplingAir.FilledRowHolds | wqc-stark-core/src/plonky3_stark/shot_sampling_stark.rs:27-48 | the bits of a witness, in place, satisfy every constraint |
| ShotSamplingAir.FillRow | wqc-stark-core/src/plonky3_stark/shot_sampling_stark.rs:27-48 | succeeds exactly when the search does, and the row it leaves satisfies every constraint |
| MerkleBatch.OrderIsSorted | wqc-stark-core/src/plonky3_stark/recursion/fri_mmcs_bind.rs:175-186 | matrices are visited by falling height, in index order within a height |
| MerkleBatch.OrderIsPermutation | wqc-stark-core/src/plonky3_stark/recursion/fri_mmcs_bind.rs:175-186 | every matrix is visited exactly once |
| MerkleBatch.AbsorbedExactlyOnce | wqc-stark-core/src/plonky3_stark/recursion/fri_mmcs_bind.rs:208-294 | along the path each row is hashed in exactly once if its height is a power of two or rounds up to the tallest, and never otherwise |
| MerkleBatch.PathFollowsTree | wqc-stark-core/src/plonky3_stark/recursion/fri_mmcs_bind.rs:208-294 | with rows and siblings taken from the full injected tree, the digest after k layers is the tree node over the index |
| MerkleBatch.TreeOpens | wqc-stark-core/src/plonky3_stark/recursion/fri_mmcs_bind.rs:208-300 | so that opening reaches the root |
| MerkleBatch.OpeningsBind | wqc-stark-core/src/plonky3_stark/recursion/fri_mmcs_bind.rs:463-631 | two openings of one shape and index that reach one root hashed the same groups, and their absorbed rows are equal exactly when the widths are, or they show a collision of the leaf hash or of compress |
| MerkleBatch.UnabsorbedOpens | wqc-stark-core/src/plonky3_stark/recursion/fri_mmcs_bind.rs:208-294 | a row that is not absorbed is free: with any other row in its place the path opens the same roots |
| MerkleBatch.HeightThreeIsFree | wqc-stark-core/src/plonky3_stark/recursion/fri_mmcs_bind.rs:208-294 | beside a matrix of 8 rows, the opened row of one with 3 rows is free |
| MerkleOpenings.GenerateChalBatchPath | wqc-stark-core/src/plonky3_stark/recursion/fri_mmcs_bind.rs:159-316 | the prover succeeds exactly when shapes, widths and depth fit and the path reaches the root, and its proof holds the digest of every layer and injection, for each injection the place of its first matrix, and behind the rows exactly the concatenations hashed |
| MerkleOpenings.VerifyChalBatchPathReplay | wqc-stark-core/src/plonky3_stark/recursion/fri_mmcs_bind.rs:318-457 | the replay verifier accepts exactly the proofs whose rows, leaf digests, layer entries and injections are those of the path and whose path opens the root |
| MerkleOpenings.VerifyChalBatchPathDigests | wqc-stark-core/src/plonky3_stark/recursion/fri_mmcs_bind.rs:463-631 | the digest verifier accepts exactly the proofs that open the root with the right rows and injection count and, when digests are on the wire, whose digests are those of the path |
| MerkleOpenings.GeneratedIsAccepted | wqc-stark-core/src/plonky3_stark/recursion/fri_mmcs_bind.rs:159-631 | every generated proof is accepted by the replay verifier and by the digest verifier, both with its digests and stripped of them |
| MerkleOpenings.AcceptedOpens | wqc-stark-core/src/plonky3_stark/recursion/fri_mmcs_bind.rs:318-631 | either verifier's acceptance means the path opens the root |
| MerkleOpenings.AcceptedBind | wqc-stark-core/src/plonky3_stark/recursion/fri_mmcs_bind.rs:318-631 | two proofs accepted by either verifier for one shape, index and root have equal absorbed rows exactly when the widths are equal, or show a collision |
| MerkleOpenings.WidthsShift | wqc-stark-core/src/plonky3_stark/recursion/fri_mmcs_bind.rs:318-631 | neither verifier compares widths: under any hash the rows [1, 2], [3] and [1], [2, 3] of two matrices of one height open one root, by the replay verifier and by the digest verifier with digests and without |
| MerkleOpenings.UnabsorbedGenerates | wqc-stark-core/src/plonky3_stark/recursion/fri_mmcs_bind.rs:159-316 | replacing a row that is not absorbed, at its width, leaves the generator's success as it was, for the same root |
| MerkleOpenings.OpenFromTree | wqc-stark-core/src/plonky3_stark/recursion/fri_mmcs_bind.rs:159-631 | rows and siblings from the full injected tree generate a proof that both verifiers accept, with its digests and stripped |
| MerkleOpenings.VerifiersAgree | wqc-stark-core/src/plonky3_stark/recursion/fri_mmcs_bind.rs:318-631 | on proofs that keep their digests the two verifiers accept the same ones, once the injection count and the compression stubs are compared |
| RecordedOpenings.ReplayIffRecorded | wqc-stark-core/src/plonky3_stark/recursion/fri_mmcs_bind.rs:159-457 | of an opening that reaches the root the replay verifier accepts exactly the proofs that start, field by field, with what the generator records: rows, their digests and stubs, every layer and every injection, and past the rows the concatenation of the leaf level when several matrices sit there |
| RecordedOpenings.DigestsIffRecorded | wqc-stark-core/src/plonky3_stark/recursion/fri_mmcs_bind.rs:159-631 | the digest verifier accepts exactly those with the recorded rows in front that either carry no leaf digest and as many injection places as recorded, or the recorded leaf entries and layer digests and exactly the recorded injection digests |
| MerklePath.MerkleRootFromPath | wqc-stark-core/src/plonky3_stark/recursion/merkle_keccak.rs:58-74 | the loop returns the root of the path |
| MerklePath.GenerateFriMmcsPathProof | wqc-stark-core/src/plonky3_stark/recursion/fri_mmcs_path.rs:52-101 | succeeds exactly for depths 1 to 20 whose path reaches the root, and what it returns verifies |
| MerklePath.VerifyFriMmcsPathProof | wqc-stark-core/src/plonky3_stark/recursion/fri_mmcs_path.rs:103-147 | accepts exactly the proofs whose layer digests are those of the path and end in the root |
| MerklePath.OneMatrixBatch | wqc-stark-core/src/plonky3_stark/recursion/fri_mmcs_path.rs:103-147 | the single-matrix path is the one-matrix case of the batch path, layer by layer |
| MerklePath.VerifiesAlongBatch | wqc-stark-core/src/plonky3_stark/recursion/fri_mmcs_path.rs:103-147 | so the path verifier accepts exactly the proofs of 1 to 20 layers whose digests and stubs are, level by level, those of the one-matrix batch, up to the root |
| MerklePath.PathOpensBatch | wqc-stark-core/src/plonky3_stark/recursion/fri_mmcs_path.rs:103-147 | an accepted path opens the one-matrix batch |
| MerklePath.PathsBind | wqc-stark-core/src/plonky3_stark/recursion/fri_mmcs_path.rs:103-147 | two accepted paths for one index, depth and root have the same row, of whatever width, or show a collision |
| ComposeV3.EncodeComposeV3 | wqc-stark-core/src/aggregation/transcript_v3.rs:50-75 | appends parent id, marker, label, manifest, both child digests and both length-prefixed children |
| TranscriptBytes.ComposeExample | wqc-stark-core/src/aggregation/transcript_v3.rs:50-75 | an example transcript byte by byte |
| TranscriptBytes.AggTailExample | wqc-stark-core/src/plonky3_stark/transcript_v4.rs:98-119 | an example aggregation tail byte by byte |
| ComposeV3.MarkerLocated | wqc-stark-core/src/aggregation/transcript_v3.rs:85-94 | if the parent id is free of the marker, the first-match search finds the marker behind it |
| ComposeV3.DecodeEncoded | wqc-stark-core/src/aggregation/transcript_v3.rs:50-134 | decoding an encoded compose gives it back exactly when the parent id is free of the marker, label and manifest are NUL-free, and both child lengths fit 32 bits |
| ComposeV3.DecodedFields | wqc-stark-core/src/aggregation/transcript_v3.rs:102-134 | whatever decodes is the encoding of what it decodes to, and its two children together are strictly shorter |
| ComposeV3.DecodeExtended | wqc-stark-core/src/aggregation/transcript_v3.rs:102-134 | an encoding with anything behind it does not decode |
| ComposeV3.DecodeMarked | wqc-stark-core/src/aggregation/transcript_v3.rs:85-134 | nor does anything that starts with an encoding whose parent id contains the marker but no zero byte |
| ComposeV3.ReencodeDecoded | wqc-stark-core/src/aggregation/transcript_v3.rs:50-134 | a decoded transcript whose hashes are those of its children is re-encoded to the same bytes |
| ProofTree.SplitIffAppended | wqc-stark-core/src/plonky3_stark/transcript_v4.rs:98-119 | a proof splits into body and tail exactly when it is that body with that tail appended, nothing behind the tail's start spells another marker and the length fits |
| ProofTree.AcceptanceIsEverywhere | wqc-stark-core/src/aggregation/mod.rs:96-168 | the mutual recursion, whose children are strictly shorter, accepts exactly when the local checks hold at every sub-proof reachable by any path |
| ProofTree.RootAcceptance | wqc-stark-core/src/aggregation/mod.rs:478-572 | the root accepts exactly when it decodes, carries the expected parent id and the digests of both children, has, if asked for a root, the root label and the given manifest, has no aggregation tail or one that verifies for its header, and both child trees pass everywhere under its parent id and security level |
| ProofTree.EmbeddedParentIff | wqc-stark-core/src/aggregation/mod.rs:96-141 | a proof carries an id of its own exactly when it decodes with the label leaf:unitary_traj or leaf:unitary_born |
| ProofTree.EveryLeafVerified | wqc-stark-core/src/aggregation/mod.rs:96-168 | in an accepted tree every leaf reached by any path was verified: plain leaves under their own security level or else the root's, trajectory and Born leaves under the id above them |
| ProofTree.HeadersBind | wqc-stark-core/src/aggregation/mod.rs:478-509 | two accepted nodes with equal headers have equal bodies, or children of equal digest and different bytes |
| ProofTree.ParentInherited | wqc-stark-core/src/aggregation/mod.rs:118-141 | with no unitary+aux compose above it, every sub-proof is verified under the root's parent id |
| ProofTree.ParentBelowAux | wqc-stark-core/src/aggregation/mod.rs:118-141 | below a unitary+aux compose it is that compose's own parent id, up to the next such compose |
| ProofTree.NodesCarryRootParent | wqc-stark-core/src/aggregation/mod.rs:96-168 | in an accepted tree every node reached has both header hashes equal to its child digests, an aggregation tail, if any, that verifies for its header, and, outside unitary+aux composes, the root's parent id |
| ProofTree.ComposeStarkProofs | wqc-stark-core/src/aggregation/mod.rs:193-227 | composing succeeds exactly when the parent id is nonempty, both children verify and the aggregation prover answers, and returns the encoded pair with its tail |
| ProofTree.ChildPassesIff | wqc-stark-core/src/aggregation/mod.rs:96-168 | a child is accepted with or without a context exactly when: a trajectory or Born leaf verifies under the parent id, and everything below a compose passes, at the level its context names or else the level of the compose; a plain leaf verifies under the context given for it, or under the one it is bound to |
| ProofTree.ComposedIff | wqc-stark-core/src/aggregation/mod.rs:193-227 | so composing returns out exactly when the parent id is not empty, the left child passes with the left context and the right one with the right, the prover answers, and out is both children under their own digests with that answer as tail |
| ProofTree.ComposedIsAccepted | wqc-stark-core/src/aggregation/mod.rs:193-572 | what composing makes of two children verified without leaf contexts, from fields the codec can carry, is accepted under the same parent id and security level if and only if the parent id is free of the marker, the tail is clean, a root check, if asked for, fits, and the aggregation proof verifies |
| ProofTree.MarkedParentRejected | wqc-stark-core/src/aggregation/mod.rs:193-572 | with a parent id that contains the marker but no zero byte, whatever composing returns is rejected by every verifier |
| ProofTree.MarkerAsParent | wqc-stark-core/src/aggregation/mod.rs:193-572 | the failing input: under oracles that accept and prove everything, composing under the marker itself as parent id succeeds and is always rejected |
| ProofTree.EveryTreeBuilds | wqc-stark-core/src/aggregation/mod.rs:193-572 | composing a tree of pairings bottom-up never gets stuck and its result is accepted as a child again, if and only if every leaf verifies under the id above it, every id is nonempty and free of the marker, only unitary+aux pairings have one of their own, and every aggregation proof is made, clean and verifies |
| ProofTree.PairNests | wqc-stark-core/src/aggregation/mod.rs:96-227 | the same for one pairing |
| ProofTree.BuiltChild | wqc-stark-core/src/aggregation/mod.rs:96-227 | over such a tree the audit walk meets at each step what that half of the plan built, under the id of the pairing above |
| ProofTree.InnerIdDiffers | wqc-stark-core/src/aggregation/mod.rs:118-141 | an accepted tree with a node, two steps down below a unitary+aux compose, that carries another parent id than the root |
| AuxTails.MarkerOverlap | wqc-stark-core/src/trajectory.rs:444-473 | two of the seven markers can overlap only by one byte, the closing underscore of the first |
| AuxTails.StripOneAuxTail | wqc-stark-core/src/trajectory.rs:444-475 | cuts at the last occurrence of any of the seven markers, or nowhere when none occurs |
| AuxTails.BaseProofWithoutAuxTails | wqc-stark-core/src/trajectory.rs:478-487 | the loop ends and returns the fixed point of the cuts |
| AuxTails.BaseIsMarkerFree | wqc-stark-core/src/trajectory.rs:478-487 | the result is a marker-free prefix and stripping it again changes nothing |
| AuxTails.StripRecoversBase | wqc-stark-core/src/trajectory.rs:414-487 | a marker-free base followed by a marker and any bytes, further tails and payloads with markers included, is recovered exactly when an even number of markers is chained onto that marker's last underscore |
| AuxTails.NoChain | wqc-stark-core/src/trajectory.rs:414-487 | nothing is chained unless the length field spells M31_, so the base is recovered whenever it does not |
| AuxTails.ChainedTailIsNotStripped | wqc-stark-core/src/trajectory.rs:444-487 | a concrete tail after which any base is lost |
| Trajectory.EncodeTrajectorySegment | wqc-stark-core/src/trajectory.rs:146-219 | the nested loops of both versions append the specified bytes |
| Trajectory.DecodeTrajectorySegment | wqc-stark-core/src/trajectory.rs:221-387 | the nested cursor loops of both versions read what the specified decoder reads, failures included |
| Trajectory.SegmentIff | wqc-stark-core/src/trajectory.rs:146-387 | at any offset the decoder reads a segment and an end exactly when the segment is encodable and its encoding stands there and ends there |
| Trajectory.DecodeEncoded | wqc-stark-core/src/trajectory.rs:146-387 | decoding an encoded segment gives it back with nothing left over exactly when its strings are NUL-free and its lists fit 32 bits and, for version 1, its version 2 fields are default |
| Trajectory.EncodeDecoded | wqc-stark-core/src/trajectory.rs:146-387 | a fully consumed payload is the encoding of what it decodes to |
| Trajectory.V1KeepsView | wqc-stark-core/src/trajectory.rs:154-178 | what version 1 keeps of any segment whose strings and lists it can write: the version 2 fields come back as defaults |
| Trajectory.AppendTrajectoryTail | wqc-stark-core/src/trajectory.rs:414-426 | appends the marker of the version the segment needs, the payload length and the payload |
| Trajectory.V1CarriesPlain | wqc-stark-core/src/trajectory.rs:146-219 | version 1 can carry exactly the segments version 2 can carry that have nothing only version 2 writes |
| Trajectory.AppendedKeeps | wqc-stark-core/src/trajectory.rs:400-437 | what is appended is in version 2 exactly when the segment has a witness or a link; its payload decodes to the segment exactly when that can be encoded in version 2 and has a witness, has a link, or has nothing only version 2 writes; and it splits off exactly when its tail is clean |
| TranscriptBytes.SegmentExample | wqc-stark-core/src/trajectory.rs:146-219 | an example segment with one shot, measurement and witness, in both versions |
| TranscriptBytes.ShotExample | wqc-stark-core/src/trajectory.rs:146-219 | the bytes of its shot in both versions |
| TranscriptBytes.WitnessExample | wqc-stark-core/src/trajectory.rs:196-219 | the bytes of its witness |
| Trajectory.AppendedTailDecodes | wqc-stark-core/src/trajectory.rs:400-437 | splitting an appended tail gives back proof, payload and version exactly when the length fits and nothing behind the tail's start spells a trajectory marker, and the payload decodes to the segment exactly when it is encodable |
| Primality.PIsPrime | wqc-stark-core/src/plonky3_stark/config.rs:33-34 | 2^31 - 1 is prime, from the order of the circle group |
| Primality.BooleanIff | wqc-stark-core/src/plonky3_stark/distribution_air.rs:128-218 | x (x - 1) = 0 in the field exactly when x is 0 or 1 |
| Ef3.EMulAssoc | wqc-stark-core/src/plonky3_stark/recursion/ef_limbs.rs:7-26 | multiplication modulo X^3 - 5 is associative |
| Fermat.LittleTheorem | wqc-stark-core/src/plonky3_stark/config.rs:33-34 | every nonzero residue has power P - 1 equal to 1, by cutting the residues into classes of the order's size |
| Ef3Field.NonzeroInvertibleEf | wqc-stark-core/src/plonky3_stark/config.rs:33-34 | the cubic extension is a field: every nonzero element is invertible, since 5 is no cube |
| Ef3Field.MinusOneNotSquareEf | wqc-stark-core/src/plonky3_stark/recursion/deep_ro_native.rs:14-18 | -1 is no square in the extension |

## Left out

- ReducedOpenings.ReconstructQueryRo: takes the heights of trace and quotient domains as inputs, between 1 and the query's height, where the source computes them from the proof and stops on others; zeta's next point is an input too.
- FoldWalk.ExtractQueryFoldChainForward: takes a tower of generators that reaches the heights in use; the external generator function is `Circle.StandardTower` or any other valid tower.
- FriFoldGroup.NativeCheckYxSplit: the two row checks are parameters, filled in by `FriFoldBind.NativeCheckYx`; kinds Y and X, which ask one of them of every row, are not modelled.
- FriFoldBind.BindFriFoldBundle: query chains are inputs (`FriFoldBind.QueryInDomain` shows those of a proof are in domain); the replay of the challenger that yields them is external.
- ProofTree.AcceptanceIsEverywhere: leaf recognition and leaf verification are parameters, so that a compose whose bytes read as a bare leaf is verified as one, as in the source; recursive-aggregation tails and leaf PCS certificates are left out, the AggregationAir tail is in.
- ProofTree.ComposedIsAccepted: is about labels and manifest hashes without zero bytes and children below 2^32 bytes, and `ProofTree.EveryTreeBuilds` about parent ids without zero bytes and transcripts that do not read as a bare leaf; outside that the bytes may decode to other fields than were composed (`ComposeV3.DecodeEncoded`).
- WrongTwiddle.WrongTwiddlePasses: the Merkle openings and commitments of that proof are not part of it.
- MerkleOpenings.VerifyChalBatchPathReplay: an index out of range inside a malformed proof, where the source stops with a panic, is a verdict of its own; the nested hash proofs carried beside the digests are reduced to length and digest.
- BornTrace.BuildStreamingDistributionMatrix: conversion from float to field is a parameter, so the fixed-point rounding at `air/mod.rs:28-39` is not part of the model.
- Overlap.OverlapConstraintFailure: amplitudes are exact reals; float rounding, infinities and NaN are not modelled, and error messages are their codes.
- Trajectory.DecodeTrajectorySegment: floats are opaque eight-byte values and strings NUL-free bytes, without UTF-8 validity; versions 1 and 2, two copies in the source, are one model with a version argument.
- Plonky3 prove and verify, postcard encoding, Fiat-Shamir, Poseidon2, Keccak and SHA3-256: external; hashes are uninterpreted functions, challenges and query indices inputs.
- The value-Mmcs and challenge-Mmcs bundle drivers around the batch paths: they call the modelled functions once per commitment.
- Shot replay from the random generator, and the shot-matrix builder around `ShotSamplingAir.FillRow` with its padding: one row per event.
- The constant column of the DEEP circuit, the quantum gate constraints, AggregationAir and RecursiveAggregationAir: column constancy or one proof per branch.
- The solve_v0 and solve_v1 helpers of the fold rows, the W3 and recursive-aggregation DEEP witnesses: inverses and fixed-width cases of what is modelled.
- Trajectory digests over JSON text, binding of counts, FFI layer, fixtures, environment variables and logging.
