# Verified models of five parts of SPU

A Dafny model of the parts of SPU whose correctness depends on several functions agreeing with each
other, with proofs that they do. `dafny verify dfyconfig.toml` checks the whole project.

## What is modelled

**Two-party gradient-boosted trees** (`Binning`, `BinMatVec`, `SecureMul`, `Worker`, `TreeSpec`,
`TreeBuilder`, `TreeTraining`, `Boosting`). `XGBTreeBuilder` and `XGBTreeBuildWorker` are classes with the
source's maps and vectors as fields, one object per party, stepped in lockstep. Ring values are integers
compared modulo any `m >= 1`, so `m = 2^k` is an instance; a share is only known through the sum of the two
parties' shares, and every oblivious-transfer or homomorphic call returns arbitrary shares with the promised
sum. The reference is an ordinary decision tree: a row walks down the matched split lists of both parties
(`Walk`) and is worth the reconstructed weight of the leaf it reaches (`TreeValue`, `ForestValue`). The main
result is `Boosting.BoostThenInfer`: after any number of rounds with any split choices that have thresholds,
any gradients, any leaf weights and any sub-sampling draws of the two parties, the reconstructed prediction of a
training row plus the value of the trees it missed is its initial value plus what `Inference` returns for that
row; a row misses the trees of the rounds in which a party did not draw it, so without sub-sampling none.

**Strided n-d arrays** (`Shape`, `Reshape`, `Views`, `Copying`, `NdArray`, `NdArrayOps`, `NdArrayPad`,
`NdArrayOverlap`). A `Layout` is shape, strides and offset; `NdArrayRef` is a class over a shared `array`;
`Elements()` is its row-major contents. Reshape is proved exact: `AttemptNocopyReshape` succeeds if and only if
some strides exist under which every flat position keeps its address. A chain of operations is judged by the strides the code computes:
every step is a true view if and only if it stretches no moving axis and repeats no reversed one
(`ComputedChainIff`), and from a fresh array plain arguments suffice (`ChainReads`). Writes hit exactly their
window (`UpdateSlice`), also when value and target share a buffer, and the iterator, the fast index and the slow
index read the same element.

**Half-precision arithmetic** (`HalfRounding`, `HalfConvert`, `HalfSqrt`, `HalfSum`, `HalfFma`). The
specification is `IsRounded`: the result is the binary16 number that sections 3.4, 4.3 and 5.4.1 of
IEEE 754-2008 prescribe for an exact real value (overflow as in section 7.4, signs of zero results as in
section 6.3). It mentions no guard or sticky bit. The rounding style is a parameter of every operation, exact
values are reals and `Scale(x, k)` is `x * 2^k`.

**Group-by by segmented scan** (`GroupByScan`, `GroupBy`). Sorting is any sorted permutation, the scan is any
bracketing at every position, the secret order is any permutation; the final table still is the group-by
defined directly on the unsorted rows.

**Bit interleaving** (`Bits`). Words are `seq<bool>` of `2^w` bits. Each level of the swap network exchanges
two adjacent bits of the bit position; run over a whole word it equals the PEXT/PDEP form, interleaving and
de-interleaving undo each other, and all three hexadecimal mask tables are proved to be the masks.

### Where the code does not do what it is for

- `Binning::Fit` on values that all lie within 1e-10 of the largest double takes `begin() + 1` of an empty
  vector (experimental/squirrel/binning.cc:98-103). `Binner.Fit` reports this case as `NoCategory`, and states
  it happens exactly then; `LargestDoubleHasNoCategory` is such a column.
- With at most `nbuckets` categories `Binning::Fit` takes all categories but the smallest as thresholds, and a
  value at most a threshold lies below it (experimental/squirrel/binning.cc:98-121). So two values share a bin if
  and only if no category but the smallest lies between them (`ValuesShareIff`), the two smallest categories
  always share bin 0 (`CategoriesShareIff`), and the last bin is empty if and only if no value lies above the last
  category (`LastBinEmptyIff`). In the column 0, 1 no split can separate the two values (`ZeroAndOneShareABin`).
- `Binning::Transform` truncates bin numbers to 16 bits (experimental/squirrel/binning.cc:121).
  `SixteenBitBins`: the numbers are right for all values if and only if there are at most 65536 thresholds
  (`LargeBinIsCut`: above, a value of bin 65536 is put into bin 0); `MapOkIffShort`: the bucket map of a data set is right if and only if no bin number of its columns is cut.
- With `subsample` below 1 every party draws its own root rows (experimental/squirrel/tree_builder.cc:443-450),
  but gradients are never masked by the draw. A bucket counts the rows that the holder of its feature drew, a
  leaf's weight comes from the rows that the holder of the first feature drew (`LeafSums`), and a prediction is
  updated only for rows that both parties drew (`UpdatePrediction`). So the prediction of a training row differs
  from inference by exactly the value of the trees it missed (`BoostThenInfer`). For given draws and splits the two
  agree whatever the leaf weights are if and only if both parties draw the row in every round, that is, if every
  coin for it is below the sampling rate (`AgreesIff`). `UndrawnRowStaysBehind`: at a rate of 0.5 a coin of 0.7
  leaves the prediction at 0 where inference returns 5.
- `broadcast_to` reuses strides (src/libspu/core/ndarray_ref.cc:240-263), which is a broadcast if and only if
  every stretched axis has stride 0 (`BroadcastIffStretchedAreZero`). A slice that keeps one element of a
  longer span does not establish this (`SliceUnitStrides` says exactly when), and
  `SliceThenBroadcastLeavesTheArray` is a concrete array on which slice then broadcast leaves the array.
- `reverse` moves the offset again for an axis named again (src/libspu/core/ndarray_ref.cc:353-357). The result is
  the reversed array if and only if `RepeatsHarmless` holds: axes named an even number of times do not move the
  address and the repeated parts of the offset cancel (`ReverseIffHarmless`). Distinct axes always qualify; the
  axes 0, 0 on two elements do not, and the result starts behind them (`ReverseTwiceLeavesTheArray`).
- `update_slice` and `copy_slice` copy element by element (src/libspu/core/ndarray_ref.cc:223-238 and 547-553).
  Between overlapping arrays this gives the value's old elements, whatever they are, if and only if no step
  overwrites with another element a place that a later step reads (`SliceRightIff` for two base indices,
  `UpdateRightIff` for a window). Writing the first two of 1, 2, 3 one place further leaves 1, 1, 1
  (`OverlappingUpdateGoesWrong`).
- `fixed2half` with a sticky bit and an unnormalised significand shifts zeros above the sticky bit
  (src/libspu/core/half.h:986-995). It rounds correctly if and only if the significand has enough bits or the
  exponent is small enough (`DeepEnough`, `Fixed2HalfNormalizing`); otherwise three quarters above the significand
  are always rounded wrongly (`ShallowFails`).
- `unpack` counts from address 0 with compact strides and ignores the offset and the strides of its argument
  (src/libspu/core/ndarray_ref.h:388-407). The parts are the argument's consecutive contents, whatever they are,
  if and only if the argument itself lies compactly from address 0 on (`UnpackRightIff`);
  `UnpackIgnoresTheOffset` is a view on which the part shows other elements.
- With one group `groupby_agg_postprocess` returns the last row it is given, which after the shuffle is any row
  (spu/ops/groupby/postprocess.py:38-39). It is the group's aggregate if and only if the last row carries the end
  mark or the aggregate is zero (`OneGroupIff`); `OneGroupGoesWrong` is a table and a shuffle that return 0 for 3.
- `view_key_postprocessing` drops the first key when there are more keys than groups, taking it for the zero
  padding (spu/ops/groupby/postprocess.py:43-48). That is right if and only if `PaddingHarmless` holds: no
  padding row, or a zero key in the table, or every key above zero (`ViewKeysCorrectIff`); `NegativeKeyLost` is a
  table on which a real key is dropped.

## Model

| member | source | states |
|---|---|---|
| `Boosting.BoostThenInfer` | experimental/squirrel/tree_builder.cc:105-165 | After any number of rounds of InitGradients, BuildTree and UpdatePrediction, reconstructed prediction of row i plus the value of the trees it was not drawn for is congruent to its initial value plus the reconstructed result of Inference on row i; the two are equal when the row is always drawn, as it is without sub-sampling |
| `Boosting.AgreesIff` | experimental/squirrel/tree_builder.cc:124-165 | In a ring of at least two elements training and inference give a row the same value for all leaf weights if and only if both parties' coins draw it in every round |
| `Boosting.UndrawnRowStaysBehind` | experimental/squirrel/tree_builder.cc:443-450 | At a rate of 0.5 and coins 0.7 and 0.2 a concrete row's prediction grows by 0 where inference returns 5 |
| `Boosting.SampledIff` | experimental/squirrel/tree_builder.cc:443-450 | Both parties draw a row exactly when each one's coin is below its rate or it does not sub-sample |
| `Boosting.Boost` | experimental/squirrel/tree_builder.cc:105-165 | Whole run: inner node n of tree t is split by the feature and threshold of its chosen bucket `buckets(t, n)`; prediction of every training row equals initial value plus the values for that row of the trees of the rounds in which both parties drew it; every stored tree is complete and matched between the parties |
| `Boosting.BoostRound` | experimental/squirrel/tree_builder.cc:105-165 | One round keeps that invariant: the new tree is added to the forest and earlier trees keep their value |
| `Boosting.BuildTree` | experimental/squirrel/tree_builder.cc:105-121 | One new tree is appended, earlier trees and weights stay; every inner node n is split by the feature and threshold of its chosen bucket `buckets(n)`, at the party that holds it; final state has one indicator, gradient and histogram per leaf; the sums read for every leaf are the totals of the leaf rows that the holder of the first feature drew |
| `Boosting.GrowLevels` | experimental/squirrel/tree_builder.cc:114-116 | After all levels the state invariant holds for exactly the leaf level and every node above it is split at its chosen bucket |
| `Boosting.LeafSums` | experimental/squirrel/tree_builder.cc:174-195 | Reading only the first feature's last bucket yields, for every leaf, the sum of root gradients over the leaf's rows drawn by that feature's holder |
| `Boosting.UpdatePrediction` | experimental/squirrel/tree_builder.cc:124-165 | For any stored tree index, every row drawn by both parties grows by that index's weight of the leaf the row reaches in the tree built last, whose indicators are left over; other rows keep their prediction |
| `Boosting.ConcatIndicators` | experimental/squirrel/tree_builder.cc:137-153 | Stretch k of the buffer holds leaf k's indicator, with an empty indicator standing for all ones |
| `Boosting.PathIndicators` | experimental/squirrel/tree_builder.cc:468-498 | Bit l says whether the party's own splits allow the row to reach leaf l, for any depth |
| `Boosting.Inference` | experimental/squirrel/tree_builder.cc:454-507 | The two result shares sum to the value of the plain forest on the joint row |
| `Boosting.ReduceSum` | experimental/squirrel/utils.cc:33-56 | Result is congruent to the sum of all entries |
| `Boosting.LeafSumIsTreeValue` | experimental/squirrel/tree_builder.cc:496-506 | Summing weight times AND of both path bits over all leaves picks exactly the weight of the leaf an ordinary tree walk reaches |
| `Boosting.LevelPartitionsSamples` | experimental/squirrel/tree_builder.cc:391-416 | In a trained state both stored indicators mark a drawn row at exactly one node of each level, the one inference walks to, and a row that a party did not draw at none |
| `Boosting.LevelGradientsSumToRoot` | experimental/squirrel/tree_builder.cc:418-424 | Reconstructed gradients of a level's nodes sum, row by row, to the root's gradient |
| `Boosting.SampledPlusMissed` | experimental/squirrel/tree_builder.cc:443-450 | The trees a row was drawn for and the trees it missed together make up the forest's value; nothing is missed by a row that is always drawn |
| `TreeTraining.TrainLevel` | experimental/squirrel/tree_builder.cc:255-346 | Keeps the level invariant: exactly the level's nodes have indicators, gradients and histograms, all equal to their direct recomputation; the level's nodes are split at their chosen buckets; the leaf level is not split |
| `TreeTraining.LevelHistograms` | experimental/squirrel/tree_builder.cc:276-312 | After the loop the histogram cache holds exactly this level's nodes, parents erased, each entry equal to the sum over the node's rows at or below the bucket that the bucket's holder drew |
| `TreeTraining.HistogramStep` | experimental/squirrel/tree_builder.cc:276-312 | One pass stores a left child and its sibling and erases the parent; the sibling got by subtraction equals recomputation |
| `TreeTraining.StoreHistogram` | experimental/squirrel/tree_builder.cc:291-311 | The new cache: left entry, parent minus left for the sibling when there is a parent, parent removed, the rest unchanged |
| `TreeTraining.GradientSums` | experimental/squirrel/tree_build_worker.cc:102-188 | Shares of every bucket of both parties' features sum to the node's root gradients over the rows at or below that bucket's threshold that the holder's indicator selects |
| `TreeBuilder.SplitLevel` | experimental/squirrel/tree_builder.cc:348-428 | From one entry per node of the level to one per child: gradients masked by the joint path, indicators following the draw and the split lists, split lists grown alike on both sides, entry n being the split of the chosen bucket of node n |
| `TreeBuilder.SplitNext` | experimental/squirrel/tree_builder.cc:362-427 | One pass of the loop keeps the half-split level invariant and records the split of the given bucket for its node |
| `TreeBuilder.SplitNode` | experimental/squirrel/tree_builder.cc:370-426 | One node is replaced by two children whose indicators and gradients meet the node invariant, whichever party holds the feature; the recorded split is that of the given bucket |
| `TreeBuilder.SplitIndicators` | experimental/squirrel/tree_builder.cc:382-412 | For a joint bucket below rank 0's count the split is rank 0's feature bucket / B at threshold bucket % B and the other party records none, otherwise rank 1's with the remaining number; both parties' child indicators equal the rows their extended split lists allow |
| `TreeBuilder.HasThresholdIff` | experimental/squirrel/tree_build_worker.h:75-79 | A joint bucket can be chosen if and only if a split with its feature and threshold exists |
| `TreeBuilder.DrawnIff` | experimental/squirrel/tree_builder.cc:443-450 | A row is drawn if and only if its coin is below the rate or there is no sub-sampling |
| `TreeBuilder.SplitByHolder` | experimental/squirrel/tree_builder.cc:382-416 | The holder splits its indicator by the threshold, the other party copies its own |
| `TreeBuilder.SplitGradients` | experimental/squirrel/tree_builder.cc:404-426 | Left shares sum to the parent times the holder's bits, right shares are parent minus left, parents are removed |
| `TreeBuilder.UpdateGradient` | experimental/squirrel/tree_builder.cc:241-253 | Result shares sum to the reconstructed gradient times the private bit |
| `TreeBuilder.ChildIndicators` | experimental/squirrel/tree_builder.cc:393-399 | Left and right bits partition the parent's rows by the threshold bit |
| `TreeBuilder.XGBTreeBuilder.InitGradients` | experimental/squirrel/tree_builder.cc:430-452 | Caches hold exactly the root; its indicator is empty without sub-sampling and otherwise marks exactly the rows whose coin is below the rate; trees and weights are kept |
| `TreeBuilder.XGBTreeBuilder.HolderIndicators` | experimental/squirrel/tree_builder.cc:382-402 | Bits mark exactly the rows left of the chosen bucket; the split info is the bucket's feature and threshold |
| `TreeBuilder.XGBTreeBuilder.FollowerIndicators` | experimental/squirrel/tree_builder.cc:406-413 | Both children get the parent's indicator, the parent's entry is removed |
| `TreeBuilder.XGBTreeBuilder.StoreSplit` | experimental/squirrel/tree_builder.cc:418-426 | Left and right gradients replace the parent's and the split is appended to the last tree only |
| `TreeSpec.PathsMeetOnce` | experimental/squirrel/tree_builder.cc:468-498 | For any depth both parties' path indicators are both set at exactly one node of the level, the one a tree walk reaches |
| `TreeSpec.ReachingHolder` | experimental/squirrel/tree_builder.cc:391-402 | Training indicators of the holder's children are the rows inference sends there |
| `TreeSpec.ReachingFollower` | experimental/squirrel/tree_builder.cc:410-412 | Copying the indicator agrees with inference on the side that does not hold the feature |
| `TreeSpec.ChildrenPartition` | experimental/squirrel/tree_builder.cc:395-402 | Children of a node are disjoint and their union is the node |
| `TreeSpec.MaskLeft` | experimental/squirrel/tree_builder.cc:404-405 | Restricting masked shares by private bits masks them by the intersection |
| `TreeSpec.MaskRight` | experimental/squirrel/tree_builder.cc:418-420 | Parent minus left is the root masked by the set difference |
| `TreeSpec.SumsOfMasked` | experimental/squirrel/tree_build_worker.cc:127-147 | Summing masked shares over a set equals summing the root over its intersection with the node |
| `TreeSpec.SiblingHistogram` | experimental/squirrel/tree_builder.cc:300-311 | Parent histogram minus left histogram is the histogram of the sibling computed from its own rows, for both parties' counted rows |
| `TreeSpec.LastBucketIsTotal` | experimental/squirrel/tree_builder.cc:181-191 | The last bucket of every feature holds the total of the node's rows that the feature's holder counts |
| `Worker.XGBTreeBuildWorker.BuildMap` | experimental/squirrel/tree_build_worker.cc:68-100 | Succeeds exactly when every column can be binned; then bucket rows hold the stored bin numbers, and they partition the samples by the fitted thresholds if and only if no number was cut to 16 bits, so always up to 65536 buckets |
| `Worker.MapOkIffShort` | experimental/squirrel/tree_build_worker.cc:68-100 | The stored map is the true bucket map if and only if every column's bin numbers fit 16 bits |
| `Worker.FilledIffShort` | experimental/squirrel/tree_build_worker.cc:85-95 | The stored rows of one feature are its true bucket rows if and only if none of its bin numbers is cut |
| `Worker.XGBTreeBuildWorker.PotentialLeftIndicator` | experimental/squirrel/tree_build_worker.cc:200-223 | Marks exactly the rows in buckets up to the target; the check that a sample is hit once never fires |
| `Worker.SplitIsLeft` | experimental/squirrel/tree_build_worker.cc:190-223 | A row is marked left in training if and only if its value is at most the threshold SplitInfo hands to inference |
| `Worker.ThresholdRead` | experimental/squirrel/tree_build_worker.cc:190-198 | There is a split for a bucket exactly when its feature, the quotient by the bucket size, has a threshold with the remainder's number, and it is that one |
| `Worker.LeftSetIsComparison` | experimental/squirrel/tree_build_worker.cc:212-221 | Buckets up to k hold exactly the samples with value at most threshold k |
| `Worker.LastBucketHoldsAll` | experimental/squirrel/tree_build_worker.cc:153-159 | Buckets up to the last hold every sample, even when there are fewer thresholds than buckets |
| `Worker.SumBuckets` | experimental/squirrel/tree_build_worker.cc:127-167 | After accumulation each bucket's shares sum to the selected samples at or below it |
| `Worker.AccumulateHistogram` | experimental/squirrel/tree_build_worker.cc:225-243 | Every entry becomes the prefix sum within its own feature, in place, modulo m |
| `Worker.AccumulateFeature` | experimental/squirrel/tree_build_worker.cc:236-240 | The inner loop turns one stretch into its prefix sums and leaves the rest alone |
| `Worker.RowArithmetic` | experimental/squirrel/tree_build_worker.cc:194-195 | Stepwise feature and bucket numbers are the quotient and remainder by the bucket size |
| `Binning.Binner.constructor` | experimental/squirrel/binning.cc:44-46 | Stores the number of buckets (at least 3) with no thresholds yet |
| `Binning.Binner.Fit` | experimental/squirrel/binning.cc:51-111 | Fails exactly on empty or category-free input; otherwise thresholds are strictly increasing, at most nbuckets, end in infinity, and are the categories if there are at most nbuckets of them and otherwise the quantile cuts fixed by the sorted column; more than nbuckets values, none within 1e-10 of another, are cut into stretches of floor(n / nbuckets) or ceil(n / nbuckets) samples |
| `Binning.Binner.Scan` | experimental/squirrel/binning.cc:59-96 | The skip-ahead loop ends with the categories and the cuts that the sorted column fixes, although it skips samples |
| `Binning.QuantileThresholdsUnique` | experimental/squirrel/binning.cc:79-96 | Cutting each time at the first sample at or after the quantile target that differs from the value kept last leaves one possible threshold list per column |
| `Binning.TargetMeans` | experimental/squirrel/binning.cc:85-87 | The target of the next cut is the first position that leaves the bins before it an equal share of the remaining samples, as a pair of products |
| `Binning.SoonAfterShare` | experimental/squirrel/binning.cc:79-96 | In any column a cut lies at its share or after it, and from the share up to the cut the samples differ by less than 1e-10 |
| `Binning.EvenCuts` | experimental/squirrel/binning.cc:79-96 | Without close values all nbuckets - 1 cuts are made, each exactly at its share, and the stretches between them hold floor(n / nbuckets) or ceil(n / nbuckets) samples |
| `Binning.Binner.Transform` | experimental/squirrel/binning.cc:113-124 | Each value gets its lower-bound bin, cut to 16 bits |
| `Binning.LowerBoundIsTheBin` | experimental/squirrel/binning.cc:117-121 | The lower bound is the one bin i with thr[i-1] below x and x at most thr[i] |
| `Binning.SixteenBitBins` | experimental/squirrel/binning.cc:121 | The 16-bit cast is harmless for all values if and only if there are at most 65536 thresholds |
| `Binning.LargeBinIsCut` | experimental/squirrel/binning.cc:121 | With 65537 thresholds a value above the last finite one belongs to bin 65536 and is put into bin 0, which does not contain it |
| `Binning.ValuesShareIff` | experimental/squirrel/binning.cc:98-121 | With the categories as thresholds two values share a bin if and only if no category but the smallest lies between them |
| `Binning.CategoriesShareIff` | experimental/squirrel/binning.cc:98-121 | Two categories share a bin if and only if they are the two smallest |
| `Binning.LastBinEmptyIff` | experimental/squirrel/binning.cc:98-121 | The last bin receives no sample if and only if none lies above the last category |
| `Binning.ZeroAndOneShareABin` | experimental/squirrel/binning.cc:98-121 | The column 0, 1 has two categories that both fall into bin 0 |
| `Binning.LargestDoubleHasNoCategory` | experimental/squirrel/binning.cc:67-77 | A column of the largest double alone has no category |
| `Binning.CategoriesShape` | experimental/squirrel/binning.cc:67-77 | Categories are strictly increasing sample values, and there are none exactly when the smallest value is within EPS of the largest double |
| `Binning.CategoriesCover` | experimental/squirrel/binning.cc:67-77 | Categories start with the smallest sample, lie at least 1e-10 apart, and every sample is less than 1e-10 above one |
| `Binning.ChosenThresholds` | experimental/squirrel/binning.cc:98-108 | Whichever list is chosen has at most nbuckets - 1 strictly increasing sample values, so the final check never fires |
| `BinMatVec.LocInjective` | experimental/squirrel/bin_matvec_prot.cc:219-241 | Locations are in range and distinct for distinct samples, for every n and power-of-two degree |
| `BinMatVec.GapIsEven` | experimental/squirrel/bin_matvec_prot.cc:230-232 | The gap times the one power of two from n up to 2n - 1 is the degree |
| `BinMatVec.IndexMapper.constructor` | experimental/squirrel/bin_matvec_prot.cc:219-234 | Gaps are the degree over the power of two that is at least each batch length and less than twice it |
| `BinMatVec.IndexMapper.MapToLoc` | experimental/squirrel/bin_matvec_prot.cc:236-241 | Returns the sample's batch and coefficient |
| `BinMatVec.EncodeVectorToPoly` | experimental/squirrel/bin_matvec_prot.cc:596-617 | Entry i sits at coefficient i times the gap and all other coefficients are zero |
| `BinMatVec.DecodePolyToVector` | experimental/squirrel/bin_matvec_prot.cc:619-640 | Entry i is read from coefficient i times the gap |
| `BinMatVec.EncodeDecode` | experimental/squirrel/bin_matvec_prot.cc:596-640 | Decoding an encoded vector gives it back, for every length from 1 to the degree |
| `BinMatVec.ShareToPolys` | experimental/squirrel/bin_matvec_prot.cc:656-671 | Each sample's reconstructed value is found exactly where the index mapper looks for it |
| `BinMatVec.PickThenSum` | experimental/squirrel/bin_matvec_prot.cc:250-267 | A row's accumulator is the sum over its selected samples, in any order of its columns |
| `BinMatVec.Multiply` | experimental/squirrel/bin_matvec_prot.cc:202-270 | With ideal encryption the two output shares sum to M times diag(indicator) times (v0 + v1) modulo m |
| `SecureMul.MulArithShareWithANDBoolShare` | experimental/squirrel/utils.cc:206-255 | Both parties' outputs sum to the reconstructed value times the AND of the two bits |
| `SecureMul.BatchMulArithShareWithANDBoolShare` | experimental/squirrel/utils.cc:258-280 | Block w of the output is value w times the AND of the bits of block w |
| `SecureMul.MulArithShareWithPrivateBoolean` | experimental/squirrel/utils.cc:128-158 | Outputs sum to the reconstructed value times one party's private bit |
| `SecureMul.TwoTransfers` | experimental/squirrel/utils.cc:229-249 | The two correlated transfers and the subtraction compose to the product for any masks |
| `Shape.UnflattenInBounds` | src/libspu/core/shape.cc:48-67 | Unflattening a position gives an in-range index that flattens back to it |
| `Shape.FlattenInverse` | src/libspu/core/shape.cc:48-67 | Flattening an in-range index gives a position that unflattens back to it |
| `Shape.CompactDot` | src/libspu/core/shape.cc:32-46 | The dot product with compact strides, zeros on unit axes included, is the row-major position |
| `Shape.MakeCompactStrides` | src/libspu/core/shape.cc:32-46 | The two loops compute the row-major strides with unit axes set to 0 |
| `Shape.UnflattenIndex` | src/libspu/core/shape.cc:60-67 | The loop computes the row-major index |
| `Shape.BumpIndices` | src/libspu/core/shape.h:155-169 | Moves to the next row-major position; false exactly at the last one |
| `Reshape.AttemptNocopyReshape` | src/libspu/core/ndarray_ref.cc:44-116 | Succeeds if and only if some strides keep every address; then every flat position has the same address under old and new layout, and unit axes get stride 0 |
| `Reshape.MatchGroup` | src/libspu/core/ndarray_ref.cc:76-86 | The two-pointer loop ends inside both shapes with equal products and no earlier common product |
| `Reshape.CanCombine` | src/libspu/core/ndarray_ref.cc:88-94 | True exactly when the group of old axes is contiguous |
| `Reshape.GroupStrides` | src/libspu/core/ndarray_ref.cc:96-100 | The new group is contiguous from the old group's last stride, other strides untouched |
| `Reshape.UnmergeableIsContiguous` | src/libspu/core/ndarray_ref.cc:76-94 | Two layouts of equal addresses that share no inner boundary force the old axes to be contiguous |
| `Reshape.GroupBlocks` | src/libspu/core/ndarray_ref.cc:88-94 | A group that is not contiguous rules out every choice of new strides, so giving up is right |
| `Reshape.CanUseFastIndexing` | src/libspu/core/ndarray_ref.cc:118-153 | When it returns a stride s, position p lies at p times s for all p; when it refuses a non-empty shape no such stride exists |
| `Reshape.LinearFlattens` | src/libspu/core/ndarray_ref.h:198-205 | A fast-indexed array always flattens without a copy |
| `Views.SliceIsView` | src/libspu/core/ndarray_ref.cc:290-319 | Element idx of a slice is element start + idx * step of the base, and every such element before the end is shown |
| `Views.SliceExtentIff` | src/libspu/core/ndarray_ref.cc:305-313 | i is below the extent of a slice if and only if start + i * step is before the end |
| `Views.SliceShows` | src/libspu/core/ndarray_ref.cc:290-319 | In plain coordinates: index i shows the base element at start + i * step, which is in range |
| `Views.WholeSlice` | src/libspu/core/ndarray_ref.cc:290-319 | The slice from the first to the last element is the array itself |
| `Views.TransposeIsView` | src/libspu/core/ndarray_ref.cc:333-347 | Element idx of a transpose is the element with permuted index |
| `Views.TransposeShows` | src/libspu/core/ndarray_ref.cc:333-347 | In plain coordinates: an element at b is shown at the index with entries b[perm[k]], in range exactly together |
| `Views.ReverseIffHarmless` | src/libspu/core/ndarray_ref.cc:349-361 | The reversed view is right if and only if repeated axes are harmless; distinct axes always are |
| `Views.ReverseShows` | src/libspu/core/ndarray_ref.cc:349-361 | In plain coordinates: along distinct axes index i shows n - 1 - i, along the others i |
| `Views.ReverseTwiceLeavesTheArray` | src/libspu/core/ndarray_ref.cc:349-361 | Two elements reversed along axes 0, 0 give a layout that starts outside the two |
| `Views.BroadcastIsView` | src/libspu/core/ndarray_ref.cc:240-263 | With stride 0 on stretched axes, a broadcast reads the base element with those axes dropped |
| `Views.BroadcastShows` | src/libspu/core/ndarray_ref.cc:240-263 | In plain coordinates: old axes are the named ones or, without names, the last ones of the new shape, and axes of size 1 show their one element |
| `Views.BroadcastIffStretchedAreZero` | src/libspu/core/ndarray_ref.cc:240-263 | A broadcast to a non-empty shape is right if and only if every stretched axis has stride 0 |
| `Views.SliceUnitStrides` | src/libspu/core/ndarray_ref.cc:307-314 | A slice sets the strides of its unit axes to 0 except exactly where it keeps one element of a longer span |
| `Views.SliceThenBroadcastLeavesTheArray` | src/libspu/core/ndarray_ref.cc:307-314 | A concrete slice and broadcast that address memory outside the base array |
| `Views.ReshapeIsView` | src/libspu/core/ndarray_ref.cc:265-288 | A no-copy reshape reads the element at the same row-major position |
| `Views.ViewKeepsNoClash` | src/libspu/core/ndarray_ref.cc:290-361 | Views keep the property that two indices share an address only if they agree on every axis of non-zero stride |
| `Views.CompactNoClash` | src/libspu/core/ndarray_ref.cc:181-188 | Freshly allocated arrays have that property |
| `Views.AddressesDistinct` | src/libspu/core/ndarray_ref.cc:494-513 | Once no stretched axis is left, distinct indices have distinct addresses |
| `Views.ChainReads` | src/libspu/core/ndarray_ref.cc:240-361 | From an array whose unit axes have stride 0, any chain of the strides the code computes, with no slice that keeps one element of a longer span and no axis reversed twice, is a chain of true views and reads the base element at the composed index |
| `Views.ChainNoClash` | src/libspu/core/ndarray_ref.cc:240-361 | Along such a chain two indices share an address only if they agree on every axis of non-zero stride |
| `Views.ComputesViewIff` | src/libspu/core/ndarray_ref.cc:240-361 | What each operation computes is the promised view if and only if it stretches axes of stride 0 only and repeats reversed axes harmlessly |
| `Views.ComputedChainIff` | src/libspu/core/ndarray_ref.cc:240-361 | A chain of computed layouts is a chain of true views if and only if every step meets that condition |
| `Views.StepUnitStrides` | src/libspu/core/ndarray_ref.cc:240-361 | Every operation with plain arguments keeps stride 0 on unit axes, and then the step is a true view |
| `Copying.CopyRightIff` | src/libspu/core/ndarray_ref.cc:229-237 | The copy loop over any two lists of places in one buffer puts the original elements in place for all contents if and only if no step changes what a later step reads |
| `Copying.CleanCopy` | src/libspu/core/ndarray_ref.cc:223-238 | For any element type, a copy that changes nothing still to be read leaves the buffer that writing the original elements leaves |
| `NdArray.NdArrayRef.constructor` | src/libspu/core/ndarray_ref.cc:158-168 | The array has the given layout, any strides inside the buffer; fast indexing is off only when no linear stride exists |
| `NdArray.NdArrayRef.Allocate` | src/libspu/core/ndarray_ref.cc:181-188 | A fresh compact array over a fresh buffer of numel elements |
| `NdArray.NdArrayRef.AtPos` | src/libspu/core/ndarray_ref.h:171-190 | Fast and slow path both return the row-major element |
| `NdArray.NdArrayRef.Slice` | src/libspu/core/ndarray_ref.cc:290-319 | Rejected exactly when the checks fail; otherwise a view of the same buffer with the slice's elements, all of start, start + step and so on before the end |
| `NdArray.NdArrayRef.Transpose` | src/libspu/core/ndarray_ref.cc:333-347 | Rejected exactly when the axes are not a permutation; otherwise the transposed view |
| `NdArray.NdArrayRef.Reverse` | src/libspu/core/ndarray_ref.cc:349-361 | Rejected exactly for axes out of range; otherwise the layout the loop computes, which is the reversed view if and only if repeated axes are harmless |
| `NdArray.NdArrayRef.BroadcastTo` | src/libspu/core/ndarray_ref.cc:240-263 | Rejected exactly for dimensions out of range; otherwise the layout the loop computes, which is the broadcast view if and only if nothing is shown or every stretched axis has stride 0 |
| `NdArray.NdArrayRef.Reshape` | src/libspu/core/ndarray_ref.cc:265-288 | Keeps the row-major contents on every path, and shares the buffer if and only if strides exist |
| `NdArray.NdArrayRef.Clone` | src/libspu/core/ndarray_ref.cc:207-221 | A compact copy with the same contents in a fresh buffer |
| `NdArray.NdArrayRef.EliminateZeroStride` | src/libspu/core/ndarray_ref.cc:494-513 | Contents kept, no axis longer than 1 has stride 0; unchanged if that held before |
| `NdArray.NdArrayRef.UpdateSlice` | src/libspu/core/ndarray_ref.cc:515-554 | Exactly the window takes the value's elements and every other logical element keeps its own, if the value is single, in another buffer, or not disturbed before it is read; false exactly when the window does not fit |
| `NdArray.CopyElements` | src/libspu/core/ndarray_ref.cc:545-553 | Every element goes to its row-major place and nothing else changes; within one buffer every step reads what the earlier ones left |
| `NdArray.CopySlice` | src/libspu/core/ndarray_ref.cc:223-238 | The given number of elements goes, in row-major order, from the place of one base index to the place of the other |
| `NdArray.CleanWritten` | src/libspu/core/ndarray_ref.cc:545-553 | A clean copy between two layouts of one buffer writes the source's original elements |
| `NdArray.WrittenContents` | src/libspu/core/ndarray_ref.cc:223-238 | Copied elements replace exactly their stretch of the target's row-major contents |
| `NdArray.WindowWritten` | src/libspu/core/ndarray_ref.cc:540-553 | Writes through a window view change exactly the window of the base's logical contents |
| `NdArray.SameContents` | src/libspu/core/ndarray_ref.cc:265-288 | Layouts with equal flat addresses have equal contents |
| `NdArray.Iterator.constructor` | src/libspu/core/ndarray_ref.h:208-229 | Starts at the index's row-major position with matching pointer, or past the end when the index is out of range |
| `NdArray.Iterator.Deref` | src/libspu/core/ndarray_ref.h:234-239 | Reads the element at the iterator's position |
| `NdArray.Iterator.Next` | src/libspu/core/ndarray_ref.cc:556-576 | Moves to the next row-major position with the pointer matching the index, ending after exactly numel steps |
| `NdArray.Advance` | src/libspu/core/ndarray_ref.cc:556-576 | The stride-unwinding loop moves index and pointer together, and stops exactly after the last element |
| `NdArrayOps.Concatenate` | src/libspu/core/ndarray_ref.cc:383-412 | The result's axis is the sum of the pieces' and every cell holds the right element of the right piece |
| `NdArrayOps.FillPieces` | src/libspu/core/ndarray_ref.cc:397-410 | Writing the pieces one after the other fills every cell exactly from its piece |
| `NdArrayOps.Pack` | src/libspu/core/ndarray_ref.h:364-386 | The result is the row-major contents of all arrays end to end, with their shapes recorded |
| `NdArrayOps.Unpack` | src/libspu/core/ndarray_ref.h:388-407 | Rejected exactly on a size mismatch; otherwise one compact view of the buffer per shape from address 0 on, which show the array's consecutive contents when the array lies there itself |
| `NdArrayOps.UnpackRestores` | src/libspu/core/ndarray_ref.h:364-407 | Unpacking a packed buffer gives every array's contents back |
| `NdArrayOps.UnpackRightIff` | src/libspu/core/ndarray_ref.h:388-407 | The parts show the array's consecutive contents for all buffers if and only if the array lies compactly from address 0 on |
| `NdArrayOps.UnpackIgnoresTheOffset` | src/libspu/core/ndarray_ref.h:388-407 | A concrete view whose part shows other elements |
| `NdArrayOps.PackUnpack` | src/libspu/core/ndarray_ref.h:364-407 | Packing and then unpacking gives back every array, shape and elements |
| `NdArrayOverlap.SliceRightIff` | src/libspu/core/ndarray_ref.cc:223-238 | copy_slice of n elements between two arrays on one buffer, from and to any base indices, moves the source's original elements for all contents if and only if no step changes what a later step reads |
| `NdArrayOverlap.UpdateRightIff` | src/libspu/core/ndarray_ref.cc:515-554 | update_slice from a value on the same buffer gives the window the value's original elements and keeps the rest for all contents if and only if no step changes what a later step reads |
| `NdArrayOverlap.OverlappingUpdateGoesWrong` | src/libspu/core/ndarray_ref.cc:515-554 | Of 1, 2, 3 the first two written one place further leave 1, 1, 1 |
| `NdArrayPad.Expand` | src/libspu/core/ndarray_ref.cc:363-381 | Every cell of the fresh compact array equals the one input element |
| `NdArrayPad.Replicate` | src/libspu/core/ndarray_ref.cc:367-379 | Doubling copies fill the whole buffer with its first element |
| `NdArrayPad.DeducePadShape` | src/libspu/core/ndarray_ref.cc:26-40 | Every non-empty axis ends `high` places after the target of its last coordinate |
| `NdArrayPad.TargetOf` | src/libspu/core/ndarray_ref.cc:430-443 | Target index is low + i * (interior + 1); kept exactly when it is inside the result |
| `NdArrayPad.PaddedShows` | src/libspu/core/ndarray_ref.cc:26-40 | In plain coordinates: the extent is low + high + interior * (n - 1) + n, and input i stands at low + i * (interior + 1) where that is inside |
| `NdArrayPad.AllSurviveIff` | src/libspu/core/ndarray_ref.cc:26-40 | No input element is cut off if and only if no edge padding is negative |
| `NdArrayPad.TargetsDistinct` | src/libspu/core/ndarray_ref.cc:430-443 | Distinct inputs have distinct targets |
| `NdArrayPad.PadChunk` | src/libspu/core/ndarray_ref.cc:424-449 | A chunk adds exactly its own inputs, whatever chunks ran before |
| `NdArrayPad.Pad` | src/libspu/core/ndarray_ref.cc:414-452 | For any split into chunks every surviving input is at its target and every other cell holds the padding value, empty inputs included |
| `HalfRounding.RoundedIsCorrect` | src/libspu/core/half.h:909-932 | With true guard and sticky bits the rounding step returns the correctly rounded value in all four directions, carry into the exponent and overflow included |
| `HalfRounding.OverflowIsCorrect` | src/libspu/core/half.h:872-883 | The overflow result is correct rounding of every value of at least 2^16 |
| `HalfRounding.UnderflowIsCorrect` | src/libspu/core/half.h:889-898 | The underflow result is correct rounding of every positive value below 2^-25 |
| `HalfRounding.ExactIsRounded` | src/libspu/core/half.h:909-932 | A representable value rounds to itself in every direction |
| `HalfRounding.MagCompare` | src/libspu/core/half.h:909-932 | Bit patterns order as their magnitudes, so adding 1 moves to the next number |
| `HalfConvert.Fixed2Half` | src/libspu/core/half.h:979-996 | For a normalised fixed-point significand with any sticky bit the result is the correctly rounded value, subnormals included |
| `HalfConvert.Fixed2HalfNormalizing` | src/libspu/core/half.h:979-996 | When the significand still has to be normalised, the result is right for every exact value under its sticky bit if and only if the bit is clear, or the significand has 12 bits or the exponent is at most F - 11 (11 bits and F - 10 for the directed styles) |
| `HalfConvert.ShallowFails` | src/libspu/core/half.h:986-995 | Otherwise the exact significand plus three quarters is rounded wrongly in every style |
| `HalfConvert.Fixed2HalfSigned` | src/libspu/core/half.h:981-989 | The same for a significand given as a signed word |
| `HalfConvert.SignedWord` | src/libspu/core/half.h:982-986 | The signed value is the one number from -2^31 to 2^31 - 1 congruent to the word |
| `HalfConvert.Int2Half` | src/libspu/core/half.h:1210-1223 | Correct rounding of every integer in all directions; zero gives zero |
| `HalfConvert.Double2Half` | src/libspu/core/half.h:1129-1158 | Correct rounding of every finite double given by its two words; signed zeros and infinities; a NaN becomes the quiet NaN with its sign and its leading bits |
| `HalfConvert.Locate` | src/libspu/core/half.h:990-995 | Shifted-out bits give exactly the guard and sticky bit of the exact value |
| `HalfSqrt.SqrtFixed` | src/libspu/core/half.h:1842-1857 | For every even F the loop returns the integer square root m of the shifted radicand and the exact remainder R - m * m |
| `HalfSqrt.RootBits` | src/libspu/core/half.h:3754-3758 | r above m and r not zero are the guard and sticky bits of the root, stated by comparing squares, so without any root |
| `HalfSqrt.Sqrt` | src/libspu/core/half.h:3743-3760 | Correctly rounded root of every positive finite argument, by comparing squares and as rounding of any real root; zeros and infinity kept; the default NaN for negative arguments, a quiet copy for NaN |
| `HalfSqrt.RootRoundedMeaning` | src/libspu/core/half.h:3743-3760 | Where a real root exists, comparing squares is rounding that root, in every direction |
| `HalfSum.ShrJamIsJam` | src/libspu/core/half.h:3017-3021 | The sticky shift keeps the exact value between the same neighbours |
| `HalfSum.DifferenceNear` | src/libspu/core/half.h:3017-3030 | After sticky alignment the difference still locates the exact difference, through any cancellation |
| `HalfSum.Add` | src/libspu/core/half.h:2990-3040 | Correct rounding of the exact sum of all finite operands in all directions; a zero sum has the common sign of its operands, from opposite signs it is negative exactly toward negative infinity; infinities; NaN as a quiet copy of the first NaN operand |
| `HalfFma.Product` | src/libspu/core/half.h:3314-3320 | The 22-bit product significand and exponent represent the exact product, subnormal operands normalised |
| `HalfFma.Combine` | src/libspu/core/half.h:3327-3357 | Correct rounding of the exact sum or difference of product and addend, exact cancellation included |
| `HalfFma.Fma` | src/libspu/core/half.h:3279-3359 | Correct rounding of x * y + z with one rounding for all finite operands; zero results signed by product and addend in the same way; infinities, invalid products and NaN |
| `GroupByScan.CombineAssociative` | spu/ops/groupby/aggregation.py:148-151 | The row operation is associative on masks 0 and 1, for addition, maximum and minimum |
| `GroupByScan.AssociativeIff` | spu/ops/groupby/aggregation.py:148-151 | For all integer masks three rows may be bracketed either way if and only if the later masks are not both -1 or the first row changes nothing in the third |
| `GroupByScan.AggregateMeans` | spu/ops/groupby/aggregation.py:66-75 | Every column of an aggregate is the sum of the column, or an entry of it that no other exceeds, or that exceeds no other |
| `GroupByScan.BracketsDoNotMatter` | spu/ops/groupby/aggregation.py:43 | Every bracketing of a scan's prefix equals the sequential segmented fold |
| `GroupByScan.ScanIsFold` | spu/ops/groupby/aggregation.py:43 | Every entry of any associative scan is the sequential fold of its prefix |
| `GroupByScan.AggregatePermuted` | spu/ops/groupby/segmentation.py:61-63 | The direct aggregate does not depend on the order of the rows |
| `GroupBy.EndMarkAt` | spu/ops/groupby/segmentation.py:81-87 | A row is marked exactly when it is the last row or its key differs from the next row's |
| `GroupBy.PrefixAggregate` | spu/ops/groupby/aggregation.py:39-43 | The fold of a sorted prefix is the aggregate of the rows so far that share the key |
| `GroupBy.AggregatesAtEnds` | spu/ops/groupby/aggregation.py:39-46 | At a group's last row the result is the aggregate of the whole group, that is the sum, the largest or the smallest value of each column over the rows with the key; elsewhere zero |
| `GroupBy.EndsNumbered` | spu/ops/groupby/segmentation.py:76-77 | Segment numbers of the marked rows count 0, 1, 2 and so on |
| `GroupBy.FilterPermuted` | spu/ops/groupby/shuffle.py:32-44 | Filtering keeps the same rows whatever order they were shuffled to |
| `GroupBy.FinalLines` | spu/ops/groupby/postprocess.py:28-37 | After any shuffle, filter and sort by segment number, line j is the aggregate row of the j-th group |
| `GroupBy.EndKeys` | spu/ops/groupby/segmentation.py:69-87 | Keys at the marked rows are exactly the distinct keys in increasing order |
| `GroupBy.GroupByCorrect` | spu/ops/groupby/postprocess.py:28-37 | With more than one group, sort, marks, scan, shuffle and post-process give one row per distinct key, in key order, equal to the aggregate over the original rows: in each column the sum, the largest or the smallest value over the original rows with the key |
| `GroupBy.KeyRowMeans` | spu/ops/groupby/aggregation.py:66-75 | A row is the aggregate of a key if and only if the key occurs and every column is the sum, the largest or the smallest value over the rows with the key |
| `GroupBy.LessMeans` | spu/ops/groupby/segmentation.py:61-63 | One key precedes another if and only if it is smaller in the first column where they differ |
| `GroupBy.OneGroupIff` | spu/ops/groupby/postprocess.py:38-39 | With a single key and any shuffle the last opened row is the key's aggregate if and only if it carries the end mark or the aggregate is zero |
| `GroupBy.OneGroupGoesWrong` | spu/ops/groupby/postprocess.py:38-39 | Two rows of one key with the values 1 and 2, exchanged by the shuffle: the last row holds 0 where the sum is 3 |
| `GroupBy.CountsRows` | spu/ops/groupby/aggregation.py:78-84 | A key's result over a column of ones is the number of rows with that key, and there is one exactly when some row has it |
| `GroupBy.TransformBroadcasts` | spu/ops/groupby/aggregation.py:39-63 | The scan and then the reverse scan give every row the aggregate of all original rows with its key, column by column the sum, the largest or the smallest value |
| `GroupBy.ViewKeysCorrectIff` | spu/ops/groupby/postprocess.py:43-48 | The shown keys are the groups' keys if and only if the zero padding is harmless |
| `GroupBy.NegativeKeyLost` | spu/ops/groupby/postprocess.py:43-48 | A concrete table with a negative key whose key is dropped |
| `Bits.Log2CeilIsLeast` | src/libspu/core/bit_utils.h:28-30 | The result is the least exponent whose power of two reaches n |
| `Bits.LevelExchanges` | src/libspu/core/bit_utils.h:109-114 | One level moves every bit to the position with two adjacent position bits exchanged, for any width |
| `Bits.BitDeintl` | src/libspu/core/bit_utils.h:86-116 | Result bit i is the input bit named by the chain of exchanges from the stride up; over a whole word the result is the PEXT form, and for any number of bits so is every block of the least power of two that holds them |
| `Bits.DeintlInBlocks` | src/libspu/core/bit_utils.h:86-116 | For any number of bits every block of the least power of two that holds them is de-interleaved by itself |
| `Bits.IntlInBlocks` | src/libspu/core/bit_utils.h:132-162 | The same for interleaving |
| `Bits.BitIntl` | src/libspu/core/bit_utils.h:132-162 | Result bit i is the input bit named by the chain backwards; over a whole word the result is the PDEP form, and for any number of bits so is every block of the least power of two that holds them |
| `Bits.IntlDeintl` | src/libspu/core/bit_utils.h:86-162 | Interleaving and de-interleaving undo each other in both orders, for every stride and width |
| `Bits.IntlAfterDeintl` | src/libspu/core/bit_utils.h:86-162 | De-interleaving and then interleaving with the same arguments returns the word |
| `Bits.DeintlAfterIntl` | src/libspu/core/bit_utils.h:86-162 | Interleaving and then de-interleaving with the same arguments returns the word |
| `Bits.Placed` | src/libspu/core/bit_utils.h:70-82 | The chain puts the bits of the one kind, in order, in the lower half and those of the other kind in the upper half |
| `Bits.DeintlIsPext` | src/libspu/core/bit_utils.cc:21-35 | The swap network equals extraction by the stride mask and its complement, for any width |
| `Bits.IntlIsPdep` | src/libspu/core/bit_utils.cc:37-51 | The backward network equals deposit by the stride mask and its complement, for any width |
| `Bits.TablesAreMasks` | src/libspu/core/bit_utils.h:52-68 | Every number of both 128-bit tables is the mask of its level |
| `Bits.StrideTableIsMask` | src/libspu/core/bit_utils.cc:22-29 | Every number of the 64-bit table is the stride mask of its level |

## Left out

Squirrel:

- Binning.Binner: doubles are reals plus infinity, so `math_eq` compares exact differences with 1e-10; the largest finite double is the parameter `maxFinite`; NaN and minus infinity are not modelled.
- Boosting.BoostThenInfer: split choices are any buckets that have a threshold (the source throws on others); gain search, gradients and leaf weights are arbitrary inputs, since they come from fixed-point approximations.
- Boosting.UpdatePrediction: requires leaf weights of the right count, which the source enforces.
- TreeBuilder.XGBTreeBuilder: the sub-sampling coins are a parameter instead of a generator seeded with the time; the regularisation constant belongs to the unmodelled weight kernel.
- BinMatVec.Multiply: encryption is ideal and its error is 0; number-theoretic transforms, key switching and the choice of the number of packed ciphertexts are not modelled.
- SecureMul.CorrelatedOT: correlated transfer is an ideal call returning arbitrary shares of the product; tiling and message order are not modelled.
- TreeTraining.GradientSums: both parties' sends and receives run one after the other instead of in two threads.

n-d arrays:

- NdArray.NdArrayRef: addresses count elements instead of bytes; `as`, `linear_gather`, `linear_scatter`, `slice_scalar_at` and `makeConstantArrayRef` are not modelled.
- NdArray.NdArrayRef.constructor: requires the layout to lie inside the buffer; the source does not check it.
- NdArray.NdArrayRef.Slice: requires starts of at least 0 and steps of at least 1.
- NdArray.NdArrayRef.Transpose: requires axes below the rank; the source checks that they are distinct but not their range.
- NdArray.NdArrayRef.Reverse: with repeated axes, requires the computed layout to lie inside the buffer.
- NdArray.NdArrayRef.BroadcastTo: requires operand dimensions that fit the shape and a computed layout inside the buffer; the source does not check either.
- NdArray.NdArrayRef.UpdateSlice: requires a target that shares addresses only along zero strides, as every view of an allocated array does, and an in-range start for a single element, where the source dereferences a null iterator.
- NdArrayOps.Concatenate: the first array is copied by the same loop as the others; shapes must match outside the axis.
- NdArrayOps.Unpack: requires a buffer of at least as many elements as the array has.
- NdArrayPad.Expand: requires a target shape with elements; the source copies the first element in any case.
- NdArrayPad.Pad: result with elements, interior padding of at least 0; chunks of the parallel loop run one after the other in any order and any split.

Half precision:

- HalfConvert.Fixed2Half: requires an exponent of at least F - 41, below which the source shifts by the word size.
- HalfConvert.Double2Half: takes the two 32-bit words of the double.
- HalfFma.Fma: multiplication and division operators, transcendental functions, floating-point exceptions and the hardware and lookup-table conversion paths are not modelled.

Group-by:

- GroupBy.CountsRows: `groupby_mean`, `groupby_var` and the cleartext count are not modelled.
- GroupBy.GroupByCorrect: integers instead of fixed-point numbers; the branch for a `group_num` of 1 is `OneGroupIff`.

Bits:

- Bits.BitDeintl: words are sequences of `2^w` bits and PEXT/PDEP are defined by ranks; the `BitWidth` and `Log2Floor` templates are not modelled.
