# darktable base curve: a Dafny model

This project models the core of darktable's base curve image operation
(`src/iop/basecurve.c`). Three parts are covered.

- The tone mapping. Each colour sample goes through a 65536-entry lookup
  table below 1 and through an exponential extrapolation from 1 on.
- Exposure fusion. Several exposures of the same image are tone mapped and
  weighted by saturation, well-exposedness and local contrast. Each is
  decomposed into a Laplacian pyramid (built with a 5-tap Gaussian blur,
  reduce and expand). The pyramids are blended with their weights,
  normalised, and collapsed into one image.
- The bookkeeping around them. This is the migration of stored parameters
  from older versions, and the insertion and drag-deletion of curve nodes
  in the editor.

Images are `seq<seq<Pixel>>`, rows of RGBA pixels. Pixel (j, i) channel c
stands for the flat float buffer entry `4*(j*wd+i)+c`. Floating-point
values are modelled as `real`. The library functions the module calls
(`expf`, `powf` and `dt_iop_eval_exp`) are uninterpreted function-typed
parameters. Where a property needs something of them, it says so as a
hypothesis, for example `ExpBounded` (expf maps non-positive arguments
into [0, 1]) or `powf(2, 0) == 1`.

The modules follow the source:

- `ToneCurve`: apply_ev_and_curve and the non-fusion fast path.
- `Features`: compute_features.
- `Blur`: gauss_blur.
- `Pyramid`: gauss_reduce and gauss_expand.
- `Levels`: the choice of pyramid depth.
- `Fusion`: the fusion branch of process.
- `FusionProperties`: what fusion guarantees.
- `Params`: the parameter versions and legacy_params.
- `CurveEditor`: _add_node and the drag handler's deletion.
- `Common` and `Pixels`: helpers.

The main results:

- The blur's three border loops compute a reflected-border convolution
  (`Blur.BlurLine`).
- Expanding the coarse level and adding the detail gives back the input
  exactly (`Pyramid.ExpandPlusDetailIsInput`).
- With `expf` bounded and at least one exposure (`exposure_fusion >= 0`),
  every summed weight exceeds the 1e-8 normalisation threshold
  (`FusionProperties.NormalizationAlwaysDivides`). A negative
  `exposure_fusion` still takes the fusion branch but visits no exposure,
  so every weight is 0 and nothing is divided.
- Collapsing a pyramid blended from copies of one exposure returns that
  exposure (`FusionProperties.ReconstructIdentical`).
- With zero stops between exposures, fusion returns exactly the fast path
  (`FusionProperties.ZeroStopsFusionIsFastPath`).
- legacy_params accepts exactly the pairs 1→2, 1→3 and 2→3, and keeps the
  curves (`Params.LegacyParams`).
- Inserting and deleting nodes keeps the nodes ordered by x
  (`CurveEditor.InsertKeepsOrder`, `CurveEditor.DragKeepsStrictOrder`).

## Model

| member | source | states |
|---|---|---|
| ToneCurve.TableIndex | src/iop/basecurve.c:366 | the clamped truncated index lies in 0..0xffff; it is 0 for every non-positive sample and the floor of 65536 f for samples in [0, 1) |
| ToneCurve.TableIndexMonotone | src/iop/basecurve.c:366 | a larger sample never gets a smaller table index |
| ToneCurve.MapSample | src/iop/basecurve.c:363-369 | a sample below 1 reads the table at its clamped index; from 1 on it is the extrapolation when coefficients are present, and 1 when they are not |
| ToneCurve.MapSampleReadsOneSide | src/iop/basecurve.c:363-369 | a sample from 1 on does not depend on the table; a sample below 1 does not depend on the extrapolation or on whether coefficients are present |
| ToneCurve.MapSampleMonotone | src/iop/basecurve.c:363-366 | over a non-decreasing table the mapping of samples below 1 is non-decreasing |
| ToneCurve.ApplyEvAndCurve | src/iop/basecurve.c:345-372 | every colour sample is scaled by the gain and mapped; channel 3 of the output buffer keeps its previous contents |
| ToneCurve.FastPath | src/iop/basecurve.c:658-676 | channel 3 is copied from the input; each colour sample below 1 reads the table at its clamped index, and from 1 on always takes the extrapolation (there is no missing-coefficient case) |
| ToneCurve.FastPathIsUnitExposure | src/iop/basecurve.c:658-676 | the fast path equals apply_ev_and_curve with gain 1 and coefficients present, written over the input |
| Features.Saturation | src/iop/basecurve.c:389-391 | the saturation term is at least 0.1, and at most 5.1 when no channel is negative |
| Features.GreyDistance | src/iop/basecurve.c:394-396 | the result is the largest distance of a colour channel from 0.5: it is one of the three and at least each |
| Features.ExposednessArg | src/iop/basecurve.c:397-398 | the argument handed to expf is never positive |
| Features.FeatureWeightColourOnly | src/iop/basecurve.c:386-400 | the weight depends only on the colour channels |
| Features.FeatureWeightBounds | src/iop/basecurve.c:389-399 | with expf mapping non-positive arguments into [0, 1], the weight is at least 0.01, and at most 5.61 for non-negative colours |
| Features.ComputeFeatures | src/iop/basecurve.c:374-401 | colour channels are unchanged and channel 3 becomes the pixel's feature weight |
| Features.FeaturesIgnorePriorAlpha | src/iop/basecurve.c:345-401 | after compute_features the result does not depend on what channel 3 of the buffer held before apply_ev_and_curve |
| Blur.LeftIndex | src/iop/basecurve.c:418-420 | the left-border index MAX(-i-ii, i+ii) is in range and is the position reflected about sample 0 |
| Blur.RightIndex | src/iop/basecurve.c:426-428 | the right-border index is in range and is the position reflected about the half-sample past the end |
| Blur.BlurLine | src/iop/basecurve.c:415-429 | the three border loops, adding into a cleared buffer, give every sample the reference 5-tap reflected convolution |
| Blur.GaussBlurPasses | src/iop/basecurve.c:403-447 | the horizontal pass into tmp followed by the vertical pass computes the separable blur |
| Blur.GaussBlurPixel | src/iop/basecurve.c:403-447 | the blur is separable: each output pixel is the kernel applied down the reflected rows j-2 .. j+2 to those rows' horizontal blurs at column i |
| Blur.GaussBlurPreservesConstant | src/iop/basecurve.c:409-445 | the kernel sums to 1: a constant image is unchanged |
| Blur.GaussBlurColourOnly | src/iop/basecurve.c:418-444 | each channel is blurred on its own: images equal in colour blur to images equal in colour |
| Blur.GaussBlurAlphaAtLeast | src/iop/basecurve.c:409-445 | a lower bound on channel 3 survives the blur |
| Pyramid.Halve | src/iop/basecurve.c:455 | (n-1)/2+1 is the number of even indices below n |
| Pyramid.Subsample | src/iop/basecurve.c:483-484 | coarse pixel (j, i) is fine pixel (2j, 2i), which is always in range |
| Pyramid.Upsample | src/iop/basecurve.c:455-464 | even/even fine pixels are 4 times coarse pixel (j/2, i/2), which is in range; every other pixel is zero |
| Pyramid.SubsampleOfUpsample | src/iop/basecurve.c:455-484 | subsampling a zero-inserted image recovers 4 times the coarse image |
| Pyramid.GaussExpandFlat | src/iop/basecurve.c:449-468 | a flat coarse level expands to the same flat value at every fine pixel whose taps stay clear of the bottom and right borders: the gain of 4 exactly undoes the zero insertion |
| Pyramid.GaussReduce | src/iop/basecurve.c:470-510 | the coarse level has the halved size and holds the blurred even pixels; a detail level is present exactly when asked for |
| Pyramid.ExpandPlusDetailIsInput | src/iop/basecurve.c:502-509 | expanding the coarse level and adding the detail gives back the input |
| Pyramid.CoarseIndependentOfDetail | src/iop/basecurve.c:470-510 | asking for the detail does not change the coarse level |
| Pyramid.GaussExpandColourOnly | src/iop/basecurve.c:449-468 | the colour of an expanded level depends only on the colour of the coarse level |
| Pyramid.GaussReduceAlphaAtLeast | src/iop/basecurve.c:477-484 | a lower bound on channel 3 carries over to the coarse level |
| Levels.Radius | src/iop/basecurve.c:529 | the radius is the smaller of the width and the ceiling of 256 scale / iscale: at most each, equal to one of them, and more than the quotient minus 1 |
| Levels.LevelCount | src/iop/basecurve.c:525-544 | the count is where the loop first meets its break condition, or 8 |
| Levels.FirstStopFromStops | src/iop/basecurve.c:531-544 | the loop from level k passes every level before its end and breaks at the end unless it ran out of levels |
| Levels.LevelCountUnique | src/iop/basecurve.c:531-544 | the image size and radius determine the level count |
| Levels.LevelCountBounds | src/iop/basecurve.c:531-544 | every level after the first is at least 4 x 4, and with two or more levels the coarsest step is within the radius |
| Levels.SingleLevel | src/iop/basecurve.c:537-542 | a radius below 2, or a first reduction below 4 pixels, gives one level |
| Levels.SelectLevels | src/iop/basecurve.c:525-544 | the allocation loop returns the level count above and allocates each level at its halved size |
| Fusion.ExposureCount | src/iop/basecurve.c:546 | the loop visits exposure_fusion + 1 exposures, and none when that is not positive |
| Fusion.Modulate | src/iop/basecurve.c:563-564 | the colour is unchanged and each weight is multiplied by exactly 0.8 plus the squared magnitude of the detail pixel, so a non-negative weight keeps at least 0.8 of itself |
| Fusion.ExposureBaseProperties | src/iop/basecurve.c:549-564 | level 0 of an exposure has the colour of the tone-mapped input, and with expf bounded every weight is at least 0.008 |
| Fusion.LevelCountReducible | src/iop/basecurve.c:573-577 | every level that process reduces or expands into is at least 4 x 4 |
| Fusion.GaussPyramid | src/iop/basecurve.c:573-577 | level 0 is the base and level k is the coarse reduction of level k-1, each at its halved size |
| Fusion.GaussPyramidAlphaAtLeast | src/iop/basecurve.c:573-577 | a lower bound on the weights of level 0 holds at every level |
| Fusion.Laplacian | src/iop/basecurve.c:585-599 | the coarsest band is the coarsest Gaussian level itself; every finer band, added to the expansion of the next coarser Gaussian level, gives back its Gaussian level |
| Fusion.ContributionWeight | src/iop/basecurve.c:600 | channel 3 of what an exposure adds is its Gaussian weight |
| Fusion.BlendWeightIsWeightSum | src/iop/basecurve.c:600 | channel 3 of the blended pyramid is the sum of the exposures' weights |
| Fusion.WeightSumAtLeast | src/iop/basecurve.c:600 | weights of at least m >= 0 sum to at least m when there is an exposure, and to at least 0 otherwise |
| Fusion.BlendIdentical | src/iop/basecurve.c:590-601 | blending N copies of one exposure multiplies its contribution by N |
| Fusion.NormalizePixel | src/iop/basecurve.c:616-618 | above the threshold, the colour times the weight gives back the blended colour; otherwise the pixel is unchanged; the weight is always kept |
| Fusion.NormalizeWeighted | src/iop/basecurve.c:616-618 | a colour weighted by a weight above the threshold normalises back to the colour |
| Fusion.NormalizeLevel | src/iop/basecurve.c:616-618 | every pixel of the level is normalised on its own, by NormalizePixel's guarded division |
| Fusion.Reconstruct | src/iop/basecurve.c:607-632 | each collapsed level keeps its size and the summed weights in channel 3 |
| Fusion.ExposureContributions | src/iop/basecurve.c:546-602 | one contribution per visited exposure, each the weighted bands of that exposure's pyramid |
| Fusion.CopyOut | src/iop/basecurve.c:639-645 | the output has the colour of reconstructed level 0 and channel 3 of the input |
| Fusion.Fuse | src/iop/basecurve.c:521-656 | the fused output has the input's size and channel 3 |
| Fusion.Process | src/iop/basecurve.c:512-677 | both branches pass channel 3 of the input through and keep the image size |
| FusionProperties.ExposureWeightAtLeast | src/iop/basecurve.c:546-577 | with expf bounded, every weight at every level of every exposure is at least 0.008 |
| FusionProperties.BlendAboveThreshold | src/iop/basecurve.c:600-617 | weights above the threshold in one or more exposures blend to a summed weight above it |
| FusionProperties.NormalizationAlwaysDivides | src/iop/basecurve.c:546-618 | with expf bounded and at least one exposure, the guarded division of the normalisation happens at every pixel of every level |
| FusionProperties.ContributionPixel | src/iop/basecurve.c:594-600 | an exposure adds its band times its weight in colour, and its weight in channel 3 |
| FusionProperties.NormalizedBlendPixel | src/iop/basecurve.c:590-618 | a blend of copies of one weighted colour normalises back to the colour |
| FusionProperties.NormalizedBand | src/iop/basecurve.c:590-618 | normalising a blend of copies of one exposure gives the exposure's band at that level |
| FusionProperties.ReconstructLevel | src/iop/basecurve.c:620-631 | a restored band plus a correctly collapsed next level collapses to the Gaussian level |
| FusionProperties.CollapseRestores | src/iop/basecurve.c:607-632 | when every band from level k on is restored, collapsing from k gives the colour of Gaussian level k |
| FusionProperties.ReconstructIdentical | src/iop/basecurve.c:546-632 | blending copies of one exposure and collapsing gives back the colour of the exposure at every level |
| FusionProperties.ZeroStopsFusionIsFastPath | src/iop/basecurve.c:521-677 | with zero stops between exposures, fusion returns exactly the fast path |
| Params.V1Curve | src/iop/basecurve.c:91-97 | curve 0 holds the six version 1 nodes, then zero nodes |
| Params.V1ToV2 | src/iop/basecurve.c:84-101 | node counts 6, 3, 3, cubic spline then monotone Hermite, the six nodes in curve 0, and zeros in every other slot |
| Params.V1ToV3 | src/iop/basecurve.c:102-119 | as version 1 to 2: node counts 6, 3, 3, the two curve types, the six nodes in curve 0 and zeros in every other slot; and exposure fusion off with zero stops |
| Params.V2ToV3 | src/iop/basecurve.c:120-128 | exposure fusion off and zero stops; valid version 2 curves give valid version 3 curves |
| Params.LegacyParams | src/iop/basecurve.c:81-130 | over blobs of every old version, status 0 exactly for 1→2, 1→3 and 2→3 and status 1 for every other pair; the result has the requested layout; version 3 results have fusion off; version 2 fields and version 1 nodes are kept |
| Params.V2ToV3KeepsCurves | src/iop/basecurve.c:120-128 | dropping the new fields of upgraded version 2 parameters gives back the input |
| Params.V1RoutesAgree | src/iop/basecurve.c:84-128 | upgrading version 1 to 3 directly equals going through version 2 |
| CurveEditor.InsertPositionUnique | src/iop/basecurve.c:963-976 | the insert position is unique |
| CurveEditor.Inserted | src/iop/basecurve.c:977-983 | nodes before the position stay, the new node is at the position, the live nodes after it move up one slot, and the rest stay |
| CurveEditor.Removed | src/iop/basecurve.c:1023-1027 | nodes before the deleted one stay, the live nodes after it move down one slot, and the last live slot keeps its node |
| CurveEditor.AddNode | src/iop/basecurve.c:961-988 | the node goes to the first live node with larger x, or to the end; the count grows by one; the other nodes shift as in Inserted |
| CurveEditor.RemoveNode | src/iop/basecurve.c:1023-1027 | the deletion loop shifts the later live nodes down one slot |
| CurveEditor.InsertKeepsOrder | src/iop/basecurve.c:961-988 | inserting at the insert position keeps the live nodes ordered by x |
| CurveEditor.InsertKeepsStrictOrder | src/iop/basecurve.c:961-988 | inserting an x no live node has keeps the live nodes strictly ordered |
| CurveEditor.RemoveUndoesInsert | src/iop/basecurve.c:961-1027 | deleting the node just inserted gives back the live nodes as they were |
| CurveEditor.RemoveKeepsStrictOrder | src/iop/basecurve.c:1023-1029 | deleting a live node keeps the rest strictly ordered |
| CurveEditor.DragNode | src/iop/basecurve.c:1013-1030 | with more than two nodes, a node that reaches or passes a neighbour is deleted and the selection becomes -2; otherwise only the node moves |
| CurveEditor.DragKeepsStrictOrder | src/iop/basecurve.c:1013-1030 | with more than two nodes, a drag never breaks the strict order of the live nodes |

## Left out

- Floating-point rounding: all arithmetic is on reals. The (int) cast is truncation toward zero. The product `f * 0x10000ul` is exact.
- Out-of-range values: a float whose product with 0x10000 lies outside the int range makes the (int) cast undefined in C, where the model truncates and clamps as for any other sample (a large negative sample reads entry 0). NaN and infinities are not reals: a NaN sample fails `f < 1` and goes to the extrapolation in C, and a NaN weight fails the `> 1e-8` guard, neither of which the model can express. The loop bounds `4*wd*ht` (lines 563 and 639, the latter an int) are taken not to overflow.
- OpenMP parallelism: every parallel loop writes disjoint pixels, so the loops are modelled as sequential.
- The DEBUG_VIS visualisation, which is compiled out.
- process_cl, the OpenCL path; commit_params; the presets; the GTK drawing and event code; and the history items.
- The building of the lookup table and of the extrapolation coefficients (the spline code in commit_params). The table and coefficients are inputs. dt_iop_eval_exp, expf and powf are uninterpreted, and the curve code behind them is not part of this model.
- Buffer allocation and freeing. Aliased buffers (gauss_blur in place in gauss_expand, `out` as scratch) are modelled as values. The blur reads only its temporary buffer after the first pass, so the values are the same.
- The channel count: the model has 4 channels per pixel, and the fast path assumes roi_in equals roi_out.
- Fusion.Process: requires at least two levels and a 4 x 4 image in the fusion branch. The source writes level 1 of the colour pyramid (line 559) whatever the level count. With one level (see Levels.SingleLevel) that buffer is not allocated.
- Fusion.Fuse: states only the size and channel 3. The colour is characterised by FusionProperties.ReconstructIdentical and FusionProperties.ZeroStopsFusionIsFastPath, for the case where the exposures coincide.
- Fusion.WeightSumAtLeast: states a total of at least m rather than |cs| times m. That is all the threshold argument needs.
- Fusion.ExposureBase: channel 3 of the buffer before apply_ev_and_curve is taken to be the input's. FeaturesIgnorePriorAlpha shows the choice does not matter.
- Params.V1ToV2: the source writes a version 3 sized record in the 1→2 branch. The model keeps the version 2 fields, which are all a version 2 reader sees.
- Params: the values of CUBIC_SPLINE (0) and MONOTONE_HERMITE (2) come from curve_tools.h, which is not part of this model. Only their being distinct matters.
- CurveEditor: covers curve 0 only, as the editor does. It leaves out the mouse-to-curve mapping (to_lin, the log-log scale), the choice of the nearest node, and the history update.
