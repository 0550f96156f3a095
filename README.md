# Colour-histogram block classifier

This project models the recognition core of `camera.cpp`, a webcam program that
learns classes of objects from colour histograms and labels the blocks of each
frame with the nearest class:

- `ColorDistribution`, a 8×8×8 histogram over quantised RGB (`reset`, `add`,
  `finished`, `distance`), as a class over a 512-cell `array<real>`
  (`color_distribution.dfy`), specified by functions on sequences of cells
  (`histograms.dfy`);
- `getColorDistribution`, which samples a rectangle of a frame
  (`regions.dfy`);
- `minDistance`, the nearest-class scan, `recoObject` and
  `groupBlocksAndLabel` (`classifier.dfy`); the two sweeps answer the grid of
  class labels they would paint, -1 for a block left unpainted;
- `isSimilarToBackground`, the colour rejection test of new classes
  (`palette.dfy`);
- the class store that `main` updates on the keys `b` (background sweep),
  `a` (object capture), `n` (new class) and `c` (reset), as a class
  (`class_store.dfy`).

Pixels are `(b, g, r)` triples of bytes (`pixels.dfy`); a frame is an
`Image` value of `rows × cols` pixels indexed `at[y][x]`.

Where the behaviour the program describes and the code differ, the model
follows the code:

- the `b` key clears only `col_hists`; class 0 keeps its old prototypes and
  receives the new tiles after them (`ClassStores.ClassStore.CaptureBackground`);
- the `a` key replaces class 0, the background class, by the single object
  histogram, not a separate object slot (`ClassStores.ClassStore.CaptureObject`).

One place departs from the code on purpose: the colour test of `n`
(camera.cpp:118) subtracts colours with byte saturation rather than taking
their Euclidean distance, which can make the rejection loop of `n` run
forever. This is recorded under "## Findings". The store uses the corrected
test, and `ClassStores.CorrectedStopsNoLater` relates its colour draw to the
one the code makes.

`groupBlocksAndLabel` classifies each 4×4 macro-block by its top-left
sub-block alone; the model keeps that and proves it
(`Classifier.GroupGridSeesTopLeftOnly`).

## Model

| member | source | states |
|---|---|---|
| ColorDistributions.ColorDistribution.constructor | camera.cpp:16 | a new histogram has 512 zero cells and no samples |
| ColorDistributions.ColorDistribution.Reset | camera.cpp:20-23 | every cell is zero again and the sample count is 0 |
| ColorDistributions.ColorDistribution.Add | camera.cpp:26-32 | exactly the cell `[r/32][g/32][b/32]` of the colour grows by one, no other cell changes, and the count grows by one |
| ColorDistributions.ColorDistribution.Finished | camera.cpp:35-40 | every cell is divided by the sample count, which must be positive |
| ColorDistributions.ColorDistribution.Distance | camera.cpp:43-53 | the answer is the L1 distance between the two histograms' cells |
| Histograms.Level | camera.cpp:27-29 | the bin of a channel value v is the q below 8 with 32q ≤ v < 32q + 32 |
| Histograms.CellIndexInjective | camera.cpp:13 | distinct (r, g, b) bin triples occupy distinct cells of the flattened 8×8×8 array |
| Histograms.SameBinIffSameLevels | camera.cpp:26-30 | two colours fall in the same cell exactly when all three channel bins agree |
| Histograms.CountsSnoc | camera.cpp:30-31 | unfolding of the counts at their last sample, the step of one `add` that the row loop's proof uses: only that sample's cell grows by one |
| Histograms.CountsAreOccurrences | camera.cpp:26-31 | after a run of `add`, each cell holds the number of samples whose bin it is |
| Histograms.CountsNonNegative | camera.cpp:26-31 | cells filled by `add` are never negative |
| Histograms.SumOfCounts | camera.cpp:26-31 | the cells filled by `add` sum to the sample count `nb` |
| Histograms.SumNormalised | camera.cpp:35-40 | dividing every cell by n divides their total by n |
| Histograms.HistogramOfSamples | camera.cpp:56-65 | the normalised histogram of at least one sample is a probability distribution: 512 non-negative cells summing to 1 |
| Histograms.UniformCounts | camera.cpp:26-31 | n samples of one colour put n in that colour's cell and 0 elsewhere |
| Histograms.UniformSamples | camera.cpp:56-65 | samples of one colour normalise to the indicator of that colour's cell |
| Histograms.L1ZeroIffEqual | camera.cpp:43-53 | the distance is 0 exactly when the two histograms are equal |
| Histograms.L1Symmetric | camera.cpp:43-53 | the distance does not depend on the order of its arguments |
| Histograms.L1Triangle | camera.cpp:43-53 | the distance satisfies the triangle inequality |
| Histograms.L1AtMostSums | camera.cpp:43-53 | the distance between non-negative histograms is at most the sum of their totals |
| Histograms.DistributionDistance | camera.cpp:43-53 | the distance between two normalised histograms lies between 0 and 2 |
| Histograms.Distance | camera.cpp:43-53 | the triple loop accumulates exactly the L1 distance over the 512 cells |
| Regions.RegionSize | camera.cpp:60-62 | the two loops visit (x2 − x1)·(y2 − y1) pixels |
| Regions.UniformRegion | camera.cpp:60-62 | in a rectangle of one colour every visited pixel has that colour |
| Regions.RegionsAgree | camera.cpp:60-62 | two frames that agree inside the rectangle yield the same samples |
| Regions.RegionIsDistribution | camera.cpp:56-65 | the histogram of a non-empty rectangle inside the frame is a probability distribution |
| Regions.UniformRegionHistogram | camera.cpp:56-65 | a rectangle of one colour yields the indicator histogram of that colour |
| Regions.RowCountsIsCounts | camera.cpp:61-62 | adding one row's pixels one at a time gives the counts of the samples so far followed by that row |
| Regions.AddPixels | camera.cpp:61-62 | the inner loop adds one sample per pixel of the row segment, in order, and nothing else |
| Regions.AddRegion | camera.cpp:60-62 | after both loops the counts are those of the rectangle's pixels and `nb` is their number |
| Regions.GetColorDistribution | camera.cpp:56-65 | a fresh histogram holding the normalised counts of the rectangle, with `nb` its area |
| Regions.SampleRegion | camera.cpp:56-65 | the cells returned are the rectangle's normalised histogram, a probability distribution |
| Classifier.ExtendClass | camera.cpp:255 | appending normalised histograms to a class keeps every class a list of normalised histograms |
| Classifier.MinDistIsMinimum | camera.cpp:68-77 | the result is at most FLT_MAX and at most every distance, and is one of the distances unless the list is empty, where it is FLT_MAX |
| Classifier.MinDistOfPrototypes | camera.cpp:68-77 | for a non-empty list of distributions the result lies in [0, 2] and is attained by a prototype |
| Classifier.MinDistNonNegative | camera.cpp:68-77 | the minimum distance is never negative and is 0 exactly when the histogram is in the list |
| Classifier.MinDistance | camera.cpp:68-77 | the loop returns the minimum distance from `h` to the list, FLT_MAX when it is empty |
| Classifier.NearestIsFirstMinimum | camera.cpp:94-103 | the index is -1 or a class; its distance is at most every class's minimum and strictly below every earlier class's, so ties go to the lowest index; -1 only when no class is below FLT_MAX |
| Classifier.UnlabelledIffNoPrototypes | camera.cpp:94-106 | a block stays unlabelled exactly when every class is empty, for histograms that are distributions |
| Classifier.ExactPrototypeWins | camera.cpp:94-103 | a histogram stored in class k and in no earlier class is labelled k at distance 0 |
| Classifier.ClosestClass | camera.cpp:94-103 | the scan over the classes answers the nearest class and its distance |
| Classifier.BlockLabelRange | camera.cpp:94-107 | a block's label is -1 or a valid class index |
| Classifier.SweepCoverage | camera.cpp:88-89 | the loop `y <= h - b; y += b` runs for exactly h / b values, the r-th at r·b, each with a whole block inside |
| Classifier.GridShape | camera.cpp:88-89 | the label grid has rows / step rows of cols / step labels |
| Classifier.GridAt | camera.cpp:88-103 | the label at (r, c) is the label of the block whose corner is (c·step, r·step), which lies inside the frame |
| Classifier.RecoRow | camera.cpp:89-110 | one pass of the inner loop labels the blocks of one row left to right |
| Classifier.RecoObject | camera.cpp:80-114 | the labels of `recoObject` are the label grid with blocks of side `bloc` |
| Classifier.SubBlockRow | camera.cpp:136-141 | the four histograms of one row of sub-blocks, left to right |
| Classifier.GroupHistograms | camera.cpp:134-142 | 16 histograms, entry 4·dy + dx being sub-block (dx, dy), entry 0 the top-left one |
| Classifier.GroupLabel | camera.cpp:134-153 | a macro-block's label is the label of its top-left sub-block |
| Classifier.GroupRow | camera.cpp:132-160 | one pass of the inner loop labels the macro-blocks of one row left to right |
| Classifier.GroupBlocksAndLabel | camera.cpp:126-162 | the labels of `groupBlocksAndLabel` are the label grid with step 4·bloc that samples only blocks of side `bloc` |
| Classifier.UniformBlockLabel | camera.cpp:91-103 | a one-colour block whose indicator histogram is stored in class k and in no earlier class is labelled k |
| Classifier.GroupLabelIsTopLeftLabel | camera.cpp:144-153 | macro-block (r, c) gets the label of block (4r, 4c) of the `recoObject` grid |
| Classifier.TopLeftBlocksAgree | camera.cpp:148 | frames that agree on every top-left sub-block give the same labels to every macro-block |
| Classifier.GroupGridSeesTopLeftOnly | camera.cpp:134-153 | the grouped grid depends only on the top-left sub-blocks: the other 15 histograms are never used |
| Classifier.RecoGridOnVga | camera.cpp:195-199 | on a 640×480 frame with `reco_bloc` 16 the grid is 30 rows of 40 labels |
| Classifier.GroupGridOnVga | camera.cpp:131-132 | on a 640×480 frame with blocks of 16 the grouped grid is 7 rows of 10 labels |
| Palette.IsSimilarToBackground | camera.cpp:116-123 | true exactly when some colour of the table lies at Euclidean distance below 50 |
| Palette.InitialColorsSeparated | camera.cpp:206 | black and red, the starting colours, are not similar |
| Palette.AppendDissimilar | camera.cpp:276-279 | appending a colour similar to none of the table keeps every pair of colours apart |
| Palette.DissimilarAsWrittenIsDissimilar | camera.cpp:118 | a colour the saturating test finds similar to no colour of the table is also at distance 50 or more from each of them |
| Palette.AppendDissimilarAsWritten | camera.cpp:276-279 | a colour accepted by the saturating test as written also keeps every pair of colours apart |
| Palette.SimilarImpliesSimilarAsWritten | camera.cpp:118 | saturating subtraction never lengthens a difference: a similar colour is also similar as written |
| Palette.WhiteAbsorbsEveryCandidate | camera.cpp:118 | as written, every colour is similar to white, so once white is in the table no candidate is accepted |
| Palette.WhiteReachableAsWritten | camera.cpp:118 | as written, white passes the test against black and red, and a grey far from black, red and white is still rejected |
| Palette.RedShadowAsWritten | camera.cpp:118 | as written, (10, 10, 128) is rejected against red although its Euclidean distance to red is far above 50 |
| ClassStores.TileRowListed | camera.cpp:250-254 | one row of background tiles has five tiles, at x = 0, 128, 256, 384 and 512 |
| ClassStores.TilesAboveAt | camera.cpp:249-256 | the tiles before row y are five per row, in row-major order |
| ClassStores.BackgroundTileAt | camera.cpp:249-256 | tile t of the sweep is the 128-square at (128·(t mod 5), 128·(t div 5)) |
| ClassStores.BackgroundTilesListed | camera.cpp:249-256 | the sweep yields 15 tiles, each inside the frame and each a probability distribution |
| ClassStores.SweepRow | camera.cpp:250-256 | the inner loop of `b` samples the five tiles of one row, left to right |
| ClassStores.SweepBackground | camera.cpp:249-257 | the loops of `b` sample the 15 tiles row by row |
| ClassStores.FirstDissimilarIsFirst | camera.cpp:275-278 | the index found is the first draw similar to no colour of the table, and every earlier draw is rejected |
| ClassStores.FirstDissimilarUnique | camera.cpp:275-278 | any index before which every draw is rejected and at which a draw is accepted is the one found |
| ClassStores.CorrectedStopsNoLater | camera.cpp:274-278 | the corrected rejection loop stops at or before the draw the loop as written stops at, and the draw the loop as written accepts is dissimilar by distance too |
| ClassStores.RedShadowDraw | camera.cpp:274-278 | with draws [(10, 10, 128)] and the starting table, the corrected loop accepts the first draw and the loop as written runs out of draws |
| ClassStores.DrawColor | camera.cpp:274-278 | the rejection loop, with the corrected distance test, stops at the first draw at distance 50 or more from every colour, or at the end of the draws |
| ClassStores.ClassStore.constructor | camera.cpp:201-206 | the store starts with two empty classes coloured black and red |
| ClassStores.ClassStore.Reset | camera.cpp:287-293 | `c` clears both working lists and restores the two empty classes, black and red |
| ClassStores.ClassStore.CaptureBackground | camera.cpp:247-260 | `b` sets `col_hists` to the 15 tiles and appends them to class 0; nothing else changes |
| ClassStores.ClassStore.CaptureObject | camera.cpp:261-267 | `a` sets `col_hists_object` and class 0 to the single histogram of the target square |
| ClassStores.ClassStore.AddClass | camera.cpp:268-283 | `n` appends a class holding the target square's histogram and the first acceptable colour drawn, keeping the colours apart and the table as long as the classes |
| ClassStores.LabelsHaveColors | camera.cpp:106-107 | every label of either sweep over the store's classes is -1 or an index of `colors` |

## Left out

- Camera capture, windows, `imshow`, `waitKey`, the `q`, `f` and `r` keys and their flags, and the console output are input and output, not modelled.
- The `v` key only prints a distance; its two calls are `getColorDistribution` and `distance`, which are modelled.
- Painting: `rectangle`, the grey conversion and the 50/50 blend; the sweeps answer the label grid that would be painted.
- `applyWatershedSegmentation` (camera.cpp:164-187) is not part of this model; nothing in the classifier calls it.
- Floating point: histogram cells and distances are exact reals, so `float` rounding in `finished` and `distance` is not modelled; FLT_MAX is kept as an exact real constant.
- `rand()` becomes the parameter `draws`, the sequence of candidate colours it would produce.
- ClassStores.DrawColor: rejects a draw by the corrected Euclidean test, not by the saturating test of camera.cpp:118, so it can accept a draw the code rejects, such as (10, 10, 128) against black and red (`ClassStores.RedShadowDraw`); it never stops later than the code's loop (`ClassStores.CorrectedStopsNoLater`).
- ClassStores.ClassStore.AddClass: takes its colour from `ClassStores.DrawColor`, so the colour is the first draw passing the corrected test rather than the saturating test the code loops on; when every draw is rejected the model adds nothing, whereas the source has already pushed the new class and keeps drawing forever; it requires the target square to lie inside the frame.
- ColorDistributions.ColorDistribution.Finished: requires a positive sample count; the source divides by zero there.
- Regions.GetColorDistribution: requires a non-empty rectangle inside the frame; outside it the source reads out of bounds or divides by zero.
- ClassStores.ClassStore.CaptureBackground: requires a frame of at least 640×384, as the sweep uses the constants `width` and `height` rather than the frame's size; the tiles are computed first and then appended, which gives the same final state.
- ClassStores.ClassStore.CaptureObject: requires the target square to lie inside the frame.
- `col_hists` is kept as `ClassStores.ClassStore.colHists` although no contract reads it: the code reads it only at camera.cpp:295, to decide whether recognition runs, and that key loop is not modelled.
- Images are values: the sharing of pixel buffers between `Mat` objects is not modelled.
- Palette.IsSimilarToBackground: models the corrected Euclidean test, not the saturating one as written; see "## Findings".

## Findings

| source | as written | input that shows it | evidently intended | confidence | as-written member | corrected member |
|---|---|---|---|---|---|---|
| camera.cpp:118 | `color - existing_color` on `Vec3b` saturates each channel at 0 before the norm is taken | with white (255, 255, 255) in the table every candidate is within 50 of it, and white itself passes against black and red; (10, 10, 128) is rejected against red (0, 0, 255) | the Euclidean distance between the two colours is compared with 50 | not executed | Palette.WhiteAbsorbsEveryCandidate, Palette.WhiteReachableAsWritten, Palette.RedShadowAsWritten, ClassStores.RedShadowDraw | Palette.IsSimilarToBackground |
