# Canny-style edge detection core, modelled in Dafny

This project models the numeric stages of a reference Canny-style edge
detector and proves properties of them:

- **Gaussian kernel** (`gaussian_kernel`). Module `KernelGen`, file `kernel_gen.dfy`. An odd `size` gives a
  normalised grid of weights `exp(-(x² + y²) / 2σ²)`. An even `size` raises.
- **Custom convolution** (`convolve_custom`). Module `ConvolutionEngine`, file `convolution.dfy`.
  - The kernel is flipped by 180°.
  - The input is padded the way `np.pad` pads it, in the modes `constant`, `reflect`, `edge` and `wrap`.
  - Each output cell is the sum of a window of the padded input times the flipped kernel.
  - This is proved equal to a reference definition of true convolution.
- **Non-maximum suppression** (`non_max_suppression`). Module `Suppressor`, file `nms.dfy`.
  - Negative angles are turned by 180° on a fresh copy.
  - Each interior cell picks one of four direction sectors.
  - A magnitude is kept, truncated to an integer, only when it is at least both neighbours across the edge.
- **Double threshold** (`threshold`). Module `DoubleThreshold`, file `threshold.dfy`.
  - The high threshold is a fraction of the maximum magnitude. The low threshold is a fraction of the high one.
  - Two masked writes follow, strong first and weak second.
- **Hysteresis** (`hysteresis`). Module `HysteresisLinker`, file `hysteresis.dfy`. A single in-place, row-major
  pass over the interior. A weak cell (75) becomes strong (255) when one of its eight neighbours is strong *in the array as
  updated so far*. Otherwise it becomes 0.

`images.dfy` (module `Images`) holds the shared vocabulary:
- grids as `seq<seq<T>>`;
- `Snapshot` of a 2-D array;
- `At`, which reads 0 outside a grid;
- finite sums `Sum` with their congruence, linearity, division and positivity lemmas;
- the `Result`/`Error` outcome for the stages that raise `ValueError`.

The stages that work in place or through loops in the source are methods over `array2`.
The loops, with their invariants, are in:
- `ConvolutionEngine.ConvolveCustom`;
- `Suppressor.NonMaxSuppression`, `WrapAngles` and `SuppressRow`;
- `DoubleThreshold.WriteStrong` and `WriteWeak`;
- `HysteresisLinker.Hysteresis` and `SweepRow`.

The loop bodies are methods without loops: `Suppressor.SuppressCell`, `Suppressor.SuppressAt` and
`HysteresisLinker.VisitCell`. `DoubleThreshold.Threshold` calls the two write loops.

Each method is proved against a specification function on grids: `Convolve`, `Suppressed`, `ThresholdSpec` and
`HysteresisSpec`. The properties are lemmas about those functions.

A magnitude exactly at the high threshold satisfies both masks of `threshold`. The weak write
(test/test_threshold.py:14) comes after the strong one (line 13), so the cell ends up weak.
`DoubleThreshold.ClassifyCases` states this: weak on all of `[low, high]`.

## Model

| member | source | states |
|---|---|---|
| KernelGen.GaussianKernel | test/convolution_tester.py:5-12 | an error exactly when size is even, and it is EvenKernelSize; otherwise a rectangular grid of side size (empty for a negative size) |
| KernelGen.Weights | test/convolution_tester.py:9-10 | the weight grid over the offsets x, y in [-r, r] is square with side 2r + 1 (empty for r < 0) |
| KernelGen.WeightsSumPositive | test/convolution_tester.py:9-11 | the unnormalised weights over a non-empty offset range have a positive sum, so the division is defined |
| KernelGen.KernelRow | test/convolution_tester.py:10-11 | each kernel row sums to the weight row's sum over the total weight |
| KernelGen.KernelNormalised | test/convolution_tester.py:11 | for every positive odd size the kernel entries sum to exactly 1 |
| KernelGen.KernelEntryPositive | test/convolution_tester.py:10-11 | every kernel entry is positive |
| KernelGen.EqualDistanceEntries | test/convolution_tester.py:9-10 | two cells at the same squared distance from the centre hold the same entry |
| KernelGen.MirroredDistance | test/convolution_tester.py:9 | mirroring a row index, a column index, or swapping them keeps x² + y² on the grid centred at size // 2 |
| KernelGen.KernelSymmetric | test/convolution_tester.py:9-10 | every entry is positive and equal to its row-flipped, column-flipped and transposed counterparts |
| ConvolutionEngine.SourceIndex | test/convolution_tester.py:26-28 | in every copying pad mode, the input index a padded position reads lies inside the axis, and positions inside the axis read themselves |
| ConvolutionEngine.Extended | test/convolution_tester.py:21-28 | the padded signal equals the input at every position inside it, and cval at every position outside it in constant mode |
| ConvolutionEngine.Pad | test/convolution_tester.py:21-28 | np.pad's result has H + 2ph rows of W + 2pw cells each |
| ConvolutionEngine.PadShape | test/convolution_tester.py:18-24 | the padded grid has (H + 2ph) × (W + 2pw) cells, its interior is the input, and in constant mode every other cell is cval |
| ConvolutionEngine.PadBorder | test/convolution_tester.py:26-28 | at t steps outside an axis of length n (t < n), reflect reads t and n - 1 - t (the edge is not repeated), edge reads the end sample, wrap reads the opposite end |
| ConvolutionEngine.Flip | test/convolution_tester.py:15 | the flipped kernel has the kernel's shape |
| ConvolutionEngine.FlipTwice | test/convolution_tester.py:15 | flipping a rectangular kernel twice gives it back, so the flip loses nothing |
| ConvolutionEngine.WindowSumIsConv | test/convolution_tester.py:15-35 | the window sum of the padded input times the flipped kernel equals the reference convolution at (i, j) |
| ConvolutionEngine.WindowRowIsConvRow | test/convolution_tester.py:34-35 | each window row's sum equals the matching row of the reference convolution sum |
| ConvolutionEngine.WindowTermIsConvTerm | test/convolution_tester.py:34-35 | each window product equals the matching summand of the reference convolution |
| ConvolutionEngine.ConvolveCustom | test/convolution_tester.py:14-38 | an error (EmptyAxisPadding) exactly when np.pad would be asked to extend an empty axis in a non-constant mode; otherwise a fresh array of the input's shape whose every cell is the true convolution of the padded input with the kernel |
| ConvolutionEngine.ReflectCorner | test/convolution_tester.py:124-130 | with the printed 3 × 3 kernel, the reflect-mode output at the corner of the test image is 22.0181776, within 1e-6 of the printed 22.01817727 |
| ConvolutionEngine.EdgeCorner | test/convolution_tester.py:26-28 | an edge-repeating pad would give 13.0045444 at that corner, so the example shows that reflect does not repeat the edge sample |
| ConvolutionEngine.MirrorIndex | test/convolution_tester.py:26-28 | in reflect, edge and wrap modes, the padded position mirrored about the centre of an axis reads the mirrored input index |
| ConvolutionEngine.PaddedRowMirror | test/convolution_tester.py:21-28 | if the input reads the same upside down, so does its padded signal, about the same centre row, in every mode and for any cval |
| ConvolutionEngine.PaddedColMirror | test/convolution_tester.py:21-28 | if the input reads the same left to right, so does its padded signal, about the same centre column |
| ConvolutionEngine.SignalRowMirror | test/convolution_tester.py:31-35 | for a signal symmetric about row (h - 1) / 2 and a kernel of odd height that reads the same upside down, the sums at output rows i and h - 1 - i are equal, their kernel rows taken in reverse order |
| ConvolutionEngine.SignalColMirror | test/convolution_tester.py:31-35 | the same for columns, with the summands of each kernel row taken in reverse order |
| ConvolutionEngine.ConvolveRowMirror | test/convolution_tester.py:14-38 | an input that reads the same upside down, convolved with a kernel of odd height that does too, gives equal output rows i and H - 1 - i, in every pad mode |
| ConvolutionEngine.ConvolveColMirror | test/convolution_tester.py:14-38 | the same for a left-to-right mirrored input and a kernel of odd width: output columns j and W - 1 - j are equal |
| ConvolutionEngine.ExampleRowMirrored | test/convolution_tester.py:119-127 | the 5-row test image and the 3-row printed kernel read the same upside down |
| ConvolutionEngine.ExampleColMirrored | test/convolution_tester.py:119-127 | both read the same left to right, with widths 5 and 3 |
| ConvolutionEngine.Folded | test/convolution_tester.py:130-134 | in every pad mode each output cell of the example equals its mirror image in the top-left 3 × 3 quadrant, so the output is symmetric as printed |
| ConvolutionEngine.ReflectQuadrant | test/convolution_tester.py:130-134 | each of the nine top-left reflect-mode output cells lies within 1e-6 of the printed value |
| ConvolutionEngine.ReflectOutput | test/convolution_tester.py:130-134 | all 25 cells of the reflect-mode output lie within 1e-6 of the printed 5 × 5 grid |
| ConvolutionEngine.ConvolutionLinear | test/convolution_tester.py:21-36 | convolving a·X + b·Y gives a·conv(X) + b·conv(Y) at every cell, in every copying mode and in constant mode with cval = 0 |
| ConvolutionEngine.PaddedLinear | test/convolution_tester.py:21-28 | padding a linear combination gives the same combination of the padded signals |
| ConvolutionEngine.ConvolveLinear | test/convolution_tester.py:34-35 | the convolution sum is linear in the padded signal |
| Suppressor.Wrapped | test/test_max_suppresion.py:7-8 | the wrapped angle grid has the shape of D |
| Suppressor.WrapAngles | test/test_max_suppresion.py:7-8 | a fresh array holding D with every negative angle increased by 180; D itself is not modified |
| Suppressor.Suppressed | test/test_max_suppresion.py:5-6 | the result grid has the magnitudes' shape |
| Suppressor.NonMaxSuppression | test/test_max_suppresion.py:4-41 | a fresh int array equal, cell by cell, to the suppression specification on the magnitudes and the wrapped angles |
| Suppressor.SuppressRow | test/test_max_suppresion.py:11-39 | after the inner loop row i holds the specified value in every column and no other row changes |
| Suppressor.SuppressCell | test/test_max_suppresion.py:12-39 | one visited cell gets its specified value, an angle outside D leaves it 0, and no other cell changes |
| Suppressor.SuppressAt | test/test_max_suppresion.py:13-36 | the value computed at an interior cell equals the specification |
| Suppressor.NmsAt | test/test_max_suppresion.py:10-36 | every output cell is 0 or the truncated magnitude at that cell, and every cell of row 0, row M - 1, column 0 and column N - 1 is 0 |
| Suppressor.Unvisited | test/test_max_suppresion.py:6-39 | the border rows and columns, and cells whose angle index raises IndexError, are 0 |
| Suppressor.SectorsCover | test/test_max_suppresion.py:17-31 | an angle falls in none of the four sectors exactly when it is below 0 or above 180 |
| Suppressor.WrapAngleRange | test/test_max_suppresion.py:8-31 | an angle in [-180, 180] wraps into [0, 180] and so always falls in a sector |
| Suppressor.SectorChoice | test/test_max_suppresion.py:13-36 | at an interior cell, for each angle range, the pair of neighbours compared and the resulting value; outside every range both comparisons are against 255 |
| Suppressor.NeighboursOpposite | test/test_max_suppresion.py:16-31 | in every sector the two magnitudes compared are read one unit step (di, dj) away from the cell and the same step away on the opposite side, (i + di, j + dj) and (i - di, j - dj) |
| Suppressor.TruncBounds | test/test_max_suppresion.py:34 | the int32 cast truncates toward zero: it is within 1 of the value, on the side of zero |
| Suppressor.TruncMonotone | test/test_max_suppresion.py:34 | truncation of non-negative values is monotone |
| Suppressor.TruncWhole | test/test_max_suppresion.py:34 | whole numbers are unchanged by the cast |
| Suppressor.NotAboveMagnitude | test/test_max_suppresion.py:33-36 | for a non-negative magnitude the output cell lies between 0 and the magnitude |
| Suppressor.AsReal | test/test_max_suppresion.py:6 | reading an int result back as magnitudes keeps its shape |
| Suppressor.SuppressIdempotent | test/test_max_suppresion.py:33-36 | suppressing the suppressed result again with the same angles changes nothing, for non-negative magnitudes |
| Suppressor.IdempotentAt | test/test_max_suppresion.py:33-36 | the cell-wise form of idempotence |
| Suppressor.CellStable | test/test_max_suppresion.py:33-36 | a cell that kept or lost its magnitude keeps the same value when its neighbours are replaced by their suppressed values |
| Suppressor.NeighbourBelow | test/test_max_suppresion.py:33-36 | a neighbour not above m stays not above trunc(m) after suppression |
| Suppressor.ExampleSuppression | test/test_max_suppresion.py:43-62 | on the sample magnitudes and angles (taken in degrees, 0° and 45°) the output has the 255 peak and 100s on the interior where the sector comparison keeps them, and 0 elsewhere |
| DoubleThreshold.RowMax | test/test_threshold.py:4 | the maximum of a non-empty row is at least every element and is one of them |
| DoubleThreshold.GridMax | test/test_threshold.py:4 | img.max() of a non-empty grid is at least every sample and is one of them |
| DoubleThreshold.MaxIs | test/test_threshold.py:4 | a value above every sample that equals one of them is img.max() |
| DoubleThreshold.Classified | test/test_threshold.py:7-14 | the result grid has the input's shape and every cell is 0, weak or strong |
| DoubleThreshold.ThresholdSpec | test/test_threshold.py:3-16 | EmptyReduction exactly when the image has no samples; otherwise a grid of the image's shape whose every cell is 0, weak or strong |
| DoubleThreshold.Threshold | test/test_threshold.py:3-16 | EmptyReduction exactly when the image has no samples; otherwise a fresh int array equal to the specification with the compounded thresholds |
| DoubleThreshold.WriteStrong | test/test_threshold.py:10-13 | every cell at or above high becomes strong, the others keep their value |
| DoubleThreshold.WriteWeak | test/test_threshold.py:11-14 | every cell in [low, high] becomes weak, the others keep their value |
| DoubleThreshold.Classify | test/test_threshold.py:8-14 | a cell after both writes is 0, weak or strong |
| DoubleThreshold.ClassifyCases | test/test_threshold.py:10-14 | weak on [low, high] (high included, as the weak write comes second), strong above high, 0 below both; with distinct codes weak occurs exactly on [low, high] |
| DoubleThreshold.ThresholdsOrdered | test/test_threshold.py:4-5 | for a non-negative maximum and fractions in (0, 1]: 0 <= low <= high <= max |
| DoubleThreshold.HighBelowMax | test/test_threshold.py:4 | the high threshold lies between 0 and the maximum |
| DoubleThreshold.LowBelowHigh | test/test_threshold.py:5 | the low threshold lies between 0 and the high threshold |
| DoubleThreshold.BelowLowIsZero | test/test_threshold.py:4-14 | a magnitude below the low threshold becomes 0 |
| DoubleThreshold.ExampleMax | test/test_threshold.py:20-24 | the sample image's maximum is 255 |
| DoubleThreshold.ExampleClassified | test/test_threshold.py:20-30 | with thresholds 76.5 and 7.65 the sample's 100s and 255 become strong and its zeros 0 |
| DoubleThreshold.ExampleThreshold | test/test_threshold.py:20-30 | the whole function on the sample with fractions 0.3 and 0.1 gives that grid |
| HysteresisLinker.Visit | test/test_hysterisis.py:10-17 | a visit keeps the grid's shape; StrongNeighbour is the eight-neighbour test of lines 12-14; what the visit decides is stated by Decided, PromotedNextToStrong and LoneWeakCell, and that it touches no other cell by VisitOnlyHere |
| HysteresisLinker.RowPass | test/test_hysterisis.py:9-17 | a row pass keeps the grid's shape |
| HysteresisLinker.Sweep | test/test_hysterisis.py:8-17 | a sweep keeps the grid's shape |
| HysteresisLinker.HysteresisSpec | test/test_hysterisis.py:8-17 | the final grid has the input's shape |
| HysteresisLinker.Hysteresis | test/test_hysterisis.py:3-21 | the pass changes its argument in place to the row-major sweep of the interior and returns the same array |
| HysteresisLinker.SweepRow | test/test_hysterisis.py:9-17 | the inner loop turns the array into the row pass over row i |
| HysteresisLinker.VisitCell | test/test_hysterisis.py:10-17 | one loop body turns the array into the visit of (i, j), reading the neighbours as updated so far |
| HysteresisLinker.VisitOnlyHere | test/test_hysterisis.py:10-17 | a visit leaves the visited cell not weak and every other cell unchanged |
| HysteresisLinker.VisitSettles | test/test_hysterisis.py:10-17 | a visit only turns an interior weak cell into 0 or strong |
| HysteresisLinker.RowPassSettles | test/test_hysterisis.py:9-17 | so does a row pass |
| HysteresisLinker.SweepSettles | test/test_hysterisis.py:8-17 | so does a sweep over any number of rows |
| HysteresisLinker.HysteresisSettles | test/test_hysterisis.py:8-17 | row 0, row M - 1, column 0 and column N - 1 are unchanged; every cell that was not weak is unchanged; a changed cell is 0 or strong |
| HysteresisLinker.StrongCellsKept | test/test_hysterisis.py:8-17 | the strong cells before the pass are strong after it, so their number does not drop |
| HysteresisLinker.RowPassSettled | test/test_hysterisis.py:9-17 | after visiting row i up to column j, no interior cell before (i, j) in row-major order is weak |
| HysteresisLinker.SweepSettled | test/test_hysterisis.py:8-17 | after sweeping rows 1 .. i - 1, none of their interior cells is weak |
| HysteresisLinker.NoWeakLeft | test/test_hysterisis.py:8-17 | after the pass no interior cell is weak |
| HysteresisLinker.RowPassFixed | test/test_hysterisis.py:9-17 | a row pass over a row with no weak interior cell changes nothing |
| HysteresisLinker.SweepFixed | test/test_hysterisis.py:8-17 | a sweep over a grid with no weak interior cell changes nothing |
| HysteresisLinker.HysteresisIdempotent | test/test_hysterisis.py:8-17 | running the pass on its own result changes nothing |
| HysteresisLinker.RowPassUntouched | test/test_hysterisis.py:9-17 | a row pass over row i up to column j changes no cell outside the visited part of row i |
| HysteresisLinker.SweepUntouched | test/test_hysterisis.py:8-17 | the sweep over the rows before i leaves rows i onward as they were |
| HysteresisLinker.RowPassLater | test/test_hysterisis.py:9-17 | continuing a row pass from column j to a later column k only turns weak cells into 0 or strong |
| HysteresisLinker.SweepLater | test/test_hysterisis.py:8-17 | continuing the sweep from row i to a later row k only turns weak cells into 0 or strong |
| HysteresisLinker.Before | test/test_hysterisis.py:8-17 | the grid the pass has made by the time it reaches interior cell (x, y) has the input's shape |
| HysteresisLinker.BeforeSettles | test/test_hysterisis.py:8-17 | when the pass reaches (x, y) that cell still holds its input value, and every earlier change only settled a weak cell |
| HysteresisLinker.Decided | test/test_hysterisis.py:8-17 | the final value of an interior cell is the one its own visit writes; no later visit changes it |
| HysteresisLinker.PromotedNextToStrong | test/test_hysterisis.py:10-15 | a weak interior cell with a strong neighbour in the input ends strong, whatever the order of the visits |
| HysteresisLinker.LoneWeakCell | test/test_hysterisis.py:10-17 | a weak interior cell with no weak neighbour ends strong exactly when one of its neighbours is strong in the input, and 0 otherwise |
| HysteresisLinker.SampleHysteresis | test/test_hysterisis.py:23-37 | on the sample (strong at (1, 1), weak at (2, 1)) the weak cell becomes strong and nothing else changes |
| HysteresisLinker.ChainHysteresis | test/test_hysterisis.py:8-17 | with weak at (1, 1) and (2, 1) and strong at (3, 1), (1, 1) becomes 0 while (2, 1) becomes strong: the result depends on the visiting order |

## Left out

- Printing, the sample scripts' output, `compare_results`, `visualize_results` and the comparison with `scipy.ndimage.convolve`. These are I/O and a foreign library.
- Floating-point arithmetic. Samples are exact reals, so float64 and float32 rounding are not modelled. Nor are NaN and infinite values.
- The exponential is a parameter: any everywhere-positive function. So the kernel values are not computed from exp. The reflect example uses the 3 × 3 kernel the script prints, to its eight decimals.
- Default arguments: `sigma=1` (test/convolution_tester.py:5), `mode='reflect'` and `cval=0.0` (line 14), and `highThreshold=0.3`, `lowThreshold=0.1`, `weak_pixel=75` and `strong_pixel=255` (test/test_threshold.py:3) are not defaults in the model. Every member takes them as explicit parameters. The examples pass the default values.
- KernelGen.GaussianKernel: requires sigma != 0. With sigma = 0 the source divides by zero and produces NaN or infinite values, which reals cannot represent.
- ConvolutionEngine.ConvolveCustom: the mode is one of the four named modes. Other `np.pad` mode strings, and numpy's rejection of unknown ones, are not modelled. `reflect` is modelled for every pad width as the periodic mirror.
- ConvolutionEngine.ConvolutionLinear: holds in constant mode only when cval = 0, since a non-zero fill makes convolution affine, not linear.
- Suppressor.NonMaxSuppression: angles are taken in degrees, so the radians-to-degrees conversion `D * 180 / π` is left out. The int32 cast is modelled as truncation toward zero without the 32-bit range.
- Suppressor.SuppressIdempotent: stated for non-negative magnitudes only, which a gradient magnitude always is.
- DoubleThreshold.Threshold: the result codes are unbounded integers, so an out-of-range int32 code is not modelled. numpy's `np.where` index arrays are modelled as the per-cell writes they perform.
- DoubleThreshold.ThresholdsOrdered: requires fractions in (0, 1] and a non-negative maximum, the ranges the detector uses.
- HysteresisLinker.Hysteresis: the `except IndexError` handler is not modelled. Every index it guards lies inside the array for an interior cell, so it cannot fire. Negative Python indices never occur for the same reason.
- The other scripts of the repository: test image generation, resizing, and the Sobel filters built on scipy. They are not part of this model.
