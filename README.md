# Otsu thresholding, modelled in Dafny

This project models the thresholding core of a small image-processing program,
found in `src/pa5/thresholding.py`. It contains:

- **binarization**: maps a grayscale image to black and white. A pixel becomes
  255 when it is at or above the threshold, and 0 otherwise.
- **compute_prob**: takes an intensity histogram and a cut point. It computes
  the probability of class 1 (intensities up to the cut) and of class 2 (the
  intensities above it), together with the mean intensity of each class.
- **compute_BCV**: the between-class variance, `P1 * P2 * (M1 - M2)^2`.
- **otsu_thresholding**: Otsu's method. It scans the cut points
  0, s, 2s, … below `threshold_max` and keeps the one with the greatest
  between-class variance. Because the comparison is strict, the first maximum
  wins.

Everything lives in one module, `Thresholding`, in `thresholding.dfy`.

- The histogram is a `seq<nat>` with one bucket per intensity 0 … `thresholdMax`.
- Probabilities, means and variances are exact `real`s.
- `binarization` and `compute_BCV` are pure functions: `Binarize` and `Bcv`.
- `compute_prob` and `otsu_thresholding` are methods with the same loops as
  the source: `ComputeProb` and `OtsuThreshold`.
- `ComputeProb` is proved equal to the specification function `Stats`.
  Its meaning (probabilities that partition 1, means that are count-weighted
  averages lying inside their class) is proved about `Stats` as lemmas.
- `OtsuThreshold` is proved to return the unique first maximiser
  (`IsOtsuChoice`) over the scanned candidates (`Scan`).

## Model

| member | source | states |
|---|---|---|
| Thresholding.BinarizeRow | src/pa5/thresholding.py:15 | one row keeps its length; each pixel becomes 255 iff it is at least the threshold, else 0 |
| Thresholding.Binarize | src/pa5/thresholding.py:4-15 | the output has the input's shape; pixel (i, j) is 255 iff the input pixel is at least the threshold, else 0 |
| Thresholding.BinarizeExtremes | src/pa5/thresholding.py:15 | a threshold of 0 or below gives an all-255 image; a threshold above every pixel gives an all-0 image |
| Thresholding.BinarizeMonotone | src/pa5/thresholding.py:15 | a pixel that is white under a higher threshold is white under any lower one |
| Thresholding.BinarizeIdempotent | src/pa5/thresholding.py:15 | re-binarizing a binarized image with any threshold in [1, 255] leaves it unchanged |
| Thresholding.ComputeProb | src/pa5/thresholding.py:50-88 | the three loops yield exactly the class statistics `Stats` of the cut (P1, P2 = 1 - P1, M1 and M2, each mean 0 for an empty class) |
| Thresholding.FractionSumIsRatio | src/pa5/thresholding.py:69-73 | adding up bucket / total over a range gives the range's pixel count over the total |
| Thresholding.WeightedFractionSumIsRatio | src/pa5/thresholding.py:79-86 | adding up i * (bucket / total) over a range gives the range's first moment over the total |
| Thresholding.MeanStep | src/pa5/thresholding.py:80-86 | one step of a mean loop adds one weighted bucket fraction, divided by the class probability, to the running mean |
| Thresholding.ProbabilitiesPartition | src/pa5/thresholding.py:69-76 | P1 is the pixel count of [0, threshold] over the total and P2 that of (threshold, thresholdMax] over the total; P1 + P2 = 1 and both lie in [0, 1]; P1 > 0 iff some pixel is at or below the cut, P2 > 0 iff some pixel is above it |
| Thresholding.ClassMeans | src/pa5/thresholding.py:78-86 | M1 is the count-weighted mean intensity of [0, threshold] and M2 that of (threshold, thresholdMax]; each is 0 when its class is empty |
| Thresholding.MeansWithinClasses | src/pa5/thresholding.py:78-86 | an empty class has mean 0; a non-empty class has its mean inside its own intensity range: M1 in [0, threshold], M2 in [threshold + 1, thresholdMax] |
| Thresholding.Bcv | src/pa5/thresholding.py:91-104 | the variance is non-negative for non-negative probabilities, and it is 0 exactly when P1 = 0, P2 = 0 or M1 = M2 |
| Thresholding.Score | src/pa5/thresholding.py:38-39 | the variance scored for any admissible cut is non-negative |
| Thresholding.Scan | src/pa5/thresholding.py:37-45 | every scanned candidate lies in [start, thresholdMax) |
| Thresholding.ScanAt | src/pa5/thresholding.py:32-45 | the k-th scanned candidate is start + k * step, so the scan is strictly ascending |
| Thresholding.ScanGrid | src/pa5/thresholding.py:37-45 | the grid point start + k * step is scanned iff it lies below thresholdMax |
| Thresholding.SearchStep | src/pa5/thresholding.py:38-45 | scoring the next candidate, and replacing the best only on a strictly greater score, preserves the loop state |
| Thresholding.SearchDone | src/pa5/thresholding.py:37-47 | when the loop exits, every candidate has been scanned and the kept threshold is the first maximiser |
| Thresholding.OtsuThreshold | src/pa5/thresholding.py:18-47 | terminates for any step >= 1; scans exactly 0, step, 2 * step, … below thresholdMax; the result is 0 or a scanned candidate whose variance is at least every candidate's and strictly above every earlier candidate's; a non-zero result has positive variance; thresholdMax <= 0 gives 0 |
| Thresholding.OtsuChoiceUnique | src/pa5/thresholding.py:33-43 | the first-maximum rule determines the result: two thresholds that both satisfy it are equal |
| Thresholding.TwoSpikesStats | src/pa5/thresholding.py:68-86 | with equal counts at 0 and thresholdMax only, every cut below thresholdMax gives P1 = P2 = 1/2, M1 = 0, M2 = thresholdMax |
| Thresholding.TwoSpikesChooseZero | src/pa5/thresholding.py:32-47 | for that histogram every cut ties, so the search returns 0 |

## Left out

- `src/pa5/main.py` is not part of this model. It holds the interactive
  prompts, path checks, image loading and the histogram built by a library
  call. The histogram is taken as an input instead.
- `src/pa5/utils.py` is not part of this model. It holds plotting, directory
  creation, image writing and output file names. All of it is I/O.
- IEEE floating-point rounding in `compute_prob` and `compute_BCV`. The model
  uses exact rationals. The order of the float additions is kept in the loops,
  but a near tie that rounding breaks in the program is an exact tie here, and
  the reverse is also possible.
- The numpy dtypes: the `uint8` cast of the binarized image and the integer
  width of `np.sum`. Pixels are modelled as 0 … 255 and counts as unbounded
  naturals.
- An empty image (`total_pixels == 0`). There the program divides a numpy
  integer 0 by 0, which gives NaN with a warning rather than an error: P1 and
  P2 are NaN, both mean loops are skipped, every variance is NaN, no
  comparison with the best so far succeeds, and `otsu_thresholding` returns 0.
  `ComputeProb` requires a positive total. `OtsuThreshold` requires one only
  when it scores at least one candidate.
- Thresholding.ComputeProb: requires a histogram of exactly
  `thresholdMax + 1` buckets and a cut with 0 <= threshold <= thresholdMax.
  The Python also runs on a longer array or a cut past `threshold_max`. The
  program never makes such calls: `src/pa5/main.py:40` builds 256 buckets and
  the search uses the default `threshold_max` of 255, and the search only
  passes cuts below `threshold_max`.
- Thresholding.OtsuThreshold: requires `threshold_increment >= 1`, which the
  prompt in `src/pa5/main.py` enforces. With a step of 0 and
  `threshold_max > 0` the program's loop never ends. With a negative step the
  cuts go 0, -1, -2, …: the class-2 mean loop then reads the histogram through
  negative indices, which wrap to the top buckets and carry negative weights,
  until an index below -256 raises `IndexError`.
- The default `threshold_max = 255` of `otsu_thresholding` is not modelled;
  `thresholdMax` is always passed explicitly.
- No closed form is derived for histograms other than the two-spike one,
  such as a uniform histogram.
