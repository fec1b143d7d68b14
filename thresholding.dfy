/**
 * Global thresholding of 8-bit grayscale images: binarization against a
 * threshold, and the choice of that threshold by Otsu's method, a brute-force
 * scan for the cut point of the intensity histogram that maximises the
 * between-class variance.
 *
 * Probabilities, means and variances are exact rationals (`real`).
 */
module Thresholding {

  /** An 8-bit grayscale intensity. */
  type Pixel = x: int | 0 <= x <= 255

  /** A grayscale image, row by row. */
  type Image = seq<seq<Pixel>>

  /** Class statistics for one cut point: class probabilities and class means. */
  datatype ClassStats = ClassStats(p1: real, p2: real, m1: real, m2: real)

  // ---------------------------------------------------------------------------
  // Binarization
  // ---------------------------------------------------------------------------

  /** One row of a binarized image: 255 where the pixel reaches the threshold, 0 elsewhere. */
  function BinarizeRow(row: seq<Pixel>, threshold: int): (r: seq<Pixel>)
    ensures |r| == |row|
    ensures forall j :: 0 <= j < |row| ==> r[j] == (if row[j] >= threshold then 255 else 0)
  {
    if row == [] then []
    else [if row[0] >= threshold then 255 else 0] + BinarizeRow(row[1..], threshold)
  }

  /** The binarized image: same shape, each pixel mapped to 255 or 0 by the threshold. */
  function Binarize(image: Image, threshold: int): (r: Image)
    ensures |r| == |image|
    ensures forall i :: 0 <= i < |image| ==> |r[i]| == |image[i]|
    ensures forall i, j :: 0 <= i < |image| && 0 <= j < |image[i]| ==>
              r[i][j] == (if image[i][j] >= threshold then 255 else 0)
  {
    if image == [] then []
    else [BinarizeRow(image[0], threshold)] + Binarize(image[1..], threshold)
  }

  /** A threshold of at most 0 turns every pixel white; one above every pixel turns every pixel black. */
  lemma BinarizeExtremes(image: Image, threshold: int)
    ensures threshold <= 0 ==>
              forall i, j :: 0 <= i < |image| && 0 <= j < |image[i]| ==> Binarize(image, threshold)[i][j] == 255
    ensures (forall i, j :: 0 <= i < |image| && 0 <= j < |image[i]| ==> image[i][j] < threshold) ==>
              forall i, j :: 0 <= i < |image| && 0 <= j < |image[i]| ==> Binarize(image, threshold)[i][j] == 0
  {
  }

  /** Raising the threshold can only turn white pixels black, never the reverse. */
  lemma BinarizeMonotone(image: Image, lower: int, higher: int, i: int, j: int)
    requires lower <= higher
    requires 0 <= i < |image| && 0 <= j < |image[i]|
    ensures Binarize(image, higher)[i][j] == 255 ==> Binarize(image, lower)[i][j] == 255
  {
  }

  /** A binarized image is a fixed point of binarization with any threshold in [1, 255]. */
  lemma {:induction false} BinarizeIdempotent(image: Image, threshold: int, again: int)
    requires 1 <= again <= 255
    ensures Binarize(Binarize(image, threshold), again) == Binarize(image, threshold)
  {
    var b := Binarize(image, threshold);
    var bb := Binarize(b, again);
    assert |bb| == |b|;
    forall i | 0 <= i < |b|
      ensures bb[i] == b[i]
    {
      assert |bb[i]| == |b[i]|;
      forall j | 0 <= j < |b[i]|
        ensures bb[i][j] == b[i][j]
      {
      }
    }
  }

  // ---------------------------------------------------------------------------
  // Histogram sums
  // ---------------------------------------------------------------------------

  /** Number of pixels with intensity in [lo, hi) (0 when the range is empty). */
  function Mass(h: seq<nat>, lo: int, hi: int): nat
    requires 0 <= lo && hi <= |h|
    decreases hi - lo
  {
    if hi <= lo then 0 else Mass(h, lo, hi - 1) + h[hi - 1]
  }

  /** Sum of intensity times count over [lo, hi): the first moment of that range. */
  function Moment(h: seq<nat>, lo: int, hi: int): nat
    requires 0 <= lo && hi <= |h|
    decreases hi - lo
  {
    if hi <= lo then 0 else Moment(h, lo, hi - 1) + (hi - 1) * h[hi - 1]
  }

  /** Number of pixels in the image the histogram was built from. */
  function Total(h: seq<nat>): nat
  {
    Mass(h, 0, |h|)
  }

  /** The pixel count of a range is the sum of the counts of its two parts. */
  lemma {:induction false} MassSplit(h: seq<nat>, lo: int, mid: int, hi: int)
    requires 0 <= lo <= mid <= hi <= |h|
    ensures Mass(h, lo, hi) == Mass(h, lo, mid) + Mass(h, mid, hi)
  {
    if hi > mid {
      MassSplit(h, lo, mid, hi - 1);
    }
  }

  /** Every counted intensity of a range is at most hi - 1, so the moment is at most hi - 1 times the count. */
  lemma {:induction false} MomentUpper(h: seq<nat>, lo: int, hi: int)
    requires 0 <= lo <= hi <= |h|
    ensures Moment(h, lo, hi) <= (hi - 1) * Mass(h, lo, hi)
  {
    if hi > lo {
      MomentUpper(h, lo, hi - 1);
      UpperStep(hi - 1, Mass(h, lo, hi - 1), h[hi - 1], Moment(h, lo, hi - 1));
    }
  }

  /** Every counted intensity of a range is at least lo, so the moment is at least lo times the count. */
  lemma {:induction false} MomentLower(h: seq<nat>, lo: int, hi: int)
    requires 0 <= lo <= hi <= |h|
    ensures lo * Mass(h, lo, hi) <= Moment(h, lo, hi)
  {
    if hi > lo {
      MomentLower(h, lo, hi - 1);
      LowerStep(lo, hi - 1, Mass(h, lo, hi - 1), h[hi - 1], Moment(h, lo, hi - 1));
    }
  }

  /** Adding c pixels at intensity k to a range whose moment is at most (k - 1) times its count. */
  lemma UpperStep(k: int, m: nat, c: nat, w: int)
    requires w <= (k - 1) * m
    ensures w + k * c <= k * (m + c)
  {
    assert (k - 1) * m <= k * m;
    assert k * (m + c) == k * m + k * c;
  }

  /** Adding c pixels at intensity k >= lo to a range whose moment is at least lo times its count. */
  lemma LowerStep(lo: int, k: int, m: nat, c: nat, w: int)
    requires lo <= k && lo * m <= w
    ensures lo * (m + c) <= w + k * c
  {
    assert lo * (m + c) == lo * m + lo * c;
    assert lo * c <= k * c;
  }

  /** A range of empty buckets holds no pixels and no moment. */
  lemma {:induction false} EmptyRange(h: seq<nat>, lo: int, hi: int)
    requires 0 <= lo && hi <= |h|
    requires forall i :: lo <= i < hi ==> h[i] == 0
    ensures Mass(h, lo, hi) == 0 && Moment(h, lo, hi) == 0
  {
    if hi > lo {
      EmptyRange(h, lo, hi - 1);
    }
  }

  // ---------------------------------------------------------------------------
  // Class statistics (compute_prob)
  // ---------------------------------------------------------------------------

  /**
   * What compute_prob is called with: a histogram of thresholdMax + 1 buckets
   * (intensities 0 to thresholdMax) from a non-empty image, and a cut inside it.
   */
  predicate ValidCut(h: seq<nat>, threshold: int, thresholdMax: int)
  {
    |h| == thresholdMax + 1 && 0 <= threshold <= thresholdMax && Total(h) > 0
  }

  /** Sum of the bucket fractions h[i] / total over [lo, hi), in ascending order. */
  function FractionSum(h: seq<nat>, total: real, lo: int, hi: int): real
    requires 0 <= lo && hi <= |h| && total != 0.0
    decreases hi - lo
  {
    if hi <= lo then 0.0 else FractionSum(h, total, lo, hi - 1) + h[hi - 1] as real / total
  }

  /** Sum of i * (h[i] / total) over [lo, hi), in ascending order. */
  function WeightedFractionSum(h: seq<nat>, total: real, lo: int, hi: int): real
    requires 0 <= lo && hi <= |h| && total != 0.0
    decreases hi - lo
  {
    if hi <= lo then 0.0
    else WeightedFractionSum(h, total, lo, hi - 1) + (hi - 1) as real * (h[hi - 1] as real / total)
  }

  /**
   * The class statistics compute_prob produces for the cut at `threshold`,
   * in exact arithmetic: class 1 is [0, threshold], class 2 is
   * (threshold, thresholdMax]. P1 sums the bucket fractions of class 1 and
   * P2 = 1 - P1. Each mean sums intensity times bucket fraction over its
   * class and divides by the class probability, or is 0 when that
   * probability is not positive.
   */
  function Stats(h: seq<nat>, threshold: int, thresholdMax: int): ClassStats
    requires ValidCut(h, threshold, thresholdMax)
  {
    var total := Total(h) as real;
    var p1 := FractionSum(h, total, 0, threshold + 1);
    var p2 := 1.0 - p1;
    ClassStats(
      p1,
      p2,
      if p1 > 0.0 then WeightedFractionSum(h, total, 0, threshold + 1) / p1 else 0.0,
      if p2 > 0.0 then WeightedFractionSum(h, total, threshold + 1, thresholdMax + 1) / p2 else 0.0)
  }

  /** Summing the bucket fractions of a range gives its pixel count over the total. */
  lemma {:induction false} FractionSumIsRatio(h: seq<nat>, total: real, lo: int, hi: int)
    requires 0 <= lo && hi <= |h| && total != 0.0
    ensures FractionSum(h, total, lo, hi) == Mass(h, lo, hi) as real / total
    decreases hi - lo
  {
    if hi > lo {
      FractionSumIsRatio(h, total, lo, hi - 1);
      AddOver(Mass(h, lo, hi - 1) as real, h[hi - 1] as real, total);
    }
  }

  /** Summing intensity times bucket fraction over a range gives its moment over the total. */
  lemma {:induction false} WeightedFractionSumIsRatio(h: seq<nat>, total: real, lo: int, hi: int)
    requires 0 <= lo && hi <= |h| && total != 0.0
    ensures WeightedFractionSum(h, total, lo, hi) == Moment(h, lo, hi) as real / total
    decreases hi - lo
  {
    if hi > lo {
      WeightedFractionSumIsRatio(h, total, lo, hi - 1);
      var i := hi - 1;
      MomentCast(h, lo, hi);
      WeightedStep(WeightedFractionSum(h, total, lo, i), Moment(h, lo, i) as real, i as real, h[i] as real, total,
                   WeightedFractionSum(h, total, lo, hi), Moment(h, lo, hi) as real);
    }
  }

  /**
   * P1 and P2 are the shares of the pixels at or below and above the cut:
   * probabilities summing to 1, each positive exactly when its class holds a pixel.
   */
  lemma ProbabilitiesPartition(h: seq<nat>, threshold: int, thresholdMax: int)
    requires ValidCut(h, threshold, thresholdMax)
    ensures Stats(h, threshold, thresholdMax).p1 == Mass(h, 0, threshold + 1) as real / Total(h) as real
    ensures Stats(h, threshold, thresholdMax).p2
            == Mass(h, threshold + 1, thresholdMax + 1) as real / Total(h) as real
    ensures Stats(h, threshold, thresholdMax).p1 + Stats(h, threshold, thresholdMax).p2 == 1.0
    ensures 0.0 <= Stats(h, threshold, thresholdMax).p1 <= 1.0
    ensures 0.0 <= Stats(h, threshold, thresholdMax).p2 <= 1.0
    ensures Stats(h, threshold, thresholdMax).p1 > 0.0 <==> Mass(h, 0, threshold + 1) > 0
    ensures Stats(h, threshold, thresholdMax).p2 > 0.0 <==> Mass(h, threshold + 1, thresholdMax + 1) > 0
  {
    var below, above := Mass(h, 0, threshold + 1), Mass(h, threshold + 1, thresholdMax + 1);
    MassSplit(h, 0, threshold + 1, thresholdMax + 1);
    assert Total(h) == below + above;
    FractionSumIsRatio(h, Total(h) as real, 0, threshold + 1);
    SubtractFraction(below as real, above as real, Total(h) as real);
    Fraction(below, below + above);
  }

  /**
   * The means compute_prob accumulates are the count-weighted mean intensities
   * of the classes: M1 is the moment of [0, threshold] over its pixel count,
   * M2 the moment of (threshold, thresholdMax] over its pixel count; each is
   * 0 for an empty class.
   */
  lemma ClassMeans(h: seq<nat>, threshold: int, thresholdMax: int)
    requires ValidCut(h, threshold, thresholdMax)
    ensures Stats(h, threshold, thresholdMax).m1
            == if Mass(h, 0, threshold + 1) > 0
               then Moment(h, 0, threshold + 1) as real / Mass(h, 0, threshold + 1) as real
               else 0.0
    ensures Stats(h, threshold, thresholdMax).m2
            == if Mass(h, threshold + 1, thresholdMax + 1) > 0
               then Moment(h, threshold + 1, thresholdMax + 1) as real / Mass(h, threshold + 1, thresholdMax + 1) as real
               else 0.0
  {
    var total := Total(h) as real;
    var below, above := Mass(h, 0, threshold + 1), Mass(h, threshold + 1, thresholdMax + 1);
    ProbabilitiesPartition(h, threshold, thresholdMax);
    MassSplit(h, 0, threshold + 1, thresholdMax + 1);
    FractionSumIsRatio(h, total, 0, threshold + 1);
    WeightedFractionSumIsRatio(h, total, 0, threshold + 1);
    WeightedFractionSumIsRatio(h, total, threshold + 1, thresholdMax + 1);
    var s := Stats(h, threshold, thresholdMax);
    if below > 0 {
      RatioOfRatios(Moment(h, 0, threshold + 1) as real, below as real, total);
    }
    if above > 0 {
      assert s.p2 == above as real / total by {
        SubtractFraction(below as real, above as real, total);
      }
      RatioOfRatios(Moment(h, threshold + 1, thresholdMax + 1) as real, above as real, total);
    }
  }

  /**
   * Each class mean lies within its class: M1 in [0, threshold] and M2 in
   * [threshold + 1, thresholdMax] whenever that class is not empty. An empty
   * class has mean 0.
   */
  lemma MeansWithinClasses(h: seq<nat>, threshold: int, thresholdMax: int)
    requires ValidCut(h, threshold, thresholdMax)
    ensures Stats(h, threshold, thresholdMax).p1 == 0.0 ==> Stats(h, threshold, thresholdMax).m1 == 0.0
    ensures Stats(h, threshold, thresholdMax).p2 == 0.0 ==> Stats(h, threshold, thresholdMax).m2 == 0.0
    ensures Stats(h, threshold, thresholdMax).p1 > 0.0 ==>
              0.0 <= Stats(h, threshold, thresholdMax).m1 <= threshold as real
    ensures Stats(h, threshold, thresholdMax).p2 > 0.0 ==>
              (threshold + 1) as real <= Stats(h, threshold, thresholdMax).m2 <= thresholdMax as real
  {
    var s := Stats(h, threshold, thresholdMax);
    ProbabilitiesPartition(h, threshold, thresholdMax);
    ClassMeans(h, threshold, thresholdMax);
    if s.p1 > 0.0 {
      MomentLower(h, 0, threshold + 1);
      MomentUpper(h, 0, threshold + 1);
      BoundedRatio(Moment(h, 0, threshold + 1), Mass(h, 0, threshold + 1), 0, threshold);
    }
    if s.p2 > 0.0 {
      MomentLower(h, threshold + 1, thresholdMax + 1);
      MomentUpper(h, threshold + 1, thresholdMax + 1);
      BoundedRatio(Moment(h, threshold + 1, thresholdMax + 1), Mass(h, threshold + 1, thresholdMax + 1), threshold + 1, thresholdMax);
    }
  }

  /** lo * d <= n <= hi * d with d > 0 puts n / d in [lo, hi]. */
  lemma BoundedRatio(n: int, d: int, lo: int, hi: int)
    requires d > 0 && lo * d <= n <= hi * d
    ensures lo as real <= n as real / d as real <= hi as real
  {
    var q := n as real / d as real;
    assert q * d as real == n as real;
    assert (lo * d) as real == lo as real * d as real;
    assert (hi * d) as real == hi as real * d as real;
  }

  /** n / d for 0 <= n <= d, d > 0, is a probability: positive iff n > 0, below 1 iff n < d. */
  lemma Fraction(n: nat, d: nat)
    requires 0 < d && n <= d
    ensures 0.0 <= n as real / d as real <= 1.0
    ensures n as real / d as real > 0.0 <==> n > 0
    ensures n as real / d as real < 1.0 <==> n < d
  {
    var q := n as real / d as real;
    assert q * d as real == n as real;
  }

  /** Adding fractions over one denominator. */
  lemma AddOver(a: real, b: real, d: real)
    requires d != 0.0
    ensures a / d + b / d == (a + b) / d
  {
  }

  /** The moment's recurrence, read over the reals. */
  lemma MomentCast(h: seq<nat>, lo: int, hi: int)
    requires 0 <= lo < hi <= |h|
    ensures Moment(h, lo, hi) as real == Moment(h, lo, hi - 1) as real + (hi - 1) as real * h[hi - 1] as real
  {
    CastProduct(hi - 1, h[hi - 1]);
  }

  /** Adding x times the fraction w / d to the fraction a / d keeps a running sum equal to a' / d. */
  lemma WeightedStep(sum: real, a: real, x: real, w: real, d: real, sum': real, a': real)
    requires d != 0.0 && sum == a / d
    requires sum' == sum + x * (w / d) && a' == a + x * w
    ensures sum' == a' / d
  {
  }

  /** The complement of a / (a + b) is b / (a + b). */
  lemma SubtractFraction(a: real, b: real, d: real)
    requires d != 0.0 && d == a + b
    ensures 1.0 - a / d == b / d
  {
    AddOver(a, b, d);
  }

  /** (n / d) / (c / d) is n / c. */
  lemma RatioOfRatios(n: real, c: real, d: real)
    requires c != 0.0 && d != 0.0
    ensures (n / d) / (c / d) == n / c
  {
  }

  /** Converting an integer product to a real is the product of the conversions. */
  lemma CastProduct(x: int, w: int)
    ensures (x * w) as real == x as real * w as real
  {
  }

  /** Adding one bucket's weighted fraction, divided by the class probability, to a running class mean. */
  lemma MeanStep(h: seq<nat>, total: real, lo: int, i: int, p: real)
    requires 0 <= lo <= i < |h| && total != 0.0 && p != 0.0
    ensures WeightedFractionSum(h, total, lo, i) / p + (i as real * (h[i] as real / total)) / p
            == WeightedFractionSum(h, total, lo, i + 1) / p
  {
    AddOver(WeightedFractionSum(h, total, lo, i), i as real * (h[i] as real / total), p);
  }

  /**
   * compute_prob: accumulates P1 bucket by bucket, sets P2 = 1 - P1, then
   * accumulates each class mean when its class probability is positive.
   */
  method ComputeProb(h: seq<nat>, threshold: int, thresholdMax: int) returns (s: ClassStats)
    requires ValidCut(h, threshold, thresholdMax)
    ensures s == Stats(h, threshold, thresholdMax)
  {
    var total := Total(h) as real;
    var p1 := 0.0;
    for i := 0 to threshold + 1
      invariant p1 == FractionSum(h, total, 0, i)
    {
      p1 := p1 + h[i] as real / total;
    }
    var p2 := 1.0 - p1;
    var m1 := 0.0;
    if p1 > 0.0 {
      for i := 0 to threshold + 1
        invariant m1 == WeightedFractionSum(h, total, 0, i) / p1
      {
        MeanStep(h, total, 0, i, p1);
        m1 := m1 + (i as real * (h[i] as real / total)) / p1;
      }
    }
    var m2 := 0.0;
    if p2 > 0.0 {
      for i := threshold + 1 to thresholdMax + 1
        invariant m2 == WeightedFractionSum(h, total, threshold + 1, i) / p2
      {
        MeanStep(h, total, threshold + 1, i, p2);
        m2 := m2 + (i as real * (h[i] as real / total)) / p2;
      }
    }
    s := ClassStats(p1, p2, m1, m2);
  }

  // ---------------------------------------------------------------------------
  // Between-class variance (compute_BCV)
  // ---------------------------------------------------------------------------

  /** Between-class variance P1 * P2 * (M1 - M2)^2: zero exactly when a class is empty or the means coincide. */
  function Bcv(s: ClassStats): (v: real)
    ensures s.p1 >= 0.0 && s.p2 >= 0.0 ==> v >= 0.0
    ensures v == 0.0 <==> (s.p1 == 0.0 || s.p2 == 0.0 || s.m1 == s.m2)
  {
    var d := s.m1 - s.m2;
    var w := s.p1 * s.p2;
    SquarePositive(d);
    ProductZero(s.p1, s.p2);
    ProductZero(w, d * d);
    w * (d * d)
  }

  /** A square is non-negative, and zero only at zero. */
  lemma SquarePositive(d: real)
    ensures d * d >= 0.0
    ensures d * d == 0.0 <==> d == 0.0
  {
    ProductZero(d, d);
    PositiveProduct(if d < 0.0 then -d else d);
    assert d * d == (-d) * (-d);
  }

  /** The product of a positive real with itself is positive. */
  lemma PositiveProduct(e: real)
    ensures e > 0.0 ==> e * e > 0.0
  {
    if e > 0.0 {
      if e <= 1.0 {
        assert e * e >= e * 0.0;
      } else {
        assert e * e >= 1.0 * e;
      }
    }
  }

  /** A product of reals is zero exactly when a factor is. */
  lemma ProductZero(a: real, b: real)
    ensures a * b == 0.0 <==> a == 0.0 || b == 0.0
  {
    if a != 0.0 && b != 0.0 {
      assert (a * b) / a == b;
    }
  }

  /** The score the search maximises: the between-class variance of the cut at `threshold`. */
  function Score(h: seq<nat>, threshold: int, thresholdMax: int): (v: real)
    requires ValidCut(h, threshold, thresholdMax)
    ensures v >= 0.0
  {
    ProbabilitiesPartition(h, threshold, thresholdMax);
    Bcv(Stats(h, threshold, thresholdMax))
  }

  // ---------------------------------------------------------------------------
  // Otsu search (otsu_thresholding)
  // ---------------------------------------------------------------------------

  /** The candidates scanned from `start` on: start, start + step, ... while below thresholdMax. */
  function Scan(start: int, step: int, thresholdMax: int): (r: seq<int>)
    requires step >= 1
    ensures forall c :: c in r ==> start <= c < thresholdMax
    decreases thresholdMax - start
  {
    if start >= thresholdMax then [] else [start] + Scan(start + step, step, thresholdMax)
  }

  /** The k-th scanned candidate is start + k * step, so the scan is strictly ascending. */
  lemma {:induction false} ScanAt(start: int, step: int, thresholdMax: int, k: int)
    requires step >= 1
    requires 0 <= k < |Scan(start, step, thresholdMax)|
    ensures Scan(start, step, thresholdMax)[k] == start + k * step
    decreases thresholdMax - start
  {
    if k > 0 {
      ScanAt(start + step, step, thresholdMax, k - 1);
    }
  }

  /**
   * The k-th point of the grid start + k * step is scanned exactly when it lies
   * below thresholdMax, and then it is the k-th scanned candidate.
   */
  lemma {:induction false} ScanGrid(start: int, step: int, thresholdMax: int, k: int)
    requires step >= 1 && k >= 0
    ensures k < |Scan(start, step, thresholdMax)| <==> start + k * step < thresholdMax
    decreases k
  {
    if k > 0 {
      ScanGrid(start + step, step, thresholdMax, k - 1);
      assert start + k * step == start + step + (k - 1) * step;
      if start >= thresholdMax {
        assert start + k * step >= start;
      }
    }
  }

  /** What otsu_thresholding demands: a positive step and, if any candidate is scanned, a usable histogram. */
  predicate ValidSearch(h: seq<nat>, step: int, thresholdMax: int)
  {
    step >= 1 && (thresholdMax <= 0 || (|h| == thresholdMax + 1 && Total(h) > 0))
  }

  /**
   * `t` is the threshold Otsu's search picks: 0 or a scanned candidate, whose
   * score is at least that of every scanned candidate and strictly greater
   * than that of every earlier one (the first maximum wins).
   */
  ghost predicate IsOtsuChoice(h: seq<nat>, step: int, thresholdMax: int, t: int)
    requires ValidSearch(h, step, thresholdMax)
  {
    var candidates := Scan(0, step, thresholdMax);
    (t == 0 || t in candidates)
    && (forall c :: c in candidates ==> Score(h, c, thresholdMax) <= Score(h, t, thresholdMax))
    && (forall c :: c in candidates && c < t ==> Score(h, c, thresholdMax) < Score(h, t, thresholdMax))
  }

  /**
   * The state of otsu_thresholding's loop before it scores `threshold`: the
   * candidates below it have been scored in order, `ideal` is 0 or one of them,
   * `bcvMax` is the best score so far (0 before any), no score seen exceeds it,
   * and every candidate scored before `ideal` scored strictly less.
   */
  ghost predicate SearchState(h: seq<nat>, step: int, thresholdMax: int,
                              threshold: int, evaluated: seq<int>, ideal: int, bcvMax: real)
    requires ValidSearch(h, step, thresholdMax)
  {
    0 <= threshold
    && evaluated + Scan(threshold, step, thresholdMax) == Scan(0, step, thresholdMax)
    && (forall c :: c in evaluated ==> 0 <= c < threshold && c < thresholdMax)
    && (ideal == 0 || ideal in evaluated)
    && (evaluated == [] <==> threshold == 0)
    && (evaluated == [] ==> ideal == 0 && bcvMax == 0.0)
    && (evaluated != [] ==> thresholdMax > 0 && bcvMax == Score(h, ideal, thresholdMax))
    && (ideal != 0 ==> bcvMax > 0.0)
    && (forall c :: c in evaluated ==> Score(h, c, thresholdMax) <= bcvMax)
    && (forall c :: c in evaluated && c < ideal ==> Score(h, c, thresholdMax) < bcvMax)
  }

  /** Scoring the next candidate and keeping it only when strictly better preserves the loop state. */
  lemma SearchStep(h: seq<nat>, step: int, thresholdMax: int,
                   threshold: int, evaluated: seq<int>, ideal: int, bcvMax: real, bcv: real)
    requires ValidSearch(h, step, thresholdMax)
    requires SearchState(h, step, thresholdMax, threshold, evaluated, ideal, bcvMax)
    requires threshold < thresholdMax && bcv == Score(h, threshold, thresholdMax)
    ensures SearchState(h, step, thresholdMax, threshold + step, evaluated + [threshold],
                        if bcv > bcvMax then threshold else ideal,
                        if bcv > bcvMax then bcv else bcvMax)
  {
    assert Scan(threshold, step, thresholdMax) == [threshold] + Scan(threshold + step, step, thresholdMax);
    if evaluated == [] && bcv <= bcvMax {
      assert bcv == 0.0 && ideal == threshold;
    }
  }

  /** Once every candidate is scored, the loop state describes the search's choice. */
  lemma SearchDone(h: seq<nat>, step: int, thresholdMax: int,
                   threshold: int, evaluated: seq<int>, ideal: int, bcvMax: real)
    requires ValidSearch(h, step, thresholdMax)
    requires SearchState(h, step, thresholdMax, threshold, evaluated, ideal, bcvMax)
    requires threshold >= thresholdMax
    ensures evaluated == Scan(0, step, thresholdMax)
    ensures IsOtsuChoice(h, step, thresholdMax, ideal)
    ensures ideal != 0 ==> Score(h, ideal, thresholdMax) > 0.0
  {
  }

  /**
   * otsu_thresholding: scans the candidates in ascending order, keeping the
   * first one whose score is strictly above the best so far (which starts at 0).
   * `evaluated` records the candidates in the order they were scored.
   */
  method OtsuThreshold(h: seq<nat>, step: int, thresholdMax: int) returns (ideal: int, ghost evaluated: seq<int>)
    requires ValidSearch(h, step, thresholdMax)
    ensures evaluated == Scan(0, step, thresholdMax)
    ensures IsOtsuChoice(h, step, thresholdMax, ideal)
    ensures ideal != 0 ==> Score(h, ideal, thresholdMax) > 0.0
    ensures thresholdMax <= 0 ==> ideal == 0
  {
    var threshold := 0;
    var bcvMax := 0.0;
    ideal := 0;
    evaluated := [];
    while threshold < thresholdMax
      invariant SearchState(h, step, thresholdMax, threshold, evaluated, ideal, bcvMax)
      decreases thresholdMax - threshold
    {
      var stats := ComputeProb(h, threshold, thresholdMax);
      var bcv := Bcv(stats);
      SearchStep(h, step, thresholdMax, threshold, evaluated, ideal, bcvMax, bcv);
      if bcv > bcvMax {
        bcvMax := bcv;
        ideal := threshold;
      }
      evaluated := evaluated + [threshold];
      threshold := threshold + step;
    }
    SearchDone(h, step, thresholdMax, threshold, evaluated, ideal, bcvMax);
  }

  /** The search's contract pins its result down: two thresholds that both satisfy it are equal. */
  lemma OtsuChoiceUnique(h: seq<nat>, step: int, thresholdMax: int, a: int, b: int)
    requires ValidSearch(h, step, thresholdMax)
    requires IsOtsuChoice(h, step, thresholdMax, a) && IsOtsuChoice(h, step, thresholdMax, b)
    ensures a == b
  {
    if thresholdMax > 0 {
      assert 0 in Scan(0, step, thresholdMax);
    }
  }

  // ---------------------------------------------------------------------------
  // A worked case: two equal spikes at the ends of the intensity range
  // ---------------------------------------------------------------------------

  /** `count` pixels at intensity 0, `count` at thresholdMax, none elsewhere. */
  function TwoSpikes(count: nat, thresholdMax: nat): (h: seq<nat>)
    ensures |h| == thresholdMax + 1
  {
    seq(thresholdMax + 1, i => if i == 0 || i == thresholdMax then count else 0)
  }

  /** Every cut below thresholdMax splits the two spikes evenly: P1 = P2 = 1/2, M1 = 0, M2 = thresholdMax. */
  lemma TwoSpikesStats(count: nat, thresholdMax: nat, threshold: int)
    requires count > 0 && 0 <= threshold < thresholdMax
    ensures ValidCut(TwoSpikes(count, thresholdMax), threshold, thresholdMax)
    ensures Stats(TwoSpikes(count, thresholdMax), threshold, thresholdMax)
            == ClassStats(0.5, 0.5, 0.0, thresholdMax as real)
  {
    var h := TwoSpikes(count, thresholdMax);
    TwoSpikesCounts(count, thresholdMax, threshold);
    var s := Stats(h, threshold, thresholdMax);
    assert s.p1 == 0.5 by {
      FractionSumIsRatio(h, Total(h) as real, 0, threshold + 1);
      HalfOfDouble(count);
    }
    ClassMeans(h, threshold, thresholdMax);
    assert s.m2 == thresholdMax as real by {
      ScaledMean(thresholdMax, count);
    }
  }

  /** Pixel counts and moments of the two classes of the two-spike histogram at a cut below thresholdMax. */
  lemma TwoSpikesCounts(count: nat, thresholdMax: nat, threshold: int)
    requires 0 <= threshold < thresholdMax
    ensures Total(TwoSpikes(count, thresholdMax)) == 2 * count
    ensures Mass(TwoSpikes(count, thresholdMax), 0, threshold + 1) == count
    ensures Mass(TwoSpikes(count, thresholdMax), threshold + 1, thresholdMax + 1) == count
    ensures Moment(TwoSpikes(count, thresholdMax), 0, threshold + 1) == 0
    ensures Moment(TwoSpikes(count, thresholdMax), threshold + 1, thresholdMax + 1) == thresholdMax * count
  {
    var h := TwoSpikes(count, thresholdMax);
    EmptyRange(h, 1, threshold + 1);
    MassSplit(h, 0, 1, threshold + 1);
    assert Moment(h, 0, 1) == 0;
    MomentSplit(h, 0, 1, threshold + 1);
    EmptyRange(h, threshold + 1, thresholdMax);
    MassSplit(h, threshold + 1, thresholdMax, thresholdMax + 1);
    MomentSplit(h, threshold + 1, thresholdMax, thresholdMax + 1);
    MassSplit(h, 0, threshold + 1, thresholdMax + 1);
  }

  /** n out of 2n is one half. */
  lemma HalfOfDouble(n: nat)
    requires n > 0
    ensures n as real / (2 * n) as real == 0.5
  {
  }

  /** n pixels all at intensity k have mean k. */
  lemma ScaledMean(k: nat, n: nat)
    requires n > 0
    ensures (k * n) as real / n as real == k as real
  {
    CastProduct(k, n);
  }

  /** The moment of a range is the sum of the moments of its two parts. */
  lemma {:induction false} MomentSplit(h: seq<nat>, lo: int, mid: int, hi: int)
    requires 0 <= lo <= mid <= hi <= |h|
    ensures Moment(h, lo, hi) == Moment(h, lo, mid) + Moment(h, mid, hi)
  {
    if hi > mid {
      MomentSplit(h, lo, mid, hi - 1);
    }
  }

  /** All cuts of the two-spike histogram tie, so the first candidate, 0, is the search's choice. */
  lemma TwoSpikesChooseZero(count: nat, thresholdMax: nat, step: int, t: int)
    requires count > 0 && thresholdMax >= 1 && step >= 1
    requires ValidSearch(TwoSpikes(count, thresholdMax), step, thresholdMax)
    requires IsOtsuChoice(TwoSpikes(count, thresholdMax), step, thresholdMax, t)
    ensures t == 0
  {
    assert 0 in Scan(0, step, thresholdMax);
    TwoSpikesStats(count, thresholdMax, 0);
    TwoSpikesStats(count, thresholdMax, t);
  }
}
