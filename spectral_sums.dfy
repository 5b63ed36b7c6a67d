/** The per-frame arithmetic of SDTSpectralFeats_dsp over one band of bins
    `[min, max)`: the whitener update, the sums of the first pass and the
    weighted moments, flux and onset of the second pass, and the eight
    descriptors built from them. Square root, logarithm and exponential are
    parameters: the model does not interpret them. */
module SpectralSums {
  import opened Common

  /** fmax(SDT_MICRO, fmax(alpha * w, a)): a bin's whitener after a frame. */
  function Whiten(micro: real, alpha: real, w: real, a: real): (r: real)
    ensures r >= micro && r >= alpha * w && r >= a
    ensures r == micro || r == alpha * w || r == a
  {
    Max(micro, Max(alpha * w, a))
  }

  /** A non-negative magnitude divided by its new whitener lies in [0, 1]. */
  lemma WhitenedInUnit(micro: real, alpha: real, w: real, a: real)
    requires micro > 0.0 && a >= 0.0
    ensures 0.0 <= a / Whiten(micro, alpha, w, a) <= 1.0
  {
    FractionInUnit(a, Whiten(micro, alpha, w, a));
  }

  /** Every bin's whitener after a frame with magnitudes `a`. */
  function Whitener(w: seq<real>, a: seq<real>, micro: real, alpha: real): (r: seq<real>)
    requires |w| == |a|
    ensures |r| == |a|
  {
    seq(|a|, t requires 0 <= t < |a| => Whiten(micro, alpha, w[t], a[t]))
  }

  /** Every bin's magnitude divided by its new whitener. */
  function Whitened(w: seq<real>, a: seq<real>, micro: real, alpha: real): (r: seq<real>)
    requires |w| == |a| && micro > 0.0
    ensures |r| == |a|
  {
    seq(|a|, t requires 0 <= t < |a| => a[t] / Whiten(micro, alpha, w[t], a[t]))
  }

  /** The whitened magnitudes times the new whiteners give back the
      magnitudes, and a non-negative magnitude is whitened into [0, 1]. */
  lemma WhitenedTimesWhitener(w: seq<real>, a: seq<real>, micro: real, alpha: real, t: int)
    requires |w| == |a| && micro > 0.0 && 0 <= t < |a|
    ensures Whitened(w, a, micro, alpha)[t] * Whitener(w, a, micro, alpha)[t] == a[t]
    ensures a[t] >= 0.0 ==> 0.0 <= Whitened(w, a, micro, alpha)[t] <= 1.0
  {
    var d := Whiten(micro, alpha, w[t], a[t]);
    assert Whitened(w, a, micro, alpha)[t] == a[t] / d;
    QuotientTimesDivisor(Whitened(w, a, micro, alpha)[t], Whitener(w, a, micro, alpha)[t], a[t]);
    if a[t] >= 0.0 {
      WhitenedInUnit(micro, alpha, w[t], a[t]);
    }
  }

  /** `base` with the bins of the band `[min, max)` taken from `band`: what
      a pass over the band leaves in a per-bin buffer. */
  function Overlay(base: seq<real>, band: seq<real>, min: int, max: int): (r: seq<real>)
    requires |band| == |base|
    ensures |r| == |base|
  {
    seq(|base|, t requires 0 <= t < |base| => if min <= t < max then band[t] else base[t])
  }

  /** A second pass over the same band overwrites the first. */
  lemma OverlayTwice(base: seq<real>, first: seq<real>, second: seq<real>, min: int, max: int)
    requires |first| == |base| && |second| == |base|
    ensures Overlay(Overlay(base, first, min, max), second, min, max) == Overlay(base, second, min, max)
  {
  }

  /** Sum of `a[k]` over `lo <= k < hi`. */
  function BandSum(a: seq<real>, lo: int, hi: int): real
    requires 0 <= lo && hi <= |a|
    decreases hi - lo
  {
    if hi <= lo then 0.0 else BandSum(a, lo, hi - 1) + a[hi - 1]
  }

  /** Sum of `log(a[k])` over the band. */
  function LogSum(a: seq<real>, lo: int, hi: int, log: real -> real): real
    requires 0 <= lo && hi <= |a|
    decreases hi - lo
  {
    if hi <= lo then 0.0 else LogSum(a, lo, hi - 1, log) + log(a[hi - 1])
  }

  /** Position of bin `k` in a band starting at `min` of `span` bins: the
      centre of the bin, as a fraction of the band. */
  function Position(k: int, min: int, span: int): real
    requires span != 0
  {
    ((k - min) as real + 0.5) / span as real
  }

  /** Magnitude `x` of bin `k` weighted by the bin's position in the band. */
  function CentroidTerm(x: real, k: int, min: int, span: int): real
    requires span != 0
  {
    x * ((k - min) as real + 0.5) / span as real
  }

  /** Sum of magnitudes weighted by bin position, over `min <= k < hi`. */
  function CentroidSum(a: seq<real>, min: int, hi: int, span: int): real
    requires 0 <= min && hi <= |a|
    requires hi <= min || span > 0
    decreases hi - min
  {
    if hi <= min then 0.0
    else CentroidSum(a, min, hi - 1, span) + CentroidTerm(a[hi - 1], hi - 1, min, span)
  }

  /** Weight `x` times the `e`-th power of the deviation `d`. */
  function Weighted(x: real, d: real, e: nat): real
  {
    Pow(d, e) * x
  }

  /** Sum over `min <= k < hi` of `(Position(k) - centre)^e * p[k]`. */
  function MomentSum(p: seq<real>, min: int, hi: int, span: int, centre: real, e: nat): real
    requires 0 <= min && hi <= |p|
    requires hi <= min || span > 0
    decreases hi - min
  {
    if hi <= min then 0.0
    else MomentSum(p, min, hi - 1, span, centre, e) + Weighted(p[hi - 1], Position(hi - 1, min, span) - centre, e)
  }

  /** Sum of squared differences between this frame's and the previous
      frame's normalised magnitudes. */
  function FluxSum(p: seq<real>, prev: seq<real>, lo: int, hi: int): (r: real)
    requires 0 <= lo && hi <= |p| && hi <= |prev|
    ensures r >= 0.0
    decreases hi - lo
  {
    if hi <= lo then 0.0
    else
      EvenPowNonNegative(p[hi - 1] - prev[hi - 1], 1);
      FluxSum(p, prev, lo, hi - 1) + Pow(p[hi - 1] - prev[hi - 1], 2)
  }

  /** Sum of the rectified rises of the whitened magnitudes. */
  function OnsetSum(now: seq<real>, prev: seq<real>, lo: int, hi: int): (r: real)
    requires 0 <= lo && hi <= |now| && hi <= |prev|
    ensures r >= 0.0
    decreases hi - lo
  {
    if hi <= lo then 0.0
    else OnsetSum(now, prev, lo, hi - 1) + Max(0.0, now[hi - 1] - prev[hi - 1])
  }

  /** Every element of `a` divided by `s`. */
  function Scaled(a: seq<real>, s: real): (p: seq<real>)
    requires s != 0.0
    ensures |p| == |a|
  {
    seq(|a|, k requires 0 <= k < |a| => a[k] / s)
  }

  /** A band with a positive sum is not empty. */
  lemma PositiveSumNonEmpty(a: seq<real>, lo: int, hi: int)
    requires 0 <= lo && hi <= |a| && BandSum(a, lo, hi) != 0.0
    ensures lo < hi
  {
  }

  /** Dividing every magnitude by `s` divides the band sum by `s`: the
      normalised magnitudes of a frame sum to 1. */
  lemma {:induction false} ScaledBandSum(a: seq<real>, lo: int, hi: int, s: real)
    requires 0 <= lo && hi <= |a| && s != 0.0
    ensures BandSum(Scaled(a, s), lo, hi) == BandSum(a, lo, hi) / s
    decreases hi - lo
  {
    if hi > lo {
      ScaledBandSum(a, lo, hi - 1, s);
      assert Scaled(a, s)[hi - 1] == a[hi - 1] / s;
      assert BandSum(a, lo, hi - 1) / s + a[hi - 1] / s == (BandSum(a, lo, hi - 1) + a[hi - 1]) / s;
    }
  }

  /** The band sum reads only the band. */
  lemma {:induction false} BandSumAgrees(a: seq<real>, b: seq<real>, lo: int, hi: int)
    requires 0 <= lo && hi <= |a| && hi <= |b|
    requires forall k :: lo <= k < hi ==> a[k] == b[k]
    ensures BandSum(a, lo, hi) == BandSum(b, lo, hi)
    decreases hi - lo
  {
    if lo < hi {
      BandSumAgrees(a, b, lo, hi - 1);
    }
  }

  /** Non-negative magnitudes have a non-negative band sum. */
  lemma {:induction false} BandSumNonNegative(a: seq<real>, lo: int, hi: int)
    requires 0 <= lo && hi <= |a|
    requires forall k :: lo <= k < hi ==> a[k] >= 0.0
    ensures BandSum(a, lo, hi) >= 0.0
    decreases hi - lo
  {
    if hi > lo {
      BandSumNonNegative(a, lo, hi - 1);
    }
  }

  /** Every bin position inside the band lies strictly between 0 and 1, so the
      position-weighted sum of non-negative magnitudes lies between 0 and
      their plain sum. */
  lemma {:induction false} CentroidWithinSum(a: seq<real>, min: int, hi: int, span: int)
    requires 0 <= min <= hi <= |a| && span > 0 && hi <= min + span
    requires forall k :: min <= k < hi ==> a[k] >= 0.0
    ensures 0.0 <= CentroidSum(a, min, hi, span) <= BandSum(a, min, hi)
    decreases hi - min
  {
    if hi > min {
      CentroidWithinSum(a, min, hi - 1, span);
      CentroidTermWithin(a[hi - 1], hi - 1, min, span);
    }
  }

  /** A bin inside the band weighs a non-negative magnitude by a factor in
      (0, 1). */
  lemma CentroidTermWithin(x: real, k: int, min: int, span: int)
    requires min <= k < min + span && x >= 0.0
    ensures 0.0 <= CentroidTerm(x, k, min, span) <= x
  {
    var q, d := (k - min) as real + 0.5, span as real;
    assert 0.0 < q < d;
    assert 0.0 <= x * q <= x * d;
    assert x * q / d <= x * d / d;
  }

  /** Even moments of non-negative weights are non-negative: the spread
      accumulator is. */
  lemma {:induction false} EvenMomentNonNegative(p: seq<real>, min: int, hi: int, span: int, centre: real, e: nat)
    requires 0 <= min && hi <= |p| && (hi <= min || span > 0)
    requires forall k :: min <= k < hi ==> p[k] >= 0.0
    ensures MomentSum(p, min, hi, span, centre, 2 * e) >= 0.0
    decreases hi - min
  {
    if hi > min {
      EvenMomentNonNegative(p, min, hi - 1, span, centre, e);
      EvenPowNonNegative(Position(hi - 1, min, span) - centre, e);
    }
  }

  /** The eight descriptors of a frame, in the order SDTSpectralFeats_dsp
      writes them to `outs[0..7]`. */
  datatype Features = Features(
    magnitude: real, brightness: real, spread: real, skewness: real,
    kurtosis: real, flatness: real, flux: real, onset: real)

  /** The divisions of a frame are defined: the band's magnitude sum is
      positive and the (uninterpreted) square root of the spread accumulator
      is non-zero. */
  predicate FrameDefined(a: seq<real>, min: int, max: int, sqrt: real -> real)
  {
    && 0 <= min && max <= |a| && BandSum(a, min, max) > 0.0
    && var sum := BandSum(a, min, max);
       var centre := CentroidSum(a, min, max, max - min) / sum;
       sqrt(MomentSum(Scaled(a, sum), min, max, max - min, centre, 2)) != 0.0
  }

  /** The descriptors from the accumulators of the two passes: band sum,
      log sum and position-weighted sum of the magnitudes, the 2nd-4th
      moments of the normalised magnitudes, flux and onset sums. */
  function Assemble(sum: real, logSum: real, centroid: real, m2: real, m3: real, m4: real,
                    flux: real, onset: real, span: int, sqrt: real -> real, exp: real -> real): Features
    requires sum != 0.0 && span != 0 && sqrt(m2) != 0.0
  {
    var s := sqrt(m2);
    PowNonZero(s, 3);
    PowNonZero(s, 4);
    Features(
      sum / span as real,
      centroid / sum,
      s,
      m3 / Pow(s, 3),
      m4 / Pow(s, 4) - 3.0,
      exp(logSum / span as real) / (sum / span as real),
      sqrt(flux),
      onset / span as real)
  }

  /** The eight descriptors of a frame with band magnitudes `a`, previous
      normalised magnitudes `prev`, and whitened magnitudes `now`/`before` of
      this frame and the previous one. */
  function Descriptors(a: seq<real>, prev: seq<real>, now: seq<real>, before: seq<real>,
                       min: int, max: int, log: real -> real, sqrt: real -> real, exp: real -> real): Features
    requires FrameDefined(a, min, max, sqrt)
    requires |prev| == |now| == |before| == |a|
  {
    var span := max - min;
    var sum := BandSum(a, min, max);
    var centre := CentroidSum(a, min, max, span) / sum;
    var p := Scaled(a, sum);
    Assemble(sum, LogSum(a, min, max, log), CentroidSum(a, min, max, span),
             MomentSum(p, min, max, span, centre, 2), MomentSum(p, min, max, span, centre, 3),
             MomentSum(p, min, max, span, centre, 4), FluxSum(p, prev, min, max),
             OnsetSum(now, before, min, max), span, sqrt, exp)
  }

  /** Accumulators that hold the sums of a defined frame assemble into that
      frame's descriptors. */
  lemma AccumulatorsAssemble(a: seq<real>, prev: seq<real>, now: seq<real>, before: seq<real>,
                             min: int, max: int, log: real -> real, sqrt: real -> real, exp: real -> real,
                             sum: real, logSum: real, centroid: real, m2: real, m3: real, m4: real,
                             flux: real, onset: real)
    requires FrameDefined(a, min, max, sqrt) && |prev| == |now| == |before| == |a|
    requires sum == BandSum(a, min, max) && logSum == LogSum(a, min, max, log)
    requires centroid == CentroidSum(a, min, max, max - min)
    requires m2 == MomentSum(Scaled(a, sum), min, max, max - min, centroid / sum, 2)
    requires m3 == MomentSum(Scaled(a, sum), min, max, max - min, centroid / sum, 3)
    requires m4 == MomentSum(Scaled(a, sum), min, max, max - min, centroid / sum, 4)
    requires flux == FluxSum(Scaled(a, sum), prev, min, max) && onset == OnsetSum(now, before, min, max)
    ensures sum != 0.0 && max - min != 0 && sqrt(m2) != 0.0
    ensures Assemble(sum, logSum, centroid, m2, m3, m4, flux, onset, max - min, sqrt, exp)
         == Descriptors(a, prev, now, before, min, max, log, sqrt, exp)
  {
    PositiveSumNonEmpty(a, min, max);
  }

  /** For non-negative magnitudes: the mean magnitude is positive, the
      brightness (centroid) lies in [0, 1], and the onset value is
      non-negative. */
  lemma DescriptorBounds(a: seq<real>, prev: seq<real>, now: seq<real>, before: seq<real>,
                         min: int, max: int, log: real -> real, sqrt: real -> real, exp: real -> real)
    requires FrameDefined(a, min, max, sqrt)
    requires |prev| == |now| == |before| == |a|
    requires forall k :: min <= k < max ==> a[k] >= 0.0
    ensures var d := Descriptors(a, prev, now, before, min, max, log, sqrt, exp);
      d.magnitude > 0.0 && 0.0 <= d.brightness <= 1.0 && d.onset >= 0.0
  {
    PositiveSumNonEmpty(a, min, max);
    var span, sum := max - min, BandSum(a, min, max);
    CentroidWithinSum(a, min, max, span);
    var c := CentroidSum(a, min, max, span);
    FractionInUnit(c, sum);
    var o := OnsetSum(now, before, min, max);
    assert o / span as real >= 0.0;
  }
}
