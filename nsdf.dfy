/** The value-level definitions behind SDTPitch_dsp (McLeod and Wyvill's
    normalised square difference function): the power spectrum written over
    the half-complex transform, the running normaliser, the NSDF itself, the
    first-negative scan, and the parabolic, rebiased peak selection. */
module Nsdf {
  import opened Common

  // ----- hop and tolerance settings -----

  /** `seek`, the number of lags examined: `0.85 * size` truncated towards
      zero, with 0.85 taken as the exact decimal. */
  function Seek(size: nat): (seek: nat)
    ensures seek <= size
    ensures seek as real <= 0.85 * size as real < seek as real + 1.0
  {
    size * 85 / 100
  }

  /** SDTPitch_setTolerance: the tolerance clipped to [0, 1]. */
  function Tolerance(f: real): (tol: real)
    ensures 0.0 <= tol <= 1.0
    ensures 0.0 <= f <= 1.0 ==> tol == f
  {
    FClip(f, 0.0, 1.0)
  }

  /** Setting the tolerance twice to the same value is setting it once, and
      a stored tolerance is a fixed point. */
  lemma ToleranceIdempotent(f: real)
    ensures Tolerance(Tolerance(f)) == Tolerance(f)
  {
    var t := Tolerance(f);
    assert 0.0 <= t <= 1.0;
  }

  // ----- power spectrum over the half-complex layout -----

  /** The square of a sample. */
  function Sq(x: real): (r: real)
    ensures r >= 0.0
  {
    x * x
  }

  /** Real part of bin `k` (`0 <= k <= n`) of a half-complex spectrum of
      length `2n`: stored at `k`. */
  function Re(h: seq<real>, n: nat, k: nat): real
    requires n >= 1 && |h| == 2 * n && k <= n
  {
    h[k]
  }

  /** Imaginary part of bin `k`: stored at `2n - k` for `0 < k < n`, and 0
      for the two purely real bins 0 and `n`. */
  function Im(h: seq<real>, n: nat, k: nat): real
    requires n >= 1 && |h| == 2 * n && k <= n
  {
    if k == 0 || k == n then 0.0 else h[2 * n - k]
  }

  /** The rewrite of the transform output in SDTPitch_dsp: every slot `k <= n`
      holds the squared modulus `Re(k)^2 + Im(k)^2` of bin `k`, and the slots
      of the imaginary parts are zeroed. */
  function Power(h: seq<real>, n: nat): (p: seq<real>)
    requires n >= 1 && |h| == 2 * n
    ensures |p| == 2 * n
    ensures forall k :: n < k < 2 * n ==> p[k] == 0.0
  {
    seq(2 * n, k requires 0 <= k < 2 * n =>
      if k == 0 || k == n then Sq(h[k])
      else if k < n then Sq(h[k]) + Sq(h[2 * n - k])
      else 0.0)
  }

  /** Slot `k <= n` of the rewrite is the squared modulus of bin `k`, and so
      is never negative. */
  lemma PowerIsSquaredModulus(h: seq<real>, n: nat, k: nat)
    requires n >= 1 && |h| == 2 * n && k <= n
    ensures Power(h, n)[k] == Sq(Re(h, n, k)) + Sq(Im(h, n, k))
    ensures Power(h, n)[k] >= 0.0
  {
  }

  // ----- normalised square difference -----

  /** The normaliser `norm` before lag `k`: `acf[0]`, less
      `(w[t]^2 + w[n-1-t]^2) * n` for every earlier lag `t`. */
  function Norm(a0: real, w: seq<real>, n: nat, k: nat): real
    requires |w| >= n && k <= n
  {
    if k == 0 then a0
    else Norm(a0, w, n, k - 1) - (w[k - 1] * w[k - 1] + w[n - k] * w[n - k]) * n as real
  }

  /** The normaliser never grows from one lag to the next. */
  lemma {:induction false} NormNonIncreasing(a0: real, w: seq<real>, n: nat, k: nat, k': nat)
    requires |w| >= n && k <= k' <= n
    ensures Norm(a0, w, n, k') <= Norm(a0, w, n, k)
    decreases k' - k
  {
    if k < k' {
      NormNonIncreasing(a0, w, n, k, k' - 1);
      var u, v := w[k' - 1], w[n - k'];
      assert u * u + v * v >= 0.0;
      assert (u * u + v * v) * n as real >= 0.0;
    }
  }

  /** No lag below `seek` divides by a zero normaliser. */
  ghost predicate NormsNonZero(a0: real, w: seq<real>, n: nat, seek: nat)
    requires |w| >= n && seek <= n
  {
    forall k :: 0 <= k < seek ==> Norm(a0, w, n, k) != 0.0
  }

  /** The NSDF values of lags `0..seek-1`: each autocorrelation value over
      the normaliser of its lag. */
  function NsdfValues(acf: seq<real>, w: seq<real>, n: nat, seek: nat): (r: seq<real>)
    requires |acf| >= 1 && seek <= |acf| && |w| >= n && seek <= n
    requires NormsNonZero(acf[0], w, n, seek)
    ensures |r| == seek
  {
    seq(seek, k requires 0 <= k < seek => acf[k] / Norm(acf[0], w, n, k))
  }

  /** Each NSDF value times the normaliser of its lag is the
      autocorrelation value, and lag 0 is normalised to 1. */
  lemma NsdfNormalised(acf: seq<real>, w: seq<real>, n: nat, seek: nat, k: nat)
    requires |acf| >= 1 && seek <= |acf| && |w| >= n && seek <= n
    requires NormsNonZero(acf[0], w, n, seek) && k < seek
    ensures NsdfValues(acf, w, n, seek)[k] * Norm(acf[0], w, n, k) == acf[k]
    ensures NsdfValues(acf, w, n, seek)[0] == 1.0
  {
    var r, d := NsdfValues(acf, w, n, seek), Norm(acf[0], w, n, k);
    assert Norm(acf[0], w, n, 0) == acf[0] != 0.0;
    assert r[0] == acf[0] / acf[0] == 1.0 by { DivSelf(acf[0]); }
    assert d != 0.0 && r[k] == acf[k] / d;
    QuotientTimesDivisor(r[k], d, acf[k]);
  }

  lemma DivSelf(x: real)
    requires x != 0.0
    ensures x / x == 1.0
  {
    QuotientTimesDivisor(x / x, x, x);
  }

  /** One more lag appends one value. */
  lemma NsdfValuesSnoc(acf: seq<real>, w: seq<real>, n: nat, k: nat)
    requires |acf| >= 1 && k < |acf| && |w| >= n && k < n
    requires NormsNonZero(acf[0], w, n, k + 1)
    ensures NormsNonZero(acf[0], w, n, k)
    ensures NsdfValues(acf, w, n, k + 1) == NsdfValues(acf, w, n, k) + [acf[k] / Norm(acf[0], w, n, k)]
  {
  }

  // ----- first-negative scan -----

  /** The scan that starts the peak search: from lag `i` on, the first lag
      below `seek` whose value is negative, or `seek` when there is none
      (or `i` itself when `i` is already at or past `seek`). */
  function FirstNegative(s: seq<real>, i: nat, seek: int): (r: nat)
    requires seek <= |s|
    ensures r >= i && (r <= seek || r == i)
    ensures r < seek ==> s[r] < 0.0
    ensures forall t :: i <= t < r ==> s[t] >= 0.0
    decreases seek - i
  {
    if i >= seek || s[i] < 0.0 then i else FirstNegative(s, i + 1, seek)
  }

  // ----- peak interpolation and rebias -----

  /** Lag `i` is a strict local maximum of `s`, with neighbours inside `s`. */
  predicate IsPeak(s: seq<real>, i: int)
  {
    1 <= i < |s| - 1 && s[i - 1] < s[i] && s[i] > s[i + 1]
  }

  /** `2b - a - c`, the negated second difference at a peak. */
  function Curvature(a: real, b: real, c: real): (d: real)
    ensures a < b && b > c ==> d > 0.0
  {
    2.0 * b - a - c
  }

  /** The lag correction added to the peak lag. */
  function Offset(a: real, b: real, c: real): (d: real)
    requires a < b && b > c
    ensures -0.5 < d < 0.5
  {
    var den := Curvature(a, b, c);
    var d := (0.5 * (c - a)) / den;
    assert d * den == 0.5 * (c - a);
    assert -0.5 * den < 0.5 * (c - a) < 0.5 * den;
    d
  }

  /** The peak value of SDTPitch_dsp: `b + (c - a)^2 / (4(2b - a - c))`. */
  function PeakValue(a: real, b: real, c: real): (v: real)
    requires a < b && b > c
    ensures v >= b
  {
    var den := Curvature(a, b, c);
    var q := 0.5 * (0.5 * ((c - a) * (c - a))) / den;
    assert q * den == 0.25 * ((c - a) * (c - a)) >= 0.0;
    b + q
  }

  /** The parabola through `(-1, a)`, `(0, b)`, `(1, c)`. */
  function Parabola(a: real, b: real, c: real, x: real): real
  {
    b + x * (c - a) / 2.0 - x * x * Curvature(a, b, c) / 2.0
  }

  /** The parabola passes through the three samples, peaks at `Offset`, and
      the peak value of SDTPitch_dsp rises above `b` twice as far as the
      parabola's vertex does. */
  lemma PeakValueDoublesVertex(a: real, b: real, c: real, x: real)
    requires a < b && b > c
    ensures Parabola(a, b, c, -1.0) == a && Parabola(a, b, c, 0.0) == b && Parabola(a, b, c, 1.0) == c
    ensures Parabola(a, b, c, x) <= Parabola(a, b, c, Offset(a, b, c))
    ensures PeakValue(a, b, c) - b == 2.0 * (Parabola(a, b, c, Offset(a, b, c)) - b)
  {
    var den, d := Curvature(a, b, c), Offset(a, b, c);
    assert d * den == 0.5 * (c - a);
    var q := PeakValue(a, b, c) - b;
    assert q * den == 0.25 * ((c - a) * (c - a));
    // the parabola is `b + den * (d * x - x * x / 2)`, largest at `x = d`
    assert Parabola(a, b, c, x) == b + den * (d * x - x * x / 2.0);
    assert Parabola(a, b, c, d) == b + den * (d * d / 2.0);
    assert (x - d) * (x - d) >= 0.0;
    assert d * x - x * x / 2.0 <= d * d / 2.0;
    assert q * den == den * den * d * d;
    assert q == den * d * d;
  }

  /** The value at the vertex of the parabola through the three samples,
      `b + (c - a)^2 / (8(2b - a - c))`: the clarity of McLeod and Wyvill's
      parabolic interpolation, half the rise of `PeakValue`. */
  function VertexValue(a: real, b: real, c: real): (v: real)
    requires a < b && b > c
    ensures v >= b
  {
    var den := Curvature(a, b, c);
    var q := 0.125 * ((c - a) * (c - a)) / den;
    assert q * den == 0.125 * ((c - a) * (c - a)) >= 0.0;
    b + q
  }

  /** The vertex value is the largest value of the parabola, reached at the
      lag correction, and `PeakValue` lies as far above it as it lies
      above `b`. */
  lemma VertexValueIsParabolaMaximum(a: real, b: real, c: real, x: real)
    requires a < b && b > c
    ensures VertexValue(a, b, c) == Parabola(a, b, c, Offset(a, b, c))
    ensures Parabola(a, b, c, x) <= VertexValue(a, b, c)
    ensures PeakValue(a, b, c) - VertexValue(a, b, c) == VertexValue(a, b, c) - b
  {
    PeakValueDoublesVertex(a, b, c, x);
    var den := Curvature(a, b, c);
    var p, q := PeakValue(a, b, c) - b, VertexValue(a, b, c) - b;
    assert p * den == 0.25 * ((c - a) * (c - a));
    assert q * den == 0.125 * ((c - a) * (c - a));
    assert (p - 2.0 * q) * den == 0.0;
    assert p == 2.0 * q;
  }

  /** NSDF values inside [-1, 1] for which the peak value of SDTPitch_dsp
      exceeds 1, outside the clarity range [0, 1]: 0.7022, 0.9833, 0.9117 at
      lags 9, 10 and 11 of a sinusoid with a period of 10.3 samples. The
      vertex of the parabola through them stays below 1. For 0.5, 0.99, 0.9
      even the vertex lies above 1. */
  lemma ClarityAboveOne()
    ensures PeakValue(0.7022, 0.9833, 0.9117) > 1.0
    ensures VertexValue(0.7022, 0.9833, 0.9117) < 1.0
    ensures VertexValue(0.5, 0.99, 0.9) > 1.0
  {
    assert VertexValue(0.5, 0.99, 0.9) - 0.99 == 0.125 * (0.4 * 0.4) / Curvature(0.5, 0.99, 0.9);
    var den := Curvature(0.7022, 0.9833, 0.9117);
    assert den == 0.3527;
    var p, q := PeakValue(0.7022, 0.9833, 0.9117) - 0.9833, VertexValue(0.7022, 0.9833, 0.9117) - 0.9833;
    assert p * den == 0.25 * (0.2095 * 0.2095);
    assert q * den == 0.125 * (0.2095 * 0.2095);
  }

  /** The bias applied to lag `i` of a search over `seek` lags:
      `1 - i * tol / seek`, with the integer lag and lag count converted to
      doubles as C converts them; no bias at all when the tolerance is 0. */
  function Rebias(i: real, tol: real, seek: real): real
    requires seek > 0.0
  {
    1.0 - i * tol / seek
  }

  /** With tolerance 0 no peak is penalised. */
  lemma RebiasWithoutTolerance(i: real, seek: real)
    requires seek > 0.0
    ensures Rebias(i, 0.0, seek) == 1.0
  {
    assert i * 0.0 == 0.0;
  }

  /** Over the examined lags the bias is a factor in [0, 1], smaller at
      larger lags. */
  lemma RebiasInUnit(i: real, i': real, tol: real, seek: real)
    requires seek > 0.0 && 0.0 <= tol <= 1.0 && 0.0 <= i <= i' <= seek
    ensures 0.0 <= Rebias(i', tol, seek) <= Rebias(i, tol, seek) <= 1.0
  {
    PenaltyNonNegative(i, tol, seek);
    PenaltyMonotone(i, i', tol, seek);
    PenaltyAtMostOne(i', tol, seek);
  }

  // One goal per lemma: together the three facts overwhelm the solver's
  // nonlinear arithmetic.

  lemma PenaltyNonNegative(i: real, tol: real, seek: real)
    requires seek > 0.0 && 0.0 <= tol && 0.0 <= i
    ensures 0.0 <= i * tol / seek
  {
    ProductNonNegative(i, tol);
    var p := i * tol;
    var q := p / seek;
    assert q * seek == p;
  }

  lemma PenaltyMonotone(i: real, i': real, tol: real, seek: real)
    requires seek > 0.0 && 0.0 <= tol && i <= i'
    ensures i * tol / seek <= i' * tol / seek
  {
    ProductNonNegative(i' - i, tol);
    var q, q' := i * tol / seek, i' * tol / seek;
    assert (q' - q) * seek == (i' - i) * tol;
  }

  lemma PenaltyAtMostOne(i: real, tol: real, seek: real)
    requires seek > 0.0 && 0.0 <= tol <= 1.0 && 0.0 <= i <= seek
    ensures i * tol / seek <= 1.0
  {
    ProductNonNegative(i, 1.0 - tol);
    var q := i * tol / seek;
    assert (1.0 - q) * seek == seek - i * tol;
  }

  /** The biased value compared across peaks, for the NSDF values `s` of
      the `|s|` examined lags. */
  function Biased(s: seq<real>, i: int, tol: real): real
    requires IsPeak(s, i)
  {
    Rebias(i as real, tol, |s| as real) * PeakValue(s[i - 1], s[i], s[i + 1])
  }

  // ----- peak selection -----

  /** The peak the search over lags `start..end-1` keeps: a peak replaces
      the kept one only when its biased value is strictly larger, starting
      from 0. */
  function Best(s: seq<real>, start: int, end: int, tol: real): (r: Option<int>)
    ensures r.Some? ==> start <= r.value < end && IsPeak(s, r.value)
    decreases end - start
  {
    if end <= start then None
    else
      var kept := Best(s, start, end - 1, tol);
      var i := end - 1;
      if IsPeak(s, i) && Biased(s, i, tol) > (if kept.Some? then Biased(s, kept.value, tol) else 0.0)
      then Some(i)
      else kept
  }

  /** The kept peak is the earliest lag whose biased value is the largest
      and exceeds 0; no peak is kept when no biased value exceeds 0. */
  lemma {:induction false} BestMeaning(s: seq<real>, start: int, end: int, tol: real)
    ensures var r := Best(s, start, end, tol);
      && (r.Some? ==> Biased(s, r.value, tol) > 0.0)
      && (r.Some? ==> forall t :: start <= t < end && IsPeak(s, t) ==>
            Biased(s, t, tol) <= Biased(s, r.value, tol))
      && (r.Some? ==> forall t :: start <= t < r.value && IsPeak(s, t) ==>
            Biased(s, t, tol) < Biased(s, r.value, tol))
      && (r.None? ==> forall t :: start <= t < end && IsPeak(s, t) ==> Biased(s, t, tol) <= 0.0)
    decreases end - start
  {
    if end > start {
      BestMeaning(s, start, end - 1, tol);
    }
  }

  /** What SDTPitch_dsp reports: the pitch and the clarity. */
  datatype Estimate = Estimate(pitch: real, clarity: real)

  /** The estimate from the peak at lag `i`: the sample rate over the
      interpolated lag, and the peak value. */
  function EstimateAt(s: seq<real>, i: int, sampleRate: real): Estimate
    requires IsPeak(s, i)
  {
    var a, b, c := s[i - 1], s[i], s[i + 1];
    Estimate(sampleRate / (i as real + Offset(a, b, c)), PeakValue(a, b, c))
  }

  /** The estimate for the NSDF values `s` of the examined lags and the
      search start `start`: that of the kept peak, or 0 and 0 when no peak
      is kept. */
  function Estimated(s: seq<real>, start: int, tol: real, sampleRate: real): Estimate
  {
    var r := Best(s, start, |s| - 1, tol);
    if r.Some? then EstimateAt(s, r.value, sampleRate) else Estimate(0.0, 0.0)
  }

  /** No peak is kept exactly when no biased value exceeds 0, and then the
      estimate is 0 and 0. Otherwise the kept lag is the earliest one that
      maximises the biased value, the clarity is its peak value, positive
      and at least its NSDF value, and the pitch is the sample rate over a
      lag within half a sample of it. */
  lemma EstimateMeaning(s: seq<real>, start: int, tol: real, sampleRate: real)
    requires 0.0 <= tol <= 1.0
    ensures var e, r := Estimated(s, start, tol, sampleRate), Best(s, start, |s| - 1, tol);
      && (r.None? <==> forall t :: start <= t < |s| - 1 && IsPeak(s, t) ==> Biased(s, t, tol) <= 0.0)
      && (r.None? ==> e == Estimate(0.0, 0.0))
      && (r.Some? ==> var i := r.value;
            && e.clarity == PeakValue(s[i - 1], s[i], s[i + 1]) >= s[i]
            && e.clarity > 0.0
            && (sampleRate > 0.0 ==> e.pitch > 0.0 && i as real - 0.5 < sampleRate / e.pitch < i as real + 0.5))
  {
    var r := Best(s, start, |s| - 1, tol);
    BestMeaning(s, start, |s| - 1, tol);
    if r.Some? {
      KeptClarity(s, r.value, tol);
      if sampleRate > 0.0 {
        KeptPitch(s, r.value, sampleRate);
      }
    }
  }

  /** A peak whose biased value is positive has a positive peak value. */
  lemma KeptClarity(s: seq<real>, i: int, tol: real)
    requires IsPeak(s, i) && 0.0 <= tol <= 1.0 && Biased(s, i, tol) > 0.0
    ensures PeakValue(s[i - 1], s[i], s[i + 1]) > 0.0
  {
    RebiasInUnit(i as real, i as real, tol, |s| as real);
    PositiveFactor(Rebias(i as real, tol, |s| as real), PeakValue(s[i - 1], s[i], s[i + 1]));
  }

  /** At a peak the reported pitch is positive, and the sample rate over it
      is the interpolated lag, within half a sample of the peak's lag. */
  lemma KeptPitch(s: seq<real>, i: int, sampleRate: real)
    requires IsPeak(s, i) && sampleRate > 0.0
    ensures var e := EstimateAt(s, i, sampleRate);
      e.pitch > 0.0 && i as real - 0.5 < sampleRate / e.pitch < i as real + 0.5
  {
    var lag := i as real + Offset(s[i - 1], s[i], s[i + 1]);
    assert EstimateAt(s, i, sampleRate).pitch == sampleRate / lag;
    Reciprocal(sampleRate, lag);
  }

  /** A product with a factor in [0, 1] is positive only if the other
      factor is. */
  lemma PositiveFactor(x: real, y: real)
    requires 0.0 <= x <= 1.0 && x * y > 0.0
    ensures y > 0.0
  {
  }

  /** Dividing a positive `x` by `x / y` gives back `y`. */
  lemma Reciprocal(x: real, y: real)
    requires x > 0.0 && y > 0.0
    ensures x / y > 0.0 && x / (x / y) == y
  {
    var f := x / y;
    assert f * y == x;
  }
}
