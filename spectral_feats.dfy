/** The spectral features extractor of SDTAnalysis.c (SDTSpectralFeats).
    Each call stores one sample in the mirrored input buffer; every `skip`
    calls it swaps its current/previous magnitude and whitened-magnitude
    buffers, takes the window (times 2), updates the per-bin whitener over
    the band `[min, max)` and computes the eight descriptors of
    `SpectralSums.Descriptors`.

    The Hann taper (SDT_hanning), the real-to-complex transform and the bin
    magnitudes are one function parameter, `magnitudes`, applied to the
    scaled window, so `win` keeps the untapered window where the source
    tapers it in place; square root, logarithm, exponential and `pow(10, .)` are
    parameters as well. The input ring and the window are arrays; the five
    per-bin buffers (`ampli[0..1]`, `white[0..1]`, `whitener`) form one
    `Bins` value held in a field, and swapping the two pointers of a pair is
    swapping two sequences. */
module SpectralFeatures {
  import opened Common
  import opened Stream
  import opened SpectralSums

  /** The whitener decay per hop, `10^(-0.12 * timeStep * skip)`; `pow10`
      stands for `pow(10, .)`. */
  function Decay(timeStep: real, skip: int, pow10: real -> real): real
  {
    pow10(-0.12 * timeStep * skip as real)
  }

  /** Every sample times 2: the window before the taper. */
  function Doubled(w: seq<real>): (d: seq<real>)
    ensures |d| == |w|
  {
    seq(|w|, k requires 0 <= k < |w| => 2.0 * w[k])
  }

  /** The window loop of SDTSpectralFeats_dsp: `win.Length` samples of
      `src` from `from` on, each times 2. */
  method CopyDoubled(src: array<real>, from: int, win: array<real>)
    requires src != win && 0 <= from && from + win.Length <= src.Length
    modifies win
    ensures win[..] == Doubled(src[from..from + win.Length])
  {
    for k := 0 to win.Length
      invariant forall t :: 0 <= t < k ==> win[t] == 2.0 * src[from + t]
    {
      win[k] := 2.0 * src[from + k];
    }
  }

  /** SDTSpectralFeats_setMinFreq: the lowest analysed bin for frequency
      `f`, `f * timeStep * size` converted by `toInt` and clipped to
      `[0, size / 2]`. */
  function MinBin(f: real, timeStep: real, size: int, toInt: real -> int): (min: int)
    requires size >= 1
    ensures 0 <= min <= size / 2
  {
    IntClip(toInt(f * timeStep * size as real), 0, size / 2)
  }

  /** The upper frequency of the band: a non-positive request stands for
      half the sample rate. */
  function TopFrequency(f: real, sampleRate: real): (g: real)
    ensures f > 0.0 ==> g == f
  {
    if f <= 0.0 then sampleRate / 2.0 else f
  }

  /** SDTSpectralFeats_setMaxFreq: one past the highest analysed bin,
      `TopFrequency * timeStep * size + 1` converted by `toInt` and clipped
      to `[1, size / 2 + 1]`, so every bin below it exists. */
  function MaxBin(f: real, sampleRate: real, timeStep: real, size: int, toInt: real -> int): (max: int)
    requires size >= 1
    ensures 1 <= max <= size / 2 + 1
  {
    IntClip(toInt(TopFrequency(f, sampleRate) * timeStep * size as real + 1.0), 1, size / 2 + 1)
  }

  /** A non-positive maximum frequency selects the same bin as asking for
      the Nyquist frequency itself. */
  lemma NonPositiveMaxIsNyquist(f: real, sampleRate: real, timeStep: real, size: int, toInt: real -> int)
    requires size >= 1 && f <= 0.0 && sampleRate > 0.0
    ensures MaxBin(f, sampleRate, timeStep, size, toInt) == MaxBin(sampleRate / 2.0, sampleRate, timeStep, size, toInt)
  {
    var nyquist := sampleRate / 2.0;
    assert TopFrequency(f, sampleRate) == nyquist == TopFrequency(nyquist, sampleRate);
    var arg := nyquist * timeStep * size as real + 1.0;
    assert TopFrequency(f, sampleRate) * timeStep * size as real + 1.0 == arg;
    assert TopFrequency(nyquist, sampleRate) * timeStep * size as real + 1.0 == arg;
    assert MaxBin(f, sampleRate, timeStep, size, toInt) == IntClip(toInt(arg), 1, size / 2 + 1);
    assert MaxBin(nyquist, sampleRate, timeStep, size, toInt) == IntClip(toInt(arg), 1, size / 2 + 1);
  }

  /** First pass of a frame over the band `[min, max)`: store the
      magnitudes `a` in `ampli`, update the whitener, whiten, and sum the
      magnitudes, their logarithms and their position-weighted values. */
  method WhitenBand(a: seq<real>, ampli: seq<real>, whitener: seq<real>, white: seq<real>,
                    min: int, max: int, alpha: real, micro: real, log: real -> real)
    returns (ampli': seq<real>, whitener': seq<real>, white': seq<real>, sum: real, logSum: real, centroid: real)
    requires 0 <= min < max <= |a| && |ampli| == |a| && |whitener| == |a| && |white| == |a|
    requires micro > 0.0
    ensures sum == BandSum(a, min, max) && logSum == LogSum(a, min, max, log)
    ensures centroid == CentroidSum(a, min, max, max - min)
    ensures ampli' == Overlay(ampli, a, min, max)
    ensures whitener' == Overlay(whitener, Whitener(whitener, a, micro, alpha), min, max)
    ensures white' == Overlay(white, Whitened(whitener, a, micro, alpha), min, max)
  {
    var span := max - min;
    ampli', whitener', white' := ampli, whitener, white;
    sum, logSum, centroid := 0.0, 0.0, 0.0;
    var k := min;
    while k < max
      invariant min <= k <= max
      invariant |ampli'| == |whitener'| == |white'| == |a|
      invariant sum == BandSum(a, min, k) && logSum == LogSum(a, min, k, log)
      invariant centroid == CentroidSum(a, min, k, span)
      invariant forall t :: 0 <= t < |a| ==>
        whitener'[t] == if min <= t < k then Whiten(micro, alpha, whitener[t], a[t]) else whitener[t]
      invariant forall t :: 0 <= t < |a| ==> ampli'[t] == if min <= t < k then a[t] else ampli[t]
      invariant forall t :: 0 <= t < |a| ==>
        white'[t] == if min <= t < k then a[t] / Whiten(micro, alpha, whitener[t], a[t]) else white[t]
    {
      var v := a[k];
      var w := Whiten(micro, alpha, whitener'[k], v);
      ampli' := ampli'[k := v];
      whitener' := whitener'[k := w];
      white' := white'[k := v / w];
      sum := sum + v;
      logSum := logSum + log(v);
      centroid := centroid + CentroidTerm(v, k, min, span);
      k := k + 1;
    }
  }

  /** Second pass of a frame over the band: normalise the magnitudes in
      `ampli` by `sum` and accumulate the 2nd-4th moments about
      `centroid / sum`, the flux against the previous normalised magnitudes
      `prev` and the rectified rise from `whitePrev` to `white`. */
  method Accumulate(a: seq<real>, ampli: seq<real>, prev: seq<real>, white: seq<real>, whitePrev: seq<real>,
                    min: int, max: int, sum: real, centroid: real)
    returns (ampli': seq<real>, m2: real, m3: real, m4: real, flux: real, onset: real)
    requires 0 <= min < max <= |a| && sum != 0.0
    requires |ampli| == |a| && |prev| == |a| && |white| == |a| && |whitePrev| == |a|
    requires forall t :: min <= t < max ==> ampli[t] == a[t]
    ensures ampli' == Overlay(ampli, Scaled(a, sum), min, max)
    ensures m2 == MomentSum(Scaled(a, sum), min, max, max - min, centroid / sum, 2)
    ensures m3 == MomentSum(Scaled(a, sum), min, max, max - min, centroid / sum, 3)
    ensures m4 == MomentSum(Scaled(a, sum), min, max, max - min, centroid / sum, 4)
    ensures flux == FluxSum(Scaled(a, sum), prev, min, max)
    ensures onset == OnsetSum(white, whitePrev, min, max)
  {
    ghost var p := Scaled(a, sum);
    var span := max - min;
    var brightness := centroid / sum;
    ampli' := ampli;
    m2, m3, m4, flux, onset := 0.0, 0.0, 0.0, 0.0, 0.0;
    var k := min;
    while k < max
      invariant min <= k <= max && |ampli'| == |a|
      invariant forall t :: 0 <= t < |a| ==> ampli'[t] == if min <= t < k then p[t] else ampli[t]
      invariant m2 == MomentSum(p, min, k, span, brightness, 2)
      invariant m3 == MomentSum(p, min, k, span, brightness, 3)
      invariant m4 == MomentSum(p, min, k, span, brightness, 4)
      invariant flux == FluxSum(p, prev, min, k)
      invariant onset == OnsetSum(white, whitePrev, min, k)
    {
      var q := ampli'[k] / sum;
      assert q == p[k];
      ampli' := ampli'[k := q];
      var dev := Position(k, min, span) - brightness;
      m2 := m2 + Weighted(q, dev, 2);
      m3 := m3 + Weighted(q, dev, 3);
      m4 := m4 + Weighted(q, dev, 4);
      flux := flux + Pow(q - prev[k], 2);
      onset := onset + Max(0.0, white[k] - whitePrev[k]);
      k := k + 1;
    }
  }

  /** The per-bin buffers of the extractor, `fftSize` values each: the
      normalised magnitudes of this frame and of the previous one (`ampli[0]`,
      `ampli[1]`), the whitened magnitudes of both (`white[0]`, `white[1]`)
      and the running whitener. */
  datatype Bins = Bins(ampli0: seq<real>, ampli1: seq<real>,
                       white0: seq<real>, white1: seq<real>, whitener: seq<real>)
  {
    predicate Sized(n: int)
    {
      |ampli0| == n && |ampli1| == n && |white0| == n && |white1| == n && |whitener| == n
    }
  }

  /** The buffers after a frame with band magnitudes `a`: the two pairs swap
      places, then inside `[min, max)` the current pair receives the
      normalised and the whitened magnitudes and the whitener is updated. */
  function Updated(b: Bins, a: seq<real>, min: int, max: int, alpha: real, micro: real): (r: Bins)
    requires b.Sized(|a|) && 0 <= min && max <= |a| && BandSum(a, min, max) != 0.0 && micro > 0.0
    ensures r.Sized(|a|)
  {
    Bins(Overlay(b.ampli1, Scaled(a, BandSum(a, min, max)), min, max), b.ampli0,
         Overlay(b.white1, Whitened(b.whitener, a, micro, alpha), min, max), b.white0,
         Overlay(b.whitener, Whitener(b.whitener, a, micro, alpha), min, max))
  }

  /** Outside the band a frame only swaps the pairs: the new current buffers
      hold what the previous ones held, and the whitener is untouched. */
  lemma UpdatedOutsideBand(b: Bins, a: seq<real>, min: int, max: int, alpha: real, micro: real, k: int)
    requires b.Sized(|a|) && 0 <= min && max <= |a| && BandSum(a, min, max) != 0.0 && micro > 0.0
    requires 0 <= k < |a| && !(min <= k < max)
    ensures var r := Updated(b, a, min, max, alpha, micro);
      && r.ampli1 == b.ampli0 && r.white1 == b.white0
      && r.ampli0[k] == b.ampli1[k] && r.white0[k] == b.white1[k] && r.whitener[k] == b.whitener[k]
  {
  }

  /** Inside the band the whitener never falls below `micro`, its decayed
      previous value or the magnitude. */
  lemma UpdatedWhitener(b: Bins, a: seq<real>, min: int, max: int, alpha: real, micro: real, k: int)
    requires b.Sized(|a|) && 0 <= min && max <= |a| && BandSum(a, min, max) != 0.0 && micro > 0.0
    requires min <= k < max
    ensures var w := Updated(b, a, min, max, alpha, micro).whitener[k];
      w >= micro && w >= alpha * b.whitener[k] && w >= a[k]
  {
    var r := Updated(b, a, min, max, alpha, micro);
    assert r.whitener[k] == Whiten(micro, alpha, b.whitener[k], a[k]) by {
      assert r.whitener == Overlay(b.whitener, Whitener(b.whitener, a, micro, alpha), min, max);
    }
  }

  /** Inside the band the whitened magnitude is the magnitude divided by
      the new whitener, and a non-negative magnitude whitens into [0, 1]. */
  lemma UpdatedWhitening(b: Bins, a: seq<real>, min: int, max: int, alpha: real, micro: real, k: int)
    requires b.Sized(|a|) && 0 <= min && max <= |a| && BandSum(a, min, max) != 0.0 && micro > 0.0
    requires min <= k < max
    ensures var r := Updated(b, a, min, max, alpha, micro);
      && r.whitener[k] > 0.0 && r.white0[k] == a[k] / r.whitener[k]
      && (a[k] >= 0.0 ==> 0.0 <= r.white0[k] <= 1.0)
  {
    var r := Updated(b, a, min, max, alpha, micro);
    var d := Whiten(micro, alpha, b.whitener[k], a[k]);
    assert r.whitener[k] == d by {
      assert r.whitener == Overlay(b.whitener, Whitener(b.whitener, a, micro, alpha), min, max);
    }
    assert r.white0[k] == a[k] / d by {
      assert r.white0 == Overlay(b.white1, Whitened(b.whitener, a, micro, alpha), min, max);
    }
    if a[k] >= 0.0 {
      FractionInUnit(a[k], d);
    }
  }

  /** Inside the band the current buffer holds the magnitude divided by the
      band sum. */
  lemma UpdatedScaling(b: Bins, a: seq<real>, min: int, max: int, alpha: real, micro: real, k: int)
    requires b.Sized(|a|) && 0 <= min && max <= |a| && BandSum(a, min, max) != 0.0 && micro > 0.0
    requires min <= k < max
    ensures Updated(b, a, min, max, alpha, micro).ampli0[k] * BandSum(a, min, max) == a[k]
  {
    var r, s := Updated(b, a, min, max, alpha, micro), BandSum(a, min, max);
    assert r.ampli0[k] == Scaled(a, s)[k] == a[k] / s;
  }

  /** The current normalised magnitudes of the band sum to 1. */
  lemma {:induction false} UpdatedNormalised(b: Bins, a: seq<real>, min: int, max: int, alpha: real, micro: real)
    requires b.Sized(|a|) && 0 <= min && max <= |a| && BandSum(a, min, max) != 0.0 && micro > 0.0
    ensures BandSum(Updated(b, a, min, max, alpha, micro).ampli0, min, max) == 1.0
  {
    var s := BandSum(a, min, max);
    var r := Updated(b, a, min, max, alpha, micro);
    forall k | min <= k < max
      ensures r.ampli0[k] == Scaled(a, s)[k]
    {
    }
    BandSumAgrees(r.ampli0, Scaled(a, s), min, max);
    ScaledBandSum(a, min, max, s);
    assert BandSum(r.ampli0, min, max) == s / s == 1.0;
  }

  /** A frame's per-bin update and its descriptors: the swap of
      SDTSpectralFeats_dsp followed by its two passes over the band. */
  method Analyse(a: seq<real>, b: Bins, min: int, max: int, alpha: real, micro: real,
                 log: real -> real, sqrt: real -> real, exp: real -> real)
    returns (b': Bins, f: Features)
    requires b.Sized(|a|) && micro > 0.0
    requires FrameDefined(a, min, max, sqrt)
    ensures b' == Updated(b, a, min, max, alpha, micro)
    ensures f == Descriptors(a, b'.ampli1, b'.white0, b'.white1, min, max, log, sqrt, exp)
  {
    PositiveSumNonEmpty(a, min, max);
    var stored, whitener, white, sum, logSum, centroid;
    stored, whitener, white, sum, logSum, centroid := WhitenBand(a, b.ampli1, b.whitener, b.white1, min, max, alpha, micro, log);
    var ampli, m2, m3, m4, flux, onset;
    ampli, m2, m3, m4, flux, onset := Accumulate(a, stored, b.ampli0, white, b.white0, min, max, sum, centroid);
    OverlayTwice(b.ampli1, a, Scaled(a, sum), min, max);
    AccumulatorsAssemble(a, b.ampli0, white, b.white0, min, max, log, sqrt, exp,
                         sum, logSum, centroid, m2, m3, m4, flux, onset);
    b' := Bins(ampli, b.ampli0, white, b.white0, whitener);
    f := Assemble(sum, logSum, centroid, m2, m3, m4, flux, onset, max - min, sqrt, exp);
  }

  class SpectralFeats {
    var input: array<real>
    var win: array<real>
    var bins: Bins
    var alpha: real
    var feats: Features
    var i: int
    var j: int
    var size: int
    var fftSize: int
    var skip: int
    var min: int
    var max: int
    var span: int
    /** Every sample passed to `Dsp`, oldest first. */
    ghost var history: seq<real>

    /** Buffer shapes and index/counter/band ranges. */
    ghost predicate Shapes()
      reads this
    {
      && size >= 1 && fftSize == size / 2 + 1
      && input.Length == 2 * size && win.Length == size && input != win
      && bins.Sized(fftSize)
      && 0 <= i < size && 0 <= j < size && 1 <= skip <= size
      && 0 <= min <= size / 2 && 1 <= max <= fftSize && span == max - min
    }

    /** The mirrored input buffer holds the last `size` samples with the
        oldest at slot `i`. */
    ghost predicate Ring()
      reads this`i, this`size, this`history, this`input, input
    {
      size >= 0 && RingState(input[..], i, size, history)
    }

    ghost predicate Valid()
      reads this, input
    {
      Shapes() && Ring()
    }

    /** SDTSpectralFeats_new. The source's second initialisation loop runs to
        `fftSize` inclusive over buffers of `fftSize` elements; here the
        per-bin buffers have exactly `fftSize` elements. `magnitude` is left
        unset, as in the source. */
    constructor (size: int)
      requires size >= 1
      ensures Valid() && history == []
      ensures fresh(input) && fresh(win)
      ensures this.size == size && fftSize == size / 2 + 1 && skip == size && i == 0 && j == 0
      ensures min == 0 && max == size / 2 + 1 && span == size / 2 + 1 && alpha == 1.0
      ensures input[..] == Zeros(2 * size) && win[..] == Zeros(size)
      ensures bins.ampli0 == Zeros(fftSize) && bins.ampli1 == Zeros(fftSize)
      ensures bins.white0 == Zeros(fftSize) && bins.white1 == Zeros(fftSize)
      ensures forall k :: 0 <= k < fftSize ==> bins.whitener[k] == 1.0
      ensures feats.brightness == 0.0 && feats.spread == 0.0 && feats.skewness == 0.0
      ensures feats.kurtosis == 0.0 && feats.flatness == 0.0 && feats.flux == 0.0 && feats.onset == 0.0
    {
      var n := size / 2 + 1;
      var buf := new real[2 * size];
      var w := new real[size];
      for k := 0 to size
        invariant forall t :: 0 <= t < k || size <= t < size + k ==> buf[t] == 0.0
        invariant forall t :: 0 <= t < k ==> w[t] == 0.0
      {
        buf[k] := 0.0;
        buf[size + k] := 0.0;
        w[k] := 0.0;
      }
      assert buf[..] == Zeros(2 * size) && w[..] == Zeros(size);
      input, win := buf, w;
      bins := Bins(Zeros(n), Zeros(n), Zeros(n), Zeros(n), seq(n, _ => 1.0));
      alpha := 1.0;
      feats := Features(0.0, 0.0, 0.0, 0.0, 0.0, 0.0, 0.0, 0.0);
      i, j := 0, 0;
      this.size := size;
      fftSize := n;
      skip := size;
      min, max, span := 0, n, n;
      history := [];
      ZerosHoldEmptyWindow(size);
    }

    /** SDTSpectralFeats_setOverlap: the hop, and the whitener decay
        `10^(-0.12 * timeStep * skip)` (`pow10` is not interpreted). */
    method SetOverlap(f: real, toInt: real -> int, timeStep: real, pow10: real -> real)
      requires Valid()
      modifies this`skip, this`alpha
      ensures Valid()
      ensures skip == Hop(f, size, toInt) && alpha == Decay(timeStep, skip, pow10)
    {
      skip := Hop(f, size, toInt);
      alpha := Decay(timeStep, skip, pow10);
    }

    /** SDTSpectralFeats_setMinFreq. */
    method SetMinFreq(f: real, timeStep: real, toInt: real -> int)
      requires Valid()
      modifies this`min, this`span
      ensures Valid() && min == MinBin(f, timeStep, size, toInt) && span == max - min
    {
      min := MinBin(f, timeStep, size, toInt);
      span := max - min;
    }

    /** SDTSpectralFeats_setMaxFreq. */
    method SetMaxFreq(f: real, sampleRate: real, timeStep: real, toInt: real -> int)
      requires Valid()
      modifies this`max, this`span
      ensures Valid() && max == MaxBin(f, sampleRate, timeStep, size, toInt) && span == max - min
    {
      max := MaxBin(f, sampleRate, timeStep, size, toInt);
      span := max - min;
    }

    /** The next call completes a hop. */
    predicate Emits()
      reads this
      requires j >= 0 && skip >= 1
    {
      Wrap(j + 1, skip) == 0
    }

    /** The scaled window a frame would read after storing `x`. */
    ghost function FrameInput(x: real): seq<real>
      reads this
      requires size >= 0
    {
      Doubled(LastN(history + [x], size))
    }

    /** The first lines of SDTSpectralFeats_dsp: store `x` in both halves of
        the input buffer, advance the write index and the hop counter. */
    method Store(x: real)
      requires Valid()
      modifies this`i, this`j, this`history, input
      ensures Valid()
      ensures history == old(history) + [x]
      ensures input[..] == RingWrite(old(input[..]), old(i), size, x)
      ensures i == Next(old(i), size) && j == Wrap(old(j) + 1, skip)
    {
      i := StoreSample(input, i, size, history, x);
      j, history := Wrap(j + 1, skip), history + [x];
    }

    /** The window, in arrival order, times 2. */
    method FillWindow()
      requires Valid()
      modifies win
      ensures win[..] == Doubled(LastN(history, size))
    {
      ghost var w := LastN(history, size);
      RingWindow(w, i);
      assert input[i..i + size] == w;
      CopyDoubled(input, i, win);
      assert win[..] == Doubled(input[i..i + size]);
    }

    /** The part of SDTSpectralFeats_dsp run once per hop: swap the current
        and previous buffers, fill the window and analyse it. */
    method Frame(magnitudes: seq<real> -> seq<real>, micro: real,
                 log: real -> real, sqrt: real -> real, exp: real -> real) returns (f: Features)
      requires Valid() && micro > 0.0
      requires forall s: seq<real> :: |magnitudes(s)| == |s| / 2 + 1
      requires FrameDefined(magnitudes(Doubled(LastN(history, size))), min, max, sqrt)
      modifies this`bins, this`feats, win
      ensures Valid() && win[..] == Doubled(LastN(history, size))
      ensures var a := magnitudes(win[..]);
        && bins == Updated(old(bins), a, min, max, alpha, micro)
        && f == feats == Descriptors(a, bins.ampli1, bins.white0, bins.white1, min, max, log, sqrt, exp)
    {
      FillWindow();
      ghost var w := win[..];
      var a := magnitudes(win[..]);
      bins, feats := Analyse(a, bins, min, max, alpha, micro, log, sqrt, exp);
      assert win[..] == w;
      f := feats;
    }

    /** SDTSpectralFeats_dsp: `Some(features)` where the source returns 1 and
        writes `outs[0..7]` (the eight fields of `Features`, in order),
        `None` where it returns 0.
        `micro` is SDT_MICRO. Fields outside `modifies` keep their values. */
    method Dsp(x: real, magnitudes: seq<real> -> seq<real>, micro: real,
               log: real -> real, sqrt: real -> real, exp: real -> real) returns (out: Option<Features>)
      requires Valid() && micro > 0.0
      requires forall s: seq<real> :: |magnitudes(s)| == |s| / 2 + 1
      requires Emits() ==> FrameDefined(magnitudes(FrameInput(x)), min, max, sqrt)
      modifies this`i, this`j, this`history, input, this`bins, this`feats, win
      ensures Valid() && history == old(history) + [x]
      ensures input[..] == RingWrite(old(input[..]), old(i), size, x)
      ensures i == Next(old(i), size) && j == Wrap(old(j) + 1, skip)
      ensures out.Some? <==> j == 0
      ensures out.None? ==> bins == old(bins) && feats == old(feats) && unchanged(win)
      ensures out.Some? ==> var a := magnitudes(win[..]);
        && win[..] == Doubled(LastN(history, size))
        && bins == Updated(old(bins), a, min, max, alpha, micro)
        && out.value == feats == Descriptors(a, bins.ampli1, bins.white0, bins.white1, min, max, log, sqrt, exp)
    {
      ghost var counter, frame, before := Wrap(j + 1, skip), FrameInput(x), bins;
      Store(x);
      assert j == counter && bins == before;
      if j != 0 {
        return None;
      }
      assert frame == Doubled(LastN(history, size));
      var f := Frame(magnitudes, micro, log, sqrt, exp);
      out := Some(f);
    }
  }
}
