/** The pitch tracker of SDTAnalysis.c (SDTPitch). Each call stores one
    sample in the mirrored input buffer; every `skip` calls it copies the
    window (with its first sample forced to 1) into the lower half of a
    zero-padded buffer, squares the half-complex transform of it into a
    power spectrum, turns the inverse transform of that into the NSDF of
    the first `seek` lags, and reports the pitch and clarity of the chosen
    peak.

    The two planned transforms (real-to-half-complex and its inverse) are
    function parameters, `r2hc` and `hc2r`, applied by `Execute`; the sample
    rate is a parameter. */
module PitchTracker {
  import opened Common
  import opened Stream
  import opened Nsdf

  /** The transform input of a frame with window `v`: slot 0 forced to 1,
      the rest of the window, then `|v|` zeros. */
  function Window(v: seq<real>): (w: seq<real>)
    requires |v| >= 1
    ensures |w| == 2 * |v| && w[0] == 1.0
    ensures w[1..|v|] == v[1..] && w[|v|..] == Zeros(|v|)
  {
    [1.0] + v[1..] + Zeros(|v|)
  }

  /** The frame with window `v` divides by no zero normaliser. */
  ghost predicate FrameDefined(r2hc: seq<real> -> seq<real>, hc2r: seq<real> -> seq<real>,
                               v: seq<real>, seek: nat)
  {
    var n := |v|;
    n >= 1 && seek <= n
    && var h := r2hc(Window(v));
    |h| == 2 * n
    && var a := hc2r(Power(h, n));
    |a| >= 1 && NormsNonZero(a[0], Window(v), n, seek)
  }

  /** fftw_execute of a plan from `src` into `dst`. */
  method Execute(f: seq<real> -> seq<real>, src: array<real>, dst: array<real>)
    requires src != dst && |f(src[..])| == dst.Length
    modifies dst
    ensures dst[..] == f(src[..])
  {
    var out := f(src[..]);
    for k := 0 to dst.Length
      invariant forall t :: 0 <= t < k ==> dst[t] == out[t]
    {
      dst[k] := out[k];
    }
  }

  /** The window copy of SDTPitch_dsp: `n` samples of `src` from `from` on
      into the lower half of `win`, then slot 0 set to 1; the upper half is
      not touched. */
  method CopyWindow(src: array<real>, from: int, win: array<real>, n: int)
    requires src != win && n >= 1 && 0 <= from && from + n <= src.Length && win.Length == 2 * n
    modifies win
    ensures win[..n] == [1.0] + src[from + 1..from + n]
    ensures win[n..] == old(win[n..])
  {
    for k := 0 to n
      invariant forall t :: 0 <= t < k ==> win[t] == src[from + t]
      invariant forall t :: n <= t < 2 * n ==> win[t] == old(win[t])
    {
      win[k] := src[from + k];
    }
    win[0] := 1.0;
    assert win[..n] == [1.0] + src[from + 1..from + n];
  }

  /** The transform buffer once the bins below `k` have been rewritten:
      their squared moduli, the untouched middle, and the zeroed slots of
      the imaginary parts already consumed. */
  ghost function PowerUpTo(h: seq<real>, n: nat, k: nat): seq<real>
    requires n >= 1 && |h| == 2 * n && 1 <= k <= n
  {
    Power(h, n)[..k] + h[k..2 * n - k + 1] + Zeros(k - 1)
  }

  /** Squaring slot 0 starts the rewrite. */
  lemma PowerStart(h: seq<real>, n: nat)
    requires n >= 1 && |h| == 2 * n
    ensures Power(h, n)[0] == Sq(h[0])
    ensures h[0 := Power(h, n)[0]] == PowerUpTo(h, n, 1)
  {
    assert h[0 := Power(h, n)[0]] == [Power(h, n)[0]] + h[1..];
  }

  /** Rewriting bin `k` from its two slots extends the rewrite by one bin. */
  lemma PowerStep(h: seq<real>, n: nat, k: nat)
    requires n >= 1 && |h| == 2 * n && 1 <= k < n
    ensures |PowerUpTo(h, n, k)| == 2 * n
    ensures PowerUpTo(h, n, k)[k] == h[k] && PowerUpTo(h, n, k)[2 * n - k] == h[2 * n - k]
    ensures Power(h, n)[k] == Sq(h[k]) + Sq(h[2 * n - k])
    ensures PowerUpTo(h, n, k)[k := Power(h, n)[k]][2 * n - k := 0.0] == PowerUpTo(h, n, k + 1)
  {
    var p, u, v := Power(h, n), PowerUpTo(h, n, k), PowerUpTo(h, n, k + 1);
    var m := 2 * n - k;
    assert u[k] == h[k..m + 1][0];
    assert u[m] == h[k..m + 1][m - k];
    var u' := u[k := p[k]][m := 0.0];
    forall t | 0 <= t < 2 * n
      ensures u'[t] == v[t]
    {
      if t < k {
        assert u[t] == p[..k][t];
      } else if t == k {
      } else if t < m {
        assert u[t] == h[k..m + 1][t - k];
        assert v[t] == h[k + 1..m][t - k - 1];
      } else if t == m {
        assert v[t] == Zeros(k)[0];
      } else {
        assert u[t] == Zeros(k - 1)[t - m - 1];
        assert v[t] == Zeros(k)[t - m];
      }
    }
  }

  /** Squaring slot `n` completes the rewrite. */
  lemma PowerFinish(h: seq<real>, n: nat)
    requires n >= 1 && |h| == 2 * n
    ensures |PowerUpTo(h, n, n)| == 2 * n && PowerUpTo(h, n, n)[n] == h[n]
    ensures Power(h, n)[n] == Sq(h[n])
    ensures PowerUpTo(h, n, n)[n := Power(h, n)[n]] == Power(h, n)
  {
    var p, u := Power(h, n), PowerUpTo(h, n, n);
    assert u[n] == h[n..n + 1][0];
    forall t | 0 <= t < 2 * n
      ensures u[n := p[n]][t] == p[t]
    {
      if t < n {
        assert u[t] == p[..n][t];
      } else if t > n {
        assert u[t] == Zeros(n - 1)[t - n - 1];
      }
    }
  }

  /** One pass of the rewrite loop: bin `k` receives its squared modulus
      and the slot of its imaginary part is zeroed. */
  method RewriteBin(fft: array<real>, n: int, k: int, ghost h: seq<real>)
    requires n >= 1 && |h| == 2 * n && 1 <= k < n && fft[..] == PowerUpTo(h, n, k)
    modifies fft
    ensures fft[..] == PowerUpTo(h, n, k + 1)
  {
    var m := 2 * n - k;
    PowerStep(h, n, k);
    fft[k] := Sq(fft[k]) + Sq(fft[m]);
    fft[m] := 0.0;
    assert fft[..] == PowerUpTo(h, n, k)[k := Power(h, n)[k]][m := 0.0];
  }

  /** The in-place rewrite of the half-complex transform into its power
      spectrum. */
  method PowerSpectrum(fft: array<real>, n: int)
    requires n >= 1 && fft.Length == 2 * n
    modifies fft
    ensures fft[..] == Power(old(fft[..]), n)
  {
    ghost var h := fft[..];
    PowerStart(h, n);
    fft[0] := Sq(fft[0]);
    assert fft[..] == h[0 := Power(h, n)[0]];
    for k := 1 to n
      invariant fft[..] == PowerUpTo(h, n, k)
    {
      RewriteBin(fft, n, k, h);
    }
    PowerFinish(h, n);
    ghost var u := fft[..];
    fft[n] := Sq(fft[n]);
    assert fft[..] == u[n := Power(h, n)[n]];
  }

  /** The NSDF loop: `nsdf[k] = acf[k] / norm` for every lag below `seek`,
      the normaliser dropping after each lag; the rest of `nsdf` is left. */
  method Normalise(acf: array<real>, win: array<real>, nsdf: array<real>, n: int, seek: int)
    requires nsdf != acf && nsdf != win
    requires 0 <= seek <= n && n <= win.Length && 1 <= acf.Length && seek <= acf.Length && seek <= nsdf.Length
    requires NormsNonZero(acf[0], win[..], n, seek)
    modifies nsdf
    ensures nsdf[..seek] == NsdfValues(acf[..], win[..], n, seek)
    ensures nsdf[seek..] == old(nsdf[seek..])
  {
    ghost var w, a := win[..], acf[..];
    var norm := acf[0];
    for k := 0 to seek
      invariant norm == Norm(a[0], w, n, k)
      invariant nsdf[..k] == NsdfValues(a, w, n, k)
      invariant nsdf[seek..] == old(nsdf[seek..])
    {
      var m := n - k - 1;
      NsdfValuesSnoc(a, w, n, k);
      nsdf[k] := acf[k] / norm;
      assert nsdf[..k + 1] == nsdf[..k] + [nsdf[k]];
      norm := norm - (win[k] * win[k] + win[m] * win[m]) * n as real;
    }
  }

  /** The scan for the first negative NSDF value from lag 1 on. */
  method SkipPositive(nsdf: array<real>, seek: int) returns (start: int)
    requires 0 <= seek <= nsdf.Length
    ensures start == FirstNegative(nsdf[..seek], 1, seek)
  {
    ghost var s := nsdf[..seek];
    start := 1;
    while start < seek && nsdf[start] >= 0.0
      invariant 1 <= start && (start <= seek || start == 1)
      invariant FirstNegative(s, start, seek) == FirstNegative(s, 1, seek)
      decreases seek - start
    {
      assert s[start] == nsdf[start];
      start := start + 1;
    }
  }

  /** The peak search of SDTPitch_dsp over lags `start..seek-2`. */
  method PickPeak(nsdf: array<real>, start: int, seek: int, tol: real, sampleRate: real) returns (e: Estimate)
    requires 1 <= start && 0 <= seek <= nsdf.Length
    ensures e == Estimated(nsdf[..seek], start, tol, sampleRate)
  {
    ghost var s := nsdf[..seek];
    ghost var kept: Option<int> := None;
    e := Estimate(0.0, 0.0);
    var maxValue := 0.0;
    var i := start;
    while i < seek - 1
      invariant start <= i && (i <= seek - 1 || i == start)
      invariant kept == Best(s, start, i, tol)
      invariant kept.Some? ==> IsPeak(s, kept.value)
      invariant e == if kept.Some? then EstimateAt(s, kept.value, sampleRate) else Estimate(0.0, 0.0)
      invariant maxValue == if kept.Some? then Biased(s, kept.value, tol) else 0.0
      decreases seek - i
    {
      if nsdf[i - 1] < nsdf[i] && nsdf[i] > nsdf[i + 1] {
        var a, b, c := nsdf[i - 1], nsdf[i], nsdf[i + 1];
        assert IsPeak(s, i) && a == s[i - 1] && b == s[i] && c == s[i + 1];
        var peakValue := PeakValue(a, b, c);
        var biasValue := Rebias(i as real, tol, seek as real) * peakValue;
        assert biasValue == Biased(s, i, tol);
        if biasValue > maxValue {
          e := Estimate(sampleRate / (i as real + Offset(a, b, c)), peakValue);
          maxValue := biasValue;
          kept := Some(i);
        }
      } else {
        assert !IsPeak(s, i);
      }
      i := i + 1;
    }
  }

  class Pitch {
    var input: array<real>
    var win: array<real>
    var fft: array<real>
    var acf: array<real>
    var nsdf: array<real>
    var tol: real
    var pitch: real
    var clarity: real
    var curr: int
    var count: int
    var size: int
    var skip: int
    var seek: int
    /** Every sample passed to `Dsp`, oldest first. */
    ghost var history: seq<real>

    /** Buffer shapes, index/counter ranges, `seek` and the tolerance range. */
    ghost predicate Shapes()
      reads this
    {
      && size >= 1
      && input.Length == 2 * size && win.Length == 2 * size && fft.Length == 2 * size
      && acf.Length == 2 * size && nsdf.Length == size
      && input != win && input != fft && input != acf && input != nsdf
      && win != fft && win != acf && win != nsdf && fft != acf && fft != nsdf && acf != nsdf
      && 0 <= curr < size && 0 <= count < size && 1 <= skip <= size
      && seek == Seek(size) && 0.0 <= tol <= 1.0
    }

    /** The mirrored input buffer holds the last `size` samples with the
        oldest at slot `curr`. */
    ghost predicate Ring()
      reads this`curr, this`size, this`history, this`input, input
    {
      size >= 0 && RingState(input[..], curr, size, history)
    }

    /** The upper half of the transform input is never written: it stays 0. */
    ghost predicate Padded()
      reads this`size, this`win, win
    {
      size >= 0 && win.Length == 2 * size && win[size..] == Zeros(size)
    }

    ghost predicate Valid()
      reads this, input, win
    {
      Shapes() && Ring() && Padded()
    }

    /** SDTPitch_new: zeroed buffers, tolerance 0.2, hop equal to the window
        size, `seek` 85% of it. */
    constructor (size: int)
      requires size >= 1
      ensures Valid() && history == []
      ensures fresh(input) && fresh(win) && fresh(fft) && fresh(acf) && fresh(nsdf)
      ensures this.size == size && skip == size && seek == Seek(size) && curr == 0 && count == 0
      ensures tol == 0.2 && pitch == 0.0 && clarity == 0.0
      ensures input[..] == Zeros(2 * size) && win[..] == Zeros(2 * size)
      ensures fft[..] == Zeros(2 * size) && acf[..] == Zeros(2 * size) && nsdf[..] == Zeros(size)
    {
      var in' := new real[2 * size];
      var w := new real[2 * size];
      var f := new real[2 * size];
      var a := new real[2 * size];
      var d := new real[size];
      ClearHalves(in', size);
      ClearHalves(w, size);
      ClearHalves(f, size);
      ClearHalves(a, size);
      Clear(d);
      input, win, fft, acf, nsdf := in', w, f, a, d;
      tol, pitch, clarity := 0.2, 0.0, 0.0;
      curr, count := 0, 0;
      this.size := size;
      skip := size;
      seek := Seek(size);
      history := [];
      ZerosHoldEmptyWindow(size);
      assert w[size..] == Zeros(size);
    }

    /** SDTPitch_setOverlap. */
    method SetOverlap(f: real, toInt: real -> int)
      requires Valid()
      modifies this`skip
      ensures Valid() && skip == Hop(f, size, toInt)
    {
      skip := Hop(f, size, toInt);
    }

    /** SDTPitch_setTolerance. */
    method SetTolerance(f: real)
      requires Valid()
      modifies this`tol
      ensures Valid() && tol == Tolerance(f)
    {
      tol := Tolerance(f);
    }

    /** The next call completes a hop. */
    predicate Emits()
      reads this
      requires count >= 0 && skip >= 1
    {
      Wrap(count + 1, skip) == 0
    }

    /** The first lines of SDTPitch_dsp: store `x` in both halves of the
        input buffer, advance the write index and the hop counter. */
    method Store(x: real)
      requires Valid()
      modifies this`curr, this`count, this`history, input
      ensures Valid()
      ensures history == old(history) + [x]
      ensures input[..] == RingWrite(old(input[..]), old(curr), size, x)
      ensures curr == Next(old(curr), size) && count == Wrap(old(count) + 1, skip)
      ensures unchanged(win, fft, acf, nsdf)
    {
      curr := StoreSample(input, curr, size, history, x);
      count, history := Wrap(count + 1, skip), history + [x];
    }

    /** The transform input of a frame: the window in arrival order with
        slot 0 set to 1, over the zero upper half. */
    method FillWindow()
      requires Valid()
      modifies win
      ensures Valid() && win[..] == Window(LastN(history, size))
    {
      ghost var v := LastN(history, size);
      RingWindow(v, curr);
      CopyWindow(input, curr, win, size);
      assert win[..] == win[..size] + win[size..];
      assert win[..] == Window(v);
    }

    /** Forward transform, power spectrum, inverse transform. */
    method Correlate(r2hc: seq<real> -> seq<real>, hc2r: seq<real> -> seq<real>)
      requires Valid()
      requires forall s: seq<real> :: |r2hc(s)| == |s|
      requires forall s: seq<real> :: |hc2r(s)| == |s|
      modifies fft, acf
      ensures fft[..] == Power(r2hc(win[..]), size)
      ensures acf[..] == hc2r(fft[..])
    {
      Execute(r2hc, win, fft);
      PowerSpectrum(fft, size);
      Execute(hc2r, fft, acf);
    }

    /** The NSDF of the examined lags, the first-negative scan and the peak
        search; `pitch` and `clarity` receive the estimate. */
    method Analyse(sampleRate: real) returns (e: Estimate)
      requires Valid() && NormsNonZero(acf[0], win[..], size, seek)
      modifies nsdf, this`pitch, this`clarity
      ensures Valid()
      ensures nsdf[..seek] == NsdfValues(acf[..], win[..], size, seek)
      ensures nsdf[seek..] == old(nsdf[seek..])
      ensures e == Estimate(pitch, clarity)
      ensures e == Estimated(nsdf[..seek], FirstNegative(nsdf[..seek], 1, seek), tol, sampleRate)
    {
      Normalise(acf, win, nsdf, size, seek);
      var start := SkipPositive(nsdf, seek);
      e := PickPeak(nsdf, start, seek, tol, sampleRate);
      pitch, clarity := e.pitch, e.clarity;
    }

    /** The buffers a frame leaves behind: the window of the last `size`
        samples in `win`, its power spectrum in `fft`, the autocorrelation
        in `acf` and the NSDF of the examined lags in `nsdf`. */
    ghost predicate Transformed(r2hc: seq<real> -> seq<real>, hc2r: seq<real> -> seq<real>)
      reads this, win, fft, acf, nsdf
    {
      && size >= 1 && win.Length == 2 * size && 0 <= seek <= size
      && seek <= nsdf.Length && 1 <= acf.Length && seek <= acf.Length
      && win[..] == Window(LastN(history, size))
      && |r2hc(win[..])| == 2 * size
      && fft[..] == Power(r2hc(win[..]), size)
      && acf[..] == hc2r(fft[..])
      && NormsNonZero(acf[0], win[..], size, seek)
      && nsdf[..seek] == NsdfValues(acf[..], win[..], size, seek)
    }

    /** The state a frame leaves behind, with `e` its estimate: the buffers
        of `Transformed`, and `e` (also held in `pitch` and `clarity`) the
        estimate of the peak search from the first negative lag on. */
    ghost predicate Framed(r2hc: seq<real> -> seq<real>, hc2r: seq<real> -> seq<real>,
                           sampleRate: real, e: Estimate)
      reads this, win, fft, acf, nsdf
    {
      && Transformed(r2hc, hc2r)
      && e == Estimate(pitch, clarity)
      && 0 <= seek <= nsdf.Length
      && e == Estimated(nsdf[..seek], FirstNegative(nsdf[..seek], 1, seek), tol, sampleRate)
    }

    /** The part of SDTPitch_dsp after the counter update: nothing unless
        the hop counter is at 0, and then a frame. */
    method Frame(r2hc: seq<real> -> seq<real>, hc2r: seq<real> -> seq<real>, sampleRate: real)
      returns (out: Option<Estimate>)
      requires Valid()
      requires forall s: seq<real> :: |r2hc(s)| == |s|
      requires forall s: seq<real> :: |hc2r(s)| == |s|
      requires count == 0 ==> FrameDefined(r2hc, hc2r, LastN(history, size), seek)
      modifies win, fft, acf, nsdf, this`pitch, this`clarity
      ensures Valid()
      ensures out.Some? <==> count == 0
      ensures out.None? ==> pitch == old(pitch) && clarity == old(clarity) && unchanged(win, fft, acf, nsdf)
      ensures out.Some? ==> Framed(r2hc, hc2r, sampleRate, out.value)
      ensures out.Some? ==> nsdf[seek..] == old(nsdf[seek..])
    {
      if count != 0 {
        return None;
      }
      FillWindow();
      Correlate(r2hc, hc2r);
      var e := Analyse(sampleRate);
      out := Some(e);
    }

    /** SDTPitch_dsp: `Some(estimate)` where the source returns 1 and writes
        `outs[0..1]`, `None` where it returns 0. */
    method Dsp(x: real, r2hc: seq<real> -> seq<real>, hc2r: seq<real> -> seq<real>, sampleRate: real)
      returns (out: Option<Estimate>)
      requires Valid()
      requires forall s: seq<real> :: |r2hc(s)| == |s|
      requires forall s: seq<real> :: |hc2r(s)| == |s|
      requires Emits() ==> FrameDefined(r2hc, hc2r, LastN(history + [x], size), seek)
      modifies this`curr, this`count, this`history, input, win, fft, acf, nsdf, this`pitch, this`clarity
      ensures Valid() && history == old(history) + [x]
      ensures curr == Next(old(curr), size) && count == Wrap(old(count) + 1, skip)
      ensures out.Some? <==> count == 0
      ensures out.None? ==> pitch == old(pitch) && clarity == old(clarity) && unchanged(win, fft, acf, nsdf)
      ensures out.Some? ==> Framed(r2hc, hc2r, sampleRate, out.value)
      ensures out.Some? ==> nsdf[seek..] == old(nsdf[seek..])
    {
      ghost var counter, next := Wrap(count + 1, skip), LastN(history + [x], size);
      Store(x);
      assert count == counter && LastN(history, size) == next;
      out := Frame(r2hc, hc2r, sampleRate);
    }
  }
}
