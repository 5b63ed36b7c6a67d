/** The streaming skeleton shared by the analysers of SDTAnalysis.c: a
    double-length ("mirrored") input buffer written at a moving index, a hop
    counter that signals when a frame is due, and the hop size derived from
    the overlap ratio. */
module Stream {
  import opened Common

  /** `n` zeros: the content of a freshly constructed buffer. */
  function Zeros(n: nat): (r: seq<real>)
    ensures |r| == n
    ensures forall k :: 0 <= k < n ==> r[k] == 0.0
  {
    seq(n, _ => 0.0)
  }

  /** The analysis window after the inputs `h`: slot `k` holds the input that
      arrived `n - k` samples ago, or 0 while fewer than that have arrived. */
  function LastN(h: seq<real>, n: nat): (w: seq<real>)
    ensures |w| == n
  {
    if |h| >= n then h[|h| - n..] else Zeros(n - |h|) + h
  }

  /** Slot `k` of the window holds the input that arrived `n - k` samples
      ago, or 0 while fewer than that have arrived. */
  lemma LastNAt(h: seq<real>, n: nat, k: int)
    requires 0 <= k < n
    ensures LastN(h, n)[k] == if |h| + k >= n then h[|h| + k - n] else 0.0
  {
  }

  /** One more input shifts the window by one place. */
  lemma LastNSlides(h: seq<real>, x: real, n: nat)
    requires n >= 1
    ensures LastN(h + [x], n) == LastN(h, n)[1..] + [x]
  {
    var h', a, b := h + [x], LastN(h + [x], n), LastN(h, n)[1..] + [x];
    forall k | 0 <= k < n
      ensures a[k] == b[k]
    {
      if k < n - 1 {
        assert b[k] == LastN(h, n)[k + 1];
        if |h| + k + 1 >= n {
          assert h'[|h'| + k - n] == h[|h| + k + 1 - n];
        }
      } else {
        assert a[k] == h'[|h|] == x;
      }
    }
  }

  // ----- the mirrored circular buffer -----

  /** The zeroing loop of a constructor over a single-length buffer. */
  method Clear(buf: array<real>)
    modifies buf
    ensures buf[..] == Zeros(buf.Length)
  {
    for k := 0 to buf.Length
      invariant forall t :: 0 <= t < k ==> buf[t] == 0.0
    {
      buf[k] := 0.0;
    }
    assert buf[..] == Zeros(buf.Length);
  }

  /** The zeroing loop of a constructor over a double-length buffer: slots
      `k` and `n + k` for every `k < n`. */
  method ClearHalves(buf: array<real>, n: nat)
    requires buf.Length == 2 * n
    modifies buf
    ensures buf[..] == Zeros(2 * n)
  {
    for k := 0 to n
      invariant forall t :: 0 <= t < k || n <= t < n + k ==> buf[t] == 0.0
    {
      buf[k], buf[n + k] := 0.0, 0.0;
    }
    assert buf[..] == Zeros(2 * n);
  }

  /** The write index after `i` in a ring of `n` slots. */
  function Next(i: int, n: int): (r: int)
    requires 0 <= i < n
    ensures 0 <= r < n
  {
    if i + 1 == n then 0 else i + 1
  }

  /** `Next` is the source's `(i + 1) % n`. */
  lemma NextIsMod(i: int, n: int)
    requires 0 <= i < n
    ensures Next(i, n) == (i + 1) % n
  {
  }

  /** The mirrored buffer holding the window `w` with its oldest sample at
      slot `i`: slots `i..n-1` hold the first `n - i` samples of `w`, slots
      `0..i-1` the rest, and the upper half repeats the lower. */
  function RingImage(w: seq<real>, i: nat): (buf: seq<real>)
    requires i < |w|
    ensures |buf| == 2 * |w|
    ensures forall k :: 0 <= k < |w| ==> buf[k] == buf[k + |w|]
  {
    var half := w[|w| - i..] + w[..|w| - i];
    half + half
  }

  /** The write of SDTSpectralFeats_dsp and SDTPitch_dsp: the new sample goes
      to slot `i` of both halves, so a mirrored buffer stays mirrored. */
  function RingWrite(buf: seq<real>, i: nat, n: nat, x: real): (r: seq<real>)
    requires |buf| == 2 * n && i < n
    ensures |r| == 2 * n
    ensures (forall k :: 0 <= k < n ==> buf[k] == buf[k + n]) ==> forall k :: 0 <= k < n ==> r[k] == r[k + n]
  {
    buf[i := x][i + n := x]
  }

  /** Writing `x` over the oldest sample and advancing the index turns the
      buffer of window `w` into the buffer of `w` shifted by `x`. */
  lemma WriteSlidesWindow(w: seq<real>, i: nat, x: real)
    requires i < |w|
    ensures RingWrite(RingImage(w, i), i, |w|, x) == RingImage(w[1..] + [x], Next(i, |w|))
  {
    var n, i' := |w|, Next(i, |w|);
    var w' := w[1..] + [x];
    var r, r' := RingWrite(RingImage(w, i), i, n, x), RingImage(w', i');
    var half, half' := w[n - i..] + w[..n - i], w'[n - i'..] + w'[..n - i'];
    forall t | 0 <= t < 2 * n
      ensures r[t] == r'[t]
    {
      var u := if t < n then t else t - n;
      assert r'[t] == half'[u];
      if u != i {
        assert r[t] == half[u];
        if u < i {
          assert half[u] == w[n - i + u];
        } else {
          assert half[u] == w[u - i];
        }
      }
    }
  }

  /** The `n` contiguous slots from the oldest one hold the window, in
      arrival order. */
  lemma RingWindow(w: seq<real>, i: nat)
    requires i < |w|
    ensures RingImage(w, i)[i..i + |w|] == w
  {
    var n, buf := |w|, RingImage(w, i);
    var half := w[n - i..] + w[..n - i];
    forall t | 0 <= t < n
      ensures buf[i..i + n][t] == w[t]
    {
      if i + t < n {
        assert buf[i + t] == half[i + t] == w[..n - i][t];
      } else {
        assert buf[i + t] == half[i + t - n] == w[n - i..][i + t - n];
      }
    }
  }

  /** A buffer of zeros holds the all-zero window with index 0. */
  lemma ZerosHoldEmptyWindow(n: nat)
    requires n >= 1
    ensures RingImage(LastN([], n), 0) == Zeros(2 * n)
  {
    assert LastN([], n) == Zeros(n);
    assert Zeros(n) + Zeros(n) == Zeros(2 * n);
  }

  /** The mirrored buffer of an analyser that has received the inputs `h`,
      with its write index at `i`. */
  ghost predicate RingState(buf: seq<real>, i: int, n: nat, h: seq<real>)
  {
    0 <= i < n && buf == RingImage(LastN(h, n), i)
  }

  /** The store of a sample in place: slot `i` of both halves receives `x`
      and the index advances, which keeps the buffer in step with the
      inputs. */
  method StoreSample(buf: array<real>, i: int, n: nat, ghost h: seq<real>, x: real) returns (i': int)
    requires RingState(buf[..], i, n, h)
    modifies buf
    ensures buf[..] == RingWrite(old(buf[..]), i, n, x) && i' == Next(i, n)
    ensures RingState(buf[..], i', n, h + [x])
  {
    LastNSlides(h, x, n);
    WriteSlidesWindow(LastN(h, n), i, x);
    buf[i] := x;
    buf[n + i] := x;
    assert buf[..] == RingWrite(old(buf[..]), i, n, x);
    i' := Next(i, n);
  }

  // ----- hop size and hop counter -----

  /** The hop `setOverlap` stores for overlap ratio `f`: `(1 - f) * size`,
      converted by `toInt` (the conversion of a double argument of SDT_clip,
      defined in SDTCommon.h), then clipped to `[1, size]`. */
  function Hop(f: real, size: int, toInt: real -> int): (skip: int)
    requires size >= 1
    ensures 1 <= skip <= size
    ensures 1 <= toInt((1.0 - f) * size as real) <= size ==> skip == toInt((1.0 - f) * size as real)
  {
    IntClip(toInt((1.0 - f) * size as real), 1, size)
  }

  /** `a % m` for a non-negative `a`, by repeated subtraction: the update
      `(j + 1) % skip` of the hop counter, which must stay correct when the
      hop was just lowered below the counter. */
  function Wrap(a: int, m: int): (r: int)
    requires a >= 0 && m >= 1
    ensures 0 <= r < m
    ensures a < m ==> r == a
    decreases a
  {
    if a < m then a else Wrap(a - m, m)
  }

  lemma {:induction false} WrapIsMod(a: int, m: int)
    requires a >= 0 && m >= 1
    ensures Wrap(a, m) == a % m
    decreases a
  {
    if a >= m {
      WrapIsMod(a - m, m);
      var q, r := (a - m) / m, (a - m) % m;
      ModUnique(a, m, q + 1, r);
    }
  }

  /** A quotient and remainder in range are the ones `/` and `%` give. */
  lemma ModUnique(a: int, m: int, q: int, r: int)
    requires m >= 1 && 0 <= r < m && a == q * m + r
    ensures a % m == r
  {
    var d := a / m - q;
    assert m * d == r - a % m;
  }

  /** The hop counter after `k` calls from counter `j`. */
  function Counter(j: nat, skip: nat, k: nat): nat
    requires skip >= 1
    decreases k
  {
    if k == 0 then j else Counter((j + 1) % skip, skip, k - 1)
  }

  /** How many of `k` consecutive calls from counter `j` report an output:
      a call does when the counter wraps to 0. */
  function Emissions(j: nat, skip: nat, k: nat): nat
    requires skip >= 1
    decreases k
  {
    if k == 0 then 0
    else (if (j + 1) % skip == 0 then 1 else 0) + Emissions((j + 1) % skip, skip, k - 1)
  }

  lemma {:induction false} EmissionsSplit(j: nat, skip: nat, a: nat, b: nat)
    requires skip >= 1
    ensures Emissions(j, skip, a + b) == Emissions(j, skip, a) + Emissions(Counter(j, skip, a), skip, b)
    decreases a
  {
    if a > 0 {
      EmissionsSplit((j + 1) % skip, skip, a - 1, b);
      assert a + b - 1 == (a - 1) + b;
    }
  }

  /** Until the counter reaches `skip`, no call reports an output. */
  lemma {:induction false} QuietBeforeHop(j: nat, skip: nat, k: nat)
    requires skip >= 1 && j + k < skip
    ensures Emissions(j, skip, k) == 0
    ensures Counter(j, skip, k) == j + k
    decreases k
  {
    if k > 0 {
      assert (j + 1) % skip == j + 1;
      QuietBeforeHop(j + 1, skip, k - 1);
    }
  }

  /** With the hop unchanged, exactly one of any `skip` consecutive calls
      reports an output. */
  lemma OneEmissionPerHop(j: nat, skip: nat)
    requires skip >= 1 && j < skip
    ensures Emissions(j, skip, skip) == 1
  {
    var a := skip - 1 - j;
    QuietBeforeHop(j, skip, a);
    EmissionsSplit(j, skip, a, j + 1);
    assert (skip - 1 + 1) % skip == 0;
    assert Emissions(skip - 1, skip, j + 1) == 1 + Emissions(0, skip, j);
    QuietBeforeHop(0, skip, j);
  }
}
