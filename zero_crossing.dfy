/** The zero crossing rate detector of SDTAnalysis.c (SDTZeroCrossing): each
    call stores one sample; every `skip` calls it copies a window of `size`
    samples out of its double-length buffer and reports the fraction of
    consecutive pairs in that window that change sign. */
module ZeroCrossingRate {
  import opened Common
  import opened Stream

  /** A sign transition from `a` to `b`: zero counts as non-negative on the
      left of a falling edge and as non-positive on the left of a rising one. */
  predicate Crossing(a: real, b: real)
  {
    (a >= 0.0 && b < 0.0) || (a <= 0.0 && b > 0.0)
  }

  /** A pair crosses exactly when the second sample is non-zero and the two
      are not strictly on the same side of zero. */
  lemma CrossingIff(a: real, b: real)
    ensures Crossing(a, b) <==> b != 0.0 && a * b <= 0.0
  {
    if a > 0.0 && b > 0.0 {
      assert a * b > 0.0;
    } else if a < 0.0 && b < 0.0 {
      assert a * b > 0.0;
    } else if a > 0.0 && b < 0.0 {
      assert a * b < 0.0;
    } else if a < 0.0 && b > 0.0 {
      assert a * b < 0.0;
    }
  }

  /** The number of positions `k` in `1..|w|-1` where `w[k-1], w[k]` cross. */
  function Crossings(w: seq<real>): (n: nat)
    ensures n <= if |w| == 0 then 0 else |w| - 1
  {
    if |w| < 2 then 0
    else Crossings(w[..|w| - 1]) + (if Crossing(w[|w| - 2], w[|w| - 1]) then 1 else 0)
  }

  /** The rate written to `out`: the count divided by the window size. */
  function Rate(w: seq<real>): (r: real)
    requires |w| >= 1
    ensures 0.0 <= r <= (|w| - 1) as real / |w| as real
  {
    var n := Crossings(w);
    assert n as real <= (|w| - 1) as real;
    Crossings(w) as real / |w| as real
  }

  /** Two samples strictly on opposite sides of zero. */
  predicate Opposite(a: real, b: real)
  {
    a * b < 0.0
  }

  /** A signal that changes strict sign at every sample crosses at every pair. */
  lemma {:induction false} AlternatingCrossesEverywhere(w: seq<real>)
    requires |w| >= 1
    requires forall k :: 1 <= k < |w| ==> Opposite(w[k - 1], w[k])
    ensures Crossings(w) == |w| - 1
  {
    if |w| >= 2 {
      var v := w[..|w| - 1];
      forall k | 1 <= k < |v|
        ensures Opposite(v[k - 1], v[k])
      {
        assert v[k - 1] == w[k - 1] && v[k] == w[k];
      }
      AlternatingCrossesEverywhere(v);
      CrossingIff(w[|w| - 2], w[|w| - 1]);
    }
  }

  /** A window whose samples are all strictly positive, or all zero, has no
      crossing: in particular a zero-to-zero pair never counts. */
  lemma {:induction false} OneSidedNoCrossings(w: seq<real>)
    requires (forall k :: 0 <= k < |w| ==> w[k] > 0.0) || (forall k :: 0 <= k < |w| ==> w[k] == 0.0)
    ensures Crossings(w) == 0
  {
    if |w| >= 2 {
      var v := w[..|w| - 1];
      assert forall k :: 0 <= k < |v| ==> v[k] == w[k];
      OneSidedNoCrossings(v);
    }
  }

  /** The write of SDTZeroCrossing_dsp as the source has it: slot `i + 1` of
      the first half and slot `i` of the second half. Slot 0 is never
      written. */
  function ZcWrite(buf: seq<real>, i: nat, n: nat, x: real): (r: seq<real>)
    requires |buf| == 2 * n && i < n
    ensures |r| == 2 * n && r[0] == buf[0]
  {
    buf[i + 1 := x][n + i := x]
  }

  /** Fresh detector with a window of three samples and the default hop:
      after three inputs of 1.0 the window read at index 0 is `[0, 1, 1]`,
      because slot 0 is never written, so a constant positive signal reports
      one crossing (rate 1/3). The write of the other two analysers
      (`RingWrite`) reads `[1, 1, 1]` there, with no crossing. */
  lemma ConstantSignalReadsACrossing()
    ensures var b := ZcWrite(ZcWrite(ZcWrite(Zeros(6), 0, 3, 1.0), 1, 3, 1.0), 2, 3, 1.0);
      b[0..3] == [0.0, 1.0, 1.0] && Crossings(b[0..3]) == 1
    ensures var b := RingWrite(RingWrite(RingWrite(Zeros(6), 0, 3, 1.0), 1, 3, 1.0), 2, 3, 1.0);
      b[0..3] == [1.0, 1.0, 1.0] && Crossings(b[0..3]) == 0
  {
    var z := Zeros(6);
    var b := ZcWrite(ZcWrite(ZcWrite(z, 0, 3, 1.0), 1, 3, 1.0), 2, 3, 1.0);
    assert b[0..3] == [0.0, 1.0, 1.0];
    assert b[0..3][..2] == [0.0, 1.0];
    assert [0.0, 1.0][..1] == [0.0];
    var c := RingWrite(RingWrite(RingWrite(z, 0, 3, 1.0), 1, 3, 1.0), 2, 3, 1.0);
    assert c[0..3] == [1.0, 1.0, 1.0];
    OneSidedNoCrossings(c[0..3]);
  }

  /** The loop of SDTZeroCrossing_dsp: copy `win.Length` samples of `src`
      from `from` on into `win`, counting the crossings as they arrive. */
  method CopyCounting(src: array<real>, from: int, win: array<real>) returns (zerox: nat)
    requires src != win && win.Length >= 1 && 0 <= from && from + win.Length <= src.Length
    modifies win
    ensures win[..] == src[from..from + win.Length]
    ensures zerox == Crossings(win[..])
  {
    win[0] := src[from];
    zerox := 0;
    var k := 1;
    while k < win.Length
      invariant 1 <= k <= win.Length
      invariant forall t :: 0 <= t < k ==> win[t] == src[from + t]
      invariant zerox == Crossings(win[..k])
    {
      win[k] := src[from + k];
      assert win[..k + 1][..k] == win[..k];
      zerox := zerox + if Crossing(win[k - 1], win[k]) then 1 else 0;
      k := k + 1;
    }
    assert win[..] == win[..win.Length];
  }

  class ZeroCrossing {
    var input: array<real>
    var win: array<real>
    var i: int
    var j: int
    var size: int
    var skip: int

    /** Buffer shapes, index and counter ranges; slot 0 of the input buffer is
        never written, so it stays 0. */
    ghost predicate Valid()
      reads this, input
    {
      && size >= 1
      && input.Length == 2 * size && win.Length == size && input != win
      && 0 <= i < size && 0 <= j < size && 1 <= skip <= size
      && input[0] == 0.0
    }

    /** SDTZeroCrossing_new: zeroed buffers, hop equal to the window size. */
    constructor (size: int)
      requires size >= 1
      ensures Valid() && fresh(input) && fresh(win)
      ensures this.size == size && skip == size && i == 0 && j == 0
      ensures input[..] == Zeros(2 * size) && win[..] == Zeros(size)
    {
      var buf := new real[2 * size];
      var w := new real[size];
      for k := 0 to size
        invariant forall t :: 0 <= t < k || size <= t < size + k ==> buf[t] == 0.0
        invariant forall t :: 0 <= t < k ==> w[t] == 0.0
      {
        buf[k] := 0.0;
        buf[k + size] := 0.0;
        w[k] := 0.0;
      }
      assert buf[..] == Zeros(2 * size);
      assert w[..] == Zeros(size);
      input, win := buf, w;
      i, j := 0, 0;
      this.size := size;
      skip := size;
    }

    /** SDTZeroCrossing_setOverlap. */
    method SetOverlap(f: real, toInt: real -> int)
      requires Valid()
      modifies this`skip
      ensures Valid() && skip == Hop(f, size, toInt)
    {
      skip := Hop(f, size, toInt);
    }

    /** SDTZeroCrossing_dsp: `Some(rate)` where the source returns 1 and
        writes `*out`, `None` where it returns 0. */
    method Dsp(x: real) returns (out: Option<real>)
      requires Valid()
      modifies this, input, win
      ensures Valid() && input == old(input) && win == old(win)
      ensures size == old(size) && skip == old(skip)
      ensures input[..] == ZcWrite(old(input[..]), old(i), size, x)
      ensures i == Next(old(i), size) && j == Wrap(old(j) + 1, skip)
      ensures out.Some? <==> j == 0
      ensures out.Some? ==> win[..] == input[i..i + size] && out.value == Rate(win[..])
      ensures out.None? ==> win[..] == old(win[..])
    {
      input[i + 1] := x;
      input[size + i] := x;
      i := Next(i, size);
      j := Wrap(j + 1, skip);
      if j != 0 {
        return None;
      }
      var zerox := CopyCounting(input, i, win);
      out := Some(zerox as real / size as real);
    }
  }
}
