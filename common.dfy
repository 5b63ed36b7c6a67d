/** Scalar helpers shared by the three analysers: the clamps of SDTCommon.h
    (SDT_clip on integers, SDT_fclip on doubles), fmax, integer powers, and
    an Option type for "this call produced no output". */
module Common {

  datatype Option<T> = None | Some(value: T)

  /** fmax on non-NaN doubles. */
  function Max(x: real, y: real): (r: real)
    ensures r >= x && r >= y
    ensures r == x || r == y
  {
    if x >= y then x else y
  }

  /** SDT_clip: the integer `v` forced into `[lo, hi]`. */
  function IntClip(v: int, lo: int, hi: int): (r: int)
    requires lo <= hi
    ensures lo <= r <= hi
    ensures lo <= v <= hi ==> r == v
    ensures r != v ==> (v < lo && r == lo) || (v > hi && r == hi)
  {
    if v < lo then lo else if v > hi then hi else v
  }

  /** SDT_fclip: the real `v` forced into `[lo, hi]`. */
  function FClip(v: real, lo: real, hi: real): (r: real)
    requires lo <= hi
    ensures lo <= r <= hi
    ensures lo <= v <= hi ==> r == v
    ensures r != v ==> (v < lo && r == lo) || (v > hi && r == hi)
  {
    if v < lo then lo else if v > hi then hi else v
  }

  /** pow(x, e) for a whole exponent `e`. */
  function Pow(x: real, e: nat): real
  {
    if e == 0 then 1.0 else x * Pow(x, e - 1)
  }

  lemma {:induction false} EvenPowNonNegative(x: real, e: nat)
    ensures Pow(x, 2 * e) >= 0.0
  {
    if e > 0 {
      EvenPowNonNegative(x, e - 1);
      var p := Pow(x, 2 * (e - 1));
      assert Pow(x, 2 * e - 1) == x * p;
      assert Pow(x, 2 * e) == (x * x) * p;
      assert x * x >= 0.0;
    }
  }

  lemma {:induction false} PowNonZero(x: real, e: nat)
    requires x != 0.0
    ensures Pow(x, e) != 0.0
  {
    if e > 0 {
      PowNonZero(x, e - 1);
    }
  }

  /** The product of two non-negative numbers is non-negative. */
  lemma ProductNonNegative(x: real, y: real)
    requires x >= 0.0 && y >= 0.0
    ensures x * y >= 0.0
  {
  }

  /** A quotient times its divisor gives back the dividend. */
  lemma QuotientTimesDivisor(q: real, d: real, x: real)
    requires d != 0.0 && q == x / d
    ensures q * d == x
  {
  }

  /** A part of a positive whole is a fraction in [0, 1] of it. */
  lemma FractionInUnit(part: real, whole: real)
    requires 0.0 <= part <= whole && whole > 0.0
    ensures 0.0 <= part / whole <= 1.0
  {
    var q := part / whole;
    assert q * whole == part;
  }
}
