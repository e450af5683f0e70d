/** The C# integer semantics the model needs: the range of `int`, the
    wrap-around of unchecked 32-bit arithmetic, and the remainder operator,
    which truncates toward zero (Dafny's `%` is Euclidean). */
module Numerics {

  const TwoTo31: int := 0x8000_0000
  const TwoTo32: int := 0x1_0000_0000

  /** A value of the C# `int` type. */
  predicate IsInt32(x: int)
  {
    -TwoTo31 <= x < TwoTo31
  }

  /** A value of the C# `long` type. */
  predicate IsInt64(x: int)
  {
    -0x8000_0000_0000_0000 <= x < 0x8000_0000_0000_0000
  }

  /** The `int` an unchecked 32-bit operation leaves for the exact value `x`:
      the one value of `int` congruent to `x` modulo 2^32.  This is also the
      truncating cast `(int)` of a `long`. */
  function Wrap(x: int): (r: int)
    ensures IsInt32(r)
    ensures IsInt32(x) ==> r == x
  {
    (x + TwoTo31) % TwoTo32 - TwoTo31
  }

  /** Adding a multiple of 2^32 does not change the wrapped value. */
  lemma WrapShift(x: int, k: int)
    ensures Wrap(x + k * TwoTo32) == Wrap(x)
  {
    var y := x + TwoTo31;
    assert (y + k * TwoTo32) % TwoTo32 == y % TwoTo32 by {
      var q := y / TwoTo32;
      var r := y % TwoTo32;
      assert y + k * TwoTo32 == (q + k) * TwoTo32 + r;
    }
  }

  /** Wrapping differs from the exact value by a multiple of 2^32. */
  lemma WrapDifference(x: int)
    ensures Wrap(x) == x - ((x + TwoTo31) / TwoTo32) * TwoTo32
  {
  }

  /** Wrapping an operand first does not change the wrapped sum. */
  lemma WrapAdd(a: int, b: int)
    ensures Wrap(Wrap(a) + b) == Wrap(a + b)
  {
    WrapDifference(a);
    WrapShift(a + b, -((a + TwoTo31) / TwoTo32));
  }

  /** Wrapping a factor first does not change the wrapped product. */
  lemma WrapMul(c: int, a: int)
    ensures Wrap(c * Wrap(a)) == Wrap(c * a)
  {
    var q := (a + TwoTo31) / TwoTo32;
    WrapDifference(a);
    assert c * Wrap(a) == c * a + (-(c * q)) * TwoTo32;
    WrapShift(c * a, -(c * q));
  }

  /** C#'s `a % b` on integers: the sign of the result is the sign of `a`. */
  function TruncRem(a: int, b: int): (r: int)
    requires b != 0
    ensures a >= 0 ==> 0 <= r < (if b > 0 then b else -b)
    ensures a < 0 ==> -(if b > 0 then b else -b) < r <= 0
  {
    var m := (if a >= 0 then a else -a) % (if b > 0 then b else -b);
    if a >= 0 then m else -m
  }

  /** A positive multiple of `b` is at least `b`. */
  lemma MulAtLeast(d: int, b: int)
    requires b > 0
    ensures d >= 1 ==> d * b >= b
  {
    if d >= 1 {
      assert d * b == (d - 1) * b + b;
      assert (d - 1) * b >= 0;
    }
  }

  /** The Euclidean remainder is the one remainder in `[0, b)`. */
  lemma ModUnique(a: int, b: int, q: int, r: int)
    requires b > 0 && 0 <= r < b && a == q * b + r
    ensures a % b == r
  {
    var q0 := a / b;
    assert (q - q0) * b == a % b - r;
    MulAtLeast(q - q0, b);
    MulAtLeast(q0 - q, b);
    assert (q0 - q) * b == -((q - q0) * b);
  }

  /** For a positive divisor the truncated remainder agrees with the
      Euclidean one on a non-negative dividend, and is that remainder less
      the divisor on a negative dividend that the divisor does not divide. */
  lemma TruncRemEuclidean(a: int, b: int)
    requires b > 0
    ensures a >= 0 ==> TruncRem(a, b) == a % b
    ensures a < 0 ==> TruncRem(a, b) == (if a % b == 0 then 0 else a % b - b)
  {
    if a < 0 {
      var q := (-a) / b;
      var m := (-a) % b;
      assert -a == q * b + m;
      if m == 0 {
        ModUnique(a, b, -q, 0);
      } else {
        ModUnique(a, b, -q - 1, b - m);
      }
    }
  }
}
