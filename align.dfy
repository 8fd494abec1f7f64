/** Power-of-two alignment (DS_AlignUpPow2 / DS_AlignDownPow2).
    The source clears the low bits with `& ~(p - 1)` on a two's-complement value,
    which rounds toward minus infinity to a multiple of `p`; Dafny's `%` is
    Euclidean, so `x - x % p` is that same rounding, negative `x` included. */
module Align {

  /** `p` is 1, 2, 4, 8, ... */
  predicate IsPow2(p: int)
    decreases if p < 0 then 0 else p
  {
    p == 1 || (p > 1 && p % 2 == 0 && IsPow2(p / 2))
  }

  /** The greatest multiple of `p` that is at most `x`. */
  function AlignDownPow2(x: int, p: int): (r: int)
    requires IsPow2(p)
    ensures r % p == 0
    ensures r <= x < r + p
  {
    Pow2Positive(p);
    RoundDown(x, p);
    x - x % p
  }

  /** The least multiple of `p` that is at least `x`. */
  function AlignUpPow2(x: int, p: int): (r: int)
    requires IsPow2(p)
    ensures r % p == 0
    ensures x <= r < x + p
  {
    AlignDownPow2(x + p - 1, p)
  }

  /** Rounding up leaves an aligned value where it is. */
  lemma AlignUpOfAligned(x: int, p: int)
    requires IsPow2(p) && x % p == 0
    ensures AlignUpPow2(x, p) == x
  {
    Pow2Positive(p);
    var r := AlignUpPow2(x, p);
    var i, j := r / p, x / p;
    assert r == p * i && x == p * j;
    assert p * (i - j) == r - x;
    if i - j >= 1 { MulAtLeast(i - j, p); }
    else if i - j <= -1 { MulAtMost(i - j, p); }
  }

  lemma MulAtLeast(a: int, p: int)
    requires p > 0 && a >= 1
    ensures p * a >= p
  {}

  lemma MulAtMost(a: int, p: int)
    requires p > 0 && a <= -1
    ensures p * a <= -p
  {}

  /** `x - x % p` is the multiple `p * (x / p)`, `x % p` short of `x`. */
  lemma RoundDown(x: int, p: int)
    requires p > 0
    ensures x - x % p == p * (x / p) && 0 <= x % p < p
    ensures (x - x % p) % p == 0
  {
    MultipleModZero(x / p, p);
  }

  lemma MultipleModZero(q: int, p: int)
    requires p > 0
    ensures (p * q) % p == 0
  {
    var m, d := (p * q) % p, (p * q) / p;
    assert p * (q - d) == m;
    if q - d >= 1 { MulAtLeast(q - d, p); }
    else if q - d <= -1 { MulAtMost(q - d, p); }
  }

  lemma {:induction false} Pow2Positive(p: int)
    requires IsPow2(p)
    ensures p >= 1
    decreases if p < 0 then 0 else p
  {
    if p != 1 { Pow2Positive(p / 2); }
  }

  /** Of two powers of two, the smaller divides the larger. */
  lemma {:induction false} Pow2Divides(a: int, b: int)
    requires IsPow2(a) && IsPow2(b) && a <= b
    ensures b % a == 0
    decreases b
  {
    Pow2Positive(a);
    if a == b || b / 2 < a {
      if a != b { Pow2Between(a, b); }
      MultipleModZero(1, a);
    } else {
      assert b != 1;
      Pow2Positive(b / 2);
      Pow2Divides(a, b / 2);
      var k := (b / 2) / a;
      RoundDown(b / 2, a);
      assert a * (2 * k) == 2 * (a * k);
      assert b == a * (2 * k);
      MultipleModZero(2 * k, a);
    }
  }

  lemma {:induction false} Pow2Between(a: int, b: int)
    requires IsPow2(a) && IsPow2(b) && b / 2 < a <= b
    ensures a == b
    decreases b
  {
    Pow2Positive(a);
    if a != b && a != 1 {
      Pow2Between(a / 2, b / 2);
    }
  }

  /** The sum of two multiples of `p` is one. */
  lemma SumAligned(x: int, y: int, p: int)
    requires p > 0 && x % p == 0 && y % p == 0
    ensures (x + y) % p == 0
  {
    var i, j := x / p, y / p;
    assert x + y == p * (i + j);
    MultipleModZero(i + j, p);
  }

  /** Two multiples of `p` less than `p` apart are equal. */
  lemma AlignedUnique(r: int, s: int, p: int)
    requires p > 0 && r % p == 0 && s % p == 0 && s - p < r < s + p
    ensures r == s
  {
    RoundDown(r, p);
    RoundDown(s, p);
    var d := r / p - s / p;
    assert r - s == p * d;
    if d >= 1 { MulAtLeast(d, p); }
    else if d <= -1 { MulAtMost(d, p); }
  }

  /** Aligning up commutes with adding a multiple of `p`. */
  lemma AlignUpShift(base: int, x: int, p: int)
    requires IsPow2(p) && base % p == 0
    ensures AlignUpPow2(base + x, p) == base + AlignUpPow2(x, p)
  {
    Pow2Positive(p);
    SumAligned(base, AlignUpPow2(x, p), p);
    AlignedUnique(AlignUpPow2(base + x, p), base + AlignUpPow2(x, p), p);
  }

  /** A multiple of a power of two is a multiple of every smaller power of two. */
  lemma AlignedToSmaller(x: int, a: int, b: int)
    requires IsPow2(a) && IsPow2(b) && a <= b && x % b == 0
    ensures x % a == 0
  {
    Pow2Positive(a);
    Pow2Divides(a, b);
    var i, j := x / b, b / a;
    assert x == a * (j * i);
    MultipleModZero(j * i, a);
  }
}
