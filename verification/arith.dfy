/** Integer facts the rest of the model leans on. */
module Arith {

  /** Python's floor division `a // b`; Dafny's own `/` is Euclidean. */
  function FloorDiv(a: int, b: int): (q: int)
    requires b != 0
    ensures b > 0 ==> q * b <= a < q * b + b
    ensures b < 0 ==> q * b + b < a <= q * b
  {
    if b > 0 then a / b else (-a) / (-b)
  }

  /** numpy's cast of an integer to `int32`: two's-complement wrap-around
      into [-2^31, 2^31). */
  function WrapInt32(x: int): (r: int)
    ensures -0x8000_0000 <= r < 0x8000_0000
    ensures (x - r) % 0x1_0000_0000 == 0
  {
    var r := (x + 0x8000_0000) % 0x1_0000_0000 - 0x8000_0000;
    assert x - r == ((x + 0x8000_0000) / 0x1_0000_0000) * 0x1_0000_0000;
    DivModUnique(x - r, 0x1_0000_0000, (x + 0x8000_0000) / 0x1_0000_0000, 0);
    r
  }

  /** A value that fits in 32 bits survives the cast. */
  lemma WrapInt32Fits(x: int)
    requires -0x8000_0000 <= x < 0x8000_0000
    ensures WrapInt32(x) == x
  {
    DivModUnique(x + 0x8000_0000, 0x1_0000_0000, 0, x + 0x8000_0000);
  }

  /** The cast gives 0 exactly for the multiples of 2^32. */
  lemma WrapInt32Zero(x: int)
    ensures WrapInt32(x) == 0 <==> x % 0x1_0000_0000 == 0
  {
    var q := (x + 0x8000_0000) / 0x1_0000_0000;
    assert x + 0x8000_0000 == q * 0x1_0000_0000 + (x + 0x8000_0000) % 0x1_0000_0000;
    if WrapInt32(x) == 0 {
      DivModUnique(x, 0x1_0000_0000, q, 0);
    }
    if x % 0x1_0000_0000 == 0 {
      DivModUnique(x + 0x8000_0000, 0x1_0000_0000, x / 0x1_0000_0000, 0x8000_0000);
    }
  }

  /** Quotient and remainder are determined by the division identity. */
  lemma DivModUnique(x: int, d: int, q: int, r: int)
    requires d > 0 && 0 <= r < d && x == q * d + r
    ensures x / d == q && x % d == r
  {
    var q0, r0 := x / d, x % d;
    assert x == q0 * d + r0;
    if q > q0 {
      MulAtLeast(q - q0, d);
    } else if q < q0 {
      MulAtLeast(q0 - q, d);
    }
  }

  lemma MulAtLeast(k: int, d: int)
    requires k >= 1 && d >= 0
    ensures k * d >= d
  {
  }

  /** Division by a positive number is monotone. */
  lemma DivMonotone(a: int, b: int, d: int)
    requires d > 0 && a <= b
    ensures a / d <= b / d
  {
    if a / d > b / d {
      var qa, qb := a / d, b / d;
      MulAtLeast(qa - qb, d);
    }
  }

  lemma MulDistrib(a: int, b: int, c: int)
    ensures (a + b) * c == a * c + b * c
  {
  }

  lemma MulAssoc(a: int, b: int, c: int)
    ensures (a * b) * c == a * (b * c)
  {
  }

  lemma MulLeq(a: int, b: int, c: int)
    requires a <= b && c >= 0
    ensures a * c <= b * c
  {
  }

  /** A digit below `m`, shifted by `b`, stays below `m * b`. */
  lemma DigitBelow(s: nat, r: nat, m: nat, b: nat)
    requires s < m && r < b
    ensures s * b + r < m * b
  {
    MulLeq(s, m - 1, b);
    MulDistrib(m, -1, b);
  }

  /** A number below the modulus is its own remainder. */
  lemma ModBelow(x: nat, d: nat)
    requires x < d
    ensures x % d == x
  {
    DivModUnique(x, d, 0, x);
  }

  /** `d * (a / d)` is the largest multiple of `d` not above `a`. */
  lemma DivBounds(a: nat, d: nat)
    requires d > 0
    ensures d * (a / d) <= a < d * (a / d) + d
  {
    assert a == (a / d) * d + a % d;
  }

  /** Taking `x / b` modulo `m` and putting back the low digit gives `x` modulo `m * b`. */
  lemma DivModNest(x: nat, b: nat, m: nat)
    requires b > 0 && m > 0
    ensures (x / b % m) * b + x % b == x % (m * b)
  {
    var q, r := x / b, x % b;
    var k, s := q / m, q % m;
    assert x == q * b + r;
    assert q == k * m + s;
    MulDistrib(k * m, s, b);
    MulAssoc(k, m, b);
    assert x == k * (m * b) + (s * b + r);
    DigitBelow(s, r, m, b);
    DivModUnique(x, m * b, k, s * b + r);
  }

  /** Dividing twice is dividing by the product. */
  lemma DivDiv(x: nat, a: nat, b: nat)
    requires a > 0 && b > 0
    ensures x / a / b == x / (a * b)
  {
    var q, r := x / a, x % a;
    var k, s := q / b, q % b;
    assert x == q * a + r;
    assert q == k * b + s;
    MulDistrib(k * b, s, a);
    MulAssoc(k, b, a);
    assert x == k * (b * a) + (s * a + r);
    DigitBelow(s, r, b, a);
    assert b * a == a * b;
    DivModUnique(x, a * b, k, s * a + r);
  }
}
