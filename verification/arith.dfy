/** Small facts of integer multiplication, division and remainder, each proved
    in isolation so that the address arithmetic built on them stays cheap. */
module Arith {

  lemma MulNonneg(a: int, b: int)
    requires a >= 0 && b >= 0
    ensures a * b >= 0
  {
  }

  lemma MulDistSub(a: int, b: int, c: int)
    ensures (a - b) * c == a * c - b * c
  {
  }

  lemma MulDistAdd(a: int, b: int, c: int)
    ensures (a + b) * c == a * c + b * c
  {
  }

  lemma MulAssoc(a: int, b: int, c: int)
    ensures (a * b) * c == a * (b * c)
  {
  }

  lemma MulComm(a: int, b: int)
    ensures a * b == b * a
  {
  }

  /** A nonzero multiple of `d` is at least `d` away from zero. */
  lemma MulSign(k: int, d: int)
    requires d > 0
    ensures k >= 1 ==> k * d >= d
    ensures k <= -1 ==> k * d <= -d
  {
    if k >= 1 {
      MulNonneg(k - 1, d);
      MulDistSub(k, 1, d);
    }
    if k <= -1 {
      MulNonneg(-1 - k, d);
      MulDistSub(-1, k, d);
    }
  }

  /** Monotonicity of multiplication by a positive factor. */
  lemma MulLe(a: int, b: int, d: int)
    requires d > 0 && a <= b
    ensures a * d <= b * d
  {
    MulNonneg(b - a, d);
    MulDistSub(b, a, d);
  }

  /** Strict monotonicity, read backwards: `a * d < b * d` forces `a < b`. */
  lemma MulLtCancel(a: int, b: int, d: int)
    requires d > 0 && a * d < b * d
    ensures a < b
  {
    MulSign(a - b, d);
    MulDistSub(a, b, d);
  }

  /** Euclidean division is determined by any quotient/remainder pair. */
  lemma DivModUnique(a: int, d: int, q: int, r: int)
    requires d > 0 && 0 <= r < d && a == q * d + r
    ensures a / d == q && a % d == r
  {
    var q0 := a / d;
    var r0 := a % d;
    assert a == q0 * d + r0;
    MulDistSub(q, q0, d);
    MulSign(q - q0, d);
  }

  /** Every integer splits into quotient and remainder. */
  lemma DivModSplit(a: int, d: int)
    requires d > 0
    ensures a == (a / d) * d + a % d && 0 <= a % d < d
  {
  }

  /** The quotient of naturals is a natural no larger than the dividend. */
  lemma DivBounds(a: int, d: int)
    requires a >= 0 && d > 0
    ensures 0 <= a / d <= a
  {
    DivModSplit(a, d);
    MulSign(a / d, d);
    if a / d >= 1 {
      MulLe(1, d, a / d);
    }
  }

  /** Quotient of naturals, as a natural. */
  function Quot(a: nat, d: nat): nat
    requires d > 0
  {
    DivBounds(a, d);
    a / d
  }

  /** Dividing in two steps is dividing by the product. */
  lemma DivDiv(a: int, b: int, c: int)
    requires a >= 0 && b > 0 && c > 0
    ensures a / b / c == a / (b * c)
  {
    var q1 := a / b;
    var r1 := a % b;
    var q2 := q1 / c;
    var r2 := q1 % c;
    DivModSplit(a, b);
    DivModSplit(q1, c);
    MulNonneg(b, c);
    assert a == (q2 * c + r2) * b + r1;
    MulDistAdd(q2 * c, r2, b);
    MulAssoc(q2, c, b);
    MulComm(c, b);
    MulLe(r2, c - 1, b);
    MulDistSub(c, 1, b);
    assert r2 * b + r1 < b * c;
    DivModUnique(a, b * c, q2, r2 * b + r1);
  }
}
