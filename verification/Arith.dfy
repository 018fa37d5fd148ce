/** Powers of two and the few facts about floor division that the fixed-point
    modules share. `x / d` with `d > 0` is the arithmetic right shift of C. */
module Arith {

  function Pow2(k: nat): (p: nat)
    ensures 1 <= p
  {
    if k == 0 then 1 else 2 * Pow2(k - 1)
  }

  lemma {:induction false} Pow2Add(a: nat, b: nat)
    ensures Pow2(a + b) == Pow2(a) * Pow2(b)
  {
    if a == 0 {
    } else {
      Pow2Add(a - 1, b);
    }
  }

  lemma Pow2Values()
    ensures Pow2(7) == 0x80 && Pow2(8) == 0x100 && Pow2(14) == 0x4000 && Pow2(15) == 0x8000 && Pow2(16) == 0x1_0000
    ensures Pow2(30) == 0x4000_0000 && Pow2(31) == 0x8000_0000 && Pow2(32) == 0x1_0000_0000
  {
    assert Pow2(8) == 0x100 && Pow2(15) == 0x8000;
    Pow2Add(15, 15);
    Pow2Add(16, 15);
    Pow2Add(16, 16);
  }

  lemma {:induction false} Pow2Grows(a: nat, b: nat)
    requires a < b
    ensures 2 * Pow2(a) <= Pow2(b)
  {
    if b == a + 1 {
    } else {
      Pow2Grows(a, b - 1);
    }
  }

  lemma {:induction false} Pow2AtMost(a: nat, b: nat)
    requires a <= b
    ensures Pow2(a) <= Pow2(b)
  {
    if a == b {
    } else {
      Pow2AtMost(a, b - 1);
    }
  }

  lemma MulMonotone(a: int, b: int, c: int)
    requires a <= b && 0 <= c
    ensures a * c <= b * c
  {
  }

  lemma NegMul(a: int, b: int)
    ensures (-a) * b == -(a * b)
  {
  }

  /** A quotient is the only integer whose multiple brackets the dividend. */
  lemma QuotientIs(x: int, d: int, q: int)
    requires 0 < d
    requires q * d <= x < q * d + d
    ensures x / d == q && x % d == x - q * d
  {
    var p := x / d;
    assert p * d <= x < p * d + d by {
      assert x == d * p + x % d;
    }
    if p < q {
      MulMonotone(p + 1, q, d);
    } else if q < p {
      MulMonotone(q + 1, p, d);
    }
  }

  lemma DivMonotone(x: int, y: int, d: int)
    requires x <= y && 0 < d
    ensures x / d <= y / d
  {
    var p, q := x / d, y / d;
    assert x == d * p + x % d && y == d * q + y % d;
    if q < p {
      MulMonotone(q + 1, p, d);
    }
  }

  lemma DivNonnegative(x: int, d: int)
    requires 0 <= x && 0 < d
    ensures 0 <= x / d
  {
    var q := x / d;
    assert x == d * q + x % d;
    if q < 0 {
      MulMonotone(q, -1, d);
    }
  }

  lemma DivAtMost(x: int, d: int)
    requires 0 <= x && 0 < d
    ensures 0 <= x / d <= x
  {
    var q := x / d;
    assert x == d * q + x % d;
    DivNonnegative(x, d);
    MulMonotone(1, d, q);
  }

  lemma ModAddMultiple(x: int, k: int, d: int)
    requires 0 < d
    ensures (x + k * d) % d == x % d
    ensures (x + k * d) / d == x / d + k
  {
    var q := x / d;
    assert x == d * q + x % d;
    assert (q + k) * d == q * d + k * d;
    QuotientIs(x + k * d, d, q + k);
  }

  /** Remainders come round. */
  lemma Repeats(k: int, gap: int)
    requires 0 <= k && 0 < gap
    ensures k % gap == if k < gap then k else (k - gap) % gap
  {
    if k < gap {
      QuotientIs(k, gap, 0);
    } else {
      ModAddMultiple(k - gap, 1, gap);
    }
  }

  /** Two consecutive right shifts are one. */
  lemma DivDiv(x: int, a: int, b: int)
    requires 0 < a && 0 < b
    ensures 0 < a * b
    ensures x / a / b == x / (a * b)
  {
    var p := x / a;
    var q := p / b;
    assert x == a * p + x % a && p == b * q + p % b;
    assert a * p == a * (b * q) + a * (p % b);
    assert a * (b * q) == q * (a * b);
    assert 0 <= a * (p % b) <= a * (b - 1) == a * b - a by {
      MulMonotone(p % b, b - 1, a);
      MulMonotone(0, p % b, a);
    }
    QuotientIs(x, a * b, q);
  }
}
