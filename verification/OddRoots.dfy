/** Linear congruences modulo powers of two with an odd factor. */
module OddRoots {
  import opened Arith

  /** An odd factor can hit any residue modulo a power of two. */
  lemma {:induction false} SolveOdd(a: int, target: int, k: nat) returns (x: int)
    requires a % 2 == 1
    ensures 0 <= x < Pow2(k) && (a * x - target) % Pow2(k) == 0
  {
    if k == 0 {
      x := 0;
    } else {
      x := SolveOdd(a, target, k - 1);
      x := NextBit(a, target, Pow2(k - 1), x);
    }
  }

  /** Either the root modulo `w` or the one `w` further on is a root modulo `2 * w`. */
  lemma NextBit(a: int, target: int, w: int, x: int) returns (y: int)
    requires a % 2 == 1 && 0 < w && 0 <= x < w && (a * x - target) % w == 0
    ensures 0 <= y < 2 * w && (a * y - target) % (2 * w) == 0
  {
    var m := (a * x - target) / w;
    assert a * x - target == w * m + (a * x - target) % w;
    if m % 2 == 0 {
      y := x;
      DoubledDivides(a * x - target, w, m);
    } else {
      y := x + w;
      NextRoot(a, x, w, m, target);
      DoubledDivides(a * y - target, w, m + a);
    }
  }

  lemma NextRoot(a: int, x: int, w: int, m: int, target: int)
    requires a * x - target == w * m
    ensures a * (x + w) - target == w * (m + a)
  {
    assert a * (x + w) == a * x + a * w;
    assert w * (m + a) == w * m + a * w;
  }

  lemma DoubledDivides(z: int, w: int, m: int)
    requires 0 < w && z == w * m && m % 2 == 0
    ensures z % (2 * w) == 0
  {
    assert w * m == (m / 2) * (2 * w) by {
      assert m == 2 * (m / 2);
    }
    ModAddMultiple(0, m / 2, 2 * w);
    QuotientIs(0, 2 * w, 0);
  }

  /** Every number but zero is an odd number times a power of two. */
  lemma {:induction false} OddPart(c: int) returns (k: nat, odd: int)
    requires c != 0
    ensures odd % 2 == 1 && c == odd * Pow2(k)
    decreases if c < 0 then -c else c
  {
    if c % 2 == 1 {
      k, odd := 0, c;
    } else {
      k, odd := OddPart(c / 2);
      ShiftFactor(odd, Pow2(k));
      k := k + 1;
    }
  }

  lemma ShiftFactor(odd: int, p: int)
    ensures 2 * (odd * p) == odd * (2 * p)
  {
  }
}
