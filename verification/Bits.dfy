/** Single bits of natural numbers, and the bitwise or. */
module Bits {
  import opened Arith

  function Bit(x: nat, i: nat): (b: nat)
    ensures b < 2
  {
    DivNonnegative(x, Pow2(i));
    x / Pow2(i) % 2
  }

  /** `x | y`. */
  function BitOr(x: nat, y: nat): nat
    decreases x + y
  {
    if x == 0 && y == 0 then 0
    else 2 * BitOr(x / 2, y / 2) + if x % 2 == 1 || y % 2 == 1 then 1 else 0
  }

  lemma BitOfHalf(x: nat, i: nat)
    ensures Bit(x, i + 1) == Bit(x / 2, i)
    ensures Bit(x, 0) == x % 2
  {
    DivDiv(x, 2, Pow2(i));
  }

  lemma BitShiftRight(x: nat, k: nat, i: nat)
    ensures 0 <= x / Pow2(k)
    ensures Bit(x / Pow2(k), i) == Bit(x, i + k)
  {
    DivNonnegative(x, Pow2(k));
    Pow2Add(k, i);
    DivDiv(x, Pow2(k), Pow2(i));
  }

  lemma {:induction false} BitShiftLeft(x: nat, k: nat, i: nat)
    ensures 0 <= x * Pow2(k)
    ensures Bit(x * Pow2(k), i) == if i < k then 0 else Bit(x, i - k)
    decreases k
  {
    MulMonotone(0, x, Pow2(k));
    if k == 0 {
      assert x * Pow2(0) == x;
    } else {
      MulMonotone(0, x, Pow2(k - 1));
      var y := x * Pow2(k - 1);
      assert x * Pow2(k) == 2 * y by {
        assert x * (2 * Pow2(k - 1)) == 2 * (x * Pow2(k - 1));
      }
      BitOfHalf(2 * y, if i == 0 then 0 else i - 1);
      if i > 0 {
        BitShiftLeft(x, k - 1, i - 1);
      }
    }
  }

  lemma {:induction false} BitMod(x: nat, w: nat, i: nat)
    ensures Bit(x % Pow2(w), i) == if i < w then Bit(x, i) else 0
    decreases w
  {
    hide Bit;
    if w == 0 {
      QuotientIs(x, 1, x);
      BitOfZero(i);
    } else {
      HalfOfMod(x, Pow2(w - 1));
      BitOfHalf(x, if i == 0 then 0 else i - 1);
      BitOfHalf(x % Pow2(w), if i == 0 then 0 else i - 1);
      if i > 0 {
        BitMod(x / 2, w - 1, i - 1);
      }
    }
  }

  lemma BitOfZero(i: nat)
    ensures Bit(0, i) == 0
  {
    QuotientIs(0, Pow2(i), 0);
  }

  lemma HalfOfMod(x: nat, p: nat)
    requires 0 < p
    ensures x % (2 * p) / 2 == x / 2 % p && x % (2 * p) % 2 == x % 2
  {
    var q := x / (2 * p);
    assert x == (2 * p) * q + x % (2 * p);
    var r := x % (2 * p);
    ModAddMultiple(r / 2, q, p);
    assert x / 2 == r / 2 + q * p && x % 2 == r % 2 by {
      assert (2 * p) * q == 2 * (q * p);
    }
    QuotientIs(r / 2, p, 0);
  }

  lemma {:induction false} BitOrBit(x: nat, y: nat, i: nat)
    ensures Bit(BitOr(x, y), i) == if Bit(x, i) == 1 || Bit(y, i) == 1 then 1 else 0
    decreases i
  {
    var z := BitOr(x, y);
    assert z % 2 == (if x % 2 == 1 || y % 2 == 1 then 1 else 0) && z / 2 == BitOr(x / 2, y / 2);
    BitOfHalf(x, if i == 0 then 0 else i - 1);
    BitOfHalf(y, if i == 0 then 0 else i - 1);
    BitOfHalf(z, if i == 0 then 0 else i - 1);
    if i == 0 {
    } else {
      BitOrBit(x / 2, y / 2, i - 1);
    }
  }

  lemma {:induction false} BitOrBound(x: nat, y: nat, w: nat)
    requires x < Pow2(w) && y < Pow2(w)
    ensures BitOr(x, y) < Pow2(w)
    decreases w
  {
    if w == 0 || x == y == 0 {
    } else {
      BitOrBound(x / 2, y / 2, w - 1);
    }
  }

  /** Numbers of a width are their bits. */
  lemma {:induction false} SameBits(x: nat, y: nat, w: nat)
    requires x < Pow2(w) && y < Pow2(w)
    requires forall i :: 0 <= i < w ==> Bit(x, i) == Bit(y, i)
    ensures x == y
    decreases w
  {
    if w == 0 {
    } else {
      assert Bit(x, 0) == Bit(y, 0);
      BitOfHalf(x, 0);
      BitOfHalf(y, 0);
      forall i | 0 <= i < w - 1
        ensures Bit(x / 2, i) == Bit(y / 2, i)
      {
        assert Bit(x, i + 1) == Bit(y, i + 1);
        BitOfHalf(x, i);
        BitOfHalf(y, i);
      }
      SameBits(x / 2, y / 2, w - 1);
    }
  }

  /** The top set bit of a number in a power-of-two bracket. */
  lemma TopBit(x: nat, k: nat)
    requires Pow2(k) <= x < Pow2(k + 1)
    ensures Bit(x, k) == 1
  {
    QuotientIs(x, Pow2(k), 1);
  }

  lemma HighBitsZero(x: nat, k: nat, i: nat)
    requires x < Pow2(k) && k <= i
    ensures Bit(x, i) == 0
  {
    Pow2AtMost(k, i);
    QuotientIs(x, Pow2(i), 0);
  }
}
