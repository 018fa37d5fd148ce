/** The portable __RBIT loop and __ROR, for words of any width; the code's is 32. */
module BitReverse {
  import opened Arith
  import opened FixedPoint
  import opened Bits
  import opened CountLeadingZeros

  /** The low `w` bits of `x`, in the opposite order. */
  function Reverse(w: nat, x: nat): nat {
    if w == 0 then 0
    else
      MulMonotone(0, x % 2, Pow2(w - 1));
      x % 2 * Pow2(w - 1) + Reverse(w - 1, x / 2)
  }

  lemma {:induction false} ReverseBound(w: nat, x: nat)
    ensures Reverse(w, x) < Pow2(w)
  {
    if w == 0 {
    } else {
      ReverseBound(w - 1, x / 2);
      MulMonotone(x % 2, 1, Pow2(w - 1));
    }
  }

  /** Bit i of the reversed word is bit w-1-i of the word. */
  lemma {:induction false} ReverseBit(w: nat, x: nat, i: nat)
    requires i < w
    ensures Bit(Reverse(w, x), i) == Bit(x, w - 1 - i)
  {
    hide Bit, Pow2;
    ReverseBound(w - 1, x / 2);
    BitOfJoin(x % 2, Reverse(w - 1, x / 2), w - 1, i);
    BitOfHalf(x, if i == w - 1 then 0 else w - 2 - i);
    if i == w - 1 {
    } else {
      ReverseBit(w - 1, x / 2, i);
    }
  }

  /** A bit put on top of a shorter word. */
  lemma BitOfJoin(b: nat, rest: nat, w: nat, i: nat)
    requires b < 2 && rest < Pow2(w) && i <= w
    ensures 0 <= b * Pow2(w) + rest
    ensures Bit(b * Pow2(w) + rest, i) == if i == w then b else Bit(rest, i)
  {
    var p := Pow2(w);
    MulMonotone(0, b, p);
    if i == w {
      QuotientIs(b * p + rest, p, b);
    } else {
      BitMod(b * p + rest, w, i);
      ModAddMultiple(rest, b, p);
      QuotientIs(rest, p, 0);
    }
  }

  lemma ReverseTwice(w: nat, x: nat)
    requires x < Pow2(w)
    ensures Reverse(w, Reverse(w, x)) == x
  {
    hide Bit, Reverse, Pow2;
    var y := Reverse(w, x);
    ReverseBound(w, y);
    forall i | 0 <= i < w
      ensures Bit(Reverse(w, y), i) == Bit(x, i)
    {
      ReverseBit(w, y, i);
      ReverseBit(w, x, w - 1 - i);
    }
    SameBits(Reverse(w, y), x, w);
  }

  // -------------------------------------------------------------------------
  // The loop
  // -------------------------------------------------------------------------

  /** One more bit at the bottom. */
  lemma {:induction false} ReverseSnoc(k: nat, y: nat)
    ensures Reverse(k + 1, y) == 2 * Reverse(k, y) + Bit(y, k)
    decreases k
  {
    if k == 0 {
      BitOfHalf(y, 0);
      assert Pow2(0) == 1 && Reverse(0, y / 2) == 0;
    } else {
      ReverseSnoc(k - 1, y / 2);
      BitOfHalf(y, k - 1);
      assert y % 2 * (2 * Pow2(k - 1)) == 2 * (y % 2 * Pow2(k - 1));
    }
  }

  /** Reversing a short word shifts it up by the bits it lacks. */
  lemma {:induction false} ReverseShort(k: nat, m: nat, y: nat)
    requires y < Pow2(k)
    ensures Reverse(k + m, y) == Reverse(k, y) * Pow2(m)
    decreases m
  {
    hide Bit, Reverse;
    if m == 0 {
    } else {
      ReverseShort(k, m - 1, y);
      ReverseSnoc(k + m - 1, y);
      HighBitsZero(y, k, k + m - 1);
      DoubledPower(Reverse(k, y), m - 1);
    }
  }

  lemma DoubledPower(a: int, m: nat)
    ensures a * Pow2(m + 1) == 2 * (a * Pow2(m))
  {
  }

  lemma ModOfScaled(a: int, c: int, w: int)
    requires 0 < w
    ensures (a % w * c) % w == (a * c) % w
  {
    var q := a / w;
    assert a == w * q + a % w;
    assert a * c == a % w * c + (q * c) * w by {
      assert (w * q + a % w) * c == (w * q) * c + a % w * c;
      assert (w * q) * c == (q * c) * w;
    }
    ModAddMultiple(a % w * c, q * c, w);
  }

  /** The state after k trips: the untouched word shifted up k places, with the k bits
      above its lowest one appended in reverse. */
  function Shifted(value: nat, k: nat): nat {
    MulMonotone(0, value, Pow2(k));
    value * Pow2(k) + Reverse(k, value / 2)
  }

  lemma NextShifted(value: nat, k: nat)
    ensures Shifted(value, k + 1) == 2 * Shifted(value, k) + Bit(value, k + 1)
  {
    hide Bit, Reverse;
    ReverseSnoc(k, value / 2);
    BitOfHalf(value, k);
    DoubledPower(value, k);
  }

  lemma OneTrip(value: nat, k: nat, w: nat)
    requires 0 < w
    ensures BitOr((Shifted(value, k) % Pow2(w) * 2) % Pow2(w), Bit(value, k + 1)) == Shifted(value, k + 1) % Pow2(w)
  {
    hide Bit, BitOr, Shifted;
    NextShifted(value, k);
    AppendBit(Shifted(value, k), Bit(value, k + 1), Pow2(w - 1));
  }

  /** Shift up, drop the overflow, or in a bit. */
  lemma AppendBit(z: nat, b: nat, p: nat)
    requires b < 2 && 0 < p
    ensures BitOr((z % (2 * p) * 2) % (2 * p), b) == (2 * z + b) % (2 * p)
  {
    hide BitOr;
    EvenPlusBit(2 * z, b, p);
    ModOfDoubled(z, 2 * p);
    OrIntoEven((2 * z) % (2 * p), b);
  }

  lemma ModOfDoubled(z: int, w: int)
    requires 0 < w
    ensures (z % w * 2) % w == (2 * z) % w
  {
    var q, r := z / w, z % w;
    assert 2 * z == r * 2 + 2 * q * w by {
      assert z == w * q + r;
    }
    ModAddMultiple(r * 2, 2 * q, w);
  }

  lemma EvenPlusBit(z: nat, b: nat, p: nat)
    requires z % 2 == 0 && b < 2 && 0 < p
    ensures (z + b) % (2 * p) == z % (2 * p) + b && z % (2 * p) % 2 == 0
  {
    HalfOfMod(z, p);
    var q := z / (2 * p);
    assert z == (2 * p) * q + z % (2 * p);
    QuotientIs(z + b, 2 * p, q);
  }

  lemma OrIntoEven(x: nat, b: nat)
    requires x % 2 == 0 && b < 2
    ensures BitOr(x, b) == x + b
  {
    OrWithZero(x / 2);
    assert b / 2 == 0;
  }

  lemma {:induction false} OrWithZero(x: nat)
    ensures BitOr(x, 0) == x
  {
    if x == 0 {
    } else {
      OrWithZero(x / 2);
    }
  }

  method Rbit(width: nat, word: nat) returns (result: nat)
    requires 0 < width && word < Pow2(width)
    ensures result == Reverse(width, word)
  {
    hide Shifted, Reverse, Bit, BitOr, Pow2;
    var s := width - 1;
    result := word;
    var value := word / 2;
    Start(width, word);
    while value != 0
      invariant 0 <= s < width
      invariant value == word / Pow2(width - s)
      invariant result == Shifted(word, width - 1 - s) % Pow2(width)
      decreases value
    {
      Trip(width, word, s, result, value);
      result := (result * 2) % Pow2(width);
      result := BitOr(result, value % 2);
      s := s - 1;
      value := value / 2;
    }
    Finish(width, word, width - 1 - s);
    result := (result * Pow2(s)) % Pow2(width);
  }

  /** One trip keeps the loop's invariant. */
  lemma Trip(width: nat, word: nat, s: nat, result: nat, value: nat)
    requires s < width && word < Pow2(width)
    requires value == word / Pow2(width - s) && value != 0
    requires result == Shifted(word, width - 1 - s) % Pow2(width)
    ensures 0 < s
    ensures value / 2 == word / Pow2(width - (s - 1))
    ensures BitOr((result * 2) % Pow2(width), value % 2) == Shifted(word, width - 1 - (s - 1)) % Pow2(width)
  {
    hide Shifted, Bit, BitOr, Pow2;
    OneTrip(word, width - 1 - s, width);
    NextValue(width, word, s);
    assert width - 1 - s + 1 == width - s == width - 1 - (s - 1);
  }

  /** Bits are left only while the counter is positive. */
  lemma NextValue(width: nat, word: nat, s: nat)
    requires s < width && word < Pow2(width) && word / Pow2(width - s) != 0
    ensures 0 < s
    ensures word / Pow2(width - s) / 2 == word / Pow2(width - s + 1)
    ensures Bit(word, width - s) == word / Pow2(width - s) % 2
  {
    DivDiv(word, Pow2(width - s), 2);
    if s == 0 {
      QuotientIs(word, Pow2(width), 0);
    }
  }

  lemma Start(width: nat, word: nat)
    requires 0 < width && word < Pow2(width)
    ensures word == Shifted(word, 0) % Pow2(width)
    ensures word / 2 == word / Pow2(1)
  {
    NothingShifted(word);
    hide Shifted;
    QuotientIs(word, Pow2(width), 0);
    assert Pow2(1) == 2;
  }

  lemma NothingShifted(word: nat)
    ensures Shifted(word, 0) == word
  {
    assert Pow2(0) == 1 && word * 1 == word;
  }

  /** When no set bits are left, one shift by what remains of the width completes it. */
  lemma Finish(width: nat, word: nat, k: nat)
    requires k < width && word / Pow2(k + 1) == 0
    ensures (Shifted(word, k) % Pow2(width) * Pow2(width - 1 - k)) % Pow2(width) == Reverse(width, word)
  {
    hide Reverse;
    ModOfScaled(Shifted(word, k), Pow2(width - 1 - k), Pow2(width));
    ScaledShift(word, k, width - 1 - k);
    ShortWord(word, k);
    ReverseShort(k, width - 1 - k, word / 2);
    LowestBitSurvives(width, word);
  }

  lemma ShortWord(word: nat, k: nat)
    requires word / Pow2(k + 1) == 0
    ensures word / 2 < Pow2(k)
  {
    assert word == Pow2(k + 1) * (word / Pow2(k + 1)) + word % Pow2(k + 1);
  }

  lemma ScaledShift(word: nat, k: nat, s: nat)
    ensures Shifted(word, k) * Pow2(s) == word * Pow2(k + s) + Reverse(k, word / 2) * Pow2(s)
  {
    hide Reverse, Pow2;
    Pow2Add(k, s);
    ScaleSum(word, Pow2(k), Reverse(k, word / 2), Pow2(s));
  }

  lemma ScaleSum(x: int, a: int, rest: int, c: int)
    ensures (x * a + rest) * c == x * (a * c) + rest * c
  {
    assert (x * a) * c == x * (a * c);
  }

  /** Of the word itself only the lowest bit survives the shift to the top. */
  lemma LowestBitSurvives(width: nat, word: nat)
    requires 0 < width
    ensures (word * Pow2(width - 1) + Reverse(width - 1, word / 2)) % Pow2(width) == Reverse(width, word)
  {
    var p := Pow2(width - 1);
    SplitLowBit(word, p);
    ModAddMultiple(Reverse(width, word), word / 2, 2 * p);
    ReverseBound(width, word);
    QuotientIs(Reverse(width, word), 2 * p, 0);
  }

  lemma SplitLowBit(x: nat, p: nat)
    ensures x * p == x % 2 * p + x / 2 * (2 * p)
  {
    var q, b := x / 2, x % 2;
    assert x == 2 * q + b;
    assert (2 * q + b) * p == q * (2 * p) + b * p;
  }

  // -------------------------------------------------------------------------
  // Rotation
  // -------------------------------------------------------------------------

  function Ror(w: nat, x: nat, k: nat): nat
    requires 0 < w
  {
    var r := k % w;
    if r == 0 then x
    else
      DivNonnegative(x, Pow2(r));
      BitOr(x / Pow2(r), x * Pow2(w - r) % Pow2(w))
  }

  lemma RorBound(w: nat, x: nat, k: nat)
    requires 0 < w && x < Pow2(w)
    ensures Ror(w, x, k) < Pow2(w)
  {
    var r := k % w;
    if r != 0 {
      hide BitOr, Pow2;
      DivAtMost(x, Pow2(r));
      BitOrBound(x / Pow2(r), x * Pow2(w - r) % Pow2(w), w);
    }
  }

  /** Bit i of the rotated word is bit i+k of the word, counted round. */
  lemma RorBit(w: nat, x: nat, k: nat, i: nat)
    requires 0 < w && x < Pow2(w) && i < w
    ensures Bit(Ror(w, x, k), i) == Bit(x, (i + k) % w)
  {
    hide Bit, BitOr;
    var r := k % w;
    RoundOnce(i, k, w);
    if r != 0 {
      BitShiftRight(x, r, i);
      BitShiftLeft(x, w - r, i);
      BitMod(x * Pow2(w - r), w, i);
      BitOrBit(x / Pow2(r), x * Pow2(w - r) % Pow2(w), i);
      if i + r >= w {
        HighBitsZero(x, w, i + r);
      }
    }
  }

  lemma RoundOnce(i: nat, k: nat, w: nat)
    requires i < w
    ensures (i + k) % w == if i + k % w < w then i + k % w else i + k % w - w
  {
    var r := k % w;
    assert k == w * (k / w) + r;
    ModAddMultiple(i + r, k / w, w);
    QuotientIs(i + r, w, if i + r < w then 0 else 1);
  }

  /** Rotations add up. */
  lemma RorCompose(w: nat, x: nat, a: nat, b: nat)
    requires 0 < w && x < Pow2(w)
    ensures Ror(w, Ror(w, x, a), b) == Ror(w, x, a + b)
  {
    hide Bit, Ror, Pow2;
    var y := Ror(w, x, a);
    RorBound(w, x, a);
    RorBound(w, y, b);
    RorBound(w, x, a + b);
    forall i | 0 <= i < w
      ensures Bit(Ror(w, y, b), i) == Bit(Ror(w, x, a + b), i)
    {
      RorBit(w, y, b, i);
      RorBit(w, x, a, (i + b) % w);
      RorBit(w, x, a + b, i);
      RoundAgain(i + b, a, w);
    }
    SameBits(Ror(w, y, b), Ror(w, x, a + b), w);
  }

  lemma RoundAgain(x: int, a: int, w: int)
    requires 0 < w
    ensures (x % w + a) % w == (x + a) % w
  {
    assert x == w * (x / w) + x % w;
    ModAddMultiple(x % w + a, x / w, w);
  }

  /** Reversing a rotated word is rotating the reversed word the other way. */
  lemma ReverseRotates(w: nat, x: nat, k: nat)
    requires 0 < w && x < Pow2(w)
    ensures Reverse(w, Ror(w, x, k)) == Ror(w, Reverse(w, x), w - k % w)
  {
    hide Bit, Ror, Reverse, Pow2;
    var y, z := Ror(w, x, k), Reverse(w, x);
    RorBound(w, x, k);
    ReverseBound(w, y);
    ReverseBound(w, x);
    RorBound(w, z, w - k % w);
    forall i | 0 <= i < w
      ensures Bit(Reverse(w, y), i) == Bit(Ror(w, z, w - k % w), i)
    {
      ReverseBit(w, y, i);
      RorBit(w, x, k, w - 1 - i);
      RorBit(w, z, w - k % w, i);
      ReverseBit(w, x, (i + (w - k % w)) % w);
      Mirror(i, k, w);
    }
    SameBits(Reverse(w, y), Ror(w, z, w - k % w), w);
  }

  lemma Mirror(i: nat, k: nat, w: nat)
    requires i < w
    ensures (w - 1 - i + k) % w == w - 1 - (i + (w - k % w)) % w
  {
    var r := k % w;
    RoundOnce(w - 1 - i, k, w);
    QuotientIs(i + (w - r), w, if r <= i then 1 else 0);
  }

  /** Leading zeros of the reversed word count the trailing zeros of the word. */
  lemma TrailingZeros(x: u32)
    requires 0 < x
    ensures 0 < Reverse(32, x) < 0x1_0000_0000
    ensures var n := LeadingZeros(Reverse(32, x));
            && n < 32 && Bit(x, n) == 1
            && forall i :: 0 <= i < n ==> Bit(x, i) == 0
  {
    Pow2Values();
    hide Bit, Reverse, Pow2;
    ReverseBound(32, x);
    var y := Reverse(32, x);
    if y == 0 {
      ReverseTwice(32, x);
      ReverseZero(32);
    }
    var n := LeadingZeros(y);
    TopBit(y, 31 - n);
    ReverseBit(32, x, 31 - n);
    forall i | 0 <= i < n
      ensures Bit(x, i) == 0
    {
      ReverseBit(32, x, 31 - i);
      HighBitsZero(y, 32 - n, 31 - i);
    }
  }

  lemma {:induction false} ReverseZero(w: nat)
    ensures Reverse(w, 0) == 0
  {
    if w == 0 {
    } else {
      ReverseZero(w - 1);
      assert 0 * Pow2(w - 1) == 0;
    }
  }
}
