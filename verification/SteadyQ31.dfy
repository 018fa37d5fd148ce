/** When arm_linear_interp_q31 is monotone. Its two products are shifted down one by one,
    so a grid step along a segment can lose an LSB of each half without gaining one. */
module SteadyQ31 {
  import opened Arith
  import opened FixedPoint
  import opened LinearInterp
  import opened OddRoots

  // -------------------------------------------------------------------------
  // One grid step: the fraction moves by 2^11, so each product moves by 2^11 times
  // its table entry. Entries 2^21 apart move it by one whole unit of the 32-bit shift.
  // -------------------------------------------------------------------------

  /** The two products of a segment, `f` grid steps in. */
  function First(y0: int, f: int): int {
    y0 * (0x7FFF_FFFF - f * 0x800)
  }

  function Second(y1: int, f: int): int {
    y1 * (f * 0x800)
  }

  /** Half the segment's result there. */
  function HalfAt(y0: int, y1: int, f: int): int {
    First(y0, f) / 0x1_0000_0000 + Second(y1, f) / 0x1_0000_0000
  }

  lemma SegmentIsTwiceHalf(y0: q31, y1: q31, f: int)
    requires 0 <= f <= 0xF_FFFF
    ensures SegmentQ31(y0, y1, f * 0x800) == 2 * HalfAt(y0, y1, f)
  {
    hide SegmentQ31;
    EvenFraction(f);
    SegmentQ31Accuracy(y0, y1, f * 0x800);
  }

  lemma EvenFraction(f: int)
    ensures f * 0x800 % 2 == 0
  {
    QuotientIs(f * 0x800, 2, f * 0x400);
  }

  /** The falling product loses more than the whole units of its entry. */
  predicate Drops(y0: int, f: int) {
    First(y0, f) % 0x1_0000_0000 < 0x800 * (y0 % 0x20_0000)
  }

  /** The rising product gains more than the whole units of its entry. */
  predicate Rises(y1: int, f: int) {
    0x1_0000_0000 - 0x800 * (y1 % 0x20_0000) <= Second(y1, f) % 0x1_0000_0000
  }

  /** Every drop of the falling product meets a rise of the other. */
  ghost predicate DropsMeetRises(y0: int, y1: int) {
    forall f :: 0 <= f < 0xF_FFFF && Drops(y0, f) ==> Rises(y1, f)
  }

  lemma StepValue(y0: int, y1: int, f: int)
    ensures HalfAt(y0, y1, f + 1) - HalfAt(y0, y1, f)
         == y1 / 0x20_0000 - y0 / 0x20_0000
            - (if Drops(y0, f) then 1 else 0) + (if Rises(y1, f) then 1 else 0)
  {
    assert First(y0, f + 1) == First(y0, f) - 0x800 * y0;
    assert Second(y1, f + 1) == Second(y1, f) + 0x800 * y1;
    ShiftDown(First(y0, f), y0);
    ShiftUp(Second(y1, f), y1);
  }

  lemma ShiftDown(z: int, y: int)
    ensures (z - 0x800 * y) / 0x1_0000_0000 == z / 0x1_0000_0000 - y / 0x20_0000
            - if z % 0x1_0000_0000 < 0x800 * (y % 0x20_0000) then 1 else 0
  {
  }

  lemma ShiftUp(z: int, y: int)
    ensures (z + 0x800 * y) / 0x1_0000_0000 == z / 0x1_0000_0000 + y / 0x20_0000
            + if 0x1_0000_0000 - 0x800 * (y % 0x20_0000) <= z % 0x1_0000_0000 then 1 else 0
  {
  }

  // -------------------------------------------------------------------------
  // One segment
  // -------------------------------------------------------------------------

  /** The segment's results do not fall along its grid. */
  ghost predicate Steady(y0: q31, y1: q31) {
    forall f, f' :: 0 <= f <= f' <= 0xF_FFFF ==>
      SegmentQ31(y0, y1, f * 0x800) <= SegmentQ31(y0, y1, f' * 0x800)
  }

  /** Between entries in the same block of 2^21 a segment is steady exactly when every drop
      of its first product meets a rise of its second; across blocks it always is. */
  lemma SteadyExactly(y0: q31, y1: q31)
    requires y0 <= y1
    ensures Steady(y0, y1) <==> y0 / 0x20_0000 < y1 / 0x20_0000 || DropsMeetRises(y0, y1)
  {
    hide SegmentQ31, Drops, Rises, HalfAt;
    if Steady(y0, y1) {
      forall f | 0 <= f < 0xF_FFFF && Drops(y0, f) && y0 / 0x20_0000 == y1 / 0x20_0000
        ensures Rises(y1, f)
      {
        assert SegmentQ31(y0, y1, f * 0x800) <= SegmentQ31(y0, y1, (f + 1) * 0x800);
        SegmentIsTwiceHalf(y0, y1, f);
        SegmentIsTwiceHalf(y0, y1, f + 1);
        StepValue(y0, y1, f);
      }
    } else {
      var f, f' :| 0 <= f <= f' <= 0xF_FFFF
                   && SegmentQ31(y0, y1, f * 0x800) > SegmentQ31(y0, y1, f' * 0x800);
      SegmentIsTwiceHalf(y0, y1, f);
      SegmentIsTwiceHalf(y0, y1, f');
      var g := SomeFall(y0, y1, f, f');
      StepValue(y0, y1, g);
    }
  }

  lemma {:induction false} SomeFall(y0: int, y1: int, f: int, f': int) returns (g: int)
    requires f <= f' && HalfAt(y0, y1, f) > HalfAt(y0, y1, f')
    ensures f <= g < f' && HalfAt(y0, y1, g) > HalfAt(y0, y1, g + 1)
    decreases f' - f
  {
    hide HalfAt;
    if HalfAt(y0, y1, f) > HalfAt(y0, y1, f + 1) {
      g := f;
    } else {
      g := SomeFall(y0, y1, f + 1, f');
    }
  }

  /** Some multiple of 2^21 lies between the entries, or is one of them. */
  predicate Spans(y0: int, y1: int) {
    y0 / 0x20_0000 < y1 / 0x20_0000 || y0 % 0x20_0000 == 0
  }

  lemma SpansExactly(y0: int, y1: int)
    requires y0 <= y1
    ensures Spans(y0, y1) <==> exists m: int :: y0 <= m * 0x20_0000 <= y1
  {
    if Spans(y0, y1) {
      var m := if y0 % 0x20_0000 == 0 then y0 / 0x20_0000 else y0 / 0x20_0000 + 1;
      assert y0 <= m * 0x20_0000 <= y1;
    }
  }

  lemma SpanningIsSteady(y0: q31, y1: q31)
    requires y0 <= y1 && Spans(y0, y1)
    ensures Steady(y0, y1)
  {
    hide Steady;
    SteadyExactly(y0, y1);
  }

  // -------------------------------------------------------------------------
  // Flat segments: a condition on the entry alone
  // -------------------------------------------------------------------------

  /** What a flat segment's result has at every grid point if it is steady. */
  predicate HoldsAt(c: int, f: int) {
    c * f % 0x20_0000 * 0x800 <= First(c, 0) % 0x1_0000_0000
  }

  /** A flat segment is at its starting value or two LSBs below it. */
  lemma FlatValue(c: int, f: int)
    ensures HalfAt(c, c, f) == First(c, 0) / 0x1_0000_0000 - if HoldsAt(c, f) then 0 else 1
  {
    var b := Second(c, f);
    assert b == c * f * 0x800;
    assert First(c, f) == First(c, 0) - b;
    ScaledResidue(c * f);
    FloorPair(First(c, 0), b);
  }

  lemma ScaledResidue(z: int)
    ensures z * 0x800 % 0x1_0000_0000 == z % 0x20_0000 * 0x800
  {
  }

  lemma FloorPair(a: int, b: int)
    ensures (a - b) / 0x1_0000_0000 + b / 0x1_0000_0000
         == a / 0x1_0000_0000 - if b % 0x1_0000_0000 <= a % 0x1_0000_0000 then 0 else 1
  {
  }

  lemma FlatSteadyExactly(c: q31)
    ensures Steady(c, c) <==> forall f :: 0 <= f <= 0xF_FFFF ==> HoldsAt(c, f)
  {
    hide SegmentQ31, HalfAt, HoldsAt;
    forall f | 0 <= f <= 0xF_FFFF
      ensures SegmentQ31(c, c, f * 0x800)
           == 2 * (First(c, 0) / 0x1_0000_0000 - if HoldsAt(c, f) then 0 else 1)
    {
      SegmentIsTwiceHalf(c, c, f);
      FlatValue(c, f);
    }
    HoldsAtStart(c);
    if Steady(c, c) {
      forall f | 0 <= f <= 0xF_FFFF
        ensures HoldsAt(c, f)
      {
        assert SegmentQ31(c, c, 0 * 0x800) <= SegmentQ31(c, c, f * 0x800);
      }
    }
  }

  lemma HoldsAtStart(c: int)
    ensures HoldsAt(c, 0)
  {
    assert c * 0 == 0;
  }

  /** The residue the flat segment starts with. */
  lemma StartResidue(c: q31)
    ensures First(c, 0) % 0x1_0000_0000
         == if c % 2 == 1 then 0x8000_0000 - c else if c > 0 then 0x1_0000_0000 - c else 0 - c
  {
    assert First(c, 0) == c * 0x8000_0000 - c;
    var h := c / 2;
    if c % 2 == 1 {
      QuotientIs(First(c, 0), 0x1_0000_0000, h);
    } else if c > 0 {
      QuotientIs(First(c, 0), 0x1_0000_0000, h - 1);
    } else {
      QuotientIs(First(c, 0), 0x1_0000_0000, h);
    }
  }

  /** At most eleven significant bits, the last of them of weight 2^k. */
  predicate ElevenBits(c: int, k: nat) {
    c % Pow2(k) == 0 && c <= 0x800 * Pow2(k)
  }

  predicate IsInverse(c: int, i: int) {
    0 < i && c * i % 0x20_0000 == 1
  }

  /** What is left of a cycle of 2^21 above the residue an odd entry starts with. */
  function Headroom(c: q31): int {
    0x1F_FFFF - (0x8000_0000 - c) / 0x800
  }

  /** The entries that a flat segment reproduces steadily. Even ones: the multiples of 2^21
      and the positive ones of eleven significant bits. Odd ones: those whose inverse modulo
      2^21, times the headroom, is at most half a cycle. */
  ghost predicate SteadyConstant(c: q31) {
    if c % 2 == 1 then exists i :: IsInverse(c, i) && i * Headroom(c) <= 0x10_0000
    else if c <= 0 then c % 0x20_0000 == 0
    else exists k :: ElevenBits(c, k)
  }

  lemma FlatExactly(c: q31)
    ensures Steady(c, c) <==> SteadyConstant(c)
  {
    hide Steady, HoldsAt;
    FlatSteadyExactly(c);
    if c % 2 == 1 {
      OddFlat(c);
    } else {
      EvenFlat(c);
    }
  }

  // Even entries

  lemma EvenFlat(c: q31)
    requires c % 2 == 0
    ensures (forall f :: 0 <= f <= 0xF_FFFF ==> HoldsAt(c, f))
       <==> if c <= 0 then c % 0x20_0000 == 0 else exists k :: ElevenBits(c, k)
  {
    hide HoldsAt, ElevenBits;
    if forall f :: 0 <= f <= 0xF_FFFF ==> HoldsAt(c, f) {
      if c != 0 {
        EvenFlatIsShort(c);
      }
    } else {
      var f :| 0 <= f <= 0xF_FFFF && !HoldsAt(c, f);
      if c <= 0 && c % 0x20_0000 == 0 {
        MultipleHolds(c, f);
      } else if 0 < c && exists k :: ElevenBits(c, k) {
        var k :| ElevenBits(c, k);
        ShortHolds(c, k, f);
      }
    }
  }

  lemma MultipleHolds(c: q31, f: int)
    requires c % 0x20_0000 == 0
    ensures HoldsAt(c, f)
  {
    var q := c / 0x20_0000;
    assert c * f == q * f * 0x20_0000;
    ModAddMultiple(0, q * f, 0x20_0000);
  }

  lemma ShortHolds(c: q31, k: nat, f: int)
    requires 0 < c && c % 2 == 0 && ElevenBits(c, k)
    ensures HoldsAt(c, f)
  {
    hide Pow2;
    StartResidue(c);
    Pow2Values();
    if k < 21 {
      Pow2Add(k, 21 - k);
      TwentyOne();
      ResidueOfMultiple(c, f, Pow2(k), Pow2(21 - k));
    } else {
      Pow2AtMost(21, k);
      Pow2Add(21, k - 21);
      TwentyOne();
      DividesSmaller(c, 0x20_0000, Pow2(k - 21));
      MultipleHolds(c, f);
    }
  }

  lemma TwentyOne()
    ensures Pow2(20) == 0x10_0000 && Pow2(21) == 0x20_0000
  {
    Pow2Values();
    Pow2Add(15, 5);
    Pow2Add(16, 5);
    assert Pow2(5) == 32;
  }

  lemma DividesSmaller(c: int, d: int, e: int)
    requires 0 < d && 0 < e && 0 < d * e && c % (d * e) == 0
    ensures c % d == 0
  {
    var q := c / (d * e);
    assert c == (d * e) * q;
    assert (d * e) * q == (e * q) * d;
    ModAddMultiple(0, e * q, d);
    QuotientIs(0, d, 0);
  }

  /** A multiple of p, reduced modulo p * q, stays at least p below p * q. */
  lemma ResidueOfMultiple(c: int, f: int, p: int, q: int)
    requires 0 < p && 0 < q && 0 < p * q && c % p == 0
    ensures c * f % (p * q) <= p * q - p
  {
    var m, n := c / p, c * f / (p * q);
    var r := c * f % (p * q);
    assert c == p * m && c * f == (p * q) * n + r;
    var j := m * f - q * n;
    assert c * f == p * (m * f) && (p * q) * n == p * (q * n);
    assert r == p * j;
    if j >= q {
      MulMonotone(q, j, p);
    }
    MulMonotone(j, q - 1, p);
  }

  lemma EvenFlatIsShort(c: q31)
    requires c % 2 == 0 && c != 0
    requires forall f :: 0 <= f <= 0xF_FFFF ==> HoldsAt(c, f)
    ensures if c <= 0 then c % 0x20_0000 == 0 else exists k :: ElevenBits(c, k)
  {
    hide HoldsAt, Pow2;
    var k, odd := OddPart(c);
    FactorIsEven(c, k, odd);
    TwentyOne();
    QuotientIs(odd * Pow2(k), Pow2(k), odd);
    if k < 21 {
      var f := HighestResidue(c, k, odd);
      HighestHolds(c, k, f);
      assert c > 0 ==> ElevenBits(c, k);
    } else {
      Pow2Add(21, k - 21);
      assert c == odd * Pow2(k - 21) * 0x20_0000;
      QuotientIs(c, 0x20_0000, odd * Pow2(k - 21));
      MultipleIsShort(c);
    }
  }

  lemma FactorIsEven(c: int, k: nat, odd: int)
    requires c % 2 == 0 && odd % 2 == 1 && c == odd * Pow2(k)
    ensures 1 <= k
  {
    assert k == 0 ==> c == odd;
  }

  lemma MultipleIsShort(c: q31)
    requires c % 0x20_0000 == 0
    ensures ElevenBits(c, 21)
  {
    TwentyOne();
  }

  /** The highest residue a multiple of 2^k can leave is taken in the first half cycle. */
  lemma HighestResidue(c: int, k: nat, odd: int) returns (f: int)
    requires 1 <= k < 21 && odd % 2 == 1 && c == odd * Pow2(k)
    ensures 0 <= f <= 0xF_FFFF && c * f % 0x20_0000 == 0x20_0000 - Pow2(k)
  {
    hide Pow2;
    f := SolveOdd(odd, -1, 21 - k);
    TwentyOne();
    Pow2AtMost(21 - k, 20);
    Pow2Add(k, 21 - k);
    Pow2AtMost(k, 20);
    var p, w := Pow2(k), Pow2(21 - k);
    var q := (odd * f + 1) / w;
    assert odd * f + 1 == w * q + (odd * f + 1) % w;
    OneShort(odd, f, p, w, q);
    QuotientIs(c * f, 0x20_0000, q - 1);
  }

  lemma OneShort(odd: int, f: int, p: int, w: int, q: int)
    requires odd * f + 1 == w * q
    ensures (odd * p) * f == q * (p * w) - p
  {
    assert (odd * p) * f == p * (odd * f);
    assert p * (w * q - 1) == q * (p * w) - p;
  }

  lemma HighestHolds(c: q31, k: nat, f: int)
    requires c % 2 == 0 && k < 21 && HoldsAt(c, f)
    requires c * f % 0x20_0000 == 0x20_0000 - Pow2(k)
    ensures if c <= 0 then c % 0x20_0000 == 0 else c <= 0x800 * Pow2(k)
  {
    hide Pow2;
    StartResidue(c);
    TwentyOne();
    Pow2AtMost(k, 20);
  }

  // Odd entries

  lemma OddFlat(c: q31)
    requires c % 2 == 1
    ensures (forall f :: 0 <= f <= 0xF_FFFF ==> HoldsAt(c, f))
       <==> exists i :: IsInverse(c, i) && i * Headroom(c) <= 0x10_0000
  {
    hide HoldsAt, IsInverse, Headroom;
    if exists i :: IsInverse(c, i) && i * Headroom(c) <= 0x10_0000 {
      var i :| IsInverse(c, i) && i * Headroom(c) <= 0x10_0000;
      forall f | 0 <= f <= 0xF_FFFF
        ensures HoldsAt(c, f)
      {
        OddHolds(c, i, f);
      }
    } else {
      var i := InverseOf(c);
      var f := OddFails(c, i);
    }
  }

  lemma InverseOf(c: q31) returns (i: int)
    requires c % 2 == 1
    ensures IsInverse(c, i) && i < 0x20_0000
  {
    hide Pow2;
    TwentyOne();
    i := SolveOdd(c, 1, 21);
    var q := (c * i - 1) / 0x20_0000;
    assert c * i == q * 0x20_0000 + 1;
    QuotientIs(c * i, 0x20_0000, q);
    assert c * 0 == 0;
  }

  /** For an odd entry: the residue stays clear of the headroom. */
  lemma OddHoldsAt(c: q31, f: int)
    requires c % 2 == 1
    ensures HoldsAt(c, f) <==> c * f % 0x20_0000 < 0x20_0000 - Headroom(c)
  {
    StartResidue(c);
  }

  lemma OddHolds(c: q31, i: int, f: int)
    requires c % 2 == 1 && 0 <= f <= 0xF_FFFF
    requires IsInverse(c, i) && i * Headroom(c) <= 0x10_0000
    ensures HoldsAt(c, f)
  {
    hide HoldsAt, Headroom;
    OddHoldsAt(c, f);
    var w := 0x20_0000 - c * f % 0x20_0000;
    if w <= Headroom(c) {
      MulMonotone(w, Headroom(c), i);
      MulMonotone(1, w, i);
      BackToStart(c, i, f, w);
      QuotientIs(f + i * w, 0x20_0000, 0);
    }
  }

  /** If c * f is w short of a multiple, then f is i * w short of one. */
  lemma BackToStart(c: int, i: int, f: int, w: int)
    requires c * i % 0x20_0000 == 1 && w == 0x20_0000 - c * f % 0x20_0000
    ensures (f + i * w) % 0x20_0000 == 0
  {
    var m, n := c * f / 0x20_0000, c * i / 0x20_0000;
    assert c * f == 0x20_0000 * (m + 1) - w && c * i == 0x20_0000 * n + 1;
    assert (c * f) * i == (c * i) * f;
    assert (c * f) * i == 0x20_0000 * ((m + 1) * i) - i * w by {
      assert (0x20_0000 * (m + 1) - w) * i == 0x20_0000 * ((m + 1) * i) - w * i;
    }
    assert (c * i) * f == 0x20_0000 * (n * f) + f by {
      assert (0x20_0000 * n + 1) * f == 0x20_0000 * (n * f) + f;
    }
    var q := (m + 1) * i - n * f;
    assert f + i * w == 0x20_0000 * q;
    QuotientIs(f + i * w, 0x20_0000, q);
  }

  lemma OddFails(c: q31, i: int) returns (f: int)
    requires c % 2 == 1
    requires IsInverse(c, i) && i < 0x20_0000 && 0x10_0000 < i * Headroom(c)
    ensures 0 <= f <= 0xF_FFFF && !HoldsAt(c, f)
  {
    hide HoldsAt, Headroom;
    var w := FirstPastHalf(i);
    if Headroom(c) < w {
      MulMonotone(Headroom(c), w - 1, i);
    }
    f := 0x20_0000 - i * w;
    ShortOfMultiple(c, i, w);
    OddHoldsAt(c, f);
  }

  /** The first multiple past half a cycle is still within the cycle. */
  lemma FirstPastHalf(i: int) returns (w: int)
    requires 0 < i < 0x20_0000
    ensures 0 < w < 0x20_0000
    ensures i * (w - 1) <= 0x10_0000 < i * w <= 0x20_0000
  {
    DivAtMost(0x10_0000, i);
    w := 0x10_0000 / i + 1;
    assert 0x10_0000 == i * (0x10_0000 / i) + 0x10_0000 % i;
    assert i * w == i * (w - 1) + i;
    if 0x10_0000 < i {
      QuotientIs(0x10_0000, i, 0);
    }
  }

  lemma ShortOfMultiple(c: int, i: int, w: int)
    requires c * i % 0x20_0000 == 1 && 0 < w < 0x20_0000
    ensures c * (0x20_0000 - i * w) % 0x20_0000 == 0x20_0000 - w
  {
    var n := c * i / 0x20_0000;
    assert c * i == 0x20_0000 * n + 1;
    assert c * (0x20_0000 - i * w) == 0x20_0000 * (c - n * w) - w by {
      assert c * (i * w) == (c * i) * w;
      assert (0x20_0000 * n + 1) * w == 0x20_0000 * (n * w) + w;
    }
    QuotientIs(c * (0x20_0000 - i * w), 0x20_0000, c - n * w - 1);
  }

  // -------------------------------------------------------------------------
  // Whole tables
  // -------------------------------------------------------------------------

  ghost predicate MonotoneFromZero(table: seq<q31>)
    requires 1 <= |table|
  {
    forall x: q31, x': q31 :: 0 <= x <= x' ==> LinearInterpQ31(table, x) <= LinearInterpQ31(table, x')
  }

  ghost predicate MonotoneEverywhere(table: seq<q31>)
    requires 1 <= |table|
  {
    forall x: q31, x': q31 :: x <= x' ==> LinearInterpQ31(table, x) <= LinearInterpQ31(table, x')
  }

  /** Segments a 12.20 input can reach. */
  predicate IsSegment(table: seq<q31>, i: int) {
    0 <= i < |table| - 1 && i < 0x800
  }

  /** The joins and the clamped end never break monotonicity: it is decided segment by
      segment. */
  lemma SegmentsDecide(table: seq<q31>)
    requires 1 <= |table| && Nondecreasing(table)
    ensures MonotoneFromZero(table)
       <==> forall i :: IsSegment(table, i) ==> Steady(table[i], table[i + 1])
  {
    hide LinearInterpQ31, SegmentQ31, Nondecreasing;
    if MonotoneFromZero(table) {
      forall i | IsSegment(table, i)
        ensures Steady(table[i], table[i + 1])
      {
        MonotoneIsSteady(table, i);
      }
    }
    if forall i :: IsSegment(table, i) ==> Steady(table[i], table[i + 1]) {
      forall x: q31, x': q31 | 0 <= x <= x'
        ensures LinearInterpQ31(table, x) <= LinearInterpQ31(table, x')
      {
        SteadySegmentsMonotone(table, x, x');
      }
    }
  }

  lemma MonotoneIsSteady(table: seq<q31>, i: int)
    requires IsSegment(table, i) && MonotoneFromZero(table)
    ensures Steady(table[i], table[i + 1])
  {
    hide LinearInterpQ31, SegmentQ31;
    forall f, f' | 0 <= f <= f' <= 0xF_FFFF
      ensures SegmentQ31(table[i], table[i + 1], f * 0x800) <= SegmentQ31(table[i], table[i + 1], f' * 0x800)
    {
      var x, x' := i * 0x10_0000 + f, i * 0x10_0000 + f';
      InSegment(table, i, f);
      InSegment(table, i, f');
      assert LinearInterpQ31(table, x) <= LinearInterpQ31(table, x');
    }
  }

  lemma InSegment(table: seq<q31>, i: int, f: int)
    requires IsSegment(table, i) && 0 <= f <= 0xF_FFFF
    ensures LinearInterpQ31(table, i * 0x10_0000 + f) == SegmentQ31(table[i], table[i + 1], f * 0x800)
  {
    hide SegmentQ31;
    QuotientIs(i * 0x10_0000 + f, 0x10_0000, i);
  }

  lemma SteadySegmentsMonotone(table: seq<q31>, x: q31, x': q31)
    requires 1 <= |table| && Nondecreasing(table) && 0 <= x <= x'
    requires forall i :: IsSegment(table, i) ==> Steady(table[i], table[i + 1])
    ensures LinearInterpQ31(table, x) <= LinearInterpQ31(table, x')
  {
    hide SegmentQ31, LinearInterpQ31, BehindQ31;
    var i, i', last := x / 0x10_0000, x' / 0x10_0000, |table| - 1;
    DivMonotone(x, x', 0x10_0000);
    if i >= last {
      AtEnd(table, x);
      AtEnd(table, x');
    } else if i' >= last {
      AtEnd(table, x');
      ResultNearBehind(table, x);
      BehindQ31Monotone(table, x, x');
      BelowClampedEnd(LinearInterpQ31(table, x), table[last]);
    } else {
      InSegment(table, i', x' % 0x10_0000);
      if i == i' {
        InSegment(table, i, x % 0x10_0000);
        assert Steady(table[i], table[i + 1]);
      } else {
        var start := i' * 0x10_0000;
        InSegment(table, i', 0);
        assert SegmentQ31(table[i'], table[i' + 1], 0 * 0x800)
            <= SegmentQ31(table[i'], table[i' + 1], x' % 0x10_0000 * 0x800) by {
          assert Steady(table[i'], table[i' + 1]);
        }
        BehindQ31Monotone(table, x, start);
        ResultNearBehind(table, x);
        StartOfSegment(table, i');
        BelowStart(LinearInterpQ31(table, x), table[i']);
      }
    }
  }

  lemma AtEnd(table: seq<q31>, x: q31)
    requires 1 <= |table| && |table| - 1 <= x / 0x10_0000
    ensures LinearInterpQ31(table, x) == table[|table| - 1]
    ensures var y: int := table[|table| - 1];
            BehindQ31(table, x) == y * 0x7FFF_FFFF
  {
  }

  /** At the start of a segment the result is the value behind it, rounded down once. */
  lemma StartOfSegment(table: seq<q31>, i: int)
    requires IsSegment(table, i)
    ensures var y: int := table[i];
            && BehindQ31(table, i * 0x10_0000) == y * 0x7FFF_FFFF
            && LinearInterpQ31(table, i * 0x10_0000) == 2 * (y * 0x7FFF_FFFF / 0x1_0000_0000)
  {
    hide SegmentQ31;
    QuotientIs(i * 0x10_0000, 0x10_0000, i);
    InSegment(table, i, 0);
    SegmentIsTwiceHalf(table[i], table[i + 1], 0);
    assert table[i + 1] * 0 == 0;
  }

  lemma BelowStart(r: int, y: int)
    requires r % 2 == 0 && r * 0x8000_0000 <= y * 0x7FFF_FFFF
    ensures r <= 2 * (y * 0x7FFF_FFFF / 0x1_0000_0000)
  {
  }

  lemma BelowClampedEnd(r: int, y: q31)
    requires r % 2 == 0 && r * 0x8000_0000 <= y * 0x7FFF_FFFF
    ensures r <= y
  {
  }

  /** What the entries of a steady segment satisfy: they span a multiple of 2^21, or are
      one reproducible entry, or lie in one block with every drop made good. */
  ghost predicate SteadyPair(y0: q31, y1: q31) {
    Spans(y0, y1) || if y0 == y1 then SteadyConstant(y0) else DropsMeetRises(y0, y1)
  }

  lemma SteadyPairExactly(y0: q31, y1: q31)
    requires y0 <= y1
    ensures Steady(y0, y1) <==> SteadyPair(y0, y1)
  {
    hide Steady, SteadyConstant, Drops, Rises;
    if Spans(y0, y1) {
      SpanningIsSteady(y0, y1);
    } else if y0 == y1 {
      FlatExactly(y0);
    } else {
      SteadyExactly(y0, y1);
    }
  }

  /** Over x >= 0, a nondecreasing table is interpolated monotonically exactly when each
      of its segments has such entries. */
  lemma MonotoneQ31Exactly(table: seq<q31>)
    requires 1 <= |table| && Nondecreasing(table)
    ensures MonotoneFromZero(table)
       <==> forall i :: IsSegment(table, i) ==> SteadyPair(table[i], table[i + 1])
  {
    hide Steady, MonotoneFromZero, SteadyPair;
    SegmentsDecide(table);
    forall i | IsSegment(table, i)
      ensures Steady(table[i], table[i + 1]) <==> SteadyPair(table[i], table[i + 1])
    {
      SteadyPairExactly(table[i], table[i + 1]);
    }
  }

  /** Tables whose neighbouring entries always have a multiple of 2^21 between them, or
      are multiples themselves, are interpolated monotonically: in particular rises of
      2^21 or more, and segments that cross or touch zero. */
  lemma MonotoneQ31(table: seq<q31>)
    requires 1 <= |table| && Nondecreasing(table)
    requires forall i :: IsSegment(table, i) ==> Spans(table[i], table[i + 1])
    ensures MonotoneFromZero(table)
  {
    MonotoneQ31Exactly(table);
  }

  /** A closed family inside one block: from a reproducible positive entry to any of its
      multiples. Whenever the falling product drops, its own double rises, and so does every
      multiple of that. */
  lemma MultiplesAreSteady(y0: q31, y1: q31, n: int)
    requires 0 < y0 && SteadyConstant(y0) && 1 <= n && y1 == n * y0
    ensures SteadyPair(y0, y1)
  {
    hide Steady, SteadyConstant, Drops, Rises;
    if n == 1 {
    } else if !Spans(y0, y1) {
      MulMonotone(2, n, y0);
      assert y0 < 0x20_0000 && y1 < 0x20_0000;
      FlatExactly(y0);
      SteadyExactly(y0, y0);
      forall f | 0 <= f < 0xF_FFFF && Drops(y0, f)
        ensures Rises(y1, f)
      {
        MultipleRises(y0, y1, n, f);
      }
    }
  }

  lemma MultipleRises(y0: int, y1: int, n: int, f: int)
    requires 0 < y0 <= y1 < 0x20_0000 && 1 <= n && y1 == n * y0 && Rises(y0, f)
    ensures Rises(y1, f)
  {
    var b := Second(y0, f);
    assert Second(y1, f) == n * b by {
      assert n * y0 * (f * 0x800) == n * (y0 * (f * 0x800));
    }
    var m := b / 0x1_0000_0000 + 1;
    // a multiple of 2^32 lies beyond b and within the next step
    assert b < m * 0x1_0000_0000 <= b + 0x800 * y0;
    MulMonotone(b + 1, m * 0x1_0000_0000, n);
    MulMonotone(m * 0x1_0000_0000, b + 0x800 * y0, n);
    assert (m * 0x1_0000_0000) * n == (n * m) * 0x1_0000_0000;
    MultipleWithin(n * b, 0x800 * y1, n * m);
  }

  lemma MultipleWithin(z: int, d: int, m: int)
    requires 0 <= d < 0x1_0000_0000 && z < m * 0x1_0000_0000 <= z + d
    ensures 0x1_0000_0000 - d <= z % 0x1_0000_0000
  {
    QuotientIs(z, 0x1_0000_0000, m - 1);
  }

  lemma SpansWidely(y0: int, y1: int)
    requires y0 + 0x20_0000 <= y1 || y0 <= 0 <= y1
    ensures Spans(y0, y1)
  {
  }

  /** Below zero the result is clamped to the first entry, which the segment from zero on
      reproduces exactly only if it is even and not positive. */
  lemma MonotoneEverywhereExactly(table: seq<q31>)
    requires 1 <= |table| && Nondecreasing(table)
    ensures MonotoneEverywhere(table)
       <==> MonotoneFromZero(table) && (|table| == 1 || (table[0] <= 0 && table[0] % 2 == 0))
  {
    hide LinearInterpQ31, Nondecreasing;
    BelowZero(table, -1);
    FirstEntry(table);
    if MonotoneFromZero(table) && (|table| == 1 || (table[0] <= 0 && table[0] % 2 == 0)) {
      forall x: q31, x': q31 | x <= x'
        ensures LinearInterpQ31(table, x) <= LinearInterpQ31(table, x')
      {
        if x < 0 {
          BelowZero(table, x);
          if x' < 0 {
            BelowZero(table, x');
          } else {
            assert LinearInterpQ31(table, 0) <= LinearInterpQ31(table, x');
          }
        }
      }
    } else if MonotoneFromZero(table) {
      assert LinearInterpQ31(table, -1) > LinearInterpQ31(table, 0);
    }
  }

  lemma BelowZero(table: seq<q31>, x: q31)
    requires 1 <= |table| && x < 0
    ensures LinearInterpQ31(table, x) == table[0]
  {
    OutsideTable([0], [0], table, x);
  }

  lemma FirstEntry(table: seq<q31>)
    requires 1 <= |table|
    ensures LinearInterpQ31(table, 0) <= table[0]
    ensures LinearInterpQ31(table, 0) == table[0] <==> |table| == 1 || (table[0] <= 0 && table[0] % 2 == 0)
  {
    if |table| == 1 {
      AtEnd(table, 0);
    } else {
      StartOfSegment(table, 0);
    }
  }
}
