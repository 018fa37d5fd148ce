/** The portable bodies of the packed-lane intrinsics. A shift left then right inside a
    32-bit int re-reads a lane with its sign; results are masked and or-ed back together,
    which on disjoint fields is addition. */
module Simd {
  import opened Arith
  import opened FixedPoint

  // -------------------------------------------------------------------------
  // Lanes
  // -------------------------------------------------------------------------

  /** `((q31_t)x << 16) >> 16` and `((q31_t)x) >> 16`. */
  function Lo(x: u32): int {
    ToQ31(ToQ31(x) * 0x1_0000) / 0x1_0000
  }

  function Hi(x: u32): int {
    ToQ31(x) / 0x1_0000
  }

  /** `((q31_t)x << (24 - 8 * k)) >> 24`. */
  function Byte(x: u32, k: nat): int
    requires k < 4
  {
    ToQ31(ToQ31(x) * [0x100_0000, 0x1_0000, 0x100, 1][k]) / 0x100_0000
  }

  /** `(s & 0xFFFF) << 16 | (r & 0xFFFF)`. */
  function Join(s: int, r: int): u32 {
    s % 0x1_0000 * 0x1_0000 + r % 0x1_0000
  }

  function Join4(u: int, t: int, s: int, r: int): u32 {
    u % 0x100 * 0x100_0000 + t % 0x100 * 0x1_0000 + s % 0x100 * 0x100 + r % 0x100
  }

  /** Lanes are the two halves of the word, read as signed. */
  lemma LanesAreHalves(x: u32)
    ensures Lo(x) == ToQ15(x % 0x1_0000)
    ensures Hi(x) == ToQ15(x / 0x1_0000)
    ensures x == Join(Hi(x), Lo(x))
  {
    var h, l := x / 0x1_0000, x % 0x1_0000;
    assert x == h * 0x1_0000 + l;
    var sx := if x < 0x8000_0000 then 0 else 1;
    SignedWord(x);
    QuotientIs(ToQ31(x), 0x1_0000, h - sx * 0x1_0000);
    HalfWord(h);
    var sl := if l < 0x8000 then 0 else 1;
    ShiftOutHigh(h, l, sx, sl);
    HalfWord(l);
    QuotientIs(ToQ15(l) * 0x1_0000, 0x1_0000, ToQ15(l));
  }

  lemma SignedWord(x: u32)
    ensures ToQ31(x) == if x < 0x8000_0000 then x else x - 0x1_0000_0000
  {
  }

  lemma HalfWord(h: int)
    requires 0 <= h < 0x1_0000
    ensures ToQ15(h) == if h < 0x8000 then h else h - 0x1_0000
    ensures ToQ15(h) % 0x1_0000 == h
  {
  }

  lemma ShiftOutHigh(h: int, l: int, sx: int, sl: int)
    requires 0 <= l < 0x1_0000 && sl == if l < 0x8000 then 0 else 1
    ensures ToQ31((h * 0x1_0000 + l - sx * 0x1_0000_0000) * 0x1_0000) == (l - sl * 0x1_0000) * 0x1_0000
  {
    var z := (h * 0x1_0000 + l - sx * 0x1_0000_0000) * 0x1_0000;
    var k := h - sx * 0x1_0000 + sl;
    assert z == k * 0x1_0000_0000 + (l - sl * 0x1_0000) * 0x1_0000;
    QuotientIs(z + 0x8000_0000, 0x1_0000_0000, k);
  }

  lemma ToQ15OfLowBits(s: int)
    ensures ToQ15(s % 0x1_0000) == ToQ15(s)
  {
    ModAddMultiple(s % 0x1_0000 + 0x8000, s / 0x1_0000, 0x1_0000);
    assert s == s % 0x1_0000 + s / 0x1_0000 * 0x1_0000;
  }

  /** What is packed into a lane comes out of it, and nothing of the other lane does. */
  lemma JoinSplits(s: int, r: int)
    ensures Lo(Join(s, r)) == ToQ15(r) && Hi(Join(s, r)) == ToQ15(s)
  {
    LanesAreHalves(Join(s, r));
    QuotientIs(Join(s, r), 0x1_0000, s % 0x1_0000);
    ToQ15OfLowBits(s);
    ToQ15OfLowBits(r);
  }

  /** A 16-bit value cast to a word carries its sign through the upper lane. */
  lemma SignExtendedLanes(a: q15)
    ensures Lo(ToU32(a)) == a && Hi(ToU32(a)) == if a < 0 then -1 else 0
  {
    hide Lo, Hi;
    LanesAreHalves(ToU32(a));
    SignExtendedHalves(a);
  }

  lemma SignExtendedHalves(a: q15)
    ensures ToQ15(ToU32(a) % 0x1_0000) == a
    ensures ToQ15(ToU32(a) / 0x1_0000) == if a < 0 then -1 else 0
  {
    if a < 0 {
      QuotientIs(a, 0x1_0000_0000, -1);
      QuotientIs(a + 0x1_0000_0000, 0x1_0000, 0xFFFF);
    } else {
      QuotientIs(a, 0x1_0000_0000, 0);
      QuotientIs(a, 0x1_0000, 0);
    }
  }

  // -------------------------------------------------------------------------
  // Two 16-bit lanes
  // -------------------------------------------------------------------------

  function QAdd16(x: u32, y: u32): u32 { Join(Sat16(Hi(x) + Hi(y)), Sat16(Lo(x) + Lo(y))) }
  function QSub16(x: u32, y: u32): u32 { Join(Sat16(Hi(x) - Hi(y)), Sat16(Lo(x) - Lo(y))) }
  function SHAdd16(x: u32, y: u32): u32 { Join((Hi(x) + Hi(y)) / 2, (Lo(x) + Lo(y)) / 2) }
  function SHSub16(x: u32, y: u32): u32 { Join((Hi(x) - Hi(y)) / 2, (Lo(x) - Lo(y)) / 2) }
  function QAsx(x: u32, y: u32): u32 { Join(Sat16(Hi(x) + Lo(y)), Sat16(Lo(x) - Hi(y))) }
  function QSax(x: u32, y: u32): u32 { Join(Sat16(Hi(x) - Lo(y)), Sat16(Lo(x) + Hi(y))) }
  function SHAsx(x: u32, y: u32): u32 { Join((Hi(x) + Lo(y)) / 2, (Lo(x) - Hi(y)) / 2) }
  function SHSax(x: u32, y: u32): u32 { Join((Hi(x) - Lo(y)) / 2, (Lo(x) + Hi(y)) / 2) }

  /** `__SSAT(x, 16)` of an int sum. */
  function Sat16(x: int): q31 {
    Ssat(ToQ31(x), 16)
  }

  lemma LaneRange(x: u32)
    ensures -0x8000 <= Lo(x) < 0x8000 && -0x8000 <= Hi(x) < 0x8000
  {
    LanesAreHalves(x);
  }

  lemma Sat16IsClamp(x: int)
    requires -0x2_0000 <= x <= 0x2_0000
    ensures Sat16(x) == Clamp(x, -0x8000, 0x7FFF)
    ensures ToQ15(Sat16(x)) == Sat16(x)
  {
    ToQ31Id(x);
    Ssat16(x);
    ToQ15Id(Sat16(x));
  }

  /** Saturating forms: each lane is the clamped sum or difference of its own lanes. */
  lemma SaturatingLanes(x: u32, y: u32)
    ensures Lo(QAdd16(x, y)) == Clamp(Lo(x) + Lo(y), -0x8000, 0x7FFF)
    ensures Hi(QAdd16(x, y)) == Clamp(Hi(x) + Hi(y), -0x8000, 0x7FFF)
    ensures Lo(QSub16(x, y)) == Clamp(Lo(x) - Lo(y), -0x8000, 0x7FFF)
    ensures Hi(QSub16(x, y)) == Clamp(Hi(x) - Hi(y), -0x8000, 0x7FFF)
  {
    LaneRange(x);
    LaneRange(y);
    Sat16IsClamp(Lo(x) + Lo(y));
    Sat16IsClamp(Hi(x) + Hi(y));
    Sat16IsClamp(Lo(x) - Lo(y));
    Sat16IsClamp(Hi(x) - Hi(y));
    JoinSplits(Sat16(Hi(x) + Hi(y)), Sat16(Lo(x) + Lo(y)));
    JoinSplits(Sat16(Hi(x) - Hi(y)), Sat16(Lo(x) - Lo(y)));
  }

  /** Halving forms: the sum is one bit wider than a lane, its half never is. */
  lemma HalvingLanes(x: u32, y: u32)
    ensures Lo(SHAdd16(x, y)) == (Lo(x) + Lo(y)) / 2 && Hi(SHAdd16(x, y)) == (Hi(x) + Hi(y)) / 2
    ensures Lo(SHSub16(x, y)) == (Lo(x) - Lo(y)) / 2 && Hi(SHSub16(x, y)) == (Hi(x) - Hi(y)) / 2
  {
    LaneRange(x);
    LaneRange(y);
    JoinSplits((Hi(x) + Hi(y)) / 2, (Lo(x) + Lo(y)) / 2);
    JoinSplits((Hi(x) - Hi(y)) / 2, (Lo(x) - Lo(y)) / 2);
    ToQ15Id((Lo(x) + Lo(y)) / 2);
    ToQ15Id((Hi(x) + Hi(y)) / 2);
    ToQ15Id((Lo(x) - Lo(y)) / 2);
    ToQ15Id((Hi(x) - Hi(y)) / 2);
  }

  /** `__ROR(y, 16)`. */
  function Ror16(y: u32): u32 {
    y / 0x1_0000 + y % 0x1_0000 * 0x1_0000
  }

  lemma RotationSwapsLanes(y: u32)
    ensures Lo(Ror16(y)) == Hi(y) && Hi(Ror16(y)) == Lo(y)
  {
    LanesAreHalves(y);
    JoinSplits(y % 0x1_0000, y / 0x1_0000);
    RotationIsJoin(y);
  }

  lemma RotationIsJoin(y: u32)
    ensures Ror16(y) == Join(y % 0x1_0000, y / 0x1_0000)
  {
    QuotientIs(y / 0x1_0000, 0x1_0000, 0);
    QuotientIs(y % 0x1_0000, 0x1_0000, 0);
  }

  /** The exchanging saturating forms pair each lane with the opposite one of `y`. */
  lemma ExchangingSaturatingLanes(x: u32, y: u32)
    ensures Lo(QAsx(x, y)) == Clamp(Lo(x) - Hi(y), -0x8000, 0x7FFF)
    ensures Hi(QAsx(x, y)) == Clamp(Hi(x) + Lo(y), -0x8000, 0x7FFF)
    ensures Lo(QSax(x, y)) == Clamp(Lo(x) + Hi(y), -0x8000, 0x7FFF)
    ensures Hi(QSax(x, y)) == Clamp(Hi(x) - Lo(y), -0x8000, 0x7FFF)
  {
    LaneRange(x);
    LaneRange(y);
    Sat16IsClamp(Hi(x) + Lo(y));
    Sat16IsClamp(Hi(x) - Lo(y));
    Sat16IsClamp(Lo(x) + Hi(y));
    Sat16IsClamp(Lo(x) - Hi(y));
    JoinSplits(Sat16(Hi(x) + Lo(y)), Sat16(Lo(x) - Hi(y)));
    JoinSplits(Sat16(Hi(x) - Lo(y)), Sat16(Lo(x) + Hi(y)));
  }

  lemma ExchangingHalvingLanes(x: u32, y: u32)
    ensures Lo(SHAsx(x, y)) == (Lo(x) - Hi(y)) / 2 && Hi(SHAsx(x, y)) == (Hi(x) + Lo(y)) / 2
    ensures Lo(SHSax(x, y)) == (Lo(x) + Hi(y)) / 2 && Hi(SHSax(x, y)) == (Hi(x) - Lo(y)) / 2
  {
    LaneRange(x);
    LaneRange(y);
    JoinSplits((Hi(x) + Lo(y)) / 2, (Lo(x) - Hi(y)) / 2);
    JoinSplits((Hi(x) - Lo(y)) / 2, (Lo(x) + Hi(y)) / 2);
    ToQ15Id((Lo(x) - Hi(y)) / 2);
    ToQ15Id((Hi(x) + Lo(y)) / 2);
    ToQ15Id((Lo(x) + Hi(y)) / 2);
    ToQ15Id((Hi(x) - Lo(y)) / 2);
  }

  // -------------------------------------------------------------------------
  // Products of lanes
  // -------------------------------------------------------------------------

  /** Sum and difference of two lane products. */
  function DualAdd(a: int, b: int, c: int, d: int): int {
    a * c + b * d
  }

  function DualSub(a: int, b: int, c: int, d: int): int {
    a * c - b * d
  }

  function Smuad(x: u32, y: u32): u32 { ToU32(DualAdd(Lo(x), Hi(x), Lo(y), Hi(y))) }
  function Smuadx(x: u32, y: u32): u32 { ToU32(DualAdd(Lo(x), Hi(x), Hi(y), Lo(y))) }
  function Smusd(x: u32, y: u32): u32 { ToU32(DualSub(Lo(x), Hi(x), Lo(y), Hi(y))) }
  function Smusdx(x: u32, y: u32): u32 { ToU32(DualSub(Lo(x), Hi(x), Hi(y), Lo(y))) }

  function Smlad(x: u32, y: u32, sum: u32): u32 {
    ToU32(DualAdd(Lo(x), Hi(x), Lo(y), Hi(y)) + ToQ31(sum))
  }

  function Smladx(x: u32, y: u32, sum: u32): u32 {
    ToU32(DualAdd(Lo(x), Hi(x), Hi(y), Lo(y)) + ToQ31(sum))
  }

  function Smlsdx(x: u32, y: u32, sum: u32): u32 {
    ToU32(DualSub(Lo(x), Hi(x), Hi(y), Lo(y)) + ToQ31(sum))
  }

  /** The two products are added in a 32-bit int before the 64-bit sum joins them. */
  function Smlald(x: u32, y: u32, sum: q63): q63 {
    ToQ63(ToQ31(DualAdd(Lo(x), Hi(x), Lo(y), Hi(y))) + sum)
  }

  function Smlaldx(x: u32, y: u32, sum: q63): q63 {
    ToQ63(ToQ31(DualAdd(Lo(x), Hi(x), Hi(y), Lo(y))) + sum)
  }

  /** The plain forms multiply low by low and high by high, add or subtract in that order, and
      accumulate, all modulo 2^32. */
  lemma PlainProducts(x: u32, y: u32, sum: u32)
    ensures (Smuad(x, y) - (Lo(x) * Lo(y) + Hi(x) * Hi(y))) % 0x1_0000_0000 == 0
    ensures (Smusd(x, y) - (Lo(x) * Lo(y) - Hi(x) * Hi(y))) % 0x1_0000_0000 == 0
    ensures (Smlad(x, y, sum) - (Lo(x) * Lo(y) + Hi(x) * Hi(y) + sum)) % 0x1_0000_0000 == 0
  {
    hide Lo, Hi, ToU32, ToQ31;
    var p := Lo(x) * Lo(y) + Hi(x) * Hi(y);
    CastsKeepResidues(p);
    CastsKeepResidues(Lo(x) * Lo(y) - Hi(x) * Hi(y));
    SumAsWord(p, sum);
  }

  lemma SumAsWord(p: int, sum: u32)
    ensures (ToU32(p + ToQ31(sum)) - (p + sum)) % 0x1_0000_0000 == 0
  {
    hide ToU32, ToQ31;
    AddAsWords(p, sum);
    CastsKeepResidues(p);
    CastsKeepResidues(ToU32(p) + sum);
    ResidueSum(ToU32(ToU32(p) + sum), ToU32(p), p, sum);
  }

  /** The 64-bit accumulation adds the two products in 32 bits first, which only the four most
      negative lanes together can overflow. */
  lemma PlainLongProduct(x: u32, y: u32, sum: q63)
    ensures Smlald(x, y, sum)
         == ToQ63(Lo(x) * Lo(y) + Hi(x) * Hi(y) + sum
                  - if Lo(x) == Hi(x) == Lo(y) == Hi(y) == -0x8000 then 0x1_0000_0000 else 0)
  {
    hide Lo, Hi, ToQ31, ToQ63;
    LaneRange(x);
    LaneRange(y);
    var p := Lo(x) * Lo(y) + Hi(x) * Hi(y);
    if Lo(x) == Hi(x) == Lo(y) == Hi(y) == -0x8000 {
      ToQ31Wraps(p);
    } else {
      DualSumFits(Lo(x), Hi(x), Lo(y), Hi(y));
      ToQ31Id(p);
    }
  }

  lemma ResidueSum(r: int, q: int, p: int, sum: int)
    requires (r - (q + sum)) % 0x1_0000_0000 == 0 && (q - p) % 0x1_0000_0000 == 0
    ensures (r - (p + sum)) % 0x1_0000_0000 == 0
  {
  }

  lemma DualSumFits(a: int, b: int, c: int, d: int)
    requires -0x8000 <= a < 0x8000 && -0x8000 <= b < 0x8000 && -0x8000 <= c < 0x8000 && -0x8000 <= d < 0x8000
    requires !(a == b == c == d == -0x8000)
    ensures -0x8000_0000 <= a * c + b * d < 0x8000_0000
  {
    ProductBound(a, c, 0x8000, 0x8000);
    ProductBound(b, d, 0x8000, 0x8000);
    if !(a == c == -0x8000) {
      BelowTop(a, c);
    }
    if !(b == d == -0x8000) {
      BelowTop(b, d);
    }
  }

  lemma BelowTop(a: int, c: int)
    requires -0x8000 <= a < 0x8000 && -0x8000 <= c < 0x8000 && !(a == c == -0x8000)
    ensures a * c < 0x4000_0000
  {
    if a != -0x8000 {
      ProductBound(a, c, 0x7FFF, 0x8000);
    } else {
      ProductBound(a, c, 0x8000, 0x7FFF);
    }
  }

  /** Every exchanging product is its plain form with the second operand rotated by 16. The
      accumulating difference has no plain form of its own; it is the plain difference and
      the sum, added as words. */
  lemma ExchangeProducts(x: u32, y: u32, sum: u32, sum64: q63)
    ensures Smuadx(x, y) == Smuad(x, Ror16(y))
    ensures Smusdx(x, y) == Smusd(x, Ror16(y))
    ensures Smladx(x, y, sum) == Smlad(x, Ror16(y), sum)
    ensures Smlaldx(x, y, sum64) == Smlald(x, Ror16(y), sum64)
    ensures Smlsdx(x, y, sum) == ToU32(Smusd(x, Ror16(y)) + sum)
  {
    hide Lo, Hi, Ror16, DualAdd, DualSub, ToU32, ToQ31, ToQ63;
    RotationSwapsLanes(y);
    AddAsWords(DualSub(Lo(x), Hi(x), Hi(y), Lo(y)), sum);
  }

  lemma AddAsWords(p: int, sum: u32)
    ensures ToU32(p + ToQ31(sum)) == ToU32(ToU32(p) + sum)
  {
    SignedWord(sum);
    var k := p / 0x1_0000_0000;
    ModAddMultiple(ToU32(p) + sum, k, 0x1_0000_0000);
    ModAddMultiple(ToU32(p) + sum, k - 1, 0x1_0000_0000);
  }

  // -------------------------------------------------------------------------
  // Four 8-bit lanes
  // -------------------------------------------------------------------------

  function Sat8(x: int): q31 {
    Ssat(ToQ31(x), 8)
  }

  function QAdd8(x: u32, y: u32): u32 {
    Join4(Sat8(Byte(x, 3) + Byte(y, 3)), Sat8(Byte(x, 2) + Byte(y, 2)),
          Sat8(Byte(x, 1) + Byte(y, 1)), Sat8(Byte(x, 0) + Byte(y, 0)))
  }

  function QSub8(x: u32, y: u32): u32 {
    Join4(Sat8(Byte(x, 3) - Byte(y, 3)), Sat8(Byte(x, 2) - Byte(y, 2)),
          Sat8(Byte(x, 1) - Byte(y, 1)), Sat8(Byte(x, 0) - Byte(y, 0)))
  }

  /** A byte lane: the shift left drops what is above it and the shift right what is below. */
  lemma ByteLane(above: int, b: int, below: int, w: int, up: int)
    requires 0 < w && w * up == 0x100_0000
    requires 0 <= b < 0x100 && 0 <= below < w
    ensures ToQ31((above * 0x100 * w + b * w + below) * up) / 0x100_0000 == ToQ7(b)
  {
    var z := (above * 0x100 * w + b * w + below) * up;
    if up <= 0 {
      MulMonotone(up, 0, w);
    }
    assert z == above * 0x1_0000_0000 + b * 0x100_0000 + below * up by {
      assert (above * 0x100 * w) * up == above * 0x100 * (w * up);
      assert (b * w) * up == b * (w * up);
    }
    var rest := below * up;
    assert 0 <= rest < 0x100_0000 by {
      MulMonotone(0, below, up);
      MulMonotone(below, w - 1, up);
      assert (w - 1) * up == w * up - up;
    }
    var sb := if b < 0x80 then 0 else 1;
    QuotientIs(z + 0x8000_0000, 0x1_0000_0000, above + sb);
    assert ToQ31(z) == (b - sb * 0x100) * 0x100_0000 + rest;
    QuotientIs(ToQ31(z), 0x100_0000, b - sb * 0x100);
  }

  lemma BytesOfJoin4(u: int, t: int, s: int, r: int)
    ensures var x := Join4(u, t, s, r);
            Byte(x, 0) == ToQ7(r) && Byte(x, 1) == ToQ7(s) && Byte(x, 2) == ToQ7(t) && Byte(x, 3) == ToQ7(u)
  {
    hide ToQ31, ToQ7;
    var u', t', s', r' := u % 0x100, t % 0x100, s % 0x100, r % 0x100;
    var x := Join4(u, t, s, r);
    // the signed word differs from the unsigned one by a multiple of 2^32
    var sx := if x < 0x8000_0000 then 0 else 1;
    SignedWord(x);
    var top := u' - sx * 0x100;
    ByteLane(top * 0x1_0000 + t' * 0x100 + s', r', 0, 1, 0x100_0000);
    ByteLane(top * 0x100 + t', s', r', 0x100, 0x1_0000);
    ByteLane(top, t', s' * 0x100 + r', 0x1_0000, 0x100);
    ByteLane(-sx, u', t' * 0x1_0000 + s' * 0x100 + r', 0x100_0000, 1);
    ToQ7OfLowBits(r);
    ToQ7OfLowBits(s);
    ToQ7OfLowBits(t);
    ToQ7OfLowBits(u);
  }

  lemma ToQ7OfLowBits(s: int)
    ensures ToQ7(s % 0x100) == ToQ7(s)
  {
    ModAddMultiple(s % 0x100 + 0x80, s / 0x100, 0x100);
    assert s == s % 0x100 + s / 0x100 * 0x100;
  }

  /** Every word is four bytes. */
  lemma WordIsBytes(x: u32)
    ensures exists u, t, s, r :: x == Join4(u, t, s, r)
  {
    JoinOfDigits(x);
  }

  /** Byte `k` is bits 8k to 8k+7, read as signed. */
  lemma BytesAreDigits(x: u32)
    ensures Byte(x, 0) == ToQ7(x % 0x100) && Byte(x, 1) == ToQ7(x / 0x100 % 0x100)
    ensures Byte(x, 2) == ToQ7(x / 0x1_0000 % 0x100) && Byte(x, 3) == ToQ7(x / 0x100_0000)
  {
    hide Byte, ToQ7, Join4;
    var a, b := x / 0x1_0000, x % 0x1_0000;
    JoinOfDigits(x);
    BytesOfJoin4(a / 0x100, a % 0x100, b / 0x100, b % 0x100);
    DivDiv(x, 0x1_0000, 0x100);
    QuotientIs(x, 0x100, a * 0x100 + b / 0x100);
    QuotientIs(a * 0x100 + b / 0x100, 0x100, a);
  }

  lemma JoinOfDigits(x: u32)
    ensures var a, b := x / 0x1_0000, x % 0x1_0000;
            x == Join4(a / 0x100, a % 0x100, b / 0x100, b % 0x100)
  {
    var a, b := x / 0x1_0000, x % 0x1_0000;
    QuotientIs(a / 0x100, 0x100, 0);
    QuotientIs(a % 0x100, 0x100, 0);
    QuotientIs(b / 0x100, 0x100, 0);
    QuotientIs(b % 0x100, 0x100, 0);
    assert a == 0x100 * (a / 0x100) + a % 0x100 && b == 0x100 * (b / 0x100) + b % 0x100;
    assert x == 0x1_0000 * a + b;
  }

  lemma ByteRange(x: u32, k: nat)
    requires k < 4
    ensures -0x80 <= Byte(x, k) < 0x80
  {
    hide Byte, Join4;
    WordIsBytes(x);
    var u, t, s, r :| x == Join4(u, t, s, r);
    BytesOfJoin4(u, t, s, r);
    assert k == 0 || k == 1 || k == 2 || k == 3;
  }

  lemma Sat8IsClamp(x: int)
    requires -0x200 <= x <= 0x200
    ensures ToQ7(Sat8(x)) == Clamp(x, -0x80, 0x7F)
  {
    ToQ31Id(x);
    Ssat16(x);
  }

  /** All four lanes saturate on their own. */
  lemma ByteLanes(x: u32, y: u32, k: nat)
    requires k < 4
    ensures Byte(QAdd8(x, y), k) == Clamp(Byte(x, k) + Byte(y, k), -0x80, 0x7F)
    ensures Byte(QSub8(x, y), k) == Clamp(Byte(x, k) - Byte(y, k), -0x80, 0x7F)
  {
    hide Byte, Join4, Sat8;
    ByteRange(x, k);
    ByteRange(y, k);
    Sat8IsClamp(Byte(x, k) + Byte(y, k));
    Sat8IsClamp(Byte(x, k) - Byte(y, k));
    BytesOfJoin4(Sat8(Byte(x, 3) + Byte(y, 3)), Sat8(Byte(x, 2) + Byte(y, 2)),
                 Sat8(Byte(x, 1) + Byte(y, 1)), Sat8(Byte(x, 0) + Byte(y, 0)));
    BytesOfJoin4(Sat8(Byte(x, 3) - Byte(y, 3)), Sat8(Byte(x, 2) - Byte(y, 2)),
                 Sat8(Byte(x, 1) - Byte(y, 1)), Sat8(Byte(x, 0) - Byte(y, 0)));
    assert k == 0 || k == 1 || k == 2 || k == 3;
  }
}
