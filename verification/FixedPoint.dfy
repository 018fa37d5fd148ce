/** C's fixed-width integers as bounded `int`s, with every cast that can wrap
    written out, and the saturating casts of arm_math.h. */
module FixedPoint {
  import opened Arith

  type q7 = x: int | -0x80 <= x < 0x80
  type q15 = x: int | -0x8000 <= x < 0x8000
  type q31 = x: int | -0x8000_0000 <= x < 0x8000_0000
  type q63 = x: int | -0x8000_0000_0000_0000 <= x < 0x8000_0000_0000_0000
  type u32 = x: int | 0 <= x < 0x1_0000_0000

  // Truncating casts: the value modulo the width, re-read as signed or unsigned.

  function ToU32(x: int): u32 {
    x % 0x1_0000_0000
  }

  function ToQ7(x: int): q7 {
    (x + 0x80) % 0x100 - 0x80
  }

  function ToQ15(x: int): q15 {
    (x + 0x8000) % 0x1_0000 - 0x8000
  }

  function ToQ31(x: int): q31 {
    (x + 0x8000_0000) % 0x1_0000_0000 - 0x8000_0000
  }

  function ToQ63(x: int): q63 {
    (x + 0x8000_0000_0000_0000) % 0x1_0000_0000_0000_0000 - 0x8000_0000_0000_0000
  }

  /** A cast keeps the value up to a multiple of the width; its type gives the range. */
  lemma CastsKeepResidues(x: int)
    ensures (ToU32(x) - x) % 0x1_0000_0000 == 0
    ensures (ToQ7(x) - x) % 0x100 == 0
    ensures (ToQ15(x) - x) % 0x1_0000 == 0
    ensures (ToQ31(x) - x) % 0x1_0000_0000 == 0
    ensures (ToQ63(x) - x) % 0x1_0000_0000_0000_0000 == 0
  {
    ResidueOf(x, 0x1_0000_0000, 0);
    ResidueOf(x, 0x100, 0x80);
    ResidueOf(x, 0x1_0000, 0x8000);
    ResidueOf(x, 0x1_0000_0000, 0x8000_0000);
    ResidueOf(x, 0x1_0000_0000_0000_0000, 0x8000_0000_0000_0000);
  }

  lemma ResidueOf(x: int, w: int, bias: int)
    requires 0 < w
    ensures ((x + bias) % w - bias - x) % w == 0
  {
    var q := (x + bias) / w;
    assert x + bias == w * q + (x + bias) % w;
    assert (x + bias) % w - bias - x == 0 + (-q) * w;
    QuotientIs((x + bias) % w - bias - x, w, -q);
  }

  lemma ToU32Id(x: int)
    ensures 0 <= x < 0x1_0000_0000 ==> ToU32(x) == x
  {
  }

  lemma ToQ15Id(x: int)
    ensures -0x8000 <= x < 0x8000 ==> ToQ15(x) == x
  {
  }

  lemma ToQ31Id(x: int)
    ensures -0x8000_0000 <= x < 0x8000_0000 ==> ToQ31(x) == x
  {
  }

  lemma ToQ31Wraps(x: int)
    ensures 0x8000_0000 <= x < 0x1_8000_0000 ==> ToQ31(x) == x - 0x1_0000_0000
    ensures -0x1_8000_0000 <= x < -0x8000_0000 ==> ToQ31(x) == x + 0x1_0000_0000
  {
  }

  /** The value a saturating cast is meant to deliver. */
  function Clamp(x: int, lo: int, hi: int): int {
    if x < lo then lo else if x > hi then hi else x
  }

  function ClampQ31(x: int): q31 {
    Clamp(x, -0x8000_0000, 0x7FFF_FFFF)
  }

  /** `m ^ s` for a sign mask `s`, which is 0 or -1. */
  function XorSign(m: int, s: int): int
    requires s == 0 || s == -1
  {
    if s == 0 then m else -1 - m
  }

  function ClipQ63ToQ31(x: q63): q31 {
    if ToQ31(x / 0x1_0000_0000) != ToQ31(x) / 0x8000_0000
    then XorSign(0x7FFF_FFFF, x / 0x8000_0000_0000_0000)
    else ToQ31(x)
  }

  function ClipQ63ToQ15(x: q63): q15 {
    if ToQ31(x / 0x1_0000_0000) != ToQ31(x) / 0x8000_0000
    then XorSign(0x7FFF, x / 0x8000_0000_0000_0000)
    else ToQ15(x / 0x8000)
  }

  function ClipQ31ToQ15(x: q31): q15 {
    if x / 0x1_0000 != x / 0x8000
    then XorSign(0x7FFF, x / 0x8000_0000)
    else ToQ15(x)
  }

  function ClipQ31ToQ7(x: q31): q7 {
    if x / 0x100_0000 != x / 0x80_0000
    then XorSign(0x7F, x / 0x8000_0000)
    else ToQ7(x)
  }

  /** Comparing the high word with the sign of the low word is an exact range test. */
  lemma HighWordTest(x: q63)
    ensures ToQ31(x / 0x1_0000_0000) == ToQ31(x) / 0x8000_0000
       <==> -0x8000_0000 <= x < 0x8000_0000
  {
    var hi, lo := x / 0x1_0000_0000, x % 0x1_0000_0000;
    assert x == 0x1_0000_0000 * hi + lo;
    assert -0x8000_0000 <= hi < 0x8000_0000;
    assert ToQ31(hi) == hi;
    if lo < 0x8000_0000 {
      assert ToQ31(x) == lo;
    } else {
      assert ToQ31(x) == lo - 0x1_0000_0000;
    }
  }

  lemma ClipQ63ToQ31Saturates(x: q63)
    ensures ClipQ63ToQ31(x) == ClampQ31(x)
  {
    HighWordTest(x);
  }

  lemma ClipQ31ToQ15Saturates(x: q31)
    ensures ClipQ31ToQ15(x) == Clamp(x, -0x8000, 0x7FFF)
  {
  }

  /** The Q63-to-Q15 clip takes bits 15 and up, yet guards only the Q31 range: on the
      half of that range whose shifted value needs 17 bits it wraps, sign included. */
  lemma ClipQ63ToQ15Exactly(x: q63)
    ensures ClipQ63ToQ15(x) == Clamp(x / 0x8000, -0x8000, 0x7FFF)
       <==> -0x4000_0000 <= x < 0x4000_0000 || x < -0x8000_0000 || 0x8000_0000 <= x
  {
    HighWordTest(x);
  }

  /** What it delivers there is off by a full turn. */
  lemma ClipQ63ToQ15Wraps(x: q63)
    ensures 0x4000_0000 <= x < 0x8000_0000 ==> ClipQ63ToQ15(x) == x / 0x8000 - 0x1_0000
    ensures -0x8000_0000 <= x < -0x4000_0000 ==> ClipQ63ToQ15(x) == x / 0x8000 + 0x1_0000
  {
    HighWordTest(x);
  }

  /** The Q31-to-Q7 clip compares shifts by 24 and 23, so it saturates only beyond 2^23
      and truncates everything below; outside Q7 the truncation is right only by accident. */
  lemma ClipQ31ToQ7Exactly(x: q31)
    ensures ClipQ31ToQ7(x) == Clamp(x, -0x80, 0x7F)
       <==> || -0x80 <= x < 0x80
            || x < -0x80_0000 || 0x80_0000 <= x
            || x % 0x100 == (if x < 0 then 0x80 else 0x7F)
  {
  }

  lemma ClipQ31ToQ7Truncates(x: q31)
    ensures -0x80_0000 <= x < 0x80_0000 ==> (ClipQ31ToQ7(x) - x) % 0x100 == 0
  {
    if -0x80_0000 <= x < 0x80_0000 {
      assert x / 0x100_0000 == x / 0x80_0000;
      CastsKeepResidues(x);
    }
  }

  lemma ClipQ31ToQ7CanFlipTheSign()
    ensures ClipQ31ToQ7(200) == -56 && Clamp(200, -0x80, 0x7F) == 127
  {
  }

  // -------------------------------------------------------------------------
  // Signed saturation to a chosen width
  // -------------------------------------------------------------------------

  function Ssat(val: q31, sat: u32): (r: q31)
  {
    if 1 <= sat <= 32 then
      Pow2Le31(sat - 1);
      var max := ToQ31(Pow2(sat - 1) - 1);
      var min := -1 - max;
      if val > max then max else if val < min then min else val
    else
      val
  }

  lemma {:induction false} Pow2Le31(k: nat)
    requires k <= 31
    ensures Pow2(k) <= 0x8000_0000
  {
    if k < 31 {
      Pow2Grows(k, 31);
    }
    Pow2Values();
  }

  /** The portable `__SSAT` is the clamp to `sat` signed bits for every width the
      instruction has, and the identity for every other argument. */
  lemma SsatIsClamp(val: q31, sat: u32)
    ensures 1 <= sat <= 32 ==> Ssat(val, sat) == Clamp(val, 0 - Pow2(sat - 1), Pow2(sat - 1) - 1)
    ensures !(1 <= sat <= 32) ==> Ssat(val, sat) == val
  {
    if 1 <= sat <= 32 {
      Pow2Le31(sat - 1);
    }
  }

  /** The three widths the library uses. */
  lemma Ssat16(val: q31)
    ensures Ssat(val, 16) == Clamp(val, -0x8000, 0x7FFF)
    ensures Ssat(val, 8) == Clamp(val, -0x80, 0x7F)
  {
    assert Pow2(15) == 0x8000 && Pow2(7) == 0x80;
    SsatIsClamp(val, 16);
    SsatIsClamp(val, 8);
  }

  // Saturating 32-bit addition and subtraction.

  function QAdd(x: q31, y: q31): q31 {
    ClipQ63ToQ31(x + y)
  }

  function QSub(x: q31, y: q31): q31 {
    ClipQ63ToQ31(x - y)
  }

  lemma QAddQSubSaturate(x: q31, y: q31)
    ensures QAdd(x, y) == ClampQ31(x + y)
    ensures QSub(x, y) == ClampQ31(x - y)
  {
    ClipQ63ToQ31Saturates(x + y);
    ClipQ63ToQ31Saturates(x - y);
  }

  // -------------------------------------------------------------------------
  // Q31 products: (q31_t) (((q63_t) a * b) >> 31)
  // -------------------------------------------------------------------------

  function MulQ31(a: q31, b: q31): q31 {
    ToQ31(a * b / 0x8000_0000)
  }

  lemma ProductBound(a: int, b: int, m: int, n: int)
    requires -m <= a <= m && -n <= b <= n
    ensures -(m * n) <= a * b <= m * n
  {
    if a >= 0 {
      MulMonotone(b, n, a);
      MulMonotone(-n, b, a);
      MulMonotone(a, m, n);
    } else {
      MulMonotone(b, n, -a);
      MulMonotone(-n, b, -a);
      MulMonotone(-a, m, n);
    }
  }

  /** The narrowing cast of a Q31 product loses nothing, except for (-1) * (-1), which it
      turns into -1. */
  lemma MulQ31Exactly(a: q31, b: q31)
    ensures MulQ31(a, b) == a * b / 0x8000_0000 <==> !(a == b == -0x8000_0000)
    ensures a == b == -0x8000_0000 ==> MulQ31(a, b) == -0x8000_0000
  {
    ProductBound(a, b, 0x8000_0000, 0x8000_0000);
    if a * b == 0x4000_0000_0000_0000 && a != -0x8000_0000 {
      ProductBound(a, b, 0x7FFF_FFFF, 0x8000_0000);
    } else if a * b == 0x4000_0000_0000_0000 && b != -0x8000_0000 {
      ProductBound(a, b, 0x8000_0000, 0x7FFF_FFFF);
    }
  }
}
