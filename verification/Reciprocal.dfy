/** The Newton-Raphson reciprocals arm_recip_q31 and arm_recip_q15. */
module Reciprocal {
  import opened Arith
  import opened FixedPoint
  import opened CountLeadingZeros

  // -------------------------------------------------------------------------
  // One pass, in exact arithmetic, at both widths: h is half the scale, so
  // h == 2^30 is Q31 and h == 2^14 is Q15.
  // -------------------------------------------------------------------------

  function NewtonPass(h: int, a: int, y: int): int
    requires 0 < h
  {
    y * (2 * h - 1 - a * y / (2 * h)) / h
  }

  /** Distance of `a * y` from the exact reciprocal's product. */
  function Defect(h: int, a: int, y: int): int {
    2 * h * h - a * y
  }

  /** One pass squares the defect, up to the two truncations, and never lands on or
      beyond the exact reciprocal. */
  lemma NewtonContraction(h: int, a: int, y: int)
    requires 0 < h && 0 < a && 0 < y
    ensures var r := 2 * h * h;
            var e, e' := Defect(h, a, y), Defect(h, a, NewtonPass(h, a, y));
            e * e < e' * r < e * e + 2 * h * (a * y) + a * r
  {
    var p := a * y;
    var r := 2 * h * h;
    var t := p / (2 * h);
    var s := 2 * h - 1 - t;
    var q := y * s / h;
    ScaleQuotient(h, a, y, s);
    ScaleRemainder(h, p);
    assert Defect(h, a, q) * r == r * r - r * (a * q);
    assert (r - p) * (r - p) == r * r - p * (2 * r - p);
    assert p * (2 * r - 2 * h - p) == p * (2 * r - p) - 2 * h * p;
  }

  /** The bracket of the output shift, scaled to the size of the squared product. */
  lemma ScaleQuotient(h: int, a: int, y: int, s: int)
    requires 0 < h && 0 < a
    ensures var r := 2 * h * h;
            (a * y) * (2 * h * s) - a * r < r * (a * (y * s / h)) <= (a * y) * (2 * h * s)
  {
    var z := y * s;
    var q := z / h;
    var g := 2 * h * a;
    assert z == h * q + z % h;
    MulMonotone(h * q, z, g);
    MulMonotone(z, h * q + h - 1, g);
    assert (h * q + h - 1) * g == (h * q) * g + h * g - g;
    assert h * g == a * (2 * h * h);
    assert z * g == (a * y) * (2 * h * s) by {
      Regroup(h, a, y, s);
    }
    assert (h * q) * g == (2 * h * h) * (a * q) by {
      Rearrange(h, a, q);
    }
  }

  lemma Rearrange(h: int, a: int, q: int)
    ensures (h * q) * (2 * h * a) == (2 * h * h) * (a * q)
  {
    var k := h * q;
    assert k * (2 * h * a) == (2 * h) * (k * a);
    assert k * a == h * (a * q);
    assert (2 * h) * (h * (a * q)) == (2 * h * h) * (a * q);
  }

  lemma Regroup(h: int, a: int, y: int, s: int)
    ensures (y * s) * (2 * h * a) == (a * y) * (2 * h * s)
  {
    var k := y * s;
    assert k * (2 * h * a) == (2 * h) * (k * a);
    assert k * a == (a * y) * s;
    assert (2 * h) * ((a * y) * s) == (a * y) * (2 * h * s);
  }

  /** The bracket of the inner shift, multiplied by the product it came from. */
  lemma ScaleRemainder(h: int, p: int)
    requires 0 < h && 0 < p
    ensures var r := 2 * h * h;
            var u := 2 * h * (2 * h - 1 - p / (2 * h));
            p * (2 * r - 2 * h - p) <= p * u < p * (2 * r - p)
  {
    var r := 2 * h * h;
    var t := p / (2 * h);
    var u := 2 * h * (2 * h - 1 - t);
    assert p == 2 * h * t + p % (2 * h);
    assert u == 2 * r - 2 * h - 2 * h * t;
    MulMonotone(2 * r - 2 * h - p, u, p);
    MulMonotone(u, 2 * r - p - 1, p);
    assert (2 * r - p - 1) * p == p * (2 * r - p) - p;
  }

  /** From any positive estimate below full scale, one pass stays positive, stays below
      the exact reciprocal, and so stays below full scale. */
  lemma PassStaysInRange(h: int, a: int, y: int)
    requires 1 <= h && h <= a < 2 * h && 0 < y < 2 * h
    ensures 0 < NewtonPass(h, a, y) < 2 * h
    ensures 0 < Defect(h, a, NewtonPass(h, a, y))
    ensures 0 <= a * y / (2 * h) < y
  {
    InnerShiftRange(h, a, y);
    PassIsPositive(h, y, a * y / (2 * h));
    NewtonContraction(h, a, y);
    DefectIsPositive(h, Defect(h, a, y), Defect(h, a, NewtonPass(h, a, y)));
    BelowFullScale(h, a, NewtonPass(h, a, y));
  }

  lemma InnerShiftRange(h: int, a: int, y: int)
    requires 0 < a < 2 * h && 0 < y
    ensures 0 <= a * y / (2 * h) < y
  {
    var t := a * y / (2 * h);
    assert a * y == (2 * h) * t + (a * y) % (2 * h);
    MulMonotone(a, 2 * h - 1, y);
    MulMonotone(0, a, y);
    assert (2 * h - 1) * y == (2 * h) * y - y;
    if t >= y {
      MulMonotone(y, t, 2 * h);
    }
    if t < 0 {
      MulMonotone(t, -1, 2 * h);
    }
  }

  lemma PassIsPositive(h: int, y: int, t: int)
    requires 1 <= h && 0 < y < 2 * h && t < y
    ensures 0 < y * (2 * h - 1 - t) / h
  {
    var s := 2 * h - 1 - t;
    MulMonotone(2 * h - y, s, y);
    // y * (2*h - y) is smallest at the ends of its range
    assert (2 * h - y) * y == 2 * h - 1 + (y - 1) * (2 * h - 1 - y);
    MulMonotone(0, y - 1, 2 * h - 1 - y);
    DivMonotone(h, y * s, h);
    QuotientIs(h, h, 1);
  }

  lemma DefectIsPositive(h: int, d: int, d': int)
    requires 1 <= h && d * d < d' * (2 * h * h)
    ensures 0 < d'
  {
    assert 0 <= d * d;
    assert 0 < h * h;
    if d' <= 0 {
      MulMonotone(d', 0, 2 * h * h);
    }
  }

  lemma BelowFullScale(h: int, a: int, q: int)
    requires 1 <= h <= a && 0 < Defect(h, a, q)
    ensures q < 2 * h
  {
    if q >= 2 * h {
      MulMonotone(2 * h, q, a);
      MulMonotone(h, a, 2 * h);
    }
  }

  // -------------------------------------------------------------------------
  // The passes as the code computes them, casts and clips included
  // -------------------------------------------------------------------------

  /** One trip of the loop in arm_recip_q31. */
  function LoopBodyQ31(a: q31, out: q31): q31 {
    var shifted := ToU32(a * out / 0x8000_0000);
    var tempVal := ToU32(0x7FFF_FFFF - shifted);
    ProductBound(out, tempVal, 0x8000_0000, 0xFFFF_FFFF);
    ClipQ63ToQ31(out * tempVal / 0x4000_0000)
  }

  /** One trip of the loop in arm_recip_q15; `out * tempVal` is an unsigned product. */
  function LoopBodyQ15(a: q15, out: q15): q15 {
    var shifted := ToU32(a * out / 0x8000);
    var tempVal := ToU32(0x7FFF - shifted);
    ToQ15(ToU32(out * tempVal) / 0x4000)
  }

  /** On a normalised input no cast wraps and the Q31 clip never acts: the code's pass
      is the exact pass. */
  lemma LoopBodyQ31IsExact(a: q31, out: q31)
    requires 0x4000_0000 <= a && 0 < out
    ensures LoopBodyQ31(a, out) == NewtonPass(0x4000_0000, a, out)
    ensures 0 < LoopBodyQ31(a, out)
    ensures 0 < Defect(0x4000_0000, a, LoopBodyQ31(a, out))
  {
    PassStaysInRange(0x4000_0000, a, out);
    var t := a * out / 0x8000_0000;
    var s := 0x7FFF_FFFF - t;
    assert ToU32(t) == t && ToU32(s) == s;
    ProductBound(out, s, 0x8000_0000, 0xFFFF_FFFF);
    ClipQ63ToQ31Saturates(out * s / 0x4000_0000);
  }

  /** For every pair but that of the two most negative values, one trip of the Q31 loop in
      plain arithmetic: the casts lose nothing and the clip is a clamp. */
  lemma LoopBodyQ31Value(a: q31, out: q31)
    requires !(a == out == -0x8000_0000)
    ensures LoopBodyQ31(a, out)
         == ClampQ31(out * (0x7FFF_FFFF - a * out / 0x8000_0000) / 0x4000_0000)
  {
    hide ClipQ63ToQ31, ToU32;
    MulQ31Range(a, out);
    var t := a * out / 0x8000_0000;
    Complement32(t);
    ProductBound(out, 0x7FFF_FFFF - t, 0x8000_0000, 0xFFFF_FFFF);
    ClipQ63ToQ31Saturates(out * (0x7FFF_FFFF - t) / 0x4000_0000);
  }

  lemma MulQ31Range(a: q31, b: q31)
    requires !(a == b == -0x8000_0000)
    ensures -0x8000_0000 <= a * b / 0x8000_0000 <= 0x7FFF_FFFF
  {
    hide ToQ31;
    MulQ31Exactly(a, b);
  }

  lemma Complement32(t: int)
    requires -0x8000_0000 <= t <= 0x7FFF_FFFF
    ensures ToU32(0x7FFF_FFFF - ToU32(t)) == 0x7FFF_FFFF - t
  {
  }

  /** The Q15 pass has no clip: it needs none, its unguarded cast never wraps. */
  lemma LoopBodyQ15IsExact(a: q15, out: q15)
    requires 0x4000 <= a && 0 < out
    ensures LoopBodyQ15(a, out) == NewtonPass(0x4000, a, out)
    ensures 0 < LoopBodyQ15(a, out)
    ensures 0 < Defect(0x4000, a, LoopBodyQ15(a, out))
  {
    PassStaysInRange(0x4000, a, out);
    var s := 0x7FFF - a * out / 0x8000;
    ToU32Id(s);
    ToU32Id(0x7FFF - s);
    var z := out * s;
    Q15ProductFits(out, s);
    assert ToU32(z) == z;
    ToQ15Id(z / 0x4000);
  }

  lemma Q15ProductFits(y: int, s: int)
    requires 0 <= y <= 0x7FFF && 0 <= s <= 0x7FFF
    ensures 0 <= y * s <= 0x3FFF_0001
  {
    MulMonotone(y, 0x7FFF, s);
    MulMonotone(0, y, s);
  }

  /** With nothing to hold it, the same cast does wrap on every other normalised input, from
      any estimate above half scale. At half scale itself it still holds for zero. */
  lemma LoopBodyQ15Wraps(a: q15, out: q15)
    requires -0x8000 < a <= 0
    requires 0x4000 < out || (0x3F7F <= out && a <= -0x4000)
    ensures NewtonPass(0x4000, a, out) > 0x7FFF
    ensures LoopBodyQ15(a, out) != NewtonPass(0x4000, a, out)
  {
    MulMonotone(a, if a <= -0x4000 then -0x4000 else 0, out);
    var s := 0x7FFF - a * out / 0x8000;
    if 0x4000 < out {
      MulMonotone(0x7FFF, s, out);
    } else {
      MulMonotone(0x9EBE, s, out);
    }
  }

  // -------------------------------------------------------------------------
  // Normalisation and the seed table
  // -------------------------------------------------------------------------

  function Magnitude(x: int): nat {
    if x > 0 then x else -x
  }

  /** `in << signBits` for a 32-bit input. */
  function SignBitsQ31(input: q31): nat
    requires input != -0x8000_0000
  {
    Pow2Values();
    LeadingZerosOfPositive(Magnitude(input), 31);
    LeadingZeros(Magnitude(input)) - 1
  }

  function SignBitsQ15(input: q15): nat
    requires input != -0x8000
  {
    Pow2Values();
    LeadingZerosOfPositive(Magnitude(input), 15);
    LeadingZeros(Magnitude(input)) - 17
  }

  /** The normalising shift both functions compute first, on either sign. */
  method SignBitsOf(input: q31, offset: u32) returns (signBits: u32)
    requires input != -0x8000_0000 && offset <= LeadingZeros(Magnitude(input))
    ensures signBits == LeadingZeros(Magnitude(input)) - offset
  {
    if input > 0 {
      signBits := Clz(input);
    } else {
      signBits := Clz(-input);
    }
    signBits := signBits - offset;
  }

  lemma LeadingZerosOfPositive(x: u32, k: nat)
    requires k <= 31 && x < Pow2(k)
    ensures LeadingZeros(x) >= 32 - k
  {
    var n := LeadingZeros(x);
    if x > 0 && n < 32 - k {
      if k < 31 - n {
        Pow2Grows(k, 31 - n);
      }
    }
  }

  function NormalisedQ31(input: q31): q31
    requires input != -0x8000_0000
  {
    ToQ31(input * Pow2(SignBitsQ31(input)))
  }

  function NormalisedQ15(input: q15): q15
    requires input != -0x8000
  {
    ToQ15(input * Pow2(SignBitsQ15(input)))
  }

  /** The left shift moves the top bit of a positive input to just below the sign. */
  lemma NormalisedQ31Range(input: q31)
    requires 0 < input
    ensures NormalisedQ31(input) == input * Pow2(SignBitsQ31(input))
    ensures 0x4000_0000 <= NormalisedQ31(input)
  {
    Pow2Values();
    ShiftedBracket(input, SignBitsQ31(input), 30);
    ToQ31Id(input * Pow2(SignBitsQ31(input)));
  }

  lemma NormalisedQ15Range(input: q15)
    requires 0 < input
    ensures NormalisedQ15(input) == input * Pow2(SignBitsQ15(input))
    ensures 0x4000 <= NormalisedQ15(input)
  {
    Pow2Values();
    ShiftedBracket(input, SignBitsQ15(input), 14);
    ToQ15Id(input * Pow2(SignBitsQ15(input)));
  }

  /** On either sign the shift leaves no leading zero in the magnitude and loses nothing; zero
      stays zero, shifted by the full width less one. */
  lemma NormalisedQ31Exactly(input: q31)
    requires input != -0x8000_0000
    ensures NormalisedQ31(input) == input * Pow2(SignBitsQ31(input))
    ensures input != 0 ==> 0x4000_0000 <= Magnitude(NormalisedQ31(input)) < 0x8000_0000
    ensures input == 0 ==> SignBitsQ31(input) == 31
  {
    hide Pow2, ToQ31;
    var m, n := Magnitude(input), SignBitsQ31(input);
    Pow2Values();
    if input != 0 {
      ShiftedBracket(m, n, 30);
      SignedScale(input, Pow2(n));
    } else {
      assert 0 * Pow2(n) == 0;
    }
    ToQ31Id(input * Pow2(n));
  }

  lemma NormalisedQ15Exactly(input: q15)
    requires input != -0x8000
    ensures NormalisedQ15(input) == input * Pow2(SignBitsQ15(input))
    ensures input != 0 ==> 0x4000 <= Magnitude(NormalisedQ15(input)) < 0x8000
    ensures input == 0 ==> SignBitsQ15(input) == 15
  {
    hide Pow2, ToQ15;
    var m, n := Magnitude(input), SignBitsQ15(input);
    Pow2Values();
    if input != 0 {
      ShiftedBracket(m, n, 14);
      SignedScale(input, Pow2(n));
    } else {
      assert 0 * Pow2(n) == 0;
    }
    ToQ15Id(input * Pow2(n));
  }

  lemma SignedScale(x: int, w: int)
    requires 0 <= w
    ensures Magnitude(x * w) == Magnitude(x) * w
  {
    if x > 0 {
      MulMonotone(0, x, w);
    } else {
      NegMul(x, w);
      MulMonotone(x, 0, w);
    }
  }

  lemma NormalisedQ31NotPositive(input: q31)
    requires -0x8000_0000 < input <= 0
    ensures -0x8000_0000 < NormalisedQ31(input) <= 0
  {
    ShiftOfNotPositive(input);
    ToQ31Id(input * Pow2(SignBitsQ31(input)));
  }

  lemma ShiftOfNotPositive(input: q31)
    requires -0x8000_0000 < input <= 0
    ensures -0x8000_0000 < input * Pow2(SignBitsQ31(input)) <= 0
  {
    hide Pow2;
    var n := SignBitsQ31(input);
    if input == 0 {
      assert 0 * Pow2(n) == 0;
    } else {
      var m: nat := -input;
      ShiftedBracket(m, n, 30);
      Pow2Values();
      ScaleNegated(m, Pow2(n), 0x8000_0000);
    }
  }

  lemma ScaleNegated(m: int, w: int, top: int)
    requires 0 < m * w < top
    ensures -top < (-m) * w < 0
  {
    NegMul(m, w);
  }

  lemma ShiftedBracket(x: int, n: nat, top: nat)
    requires n <= top && Pow2(top - n) <= x < Pow2(top + 1 - n)
    ensures Pow2(top) <= x * Pow2(n) < Pow2(top + 1)
  {
    Pow2Add(top - n, n);
    Pow2Add(top + 1 - n, n);
    ScaleBracket(Pow2(top - n), x, Pow2(top + 1 - n), Pow2(n));
  }

  lemma ScaleBracket(lo: int, x: int, hi: int, w: int)
    requires lo <= x < hi && 0 < w
    ensures lo * w <= x * w < hi * w
  {
    MulMonotone(x, hi - 1, w);
    assert (hi - 1) * w == hi * w - w;
  }

  // -------------------------------------------------------------------------
  // Accuracy after the two passes
  // -------------------------------------------------------------------------

  /** A positive table whose entry for each of the 64 cells of normalised inputs is a
      reciprocal to within one part in 64, at both ends of the cell. `unit` is the exact
      product of a cell number and its entry: 2^37 in Q31, 2^21 in Q15. */
  ghost predicate GoodSeeds(table: seq<int>, unit: int) {
    && |table| == 64
    && forall k :: 0 <= k < 64 ==> GoodSeed(k, table[k], unit)
  }

  predicate GoodSeed(k: int, seed: int, unit: int) {
    0 < seed && unit - (64 + k) * seed <= unit / 64 && (65 + k) * seed - unit <= unit / 64
  }

  /** The table the two library tables approximate: each entry is the reciprocal of the
      middle of its cell. */
  function MidpointSeeds(unit: nat): (table: seq<int>)
    ensures |table| == 64
  {
    seq(64, k requires 0 <= k < 64 => 2 * unit / (2 * k + 129))
  }

  lemma MidpointSeedsAreGood(unit: nat)
    requires 0x20_0000 <= unit
    ensures GoodSeeds(MidpointSeeds(unit), unit)
    ensures forall k :: 0 <= k < 64 ==> MidpointSeeds(unit)[k] < unit / 64
  {
    forall k | 0 <= k < 64
      ensures GoodSeed(k, MidpointSeeds(unit)[k], unit)
      ensures MidpointSeeds(unit)[k] < unit / 64
    {
      MidpointSeedIsGood(k, unit);
    }
  }

  lemma MidpointSeedIsGood(k: int, unit: int)
    requires 0 <= k < 64 && 0x20_0000 <= unit
    ensures GoodSeed(k, 2 * unit / (2 * k + 129), unit)
    ensures 2 * unit / (2 * k + 129) < unit / 64
  {
    var d := 2 * k + 129;
    var q := 2 * unit / d;
    assert 2 * unit == d * q + (2 * unit) % d;
    assert d * q == 2 * ((64 + k) * q) + q == 2 * ((65 + k) * q) - q;
    if q >= unit / 64 {
      MulMonotone(unit / 64, q, d);
      MulMonotone(129, d, unit / 64);
    }
    if q <= 0 {
      MulMonotone(q, 0, d);
    }
  }

  /** A good seed's defect is at most 1/64 of full scale all through its cell. */
  lemma SeedDefect(k: int, seed: int, unit: int, cell: int, h: int, a: int)
    requires 0 <= k < 64 && 0 < cell && GoodSeed(k, seed, unit) && unit % 64 == 0
    requires (64 + k) * cell <= a < (65 + k) * cell
    requires 2 * h * h == unit * cell
    ensures -(unit / 64 * cell) <= Defect(h, a, seed) <= unit / 64 * cell
  {
    MulMonotone((64 + k) * cell, a, seed);
    MulMonotone(a, (65 + k) * cell, seed);
    assert (64 + k) * cell * seed == ((64 + k) * seed) * cell;
    assert (65 + k) * cell * seed == ((65 + k) * seed) * cell;
    MulMonotone(unit - (64 + k) * seed, unit / 64, cell);
    MulMonotone((65 + k) * seed - unit, unit / 64, cell);
    assert (unit - (64 + k) * seed) * cell == unit * cell - ((64 + k) * seed) * cell;
    assert ((65 + k) * seed - unit) * cell == ((65 + k) * seed) * cell - unit * cell;
  }

  /** What one exact pass makes of a bounded defect, in plain numbers. */
  lemma DefectAfterPass(h: int, a: int, y: int, bound: int, next: int)
    requires 0 < h && 0 < a < 2 * h && 0 < y && 0 <= bound
    requires -bound <= Defect(h, a, y) <= bound
    requires bound * bound + 2 * h * (4 * h * h + bound) <= next * (2 * h * h)
    ensures Defect(h, a, NewtonPass(h, a, y)) < next
  {
    NewtonContraction(h, a, y);
    var r := 2 * h * h;
    var e, e' := Defect(h, a, y), Defect(h, a, NewtonPass(h, a, y));
    ProductBound(e, e, bound, bound);
    MulMonotone(a * y, r + bound, 2 * h);
    MulMonotone(a, 2 * h, r);
    assert 2 * h * (4 * h * h + bound) == 2 * h * (r + bound) + 2 * h * r;
    assert e' * r < next * r;
    if next <= e' {
      MulMonotone(next, e', r);
    }
  }

  function IndexQ31(a: q31): nat {
    ToU32(a / 0x100_0000) % 64
  }

  function IndexQ15(a: q15): nat {
    ToU32(a / 0x100) % 64
  }

  /** The masked index names the cell the normalised input lies in. */
  lemma IndexIsCell(a: int, cell: int)
    requires 0 < cell && 64 * cell <= a < 128 * cell
    ensures var k := ToU32(a / cell) % 64;
            (64 + k) * cell <= a < (65 + k) * cell
  {
    var c := a / cell;
    assert a == cell * c + a % cell;
    if c < 64 {
      MulMonotone(c, 63, cell);
    }
    if c >= 128 {
      MulMonotone(128, c, cell);
    }
    QuotientIs(c, 64, 1);
    assert cell * c == (64 + (c - 64)) * cell;
  }

  /** Seed, then two trips round the loop. */
  function TwoPassesQ31(a: q31, seed: q31): q31 {
    LoopBodyQ31(a, LoopBodyQ31(a, seed))
  }

  function TwoPassesQ15(a: q15, seed: q15): q15 {
    LoopBodyQ15(a, LoopBodyQ15(a, seed))
  }

  /** On zero, that is exactly when it wraps. */
  lemma ZeroWrapsExactly(out: q15)
    requires 0 < out
    ensures LoopBodyQ15(0, out) == NewtonPass(0x4000, 0, out) <==> out <= 0x4000
  {
    assert 0 * out == 0;
    if out <= 0x4000 {
      PassModulo(0, out);
      ToQ15Id(NewtonPass(0x4000, 0, out));
    } else {
      LoopBodyQ15Wraps(0, out);
    }
  }

  /** The first pass from a good seed is the exact one if and only if the input is
      positive; zero, the smallest magnitude of all, is not. */
  lemma FirstPassQ15Exactly(a: q15, seed: q15)
    requires 0x4000 <= a || a == 0 || -0x8000 < a <= -0x4000
    requires GoodSeed(IndexQ15(a), seed, 0x20_0000)
    ensures LoopBodyQ15(a, seed) == NewtonPass(0x4000, a, seed) <==> 0 < a
  {
    GoodSeedIsLarge(IndexQ15(a), seed);
    if 0 < a {
      LoopBodyQ15IsExact(a, seed);
    } else {
      LoopBodyQ15Wraps(a, seed);
    }
  }

  lemma GoodSeedIsLarge(k: int, seed: int)
    requires 0 <= k < 64 && GoodSeed(k, seed, 0x20_0000)
    ensures 0x3F7F <= seed
    ensures k == 0 ==> 0x4000 < seed
  {
    MulMonotone(64 + k, 127, seed);
  }

  /** The index is bits 24 to 29 of the normalised input, or 8 to 13 in Q15. */
  lemma IndexValues(a: q31, b: q15)
    ensures 0 <= IndexQ31(a) < 64 && (a / 0x100_0000 - IndexQ31(a)) % 64 == 0
    ensures 0 <= IndexQ15(b) < 64 && (b / 0x100 - IndexQ15(b)) % 64 == 0
  {
  }

  /** Two passes, no more and no fewer, for every normalised input and every seed. */
  lemma TwoPassesQ31Value(a: q31, seed: q31)
    requires a != -0x8000_0000
    ensures var y := ClampQ31(seed * (0x7FFF_FFFF - a * seed / 0x8000_0000) / 0x4000_0000);
            TwoPassesQ31(a, seed) == ClampQ31(y * (0x7FFF_FFFF - a * y / 0x8000_0000) / 0x4000_0000)
  {
    hide LoopBodyQ31, ClampQ31;
    LoopBodyQ31Value(a, seed);
    LoopBodyQ31Value(a, LoopBodyQ31(a, seed));
  }

  lemma TwoPassesQ15Value(a: q15, seed: q15)
    requires a != -0x8000
    ensures var y := ToQ15(seed * (0x7FFF - a * seed / 0x8000) / 0x4000);
            TwoPassesQ15(a, seed) == ToQ15(y * (0x7FFF - a * y / 0x8000) / 0x4000)
  {
    hide LoopBodyQ15, ToQ15;
    PassModulo(a, seed);
    PassModulo(a, LoopBodyQ15(a, seed));
  }

  /** Whatever positive seed it starts from, the Q31 loop ends strictly below the exact
      reciprocal; a good seed brings it within 2^-23 of it. */
  lemma TwoPassesQ31Accuracy(a: q31, seed: q31)
    requires 0x4000_0000 <= a && 0 < seed
    ensures 0 < TwoPassesQ31(a, seed)
    ensures 0 < Defect(0x4000_0000, a, TwoPassesQ31(a, seed))
    ensures GoodSeed(IndexQ31(a), seed, 0x20_0000_0000) ==>
              Defect(0x4000_0000, a, TwoPassesQ31(a, seed)) < 0x40_0000_0000
  {
    var h := 0x4000_0000;
    LoopBodyQ31IsExact(a, seed);
    var y := LoopBodyQ31(a, seed);
    LoopBodyQ31IsExact(a, y);
    if GoodSeed(IndexQ31(a), seed, 0x20_0000_0000) {
      IndexIsCell(a, 0x100_0000);
      SeedDefect(IndexQ31(a), seed, 0x20_0000_0000, 0x100_0000, h, a);
      DefectAfterPass(h, a, seed, 0x80_0000_0000_0000, 0x2_0002_0000_0000);
      DefectAfterPass(h, a, y, 0x2_0002_0000_0000, 0x40_0000_0000);
    }
  }

  /** The same for Q15: 13 good bits out of 15. */
  lemma TwoPassesQ15Accuracy(a: q15, seed: q15)
    requires 0x4000 <= a && 0 < seed
    ensures 0 < TwoPassesQ15(a, seed)
    ensures 0 < Defect(0x4000, a, TwoPassesQ15(a, seed))
    ensures GoodSeed(IndexQ15(a), seed, 0x20_0000) ==>
              Defect(0x4000, a, TwoPassesQ15(a, seed)) < 0x1_0080
  {
    var h := 0x4000;
    LoopBodyQ15IsExact(a, seed);
    var y := LoopBodyQ15(a, seed);
    LoopBodyQ15IsExact(a, y);
    if GoodSeed(IndexQ15(a), seed, 0x20_0000) {
      IndexIsCell(a, 0x100);
      SeedDefect(IndexQ15(a), seed, 0x20_0000, 0x100, h, a);
      DefectAfterPass(h, a, seed, 0x80_0000, 0x3_0200);
      DefectAfterPass(h, a, y, 0x3_0200, 0x1_0080);
    }
  }

  /** Without a positive input there is no convergence: the loop's result keeps the sign
      of the seed, whatever the sign of the input. */
  lemma LoopBodyQ31KeepsSeedSign(a: q31, out: q31)
    requires -0x8000_0000 < a <= 0 && 0 < out
    ensures 0 < LoopBodyQ31(a, out)
  {
    ProductBound(a, out, 0x7FFF_FFFF, 0x7FFF_FFFF);
    MulMonotone(a, 0, out);
    var t := a * out / 0x8000_0000;
    var s := ToU32(0x7FFF_FFFF - ToU32(t));
    assert -0x8000_0000 <= t <= 0;
    assert s == 0x7FFF_FFFF - t;
    ProductBound(out, s, 0x8000_0000, 0xFFFF_FFFF);
    MulMonotone(1, out, s);
    ClipQ63ToQ31Saturates(out * s / 0x4000_0000);
  }

  // -------------------------------------------------------------------------
  // The library calls
  // -------------------------------------------------------------------------

  /** `dst`, shifted left by the returned count, is 1/input in 1.31: below it, and by
      less than 2^-23 of it. */
  predicate ReciprocalQ31(input: q31, dst: q31, shift: nat) {
    0 < 0x4000_0000_0000_0000 - input * dst * Pow2(shift) < 0x80_0000_0000
  }

  predicate ReciprocalQ15(input: q15, dst: q15, shift: nat) {
    0 < 0x4000_0000 - input * dst * Pow2(shift) < 0x2_0100
  }

  /** Undo the normalisation: the defect of the shifted input is half the distance of
      the scaled product from one. */
  lemma Unscale(h: int, input: int, dst: int, n: nat)
    ensures 4 * h * h - input * dst * Pow2(n + 1) == 2 * Defect(h, input * Pow2(n), dst)
  {
    var w := Pow2(n);
    assert input * dst * (2 * w) == 2 * ((input * w) * dst) by {
      assert (input * w) * dst == input * (w * dst) == input * (dst * w) == (input * dst) * w;
    }
  }

  method NewtonLoopQ31(a: q31, seed: q31) returns (out: q31)
    ensures out == TwoPassesQ31(a, seed)
  {
    out := seed;
    for i := 0 to 2
      invariant out == if i == 0 then seed else if i == 1 then LoopBodyQ31(a, seed) else TwoPassesQ31(a, seed)
    {
      var tempVal: u32 := ToU32(a * out / 0x8000_0000);
      tempVal := ToU32(0x7FFF_FFFF - tempVal);
      ProductBound(out, tempVal, 0x8000_0000, 0xFFFF_FFFF);
      out := ClipQ63ToQ31(out * tempVal / 0x4000_0000);
    }
  }

  method RecipQ31(input: q31, table: seq<q31>) returns (shift: u32, dst: q31)
    requires input != -0x8000_0000 && |table| == 64
    ensures shift == SignBitsQ31(input) + 1
    ensures var a := NormalisedQ31(input);
            dst == TwoPassesQ31(a, table[IndexQ31(a)])
    ensures 0 < input && (forall k :: 0 <= k < 64 ==> 0 < table[k]) ==>
              0 < dst && input * dst * Pow2(shift) < 0x4000_0000_0000_0000
    ensures GoodSeeds(table, 0x20_0000_0000) ==>
              (ReciprocalQ31(input, dst, shift) <==> 0 < input)
  {
    hide TwoPassesQ31, ReciprocalQ31, GoodSeed, Pow2;
    Pow2Values();
    LeadingZerosOfPositive(Magnitude(input), 31);
    var signBits := SignBitsOf(input, 1);
    var a: q31 := ToQ31(input * Pow2(signBits));
    var index := ToU32(a / 0x100_0000) % 64;
    dst := NewtonLoopQ31(a, table[index]);
    shift := signBits + 1;
    RecipQ31Meaning(input, table[index]);
  }

  lemma RecipQ31Meaning(input: q31, seed: q31)
    requires input != -0x8000_0000
    ensures var a := NormalisedQ31(input);
            var dst, shift := TwoPassesQ31(a, seed), SignBitsQ31(input) + 1;
            && (0 < input && 0 < seed ==>
                  0 < dst && input * dst * Pow2(shift) < 0x4000_0000_0000_0000)
            && (GoodSeed(IndexQ31(a), seed, 0x20_0000_0000) ==>
                  (ReciprocalQ31(input, dst, shift) <==> 0 < input))
  {
    hide TwoPassesQ31, NormalisedQ31, SignBitsQ31, IndexQ31, Pow2;
    var a := NormalisedQ31(input);
    var n := SignBitsQ31(input);
    var dst := TwoPassesQ31(a, seed);
    if 0 < input && 0 < seed {
      NormalisedQ31Range(input);
      TwoPassesQ31Accuracy(a, seed);
      Unscale(0x4000_0000, input, dst, n);
    } else if 0 < seed {
      NormalisedQ31NotPositive(input);
      TwoPassesKeepSeedSign(a, seed);
      NotPositiveProduct(input, dst, Pow2(n + 1));
    }
  }

  lemma TwoPassesKeepSeedSign(a: q31, seed: q31)
    requires -0x8000_0000 < a <= 0 && 0 < seed
    ensures 0 < TwoPassesQ31(a, seed)
  {
    hide LoopBodyQ31;
    LoopBodyQ31KeepsSeedSign(a, seed);
    LoopBodyQ31KeepsSeedSign(a, LoopBodyQ31(a, seed));
  }

  lemma NotPositiveProduct(x: int, y: int, w: int)
    requires x <= 0 && 0 <= y && 0 <= w
    ensures x * y * w <= 0
  {
    MulMonotone(x, 0, y);
    MulMonotone(x * y, 0, w);
  }

  method NewtonLoopQ15(a: q15, seed: q15) returns (out: q15)
    ensures out == TwoPassesQ15(a, seed)
  {
    out := seed;
    for i := 0 to 2
      invariant out == if i == 0 then seed else if i == 1 then LoopBodyQ15(a, seed) else TwoPassesQ15(a, seed)
    {
      var tempVal: u32 := ToU32(a * out / 0x8000);
      tempVal := ToU32(0x7FFF - tempVal);
      out := ToQ15(ToU32(out * tempVal) / 0x4000);
    }
  }

  method RecipQ15(input: q15, table: seq<q15>) returns (shift: u32, dst: q15)
    requires input != -0x8000 && |table| == 64
    ensures shift == SignBitsQ15(input) + 1
    ensures var a := NormalisedQ15(input);
            dst == TwoPassesQ15(a, table[IndexQ15(a)])
    ensures 0 < input && (forall k :: 0 <= k < 64 ==> 0 < table[k]) ==>
              0 < dst && input * dst * Pow2(shift) < 0x4000_0000
    ensures 0 < input && GoodSeeds(table, 0x20_0000) ==> ReciprocalQ15(input, dst, shift)
    ensures input == 0 ==> !ReciprocalQ15(input, dst, shift)
  {
    hide TwoPassesQ15, ReciprocalQ15, GoodSeed, Pow2;
    Pow2Values();
    LeadingZerosOfPositive(Magnitude(input), 15);
    var signBits := SignBitsOf(input, 17);
    var a: q15 := ToQ15(input * Pow2(signBits));
    var index := ToU32(a / 0x100) % 64;
    dst := NewtonLoopQ15(a, table[index]);
    shift := signBits + 1;
    RecipQ15Meaning(input, table[index]);
  }

  lemma RecipQ15Meaning(input: q15, seed: q15)
    requires input != -0x8000
    ensures var a := NormalisedQ15(input);
            var dst, shift := TwoPassesQ15(a, seed), SignBitsQ15(input) + 1;
            && (0 < input && 0 < seed ==>
                  0 < dst && input * dst * Pow2(shift) < 0x4000_0000)
            && (0 < input && GoodSeed(IndexQ15(a), seed, 0x20_0000) ==>
                  ReciprocalQ15(input, dst, shift))
            && (input == 0 ==> !ReciprocalQ15(input, dst, shift))
  {
    if input == 0 {
      NoReciprocalOfZero(TwoPassesQ15(NormalisedQ15(input), seed), SignBitsQ15(input) + 1);
    }
    if 0 < input && 0 < seed {
      var a := NormalisedQ15(input);
      NormalisedQ15Range(input);
      TwoPassesQ15Accuracy(a, seed);
      Unscale(0x4000, input, TwoPassesQ15(a, seed), SignBitsQ15(input));
    }
  }

  lemma NoReciprocalOfZero(dst: q15, shift: nat)
    ensures !ReciprocalQ15(0, dst, shift)
  {
    assert 0 * dst * Pow2(shift) == 0;
  }

  // -------------------------------------------------------------------------
  // Inputs that are not positive
  // -------------------------------------------------------------------------

  /** What every positive seed guarantees: a positive result that does not overshoot. */
  ghost predicate NeverOvershootsQ15(input: q15)
    requires input != -0x8000
  {
    forall seed: q15 :: 0 < seed ==>
      var dst := TwoPassesQ15(NormalisedQ15(input), seed);
      0 < dst && input * dst * Pow2(SignBitsQ15(input) + 1) < 0x4000_0000
  }

  lemma NeverOvershootsQ15Exactly(input: q15)
    requires input != -0x8000
    ensures NeverOvershootsQ15(input) <==> 0 < input
  {
    hide TwoPassesQ15, NormalisedQ15, SignBitsQ15, Pow2;
    if 0 < input {
      forall seed: q15 | 0 < seed
        ensures var dst := TwoPassesQ15(NormalisedQ15(input), seed);
                0 < dst && input * dst * Pow2(SignBitsQ15(input) + 1) < 0x4000_0000
      {
        RecipQ15Meaning(input, seed);
      }
    } else {
      NormalisedQ15NotPositive(input);
      var seed := if input == 0 then 0x7FFF else 0x4800;
      NotPositiveResult(NormalisedQ15(input));
      assert TwoPassesQ15(NormalisedQ15(input), seed) <= 0;
    }
  }

  lemma NormalisedQ15NotPositive(input: q15)
    requires -0x8000 < input <= 0
    ensures input == 0 ==> NormalisedQ15(input) == 0
    ensures input < 0 ==> -0x8000 < NormalisedQ15(input) <= -0x4000
  {
    hide Pow2;
    var n := SignBitsQ15(input);
    if input == 0 {
      assert 0 * Pow2(n) == 0;
    } else {
      var m: nat := -input;
      ShiftedBracket(m, n, 14);
      Pow2Values();
      NegMul(m, Pow2(n));
    }
    ToQ15Id(input * Pow2(n));
  }

  /** On zero the largest seed, and on a negative input the seed 0x4800, wraps into a
      negative estimate that the second pass does not make positive. */
  lemma NotPositiveResult(a: q15)
    requires a == 0 || -0x8000 < a <= -0x4000
    ensures TwoPassesQ15(a, if a == 0 then 0x7FFF else 0x4800) <= 0
  {
    hide LoopBodyQ15;
    if a == 0 {
      PassOnZero(0x7FFF);
      PassOnZero(-4);
    } else {
      WrapsNegative(a);
      NegativeEstimateStays(a, LoopBodyQ15(a, 0x4800));
    }
  }

  /** Whatever the signs, the code's pass is the exact one reduced to 16 bits. */
  lemma PassModulo(a: q15, out: q15)
    requires a != -0x8000
    ensures LoopBodyQ15(a, out) == ToQ15(NewtonPass(0x4000, a, out))
    ensures LoopBodyQ15(a, out) == ToQ15(out * (0x7FFF - a * out / 0x8000) / 0x4000)
  {
    hide ToU32, ToQ15;
    ProductBound(a, out, 0x7FFF, 0x8000);
    var t := a * out / 0x8000;
    ComplementIn32Bits(t);
    NarrowedQuotient(out * (0x7FFF - t));
  }

  lemma ComplementIn32Bits(t: int)
    requires -0x8000 <= t < 0x8000
    ensures ToU32(0x7FFF - ToU32(t)) == 0x7FFF - t
  {
  }

  lemma NarrowedQuotient(p: int)
    ensures ToQ15(ToU32(p) / 0x4000) == ToQ15(p / 0x4000)
  {
    var k := p / 0x1_0000_0000;
    assert p == 0x1_0000_0000 * k + ToU32(p);
    assert p / 0x4000 == ToU32(p) / 0x4000 + 4 * k * 0x1_0000;
    ModAddMultiple(ToU32(p) / 0x4000 + 0x8000, 4 * k, 0x1_0000);
  }

  lemma PassOnZero(out: q15)
    ensures LoopBodyQ15(0, out) == ToQ15(out * 0x7FFF / 0x4000)
  {
    hide LoopBodyQ15, ToQ15;
    assert 0 * out == 0;
    PassModulo(0, out);
  }

  lemma WrapsNegative(a: q15)
    requires -0x8000 < a <= -0x4000
    ensures LoopBodyQ15(a, 0x4800) < 0
  {
    hide LoopBodyQ15;
    PassModulo(a, 0x4800);
    assert 0x8000 <= NewtonPass(0x4000, a, 0x4800) < 0x1_0000;
  }

  lemma NegativeEstimateStays(a: q15, out: q15)
    requires -0x8000 < a <= -0x4000 && out < 0
    ensures LoopBodyQ15(a, out) <= 0
  {
    hide LoopBodyQ15, ToQ15;
    PassModulo(a, out);
    NegativePassRange(a, out);
    ToQ15Id(NewtonPass(0x4000, a, out));
  }

  lemma NegativePassRange(a: int, out: int)
    requires -0x8000 < a <= -0x4000 && -0x8000 <= out < 0
    ensures -0x8000 <= NewtonPass(0x4000, a, out) <= 0
  {
    var u, t := -out, a * out / 0x8000;
    assert a * out == -a * u;
    MulMonotone(0x4000, -a, u);
    MulMonotone(-a, 0x7FFF, u);
    HalfSquare(u, 0x7FFF - t);
    assert out * (0x7FFF - t) == -(u * (0x7FFF - t));
  }

  lemma HalfSquare(u: int, s: int)
    requires 0 <= u && 0 <= s && 2 * s <= 0x1_0000 - u
    ensures 0 <= u * s <= 0x2000_0000
  {
    MulMonotone(2 * s, 0x1_0000 - u, u);
    MulMonotone(0, s, u);
    assert 0 <= (u - 0x8000) * (u - 0x8000) == u * u - 0x1_0000 * u + 0x4000_0000;
  }

  /** Yet a good seed may still hit the reciprocal of a negative input by accident, wrapped
      passes and all. Another, that of the middle of the same cell, misses it. */
  lemma NegativeByAccident()
    ensures GoodSeed(IndexQ15(-31488), 30186, 0x20_0000)
    ensures ReciprocalQ15(-31488, TwoPassesQ15(-31488, 30186), 1)
    ensures GoodSeed(IndexQ15(-31488), 30174, 0x20_0000)
    ensures !ReciprocalQ15(-31488, TwoPassesQ15(-31488, 30174), 1)
  {
    hide LoopBodyQ15, ToQ15;
    HitAndMiss();
    assert Pow2(1) == 2;
  }

  lemma HitAndMiss()
    ensures TwoPassesQ15(-31488, 30186) == -17048
    ensures TwoPassesQ15(-31488, 30174) == -17045
  {
    hide LoopBodyQ15;
    OnePass(30186, 113812);
    OnePass(-17260, -17048);
    OnePass(30174, 113747);
    OnePass(-17325, -17045);
  }

  lemma OnePass(out: q15, exact: int)
    requires exact * 0x4000 <= out * (0x7FFF - -31488 * out / 0x8000) < exact * 0x4000 + 0x4000
    ensures LoopBodyQ15(-31488, out) == ToQ15(exact)
  {
    hide LoopBodyQ15, ToQ15;
    PassModulo(-31488, out);
    QuotientIs(out * (0x7FFF - -31488 * out / 0x8000), 0x4000, exact);
  }
}
