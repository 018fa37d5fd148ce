/** The Q31 Park transform and its inverse: a rotation by the angle whose sine and cosine
    the caller supplies in 1.31. */
module Park {
  import opened Arith
  import opened FixedPoint

  function ParkQ31(Ialpha: q31, Ibeta: q31, sinVal: q31, cosVal: q31): (q31, q31) {
    var product1 := MulQ31(Ialpha, cosVal);
    var product2 := MulQ31(Ibeta, sinVal);
    var product3 := MulQ31(Ialpha, sinVal);
    var product4 := MulQ31(Ibeta, cosVal);
    (QAdd(product1, product2), QSub(product4, product3))
  }

  function InvParkQ31(Id: q31, Iq: q31, sinVal: q31, cosVal: q31): (q31, q31) {
    var product1 := MulQ31(Id, cosVal);
    var product2 := MulQ31(Iq, sinVal);
    var product3 := MulQ31(Id, sinVal);
    var product4 := MulQ31(Iq, cosVal);
    (QSub(product1, product2), QAdd(product4, product3))
  }

  /** `a * b >> 31`, and what the shift drops. */
  function Kept(a: int, b: int): int {
    a * b / 0x8000_0000
  }

  function Lost(a: int, b: int): (f: int)
    ensures 0 <= f < 0x8000_0000
    ensures a * b == 0x8000_0000 * Kept(a, b) + f
  {
    a * b % 0x8000_0000
  }

  /** The rotated pair before saturation. */
  function ExactD(a: int, b: int, s: int, c: int): int {
    Kept(a, c) + Kept(b, s)
  }

  function ExactQ(a: int, b: int, s: int, c: int): int {
    Kept(b, c) - Kept(a, s)
  }

  /** A coordinate of -1 meets a factor of -1: their product is the one that does not fit. */
  predicate Corner(x: int, y: int, s: int, c: int) {
    (x == -0x8000_0000 || y == -0x8000_0000) && (s == -0x8000_0000 || c == -0x8000_0000)
  }

  /** How far the pair is from the unit circle. */
  predicate NearUnitCircle(s: int, c: int, tolerance: int) {
    -tolerance <= s * s + c * c - 0x4000_0000_0000_0000 <= tolerance
  }

  // -------------------------------------------------------------------------
  // The rotation undone, in exact arithmetic
  // -------------------------------------------------------------------------

  lemma Expand(x: int, e: int, a: int, u: int, b: int, v: int, w: int)
    requires x == a * u + b * v - e
    ensures x * w == a * (u * w) + b * (v * w) - e * w
  {
    assert (a * u) * w == a * (u * w);
    assert (b * v) * w == b * (v * w);
    assert (a * u + b * v - e) * w == (a * u) * w + (b * v) * w - e * w;
  }

  /** M^2 times the recovered alpha: the rotation matrix times its transpose, plus the four
      roundings of the forward transform and the two of the inverse. */
  lemma AlphaIdentity(a: int, b: int, s: int, c: int, d: int, q: int)
    requires d == ExactD(a, b, s, c) && q == ExactQ(a, b, s, c)
    ensures var M := 0x8000_0000;
            M * M * (Kept(d, c) - Kept(q, s))
            == a * (s * s + c * c) - (Lost(a, c) + Lost(b, s)) * c + (Lost(b, c) - Lost(a, s)) * s
               - M * Lost(d, c) + M * Lost(q, s)
  {
    var M := 0x8000_0000;
    var e, g := Lost(a, c) + Lost(b, s), Lost(b, c) - Lost(a, s);
    Expand(M * d, e, a, c, b, s, c);
    Expand(M * q, g, b, c, -a, s, s);
    assert (M * d) * c == M * (d * c) && (M * q) * s == M * (q * s);
    assert (-a) * (s * s) == -(a * (s * s)) && a * (s * s + c * c) == a * (s * s) + a * (c * c);
    assert b * (s * c) == b * (c * s);
  }

  lemma BetaIdentity(a: int, b: int, s: int, c: int, d: int, q: int)
    requires d == ExactD(a, b, s, c) && q == ExactQ(a, b, s, c)
    ensures var M := 0x8000_0000;
            M * M * (Kept(q, c) + Kept(d, s))
            == b * (s * s + c * c) - (Lost(b, c) - Lost(a, s)) * c - (Lost(a, c) + Lost(b, s)) * s
               - M * Lost(q, c) - M * Lost(d, s)
  {
    var M := 0x8000_0000;
    var e, g := Lost(a, c) + Lost(b, s), Lost(b, c) - Lost(a, s);
    Expand(M * d, e, a, c, b, s, s);
    Expand(M * q, g, b, c, -a, s, c);
    assert (M * d) * s == M * (d * s) && (M * q) * c == M * (q * c);
    assert (-a) * (s * c) == -(a * (s * c)) && b * (s * s + c * c) == b * (s * s) + b * (c * c);
    assert a * (s * c) == a * (c * s);
  }

  // -------------------------------------------------------------------------
  // The round trip
  // -------------------------------------------------------------------------

  /** The tolerance's share of the error, at most. */
  lemma ToleranceTerm(a: int, r: int, n: int, tolerance: int)
    requires -n <= a <= n && -tolerance <= r - 0x4000_0000_0000_0000 <= tolerance
    ensures -(n * tolerance) <= a * r - a * 0x4000_0000_0000_0000 <= n * tolerance
  {
    ProductBound(a, r - 0x4000_0000_0000_0000, n, tolerance);
    assert a * (r - 0x4000_0000_0000_0000) == a * r - a * 0x4000_0000_0000_0000;
  }

  /** Recovered coordinates, before the inverse saturates: alpha is off by less than four
      LSBs and beta by less than five, besides the share of the tolerance. */
  lemma RotationError(a: int, b: int, s: int, c: int, n: int, tolerance: int)
    requires -n <= a <= n && -n <= b <= n
    requires -0x8000_0000 <= s <= 0x8000_0000 && -0x8000_0000 <= c <= 0x8000_0000
    requires NearUnitCircle(s, c, tolerance)
    ensures var (d, q) := (ExactD(a, b, s, c), ExactQ(a, b, s, c));
            var full, t := 0x4000_0000_0000_0000, n * tolerance;
            && -(4 * full + t) < (Kept(d, c) - Kept(q, s) - a) * full < 4 * full + t
            && -(5 * full + t) < (Kept(q, c) + Kept(d, s) - b) * full < 5 * full + t
  {
    var d, q := ExactD(a, b, s, c), ExactQ(a, b, s, c);
    var e, g := Lost(a, c) + Lost(b, s), Lost(b, c) - Lost(a, s);
    AlphaIdentity(a, b, s, c, d, q);
    BetaIdentity(a, b, s, c, d, q);
    ToleranceTerm(a, s * s + c * c, n, tolerance);
    ToleranceTerm(b, s * s + c * c, n, tolerance);
    ProductBound(e, c, 0xFFFF_FFFE, 0x8000_0000);
    ProductBound(e, s, 0xFFFF_FFFE, 0x8000_0000);
    ProductBound(g, c, 0x7FFF_FFFF, 0x8000_0000);
    ProductBound(g, s, 0x7FFF_FFFF, 0x8000_0000);
  }

  /** The narrowing of (-1) * (-1) comes before the saturating sum, so each coordinate is
      the saturated one exactly when that product is absent, or present on both sides of
      the subtraction. */
  lemma ParkSaturatesExactly(a: q31, b: q31, s: q31, c: q31)
    ensures var m := -0x8000_0000;
            var (d, q) := ParkQ31(a, b, s, c);
            && (d == ClampQ31(ExactD(a, b, s, c)) <==> !(a == c == m) && !(b == s == m))
            && (q == ClampQ31(ExactQ(a, b, s, c)) <==> ((b == c == m) <==> (a == s == m)))
  {
    MulQ31Cases(a, c);
    MulQ31Cases(b, s);
    MulQ31Cases(a, s);
    MulQ31Cases(b, c);
    QAddQSubSaturate(MulQ31(a, c), MulQ31(b, s));
    QAddQSubSaturate(MulQ31(b, c), MulQ31(a, s));
  }

  lemma MulQ31Cases(a: q31, b: q31)
    ensures MulQ31(a, b) == if Kept(a, b) == 0x8000_0000 then -0x8000_0000 else Kept(a, b)
    ensures -0x8000_0000 <= Kept(a, b) <= 0x8000_0000
    ensures a == b == -0x8000_0000 <==> Kept(a, b) == 0x8000_0000
  {
    MulQ31Exactly(a, b);
    if a == b == -0x8000_0000 {
      assert a * b == 0x4000_0000_0000_0000;
    }
  }

  /** Both transforms for every input there is: products of -1 and -1 come out as -1, sums and
      differences saturate. */
  lemma ParkValue(a: q31, b: q31, s: q31, c: q31)
    ensures var m, M := -0x8000_0000, 0x8000_0000;
            var (d, q) := ParkQ31(a, b, s, c);
            && d == ClampQ31((if a == c == m then m else a * c / M) + (if b == s == m then m else b * s / M))
            && q == ClampQ31((if b == c == m then m else b * c / M) - (if a == s == m then m else a * s / M))
  {
    hide MulQ31, ClampQ31;
    MulQ31Exactly(a, c);
    MulQ31Exactly(b, s);
    MulQ31Exactly(a, s);
    MulQ31Exactly(b, c);
    QAddQSubSaturate(MulQ31(a, c), MulQ31(b, s));
    QAddQSubSaturate(MulQ31(b, c), MulQ31(a, s));
  }

  lemma InvParkValue(d: q31, q: q31, s: q31, c: q31)
    ensures var m, M := -0x8000_0000, 0x8000_0000;
            var (a, b) := InvParkQ31(d, q, s, c);
            && a == ClampQ31((if d == c == m then m else d * c / M) - (if q == s == m then m else q * s / M))
            && b == ClampQ31((if q == c == m then m else q * c / M) + (if d == s == m then m else d * s / M))
  {
    hide MulQ31, ClampQ31;
    MulQ31Exactly(d, c);
    MulQ31Exactly(q, s);
    MulQ31Exactly(d, s);
    MulQ31Exactly(q, c);
    QAddQSubSaturate(MulQ31(d, c), MulQ31(q, s));
    QAddQSubSaturate(MulQ31(q, c), MulQ31(d, s));
  }

  /** The pair is the documented rotation: d short of a*cos + b*sin by less than two LSBs,
      q within one LSB of b*cos - a*sin on either side. */
  lemma ParkRotates(a: q31, b: q31, s: q31, c: q31)
    requires !Corner(a, b, s, c)
    requires -0x8000_0000 <= ExactD(a, b, s, c) < 0x8000_0000
    requires -0x8000_0000 <= ExactQ(a, b, s, c) < 0x8000_0000
    ensures var (d, q) := ParkQ31(a, b, s, c);
            && 0 <= a * c + b * s - 0x8000_0000 * d < 2 * 0x8000_0000
            && -0x8000_0000 < b * c - a * s - 0x8000_0000 * q < 0x8000_0000
  {
    ParkSaturatesExactly(a, b, s, c);
    var e, g := Lost(a, c) + Lost(b, s), Lost(b, c) - Lost(a, s);
    assert a * c + b * s == 0x8000_0000 * ExactD(a, b, s, c) + e;
    assert b * c - a * s == 0x8000_0000 * ExactQ(a, b, s, c) + g;
  }

  lemma InvParkIsExact(d: q31, q: q31, s: q31, c: q31)
    requires !Corner(d, q, s, c)
    ensures InvParkQ31(d, q, s, c)
         == (ClampQ31(Kept(d, c) - Kept(q, s)), ClampQ31(Kept(q, c) + Kept(d, s)))
  {
    hide ClampQ31, InvParkQ31;
    InvParkValue(d, q, s, c);
  }

  /** Whenever the rotated pair fits, the inverse brings the vector back. A saturation in
      the inverse only moves the result towards the original. */
  lemma ParkRoundTrip(a: q31, b: q31, s: q31, c: q31, n: int, tolerance: int)
    requires -n <= a <= n && -n <= b <= n
    requires NearUnitCircle(s, c, tolerance)
    requires -0x8000_0000 <= ExactD(a, b, s, c) < 0x8000_0000
    requires -0x8000_0000 <= ExactQ(a, b, s, c) < 0x8000_0000
    requires !Corner(a, b, s, c) && !Corner(ExactD(a, b, s, c), ExactQ(a, b, s, c), s, c)
    ensures var (d, q) := ParkQ31(a, b, s, c);
            var (a', b') := InvParkQ31(d, q, s, c);
            var full, t := 0x4000_0000_0000_0000, n * tolerance;
            && -(4 * full + t) < (a' - a) * full < 4 * full + t
            && -(5 * full + t) < (b' - b) * full < 5 * full + t
  {
    ParkSaturatesExactly(a, b, s, c);
    InvParkIsExact(ExactD(a, b, s, c), ExactQ(a, b, s, c), s, c);
    RotationError(a, b, s, c, n, tolerance);
  }

  /** Half-scale vectors and a sine-cosine pair within a sixteenth of the unit circle meet those
      conditions: neither transform saturates, and no product truncates. */
  lemma HalfScaleFits(a: q31, b: q31, s: q31, c: q31)
    requires -0x4000_0000 <= a <= 0x4000_0000 && -0x4000_0000 <= b <= 0x4000_0000
    requires NearUnitCircle(s, c, 0x400_0000_0000_0000)
    ensures var d, q := ExactD(a, b, s, c), ExactQ(a, b, s, c);
            && -0x8000_0000 < d < 0x8000_0000 && -0x8000_0000 < q < 0x8000_0000
            && ParkQ31(a, b, s, c) == (d, q)
            && InvParkQ31(d, q, s, c) == (Kept(d, c) - Kept(q, s), Kept(q, c) + Kept(d, s))
  {
    var d, q := ExactD(a, b, s, c), ExactQ(a, b, s, c);
    RotatedPairFits(a, b, s, c);
    ParkSaturatesExactly(a, b, s, c);
    RotationError(a, b, s, c, 0x4000_0000, 0x400_0000_0000_0000);
    InvParkIsExact(d, q, s, c);
  }

  lemma RotatedPairFits(a: q31, b: q31, s: q31, c: q31)
    requires -0x4000_0000 <= a <= 0x4000_0000 && -0x4000_0000 <= b <= 0x4000_0000
    requires NearUnitCircle(s, c, 0x400_0000_0000_0000)
    ensures -0x8000_0000 < ExactD(a, b, s, c) < 0x8000_0000
    ensures -0x8000_0000 < ExactQ(a, b, s, c) < 0x8000_0000
  {
    OneCoordinateIsSmall(s, c);
    var small, large := 0x6000_0000, 0x8000_0000;
    if -small < s < small {
      ProductBound(b, s, 0x4000_0000, small);
      ProductBound(a, s, 0x4000_0000, small);
      ProductBound(a, c, 0x4000_0000, large);
      ProductBound(b, c, 0x4000_0000, large);
    } else {
      ProductBound(b, s, 0x4000_0000, large);
      ProductBound(a, s, 0x4000_0000, large);
      ProductBound(a, c, 0x4000_0000, small);
      ProductBound(b, c, 0x4000_0000, small);
    }
  }

  lemma OneCoordinateIsSmall(s: q31, c: q31)
    requires NearUnitCircle(s, c, 0x400_0000_0000_0000)
    ensures -0x6000_0000 < s < 0x6000_0000 || -0x6000_0000 < c < 0x6000_0000
  {
    LargeSquare(s);
    LargeSquare(c);
  }

  lemma LargeSquare(x: int)
    ensures !(-0x6000_0000 < x < 0x6000_0000) ==> x * x >= 0x2400_0000_0000_0000
  {
    if x >= 0x6000_0000 {
      MulMonotone(0x6000_0000, x, x);
      MulMonotone(0x6000_0000, x, 0x6000_0000);
    } else if x <= -0x6000_0000 {
      MulMonotone(0x6000_0000, -x, -x);
      MulMonotone(0x6000_0000, -x, 0x6000_0000);
      assert (-x) * (-x) == x * x;
    }
  }

  /** With a half-scale vector and a sine-cosine pair as close to the unit circle as rounding
      to 31 bits leaves it: within 4 and 5 LSBs. */
  lemma HalfScaleRoundTrip(a: q31, b: q31, s: q31, c: q31)
    requires -0x4000_0000 <= a <= 0x4000_0000 && -0x4000_0000 <= b <= 0x4000_0000
    requires NearUnitCircle(s, c, 0x1_0000_0000)
    ensures var (d, q) := ParkQ31(a, b, s, c);
            var (a', b') := InvParkQ31(d, q, s, c);
            -4 <= a' - a <= 4 && -5 <= b' - b <= 5
  {
    hide Kept, ParkQ31, InvParkQ31;
    HalfScaleFits(a, b, s, c);
    ParkRoundTrip(a, b, s, c, 0x4000_0000, 0x1_0000_0000);
  }
}
