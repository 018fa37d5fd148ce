/** The Q31 Clarke transform and its inverse. */
module Clarke {
  import opened FixedPoint

  function ClarkeQ31(Ia: q31, Ib: q31): (q31, q31) {
    var product1 := ToQ31(Ia * 0x24F3_4E8B / 0x4000_0000);
    var product2 := ToQ31(Ib * 0x49E6_9D16 / 0x4000_0000);
    (Ia, QAdd(product1, product2))
  }

  function InvClarkeQ31(Ialpha: q31, Ibeta: q31): (q31, q31) {
    var product1 := ToQ31(Ialpha * 0x4000_0000 / 0x8000_0000);
    var product2 := ToQ31(Ibeta * 0x6ED9_EBA1 / 0x8000_0000);
    (Ialpha, QSub(product2, product1))
  }

  /** The literals are the documented factors, rounded down: 1/sqrt(3) and twice that in
      2.30, and sqrt(3)/2 in 1.31. */
  lemma Constants()
    ensures 3 * 0x24F3_4E8B * 0x24F3_4E8B <= 0x1000_0000_0000_0000 < 3 * 0x24F3_4E8C * 0x24F3_4E8C
    ensures 0x49E6_9D16 == 2 * 0x24F3_4E8B
    ensures 4 * 0x6ED9_EBA1 * 0x6ED9_EBA1 <= 0xC000_0000_0000_0000 < 4 * 0x6ED9_EBA2 * 0x6ED9_EBA2
  {
  }

  /** The beta coordinate before any cast or saturation. */
  function ExactBeta(Ia: int, Ib: int): int {
    Ia * 0x24F3_4E8B / 0x4000_0000 + Ib * 0x49E6_9D16 / 0x4000_0000
  }

  /** The addition saturates, but the product of Ib by 2/sqrt(3) is narrowed before it:
      the result is the saturated sum exactly while that product fits 32 bits. */
  lemma ClarkeSaturatesExactly(Ia: q31, Ib: q31)
    ensures ClarkeQ31(Ia, Ib).1 == ClampQ31(ExactBeta(Ia, Ib))
       <==> -0x6ED9_EBA1 <= Ib <= 0x6ED9_EBA1
  {
    if -0x6ED9_EBA1 <= Ib <= 0x6ED9_EBA1 {
      var p, q := Ia * 0x24F3_4E8B / 0x4000_0000, Ib * 0x49E6_9D16 / 0x4000_0000;
      ToQ31Id(p);
      ToQ31Id(q);
      QAddQSubSaturate(p, q);
    } else {
      OverrangeFlipsSign(Ia, Ib);
    }
  }

  /** For every pair of phases: the first is passed on, and the second is the saturated sum,
      less or plus 2^32 where its product has wrapped. */
  lemma ClarkeValue(Ia: q31, Ib: q31)
    ensures ClarkeQ31(Ia, Ib).0 == Ia
    ensures ClarkeQ31(Ia, Ib).1
         == ClampQ31(Ia * 0x24F3_4E8B / 0x4000_0000 + Ib * 0x49E6_9D16 / 0x4000_0000
                     - (if Ib > 0x6ED9_EBA1 then 0x1_0000_0000 else 0)
                     + (if Ib < -0x6ED9_EBA1 then 0x1_0000_0000 else 0))
  {
    var p, q := Ia * 0x24F3_4E8B / 0x4000_0000, Ib * 0x49E6_9D16 / 0x4000_0000;
    ProductRanges(Ia, Ib);
    ToQ31Id(p);
    ToQ31Id(q);
    ToQ31Wraps(q);
    QAddQSubSaturate(p, ToQ31(q));
  }

  /** The inverse never truncates a product: its second phase is the saturated difference
      for every pair of coordinates. */
  lemma InvClarkeSaturates(Ialpha: q31, Ibeta: q31)
    ensures InvClarkeQ31(Ialpha, Ibeta).0 == Ialpha
    ensures InvClarkeQ31(Ialpha, Ibeta).1
         == ClampQ31(Ibeta * 0x6ED9_EBA1 / 0x8000_0000 - Ialpha * 0x4000_0000 / 0x8000_0000)
  {
    var u, v := Ibeta * 0x6ED9_EBA1 / 0x8000_0000, Ialpha * 0x4000_0000 / 0x8000_0000;
    ToQ31Id(u);
    ToQ31Id(v);
    QAddQSubSaturate(u, v);
  }

  /** Beyond that, the product wraps by 2^32 and takes the sign of the result with it,
      whatever the other phase is. */
  lemma OverrangeFlipsSign(Ia: q31, Ib: q31)
    ensures Ib > 0x6ED9_EBA1 ==> ClarkeQ31(Ia, Ib).1 < 0 < ExactBeta(Ia, Ib)
    ensures Ib < -0x6ED9_EBA1 ==> ExactBeta(Ia, Ib) < 0 < ClarkeQ31(Ia, Ib).1
  {
    var p, q := Ia * 0x24F3_4E8B / 0x4000_0000, Ib * 0x49E6_9D16 / 0x4000_0000;
    ProductRanges(Ia, Ib);
    ToQ31Id(p);
    ToQ31Wraps(q);
    QAddQSubSaturate(p, ToQ31(q));
  }

  lemma ProductRanges(Ia: q31, Ib: q31)
    ensures -1239850262 <= Ia * 0x24F3_4E8B / 0x4000_0000 <= 1239850262
    ensures Ib > 0x6ED9_EBA1 ==> 0x8000_0000 <= Ib * 0x49E6_9D16 / 0x4000_0000 <= 2479700524
    ensures Ib < -0x6ED9_EBA1 ==> -2479700524 <= Ib * 0x49E6_9D16 / 0x4000_0000 < -0x8000_0000
  {
  }

  /** Wherever the forward transform neither truncates nor saturates, the inverse returns
      the first phase exactly and the second within -3 to +1 LSB. */
  lemma ClarkeRoundTrip(Ia: q31, Ib: q31)
    requires -0x6ED9_EBA1 <= Ib <= 0x6ED9_EBA1
    requires -0x8000_0000 <= ExactBeta(Ia, Ib) < 0x8000_0000
    ensures var (Ialpha, Ibeta) := ClarkeQ31(Ia, Ib);
            var (Ia', Ib') := InvClarkeQ31(Ialpha, Ibeta);
            Ia' == Ia && Ib - 3 <= Ib' <= Ib + 1
  {
    ClarkeSaturatesExactly(Ia, Ib);
    var s := ExactBeta(Ia, Ib);
    BetaError(Ia, Ib);
    InvClarkeSaturates(Ia, s);
  }

  /** The constants of the two transforms are reciprocal to 31 bits: 0x24F34E8B * 0x6ED9EBA1
      falls short of 2^60 by 470745493. */
  lemma BetaError(a: int, b: int)
    requires -0x8000_0000 <= a < 0x8000_0000
    requires -0x8000_0000 <= ExactBeta(a, b) < 0x8000_0000
    ensures var s := ExactBeta(a, b);
            b - 3 <= s * 0x6ED9_EBA1 / 0x8000_0000 - a * 0x4000_0000 / 0x8000_0000 <= b + 1
  {
    var s := ExactBeta(a, b);
    var k := 470745493;
    assert 0x24F3_4E8B * 0x6ED9_EBA1 == 0x1000_0000_0000_0000 - k;
    assert 0x49E6_9D16 == 2 * 0x24F3_4E8B;
    var m := a + 2 * b;
    // s * 2^30 is at most m * 0x24F34E8B, and less than 2 * 2^30 short of it
    assert m * 0x24F3_4E8B - 0x8000_0000 < s * 0x4000_0000 <= m * 0x24F3_4E8B;
    assert s * 0x4000_0000 * 0x6ED9_EBA1 <= m * 0x24F3_4E8B * 0x6ED9_EBA1;
    assert m * 0x24F3_4E8B * 0x6ED9_EBA1 == m * 0x1000_0000_0000_0000 - m * k;
    assert -3719550792 <= m <= 3719550792;
    assert -0x1900_0000_0000_0000 <= m * k <= 0x1900_0000_0000_0000;
  }

  /** Currents of at most half scale are always in that range. */
  lemma HalfScaleIsSafe(Ia: q31, Ib: q31)
    requires -0x4000_0000 <= Ia <= 0x4000_0000 && -0x4000_0000 <= Ib <= 0x4000_0000
    ensures -0x8000_0000 <= ExactBeta(Ia, Ib) < 0x8000_0000
    ensures ClarkeQ31(Ia, Ib).1 == ExactBeta(Ia, Ib)
  {
    ClarkeSaturatesExactly(Ia, Ib);
  }
}
