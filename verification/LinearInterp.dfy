/** Table interpolation on 12.20 inputs: arm_linear_interp_q7, _q15 and _q31. */
module LinearInterp {
  import opened Arith
  import opened FixedPoint

  /** The blend the Q7 and Q15 functions compute; its weights add up to one LSB less
      than one, so that the end of a segment meets the start of the next. */
  function Mix(y0: int, y1: int, f: int): int {
    (y0 * (0xF_FFFF - f) + y1 * f) / 0x10_0000
  }

  function LinearInterpQ15(table: seq<q15>, x: q31): q15
    requires 1 <= |table|
  {
    var index := x / 0x10_0000;
    if index >= |table| - 1 then table[|table| - 1]
    else if index < 0 then table[0]
    else ToQ15(Mix(table[index], table[index + 1], x % 0x10_0000))
  }

  /** The Q7 function works in 32-bit arithmetic throughout. */
  function LinearInterpQ7(table: seq<q7>, x: q31): q7
    requires 1 <= |table|
  {
    if x < 0 then table[0]
    else
      var index := x / 0x10_0000 % 0x1000;
      if index >= |table| - 1 then table[|table| - 1]
      else SegmentQ7(table[index], table[index + 1], x % 0x10_0000)
  }

  function SegmentQ7(y0: q7, y1: q7, fract: int): q7 {
    var y := ToQ31(y0 * (0xF_FFFF - fract));
    ToQ7(ToQ31(y + ToQ31(y1 * fract)) / 0x10_0000)
  }

  /** Both without their casts, over any table of small enough integers. */
  function Interp(table: seq<int>, x: int): int
    requires 1 <= |table|
  {
    var index := x / 0x10_0000;
    if index >= |table| - 1 then table[|table| - 1]
    else if index < 0 then table[0]
    else Mix(table[index], table[index + 1], x % 0x10_0000)
  }

  // -------------------------------------------------------------------------
  // One segment
  // -------------------------------------------------------------------------

  /** In the interior the result is the exact chord less y0/2^20, rounded down, and it
      leaves the interval of its neighbours by at most one LSB, downwards. */
  lemma MixBetween(y0: int, y1: int, f: int)
    requires -0x8000 <= y0 < 0x8000 && -0x8000 <= y1 < 0x8000 && 0 <= f < 0x10_0000
    ensures Mix(y0, y1, f) == (y0 * 0x10_0000 + (y1 - y0) * f - y0) / 0x10_0000
    ensures (if y0 < y1 then y0 else y1) - 1 <= Mix(y0, y1, f) <= (if y0 < y1 then y1 else y0)
  {
    var n := y0 * (0xF_FFFF - f) + y1 * f;
    assert n == y0 * 0xF_FFFF + (y1 - y0) * f;
    if y0 < y1 {
      MulMonotone(0, f, y1 - y0);
      MulMonotone(f, 0xF_FFFF, y1 - y0);
      assert y0 * 0xF_FFFF <= n <= y1 * 0xF_FFFF;
    } else {
      MulMonotone(0, f, y0 - y1);
      MulMonotone(f, 0xF_FFFF, y0 - y1);
      assert (y1 - y0) * f == -(f * (y0 - y1));
      assert y1 * 0xF_FFFF <= n <= y0 * 0xF_FFFF;
    }
  }

  lemma MixMonotone(y0: int, y1: int, f: int, f': int)
    requires y0 <= y1 && f <= f'
    ensures Mix(y0, y1, f) <= Mix(y0, y1, f')
  {
    var n, n' := y0 * (0xF_FFFF - f) + y1 * f, y0 * (0xF_FFFF - f') + y1 * f';
    assert n == y0 * 0xF_FFFF + f * (y1 - y0) && n' == y0 * 0xF_FFFF + f' * (y1 - y0);
    MulMonotone(f, f', y1 - y0);
    DivMonotone(n, n', 0x10_0000);
  }

  lemma MixEnds(y0: int, y1: int)
    ensures Mix(y0, y1, 0) == y0 * 0xF_FFFF / 0x10_0000
    ensures Mix(y0, y1, 0xF_FFFF) == y1 * 0xF_FFFF / 0x10_0000
  {
  }

  /** The casts of the Q15 and Q7 functions never truncate. */
  lemma Q15IsInterp(table: seq<q15>, x: q31)
    requires 1 <= |table|
    ensures LinearInterpQ15(table, x) == Interp(table, x)
  {
    var index := x / 0x10_0000;
    if 0 <= index < |table| - 1 {
      MixBetween(table[index], table[index + 1], x % 0x10_0000);
      MixFits(table[index], table[index + 1], x % 0x10_0000, 0x8000);
      ToQ15Id(Mix(table[index], table[index + 1], x % 0x10_0000));
    }
  }

  lemma MixFits(y0: int, y1: int, f: int, m: int)
    requires -m <= y0 < m <= 0x8000 && -m <= y1 < m && 0 <= f < 0x10_0000
    ensures -m * 0x10_0000 <= y0 * (0xF_FFFF - f) <= m * 0x10_0000
    ensures -m * 0x10_0000 <= y1 * f <= m * 0x10_0000
    ensures -m * 0x10_0000 <= y0 * (0xF_FFFF - f) + y1 * f
    ensures -m <= Mix(y0, y1, f) < m
  {
    ProductBound(y0, 0xF_FFFF - f, m, 0x10_0000);
    ProductBound(y1, f, m, 0x10_0000);
    MulMonotone(-m, y0, 0xF_FFFF - f);
    MulMonotone(-m, y1, f);
    assert -m * (0xF_FFFF - f) + -m * f == -m * 0xF_FFFF;
    MixBetween(y0, y1, f);
  }

  lemma Q7IsInterp(table: seq<q7>, x: q31)
    requires 1 <= |table|
    ensures LinearInterpQ7(table, x) == Interp(table, x)
  {
    var index := x / 0x10_0000;
    if 0 <= x {
      QuotientIs(index, 0x1000, 0);
      if index < |table| - 1 {
        Q7SegmentFits(table[index], table[index + 1], x % 0x10_0000);
      }
    }
  }

  lemma Q7SegmentFits(y0: q7, y1: q7, f: int)
    requires 0 <= f < 0x10_0000
    ensures SegmentQ7(y0, y1, f) == Mix(y0, y1, f)
  {
    MixFits(y0, y1, f, 0x80);
    ToQ31Id(y0 * (0xF_FFFF - f));
    ToQ31Id(y1 * f);
    ToQ31Id(y0 * (0xF_FFFF - f) + y1 * f);
  }

  // -------------------------------------------------------------------------
  // The whole axis
  // -------------------------------------------------------------------------

  ghost predicate Nondecreasing(table: seq<int>) {
    forall i, j :: 0 <= i <= j < |table| ==> table[i] <= table[j]
  }

  ghost predicate Small(table: seq<int>) {
    forall i :: 0 <= i < |table| ==> -0x8000 <= table[i] < 0x8000
  }

  /** In the interior the Q15 result is the chord less y0/2^20, rounded down. */
  lemma ChordErrorQ15(table: seq<q15>, x: q31)
    requires 0 <= x && x / 0x10_0000 + 1 < |table|
    ensures var i, f := x / 0x10_0000, x % 0x10_0000;
            var chord := table[i] * 0x10_0000 + (table[i + 1] - table[i]) * f;
            LinearInterpQ15(table, x) * 0x10_0000
            <= chord - table[i] < (LinearInterpQ15(table, x) + 1) * 0x10_0000
  {
    Q15IsInterp(table, x);
    MixBetween(table[x / 0x10_0000], table[x / 0x10_0000 + 1], x % 0x10_0000);
  }

  /** The same for Q7. */
  lemma ChordErrorQ7(table: seq<q7>, x: q31)
    requires 0 <= x && x / 0x10_0000 + 1 < |table|
    ensures var i, f := x / 0x10_0000, x % 0x10_0000;
            var chord := table[i] * 0x10_0000 + (table[i + 1] - table[i]) * f;
            LinearInterpQ7(table, x) * 0x10_0000
            <= chord - table[i] < (LinearInterpQ7(table, x) + 1) * 0x10_0000
  {
    Q7IsInterp(table, x);
    MixBetween(table[x / 0x10_0000], table[x / 0x10_0000 + 1], x % 0x10_0000);
  }

  /** Outside the table the functions return its ends. */
  lemma OutsideTable(t7: seq<q7>, t15: seq<q15>, t31: seq<q31>, x: q31)
    requires 1 <= |t7| && 1 <= |t15| && 1 <= |t31|
    ensures x < 0 ==> LinearInterpQ7(t7, x) == t7[0] && LinearInterpQ15(t15, x) == t15[0]
                      && LinearInterpQ31(t31, x) == t31[0]
    ensures (|t7| - 1) * 0x10_0000 <= x && 0 <= x ==> LinearInterpQ7(t7, x) == t7[|t7| - 1]
    ensures (|t15| - 1) * 0x10_0000 <= x ==> LinearInterpQ15(t15, x) == t15[|t15| - 1]
    ensures (|t31| - 1) * 0x10_0000 <= x ==> LinearInterpQ31(t31, x) == t31[|t31| - 1]
  {
    if 0 <= x {
      QuotientIs(x / 0x10_0000, 0x1000, 0);
    }
  }

  /** A nondecreasing table gives a nondecreasing function of x >= 0, across every segment
      boundary and into the clamped end. */
  lemma InterpMonotone(table: seq<int>, x: int, x': int)
    requires 1 <= |table| && Small(table) && Nondecreasing(table)
    requires 0 <= x <= x'
    ensures Interp(table, x) <= Interp(table, x')
  {
    var i, i' := x / 0x10_0000, x' / 0x10_0000;
    DivMonotone(x, x', 0x10_0000);
    var last := |table| - 1;
    if i < last {
      var f := x % 0x10_0000;
      if i' == i {
        MixMonotone(table[i], table[i + 1], f, x' % 0x10_0000);
      } else {
        MixMonotone(table[i], table[i + 1], f, 0xF_FFFF);
        MixEnds(table[i], table[i + 1]);
        if i' < last {
          DivMonotone(table[i + 1] * 0xF_FFFF, table[i'] * 0xF_FFFF, 0x10_0000);
          MixEnds(table[i'], table[i' + 1]);
          MixMonotone(table[i'], table[i' + 1], 0, x' % 0x10_0000);
        } else {
          assert table[i + 1] * 0xF_FFFF / 0x10_0000 <= table[i + 1];
        }
      }
    }
  }

  lemma MonotoneQ15(table: seq<q15>, x: q31, x': q31)
    requires 1 <= |table| && Nondecreasing(table) && 0 <= x <= x'
    ensures LinearInterpQ15(table, x) <= LinearInterpQ15(table, x')
  {
    Q15IsInterp(table, x);
    Q15IsInterp(table, x');
    InterpMonotone(table, x, x');
  }

  lemma MonotoneQ7(table: seq<q7>, x: q31, x': q31)
    requires 1 <= |table| && Nondecreasing(table) && 0 <= x <= x'
    ensures LinearInterpQ7(table, x) <= LinearInterpQ7(table, x')
  {
    Q7IsInterp(table, x);
    Q7IsInterp(table, x');
    InterpMonotone(table, x, x');
  }

  /** Below zero the function is clamped to the first value, but at zero it is already one
      LSB short of a positive one: over the whole axis it is monotone exactly when the
      table has a single entry or does not start positive. */
  lemma MonotoneEverywhereExactly(table: seq<q15>)
    requires 1 <= |table| && Nondecreasing(table)
    ensures (forall x: q31, x': q31 :: x <= x' ==> LinearInterpQ15(table, x) <= LinearInterpQ15(table, x'))
       <==> |table| == 1 || table[0] <= 0
  {
    hide LinearInterpQ15;
    forall x: q31
      ensures LinearInterpQ15(table, x) == Interp(table, x)
    {
      Q15IsInterp(table, x);
    }
    InterpMonotoneExactly(table);
  }

  /** The Q7 function is no different. */
  lemma MonotoneEverywhereExactlyQ7(table: seq<q7>)
    requires 1 <= |table| && Nondecreasing(table)
    ensures (forall x: q31, x': q31 :: x <= x' ==> LinearInterpQ7(table, x) <= LinearInterpQ7(table, x'))
       <==> |table| == 1 || table[0] <= 0
  {
    hide LinearInterpQ7;
    forall x: q31
      ensures LinearInterpQ7(table, x) == Interp(table, x)
    {
      Q7IsInterp(table, x);
    }
    InterpMonotoneExactly(table);
  }

  lemma InterpMonotoneExactly(table: seq<int>)
    requires 1 <= |table| && Small(table) && Nondecreasing(table)
    ensures (forall x: q31, x': q31 :: x <= x' ==> Interp(table, x) <= Interp(table, x'))
       <==> |table| == 1 || table[0] <= 0
  {
    StartsLow(table);
    if |table| == 1 || table[0] <= 0 {
      forall x: q31, x': q31 | x <= x'
        ensures Interp(table, x) <= Interp(table, x')
      {
        if 0 <= x {
          InterpMonotone(table, x, x');
        } else if 0 <= x' {
          InterpMonotone(table, 0, x');
        }
      }
    } else {
      assert Interp(table, -1) == table[0];
    }
  }

  lemma StartsLow(table: seq<int>)
    requires 1 <= |table| && Small(table)
    ensures Interp(table, 0) == if |table| > 1 && table[0] > 0 then table[0] - 1 else table[0]
  {
    if |table| > 1 {
      MixEnds(table[0], table[1]);
    }
  }

  // -------------------------------------------------------------------------
  // Q31: two products, each shifted down by 32 and the sum doubled
  // -------------------------------------------------------------------------

  function LinearInterpQ31(table: seq<q31>, x: q31): q31
    requires 1 <= |table|
  {
    var index := x / 0x10_0000;
    if index >= |table| - 1 then table[|table| - 1]
    else if index < 0 then table[0]
    else SegmentQ31(table[index], table[index + 1], x % 0x10_0000 * 0x800)
  }

  function SegmentQ31(y0: q31, y1: q31, fract: int): q31 {
    var y := ToQ31(y0 * (0x7FFF_FFFF - fract) / 0x1_0000_0000);
    ToQ31(2 * ToQ31(y + ToQ31(y1 * fract / 0x1_0000_0000)))
  }

  /** In the interior the Q31 result is twice the sum of the two shifted products. */
  lemma InteriorQ31(table: seq<q31>, x: q31)
    requires 0 <= x && x / 0x10_0000 + 1 < |table|
    ensures var i, fract := x / 0x10_0000, x % 0x10_0000 * 0x800;
            LinearInterpQ31(table, x)
            == 2 * (table[i] * (0x7FFF_FFFF - fract) / 0x1_0000_0000 + table[i + 1] * fract / 0x1_0000_0000)
  {
    hide SegmentQ31;
    SegmentQ31Accuracy(table[x / 0x10_0000], table[x / 0x10_0000 + 1], x % 0x10_0000 * 0x800);
  }

  /** The numerator of the chord, scaled by 2^31. */
  function ChordQ31(y0: int, y1: int, fract: int): int {
    y0 * (0x7FFF_FFFF - fract) + y1 * fract
  }

  lemma HalfProduct(y: q31, w: int)
    requires 0 <= w < 0x8000_0000
    ensures -((w + 1) / 2) <= y * w / 0x1_0000_0000 <= w / 2
    ensures w % 2 == 0 && w > 0 ==> y * w / 0x1_0000_0000 < w / 2
  {
    MulMonotone(-0x8000_0000, y, w);
    MulMonotone(y, 0x7FFF_FFFF, w);
  }

  /** No cast wraps, for any two table values: the halves are small enough even where two
      downward roundings meet the most negative entry. The result is the chord to within
      four LSBs, always from below, and always even. */
  lemma SegmentQ31Accuracy(y0: q31, y1: q31, fract: int)
    requires 0 <= fract < 0x8000_0000 && fract % 2 == 0
    ensures var r := SegmentQ31(y0, y1, fract);
            && r == 2 * (y0 * (0x7FFF_FFFF - fract) / 0x1_0000_0000 + y1 * fract / 0x1_0000_0000)
            && r * 0x8000_0000 <= ChordQ31(y0, y1, fract) < (r + 4) * 0x8000_0000
            && r % 2 == 0
  {
    var w := 0x7FFF_FFFF - fract;
    HalfProduct(y0, w);
    HalfProduct(y1, fract);
    AddHalves(y0 * w, y1 * fract, w, fract);
  }

  lemma AddHalves(p: int, q: int, w: int, w': int)
    requires w + w' == 0x7FFF_FFFF && w' % 2 == 0
    requires -((w + 1) / 2) <= p / 0x1_0000_0000 <= w / 2
    requires -((w' + 1) / 2) <= q / 0x1_0000_0000 <= w' / 2
    ensures var u, v := p / 0x1_0000_0000, q / 0x1_0000_0000;
            var r := 2 * (u + v);
            && ToQ31(2 * ToQ31(ToQ31(u) + ToQ31(v))) == r
            && r * 0x8000_0000 <= p + q < (r + 4) * 0x8000_0000
            && r % 2 == 0
  {
    var u, v := p / 0x1_0000_0000, q / 0x1_0000_0000;
    assert -0x4000_0000 <= u + v < 0x4000_0000;
    ToQ31Id(u);
    ToQ31Id(v);
    ToQ31Id(u + v);
    ToQ31Id(2 * (u + v));
    assert p == 0x1_0000_0000 * u + p % 0x1_0000_0000;
    assert q == 0x1_0000_0000 * v + q % 0x1_0000_0000;
  }

  lemma ChordMonotone(y0: int, y1: int, fract: int, fract': int)
    requires y0 <= y1 && fract <= fract'
    ensures ChordQ31(y0, y1, fract) <= ChordQ31(y0, y1, fract')
  {
    assert ChordQ31(y0, y1, fract) == y0 * 0x7FFF_FFFF + fract * (y1 - y0);
    assert ChordQ31(y0, y1, fract') == y0 * 0x7FFF_FFFF + fract' * (y1 - y0);
    MulMonotone(fract, fract', y1 - y0);
  }

  /** The exact value behind each result: the chord, or the clamped entry. */
  function BehindQ31(table: seq<q31>, x: q31): int
    requires 1 <= |table|
  {
    var index := x / 0x10_0000;
    if index >= |table| - 1 then table[|table| - 1] * 0x7FFF_FFFF
    else if index < 0 then table[0] * 0x7FFF_FFFF
    else ChordQ31(table[index], table[index + 1], x % 0x10_0000 * 0x800)
  }

  lemma BehindQ31Monotone(table: seq<q31>, x: q31, x': q31)
    requires 1 <= |table| && Nondecreasing(table) && x <= x'
    ensures BehindQ31(table, x) <= BehindQ31(table, x')
  {
    var i, i' := x / 0x10_0000, x' / 0x10_0000;
    DivMonotone(x, x', 0x10_0000);
    var last := |table| - 1;
    if 0 <= i < last {
      var f := x % 0x10_0000 * 0x800;
      if i' == i {
        ChordMonotone(table[i], table[i + 1], f, x' % 0x10_0000 * 0x800);
      } else {
        ChordMonotone(table[i], table[i + 1], f, 0x7FFF_FFFF);
        if i' < last {
          ChordMonotone(table[i'], table[i' + 1], 0, x' % 0x10_0000 * 0x800);
        }
      }
    } else if i < 0 && 0 <= i' < last {
      ChordMonotone(table[i'], table[i' + 1], 0, x' % 0x10_0000 * 0x800);
    }
  }

  /** Each result is within four LSBs below the value behind it; clamped ones are exact. */
  lemma ResultNearBehind(table: seq<q31>, x: q31)
    requires 1 <= |table|
    ensures var r, b := LinearInterpQ31(table, x), BehindQ31(table, x);
            if 0 <= x / 0x10_0000 < |table| - 1
            then r * 0x8000_0000 <= b < (r + 4) * 0x8000_0000 && r % 2 == 0
            else b == r * 0x7FFF_FFFF
  {
    var i := x / 0x10_0000;
    if 0 <= i < |table| - 1 {
      SegmentQ31Accuracy(table[i], table[i + 1], x % 0x10_0000 * 0x800);
    }
  }

  /** Over x >= 0, a nondecreasing table is interpolated monotonically to within two LSBs. */
  lemma NearlyMonotoneQ31(table: seq<q31>, x: q31, x': q31)
    requires 1 <= |table| && Nondecreasing(table) && 0 <= x <= x'
    ensures LinearInterpQ31(table, x) <= LinearInterpQ31(table, x') + 2
  {
    DivMonotone(x, x', 0x10_0000);
    BehindQ31Monotone(table, x, x');
    ResultNearBehind(table, x);
    ResultNearBehind(table, x');
    var last := |table| - 1;
    if x / 0x10_0000 < last && x' / 0x10_0000 < last {
      EvenGap(LinearInterpQ31(table, x), LinearInterpQ31(table, x'),
              BehindQ31(table, x), BehindQ31(table, x'));
    } else if x / 0x10_0000 < last {
      ClampedGap(LinearInterpQ31(table, x), table[last], BehindQ31(table, x));
    }
  }

  /** Over the whole axis it takes four, because the clamped value below zero is exact. */
  lemma NearlyMonotoneEverywhereQ31(table: seq<q31>, x: q31, x': q31)
    requires 1 <= |table| && Nondecreasing(table) && x <= x'
    ensures LinearInterpQ31(table, x) <= LinearInterpQ31(table, x') + 4
  {
    BehindQ31Monotone(table, x, x');
    ResultNearBehind(table, x);
    ResultNearBehind(table, x');
  }

  lemma EvenGap(r: int, r': int, b: int, b': int)
    requires r * 0x8000_0000 <= b <= b' < (r' + 4) * 0x8000_0000
    requires r % 2 == 0 && r' % 2 == 0
    ensures r <= r' + 2
  {
    assert r < r' + 4;
  }

  lemma ClampedGap(r: int, y: q31, b: int)
    requires r * 0x8000_0000 <= b <= y * 0x7FFF_FFFF
    ensures r <= y + 1
  {
    assert (r - y) * 0x8000_0000 <= 0x8000_0000;
  }

  /** Neither bound is slack: a constant table can come out two LSBs lower in mid-segment
      than at its start, */
  lemma NotMonotoneQ31()
    ensures LinearInterpQ31([3, 3], 0) == 2 && LinearInterpQ31([3, 3], 0x8_0000) == 0
  {
    hide SegmentQ31;
    assert 3 * 0x7FFF_FFFF / 0x1_0000_0000 == 1;
    assert 3 * 0x3FFF_FFFF / 0x1_0000_0000 == 0 == 3 * 0x4000_0000 / 0x1_0000_0000;
    assert 0x8_0000 % 0x10_0000 * 0x800 == 0x4000_0000;
    SegmentQ31Accuracy(3, 3, 0);
    SegmentQ31Accuracy(3, 3, 0x4000_0000);
  }

  /** and four lower than below zero. */
  lemma FourBelowClamped()
    ensures LinearInterpQ31([4098, 4098], -1) == 4098 && LinearInterpQ31([4098, 4098], 0x7FF) == 4094
  {
    hide SegmentQ31;
    assert 4098 * 0x7FC0_07FF / 0x1_0000_0000 == 2044 && 4098 * 0x3F_F800 / 0x1_0000_0000 == 3;
    SegmentQ31Accuracy(4098, 4098, 0x3F_F800);
  }
}
