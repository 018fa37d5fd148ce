/** arm_bilinear_interp_q7, against two applications of the one-dimensional function. */
module BilinearInterp {
  import opened Arith
  import opened FixedPoint
  import LI = LinearInterp

  /** A row-major table. */
  datatype Table = Table(numRows: nat, numCols: nat, data: seq<q7>)

  /** The guard of the code: X, which runs along a row, is held against the number of rows,
      and Y against the number of columns. */
  predicate Rejected(t: Table, X: q31, Y: q31) {
    var rI, cI := X / 0x10_0000, Y / 0x10_0000;
    rI < 0 || rI > t.numRows - 1 || cI < 0 || cI > t.numCols - 1
  }

  /** The four entries round the point are in the table. */
  predicate CellReadable(t: Table, X: q31, Y: q31) {
    var rI, cI := X / 0x10_0000, Y / 0x10_0000;
    0 <= rI && 0 <= cI && rI + 1 + t.numCols * (cI + 1) < |t.data|
  }

  function BilinearQ7(t: Table, X: q31, Y: q31): q7
    requires Rejected(t, X, Y) || CellReadable(t, X, Y)
  {
    if Rejected(t, X, Y) then 0
    else
      var rI, cI := X / 0x10_0000, Y / 0x10_0000;
      CellIndex(t.numCols, cI);
      CellAt(t, rI + t.numCols * cI, rI + t.numCols * (cI + 1), X % 0x10_0000, Y % 0x10_0000)
  }

  function CellAt(t: Table, base: int, below: int, xf: int, yf: int): q7
    requires 0 <= base < |t.data| - 1 && 0 <= below < |t.data| - 1
  {
    CellValue(t.data[base], t.data[base + 1], t.data[below], t.data[below + 1], xf, yf)
  }

  lemma CellIndex(numCols: nat, cI: int)
    requires 0 <= cI
    ensures 0 <= numCols * cI <= numCols * (cI + 1)
  {
    MulMonotone(0, cI, numCols);
    MulMonotone(cI, cI + 1, numCols);
  }

  /** The four weighted products, 32-bit inside and 64-bit outside. */
  function CellValue(x1: q7, x2: q7, y1: q7, y2: q7, xf: int, yf: int): q7 {
    var acc := ToQ31(x1 * (0xF_FFFF - xf)) * (0xF_FFFF - yf)
             + ToQ31(x2 * (0xF_FFFF - yf)) * xf
             + ToQ31(y1 * (0xF_FFFF - xf)) * yf
             + ToQ31(y2 * yf) * xf;
    ToQ7(acc / 0x100_0000_0000)
  }

  /** The table has all four neighbours of the point. */
  predicate Interior(t: Table, X: q31, Y: q31) {
    && |t.data| == t.numRows * t.numCols
    && 0 <= X && X / 0x10_0000 + 1 < t.numCols
    && 0 <= Y && Y / 0x10_0000 + 1 < t.numRows
  }

  /** Row `r` as a table of its own. */
  function Row(t: Table, r: nat): (row: seq<q7>)
    requires |t.data| == t.numRows * t.numCols && r < t.numRows
    ensures |row| == t.numCols
  {
    CellIndex(t.numCols, r);
    MulMonotone(r + 1, t.numRows, t.numCols);
    t.data[t.numCols * r..t.numCols * (r + 1)]
  }

  /** Entry in row `r`, column `c`, and where the flat table keeps it. */
  function At(t: Table, r: nat, c: nat): q7
    requires |t.data| == t.numRows * t.numCols && r < t.numRows && c < t.numCols
  {
    Row(t, r)[c]
  }

  lemma FlatIndex(t: Table, r: nat, c: nat)
    requires |t.data| == t.numRows * t.numCols && r < t.numRows && c < t.numCols
    ensures 0 <= c + t.numCols * r < |t.data|
    ensures t.data[c + t.numCols * r] == At(t, r, c)
  {
    CellIndex(t.numCols, r);
    MulMonotone(r + 1, t.numRows, t.numCols);
    assert t.numCols * (r + 1) == t.numCols * r + t.numCols;
  }

  lemma InteriorIsReadable(t: Table, X: q31, Y: q31)
    requires Interior(t, X, Y)
    ensures CellReadable(t, X, Y)
  {
    FlatIndex(t, Y / 0x10_0000 + 1, X / 0x10_0000 + 1);
  }

  // -------------------------------------------------------------------------
  // One cell
  // -------------------------------------------------------------------------

  /** Numerator of a blend along one axis. */
  function Blend(a: int, b: int, f: int): int {
    a * (0xF_FFFF - f) + b * f
  }

  lemma BlendBetween(a: int, b: int, f: int, lo: int, hi: int)
    requires lo <= a <= hi && lo <= b <= hi && 0 <= f <= 0xF_FFFF
    ensures lo * 0xF_FFFF <= Blend(a, b, f) <= hi * 0xF_FFFF
  {
    MulMonotone(lo, a, 0xF_FFFF - f);
    MulMonotone(a, hi, 0xF_FFFF - f);
    MulMonotone(lo, b, f);
    MulMonotone(b, hi, f);
    assert Blend(lo, lo, f) == lo * 0xF_FFFF && Blend(hi, hi, f) == hi * 0xF_FFFF;
  }

  /** No cast truncates: the cell's value is the blend in Y of the blends in X. */
  lemma CellIsNestedBlend(x1: q7, x2: q7, y1: q7, y2: q7, xf: int, yf: int)
    requires 0 <= xf < 0x10_0000 && 0 <= yf < 0x10_0000
    ensures CellValue(x1, x2, y1, y2, xf, yf)
         == Blend(Blend(x1, x2, xf), Blend(y1, y2, xf), yf) / 0x100_0000_0000
  {
    ProductIsQ31(x1, 0xF_FFFF - xf);
    ProductIsQ31(x2, 0xF_FFFF - yf);
    ProductIsQ31(y1, 0xF_FFFF - xf);
    ProductIsQ31(y2, yf);
    NestedProducts(x1, x2, y1, y2, xf, yf);
    NestedBlendRange(x1, x2, y1, y2, xf, yf, -0x80, 0x7F);
  }

  lemma ProductIsQ31(y: q7, w: int)
    requires 0 <= w < 0x10_0000
    ensures ToQ31(y * w) == y * w
  {
    ProductBound(y, w, 0x80, 0x10_0000);
    ToQ31Id(y * w);
  }

  lemma NestedProducts(x1: int, x2: int, y1: int, y2: int, u: int, v: int)
    ensures var m := 0xF_FFFF;
            x1 * (m - u) * (m - v) + x2 * (m - v) * u + y1 * (m - u) * v + y2 * v * u
            == Blend(Blend(x1, x2, u), Blend(y1, y2, u), v)
  {
    var m := 0xF_FFFF - v;
    assert Blend(x1, x2, u) * m == x1 * (0xF_FFFF - u) * m + (x2 * u) * m;
    assert (x2 * u) * m == x2 * m * u;
    assert Blend(y1, y2, u) * v == y1 * (0xF_FFFF - u) * v + (y2 * u) * v;
    assert (y2 * u) * v == y2 * v * u;
  }

  lemma NestedBlendRange(x1: int, x2: int, y1: int, y2: int, xf: int, yf: int, lo: int, hi: int)
    requires 0 <= xf < 0x10_0000 && 0 <= yf < 0x10_0000
    requires -0x80 <= lo <= hi < 0x80
    requires lo <= x1 <= hi && lo <= x2 <= hi && lo <= y1 <= hi && lo <= y2 <= hi
    ensures lo - 1 <= Blend(Blend(x1, x2, xf), Blend(y1, y2, xf), yf) / 0x100_0000_0000 <= hi
    ensures lo <= 0 ==> lo <= Blend(Blend(x1, x2, xf), Blend(y1, y2, xf), yf) / 0x100_0000_0000
  {
    BlendBetween(x1, x2, xf, lo, hi);
    BlendBetween(y1, y2, xf, lo, hi);
    BlendBetween(Blend(x1, x2, xf), Blend(y1, y2, xf), yf, lo * 0xF_FFFF, hi * 0xF_FFFF);
  }

  /** Rounding the two X blends first can only lose, and less than one LSB in all. */
  lemma RoundingFirst(a: int, b: int, yf: int)
    requires 0 <= yf < 0x10_0000
    ensures 0 <= Blend(a, b, yf) / 0x100_0000_0000
               - LI.Mix(a / 0x10_0000, b / 0x10_0000, yf) <= 1
  {
    var p, q := a / 0x10_0000, b / 0x10_0000;
    var u, v := a % 0x10_0000, b % 0x10_0000;
    assert a == p * 0x10_0000 + u && b == q * 0x10_0000 + v;
    assert Blend(a, b, yf) == Blend(p, q, yf) * 0x10_0000 + Blend(u, v, yf) by {
      assert (p * 0x10_0000 + u) * (0xF_FFFF - yf)
          == p * (0xF_FFFF - yf) * 0x10_0000 + u * (0xF_FFFF - yf);
      assert (q * 0x10_0000 + v) * yf == q * yf * 0x10_0000 + v * yf;
    }
    BlendBetween(u, v, yf, 0, 0xF_FFFF);
    OneMoreAtMost(Blend(p, q, yf), Blend(u, v, yf));
  }

  lemma OneMoreAtMost(n: int, e: int)
    requires 0 <= e < 0x100_0000_0000
    ensures 0 <= (n * 0x10_0000 + e) / 0x100_0000_0000 - n / 0x10_0000 <= 1
  {
  }

  // -------------------------------------------------------------------------
  // The whole table
  // -------------------------------------------------------------------------

  /** Along X on the two rows round the point, then between the two results along Y, with
      the library's own one-dimensional function at each step. */
  function TwoStep(t: Table, X: q31, Y: q31): q7
    requires Interior(t, X, Y)
  {
    var cI := Y / 0x10_0000;
    var upper := LI.LinearInterpQ7(Row(t, cI), X);
    var lower := LI.LinearInterpQ7(Row(t, cI + 1), X);
    LI.LinearInterpQ7([upper, lower], Y % 0x10_0000)
  }

  lemma AlongRow(t: Table, r: nat, X: q31)
    requires |t.data| == t.numRows * t.numCols && r < t.numRows
    requires 0 <= X && X / 0x10_0000 + 1 < t.numCols
    ensures var c := X / 0x10_0000;
            LI.LinearInterpQ7(Row(t, r), X) == LI.Mix(At(t, r, c), At(t, r, c + 1), X % 0x10_0000)
  {
    LI.Q7IsInterp(Row(t, r), X);
  }

  lemma TwoStepValue(t: Table, X: q31, Y: q31)
    requires Interior(t, X, Y)
    ensures var c, r := X / 0x10_0000, Y / 0x10_0000;
            var xf, yf := X % 0x10_0000, Y % 0x10_0000;
            TwoStep(t, X, Y) == LI.Mix(LI.Mix(At(t, r, c), At(t, r, c + 1), xf),
                                       LI.Mix(At(t, r + 1, c), At(t, r + 1, c + 1), xf), yf)
  {
    hide At, LI.LinearInterpQ7, LI.Mix;
    AlongRow(t, Y / 0x10_0000, X);
    AlongRow(t, Y / 0x10_0000 + 1, X);
    AcrossPair(LI.LinearInterpQ7(Row(t, Y / 0x10_0000), X),
               LI.LinearInterpQ7(Row(t, Y / 0x10_0000 + 1), X), Y % 0x10_0000);
  }

  lemma AcrossPair(upper: q7, lower: q7, yf: int)
    requires 0 <= yf < 0x10_0000
    ensures LI.LinearInterpQ7([upper, lower], yf) == LI.Mix(upper, lower, yf)
  {
    LI.Q7IsInterp([upper, lower], yf);
    QuotientIs(yf, 0x10_0000, 0);
  }

  /** The double blend of the corners of the point's cell. */
  function CornerBlend(t: Table, X: q31, Y: q31): int
    requires Interior(t, X, Y)
  {
    var c, r, xf, yf := X / 0x10_0000, Y / 0x10_0000, X % 0x10_0000, Y % 0x10_0000;
    Blend(Blend(At(t, r, c), At(t, r, c + 1), xf), Blend(At(t, r + 1, c), At(t, r + 1, c + 1), xf), yf)
  }

  lemma CellAtCorners(t: Table, r: nat, c: nat, xf: int, yf: int)
    requires |t.data| == t.numRows * t.numCols && r + 1 < t.numRows && c + 1 < t.numCols
    requires 0 <= xf < 0x10_0000 && 0 <= yf < 0x10_0000
    ensures var base, below := c + t.numCols * r, c + t.numCols * (r + 1);
            && 0 <= base < |t.data| - 1 && 0 <= below < |t.data| - 1
            && CellAt(t, base, below, xf, yf)
               == Blend(Blend(At(t, r, c), At(t, r, c + 1), xf),
                        Blend(At(t, r + 1, c), At(t, r + 1, c + 1), xf), yf) / 0x100_0000_0000
  {
    FlatIndex(t, r, c);
    FlatIndex(t, r, c + 1);
    FlatIndex(t, r + 1, c);
    FlatIndex(t, r + 1, c + 1);
    CellIsNestedBlend(At(t, r, c), At(t, r, c + 1), At(t, r + 1, c), At(t, r + 1, c + 1), xf, yf);
  }

  lemma BilinearValue(t: Table, X: q31, Y: q31)
    requires Interior(t, X, Y) && !Rejected(t, X, Y)
    ensures CellReadable(t, X, Y)
    ensures BilinearQ7(t, X, Y) == CornerBlend(t, X, Y) / 0x100_0000_0000
  {
    InteriorIsReadable(t, X, Y);
    CellAtCorners(t, Y / 0x10_0000, X / 0x10_0000, X % 0x10_0000, Y % 0x10_0000);
  }

  lemma BilinearIsTwoStep(t: Table, X: q31, Y: q31)
    requires Interior(t, X, Y) && !Rejected(t, X, Y)
    ensures CellReadable(t, X, Y)
    ensures TwoStep(t, X, Y) <= BilinearQ7(t, X, Y) <= TwoStep(t, X, Y) + 1
  {
    BilinearValue(t, X, Y);
    TwoStepValue(t, X, Y);
    var c, r, xf := X / 0x10_0000, Y / 0x10_0000, X % 0x10_0000;
    RoundingFirst(Blend(At(t, r, c), At(t, r, c + 1), xf),
                  Blend(At(t, r + 1, c), At(t, r + 1, c + 1), xf), Y % 0x10_0000);
  }

  /** The extra LSB does occur: at the grid points of a constant table of two or more, the
      bilinear form loses one LSB and the two-step form two. */
  lemma ConstantTable(t: Table, X: q31, Y: q31, v: q7)
    requires Interior(t, X, Y) && X % 0x10_0000 == 0 && Y % 0x10_0000 == 0
    requires 2 <= v && forall i :: 0 <= i < |t.data| ==> t.data[i] == v
    ensures TwoStep(t, X, Y) == v - 2
    ensures !Rejected(t, X, Y) ==> CellReadable(t, X, Y) && BilinearQ7(t, X, Y) == v - 1
  {
    var c, r := X / 0x10_0000, Y / 0x10_0000;
    FlatIndex(t, r, c);
    FlatIndex(t, r, c + 1);
    FlatIndex(t, r + 1, c);
    FlatIndex(t, r + 1, c + 1);
    TwoStepValue(t, X, Y);
    ConstantBlends(v);
    if !Rejected(t, X, Y) {
      BilinearValue(t, X, Y);
    }
  }

  lemma ConstantBlends(v: int)
    requires 2 <= v < 0x80
    ensures LI.Mix(v, v, 0) == v - 1 && LI.Mix(v - 1, v - 1, 0) == v - 2
    ensures Blend(Blend(v, v, 0), Blend(v, v, 0), 0) / 0x100_0000_0000 == v - 1
  {
    var b := Blend(v, v, 0);
    assert b == v * 0xF_FFFF && Blend(b, b, 0) == b * 0xF_FFFF;
  }

  /** The result lies between the four corners, or one LSB below the lowest. */
  lemma BilinearBetweenCorners(t: Table, X: q31, Y: q31, lo: q7, hi: q7)
    requires Interior(t, X, Y) && !Rejected(t, X, Y)
    requires var c, r := X / 0x10_0000, Y / 0x10_0000;
             && lo <= At(t, r, c) <= hi && lo <= At(t, r, c + 1) <= hi
             && lo <= At(t, r + 1, c) <= hi && lo <= At(t, r + 1, c + 1) <= hi
    ensures CellReadable(t, X, Y)
    ensures lo - 1 <= BilinearQ7(t, X, Y) <= hi
    ensures lo <= 0 ==> lo <= BilinearQ7(t, X, Y)
  {
    BilinearValue(t, X, Y);
    var c, r := X / 0x10_0000, Y / 0x10_0000;
    NestedBlendRange(At(t, r, c), At(t, r, c + 1), At(t, r + 1, c), At(t, r + 1, c + 1),
                     X % 0x10_0000, Y % 0x10_0000, lo, hi);
  }

  // -------------------------------------------------------------------------
  // Monotonicity along each axis
  // -------------------------------------------------------------------------

  /** Within a cell, or from a cell to a later one: the weight 0xFFFFF makes the end of a
      cell meet the start of the next. */
  lemma BlendsInOrder(p0: int, p1: int, f: int, q0: int, q1: int, f': int)
    requires p0 <= p1 && q0 <= q1 && 0 <= f <= 0xF_FFFF && 0 <= f' <= 0xF_FFFF
    requires p1 <= q0 || (p0 == q0 && p1 == q1 && f <= f')
    ensures Blend(p0, p1, f) <= Blend(q0, q1, f')
  {
    if p1 <= q0 {
      BlendBetween(p0, p1, f, p0, p1);
      BlendBetween(q0, q1, f', q0, q1);
      MulMonotone(p1, q0, 0xF_FFFF);
    } else {
      MulMonotone(f, f', p1 - p0);
      assert Blend(p0, p1, f) == p0 * 0xF_FFFF + f * (p1 - p0);
      assert Blend(p0, p1, f') == p0 * 0xF_FFFF + f' * (p1 - p0);
    }
  }

  lemma BlendMonotone(a: int, b: int, a': int, b': int, f: int)
    requires a <= a' && b <= b' && 0 <= f <= 0xF_FFFF
    ensures Blend(a, b, f) <= Blend(a', b', f)
  {
    MulMonotone(a, a', 0xF_FFFF - f);
    MulMonotone(b, b', f);
  }

  /** The blend along one row. */
  function Along(row: seq<q7>, X: int): int
    requires 0 <= X && X / 0x10_0000 + 1 < |row|
  {
    Blend(row[X / 0x10_0000], row[X / 0x10_0000 + 1], X % 0x10_0000)
  }

  lemma AlongMonotone(row: seq<q7>, X: int, X': int)
    requires 0 <= X <= X' && X' / 0x10_0000 + 1 < |row| && LI.Nondecreasing(row)
    ensures X / 0x10_0000 <= X' / 0x10_0000
    ensures Along(row, X) <= Along(row, X')
  {
    var c, c' := X / 0x10_0000, X' / 0x10_0000;
    DivMonotone(X, X', 0x10_0000);
    BlendsInOrder(row[c], row[c + 1], X % 0x10_0000, row[c'], row[c' + 1], X' % 0x10_0000);
  }

  lemma CornersAreRows(t: Table, X: q31, Y: q31)
    requires Interior(t, X, Y)
    ensures var r := Y / 0x10_0000;
            CornerBlend(t, X, Y) == Blend(Along(Row(t, r), X), Along(Row(t, r + 1), X), Y % 0x10_0000)
  {
    hide Row;
  }

  /** If the two rows round the points do not fall, neither does the result along X. */
  lemma MonotoneAlongX(t: Table, X: q31, X': q31, Y: q31)
    requires Interior(t, X, Y) && Interior(t, X', Y) && X <= X'
    requires !Rejected(t, X, Y) && !Rejected(t, X', Y)
    requires LI.Nondecreasing(Row(t, Y / 0x10_0000)) && LI.Nondecreasing(Row(t, Y / 0x10_0000 + 1))
    ensures CellReadable(t, X, Y) && CellReadable(t, X', Y)
    ensures BilinearQ7(t, X, Y) <= BilinearQ7(t, X', Y)
  {
    hide Along, Row, CornerBlend, BilinearQ7, Rejected, Blend;
    var r := Y / 0x10_0000;
    AlongMonotone(Row(t, r), X, X');
    AlongMonotone(Row(t, r + 1), X, X');
    BlendMonotone(Along(Row(t, r), X), Along(Row(t, r + 1), X),
                  Along(Row(t, r), X'), Along(Row(t, r + 1), X'), Y % 0x10_0000);
    CornersAreRows(t, X, Y);
    CornersAreRows(t, X', Y);
    BilinearValue(t, X, Y);
    BilinearValue(t, X', Y);
    DivMonotone(CornerBlend(t, X, Y), CornerBlend(t, X', Y), 0x100_0000_0000);
  }

  ghost predicate ColumnNondecreasing(t: Table, c: nat)
    requires |t.data| == t.numRows * t.numCols && c < t.numCols
  {
    forall r: nat, r': nat :: r <= r' < t.numRows ==> At(t, r, c) <= At(t, r', c)
  }

  lemma RowsInOrder(t: Table, r: nat, r': nat, X: q31)
    requires |t.data| == t.numRows * t.numCols && r <= r' < t.numRows
    requires 0 <= X && X / 0x10_0000 + 1 < t.numCols
    requires ColumnNondecreasing(t, X / 0x10_0000) && ColumnNondecreasing(t, X / 0x10_0000 + 1)
    ensures Along(Row(t, r), X) <= Along(Row(t, r'), X)
  {
    hide Row;
    var c := X / 0x10_0000;
    assert At(t, r, c) <= At(t, r', c) && At(t, r, c + 1) <= At(t, r', c + 1);
    BlendMonotone(Row(t, r)[c], Row(t, r)[c + 1], Row(t, r')[c], Row(t, r')[c + 1], X % 0x10_0000);
  }

  /** And likewise along Y for the two columns. */
  lemma MonotoneAlongY(t: Table, X: q31, Y: q31, Y': q31)
    requires Interior(t, X, Y) && Interior(t, X, Y') && Y <= Y'
    requires !Rejected(t, X, Y) && !Rejected(t, X, Y')
    requires ColumnNondecreasing(t, X / 0x10_0000) && ColumnNondecreasing(t, X / 0x10_0000 + 1)
    ensures CellReadable(t, X, Y) && CellReadable(t, X, Y')
    ensures BilinearQ7(t, X, Y) <= BilinearQ7(t, X, Y')
  {
    hide Along, Row, CornerBlend, BilinearQ7, Rejected, Blend, ColumnNondecreasing;
    var r, r' := Y / 0x10_0000, Y' / 0x10_0000;
    DivMonotone(Y, Y', 0x10_0000);
    RowsInOrder(t, r, r + 1, X);
    RowsInOrder(t, r', r' + 1, X);
    if r < r' {
      RowsInOrder(t, r + 1, r', X);
    }
    BlendsInOrder(Along(Row(t, r), X), Along(Row(t, r + 1), X), Y % 0x10_0000,
                  Along(Row(t, r'), X), Along(Row(t, r' + 1), X), Y' % 0x10_0000);
    CornersAreRows(t, X, Y);
    CornersAreRows(t, X, Y');
    BilinearValue(t, X, Y);
    BilinearValue(t, X, Y');
    DivMonotone(CornerBlend(t, X, Y), CornerBlend(t, X, Y'), 0x100_0000_0000);
  }

  // -------------------------------------------------------------------------
  // The guard
  // -------------------------------------------------------------------------

  /** X counts columns and Y rows; the documentation promises zero where either runs out. */
  predicate Outside(t: Table, X: q31, Y: q31) {
    X < 0 || X / 0x10_0000 >= t.numCols || Y < 0 || Y / 0x10_0000 >= t.numRows
  }

  /** The dimension a 12.20 coordinate, with its 2048 indices, can tell apart. */
  function Reachable(dim: nat): nat {
    if dim < 0x800 then dim else 0x800
  }

  /** The guard rejects just the points outside the table exactly on square tables, as far
      as the coordinates reach, and on empty ones. */
  lemma GuardExactly(t: Table)
    ensures (forall X: q31, Y: q31 :: Rejected(t, X, Y) <==> Outside(t, X, Y))
       <==> || Reachable(t.numRows) == Reachable(t.numCols)
            || t.numRows == 0 || t.numCols == 0
  {
    hide Rejected, Outside;
    if Reachable(t.numRows) == Reachable(t.numCols) || t.numRows == 0 || t.numCols == 0 {
      forall X: q31, Y: q31
        ensures Rejected(t, X, Y) <==> Outside(t, X, Y)
      {
        GuardAgrees(t, X, Y);
      }
    } else {
      var X := GuardErrs(t);
      assert Rejected(t, X, 0) != Outside(t, X, 0);
    }
  }

  lemma GuardAgrees(t: Table, X: q31, Y: q31)
    requires Reachable(t.numRows) == Reachable(t.numCols) || t.numRows == 0 || t.numCols == 0
    ensures Rejected(t, X, Y) <==> Outside(t, X, Y)
  {
  }

  /** On every other table some point of the first row is treated wrongly: on a wide table
      one inside reads zero, on a tall one a point outside is answered. */
  lemma GuardErrs(t: Table) returns (X: q31)
    requires Reachable(t.numRows) != Reachable(t.numCols) && 0 < t.numRows && 0 < t.numCols
    ensures t.numRows < t.numCols ==> Rejected(t, X, 0) && !Outside(t, X, 0)
    ensures t.numCols < t.numRows ==> !Rejected(t, X, 0) && Outside(t, X, 0)
  {
    var c := if t.numRows < t.numCols then t.numRows else t.numCols;
    X := c * 0x10_0000;
    QuotientIs(X, 0x10_0000, c);
  }

  /** A rejected point reads zero, whatever the table holds. The bounds are those of the
      code: X against the rows and Y against the columns. */
  lemma RejectedReadsZero(t: Table, X: q31, Y: q31)
    requires X < 0 || X / 0x10_0000 > t.numRows - 1 || Y < 0 || Y / 0x10_0000 > t.numCols - 1
    ensures BilinearQ7(t, X, Y) == 0
  {
  }

  /** On square tables, then, the documentation holds: zero is read at every point outside. */
  lemma SquareOutsideReadsZero(t: Table, X: q31, Y: q31)
    requires t.numRows == t.numCols
    requires X < 0 || X / 0x10_0000 >= t.numCols || Y < 0 || Y / 0x10_0000 >= t.numRows
    ensures BilinearQ7(t, X, Y) == 0
  {
    GuardAgrees(t, X, Y);
    RejectedReadsZero(t, X, Y);
  }

  /** Every other point, inside the table or not, is answered from four entries of the flat
      table, weighted by the two fractions. */
  lemma AnsweredValue(t: Table, X: q31, Y: q31)
    requires 0 <= X && X / 0x10_0000 <= t.numRows - 1 && 0 <= Y && Y / 0x10_0000 <= t.numCols - 1
    requires CellReadable(t, X, Y)
    ensures var x, y, u, v := X / 0x10_0000, Y / 0x10_0000, X % 0x10_0000, Y % 0x10_0000;
            var base, below := x + t.numCols * y, x + t.numCols * (y + 1);
            && 0 <= base < |t.data| - 1 && 0 <= below < |t.data| - 1
            && BilinearQ7(t, X, Y)
               == ((t.data[base] * (0xF_FFFF - u) + t.data[base + 1] * u) * (0xF_FFFF - v)
                   + (t.data[below] * (0xF_FFFF - u) + t.data[below + 1] * u) * v) / 0x100_0000_0000
  {
    hide CellValue;
    var x, y, u, v := X / 0x10_0000, Y / 0x10_0000, X % 0x10_0000, Y % 0x10_0000;
    var base, below := x + t.numCols * y, x + t.numCols * (y + 1);
    CellIndex(t.numCols, y);
    CellIsNestedBlend(t.data[base], t.data[base + 1], t.data[below], t.data[below + 1], u, v);
  }

  /** On a table of two rows and four columns, all hundreds, a point in the middle reads
      zero; */
  lemma GuardRejectsInside()
    ensures var t := Table(2, 4, seq(8, i => 100));
            && Interior(t, 0x20_0000, 0)
            && BilinearQ7(t, 0x20_0000, 0) == 0
            && TwoStep(t, 0x20_0000, 0) == 98
  {
    ConstantTable(Table(2, 4, seq(8, i => 100)), 0x20_0000, 0, 100);
  }

  /** on the same entries as four rows and two columns, a point past the last column is
      answered from the next row. */
  lemma GuardAnswersOutside()
    ensures var t := Table(4, 2, seq(8, i => 100));
            && Outside(t, 0x30_0000, 0) && CellReadable(t, 0x30_0000, 0)
            && BilinearQ7(t, 0x30_0000, 0) == 99
  {
    CellIsNestedBlend(100, 100, 100, 100, 0, 0);
    ConstantBlends(100);
  }
}
