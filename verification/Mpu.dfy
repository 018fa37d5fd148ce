/** ARM_MPU_Load: a region table pushed through the alias window of the MPU in chunks of
    four rows. Register behaviour follows section B3.5 (PMSAv7) of the Armv7-M Architecture
    Reference Manual. */
module Mpu {
  import opened Arith
  import opened Bits
  import opened FixedPoint

  const MPU_TYPE_RALIASES := 4

  // The fields of RBAR: address in bits 31..5, VALID in bit 4, region number below.

  function AddrField(v: u32): u32 {
    v - v % 0x20
  }

  predicate ValidBit(v: u32) {
    v / 0x10 % 2 == 1
  }

  function RegionField(v: u32): u32 {
    v % 0x10
  }

  /** Bit by bit, these are the masks of the register definition: 0xFFFF_FFE0, 0x10, 0xF. */
  lemma RbarMasks(v: u32, i: nat)
    ensures Bit(AddrField(v), i) == if i < 5 then 0 else Bit(v, i)
    ensures ValidBit(v) <==> Bit(v, 4) == 1
    ensures Bit(RegionField(v), i) == if i < 4 then Bit(v, i) else 0
  {
    hide Bit;
    assert Pow2(4) == 0x10 && Pow2(5) == 0x20;
    BitMod(v, 4, i);
    BitShiftRight(v, 4, 0);
    BitOfHalf(v / 0x10, 0);
    assert AddrField(v) == v / 0x20 * 0x20;
    BitShiftLeft(v / 0x20, 5, i);
    if i >= 5 {
      BitShiftRight(v, 5, i - 5);
    }
  }

  /** One row of a configuration table. */
  datatype Region = Region(RBAR: u32, RASR: u32)

  /** What software wrote, aliases resolved to the register they stand for. */
  datatype RegWrite = ToRbar(value: u32) | ToRasr(value: u32)

  /** The region number register and, per region, base address and attributes. */
  datatype RegionFile = RegionFile(rnr: u32, base: map<u32, u32>, attr: map<u32, u32>)

  /** With VALID set a base-address write also selects the region it names; without, it
      goes to the region selected before. An attribute write goes to the selected region. */
  function Commit(f: RegionFile, w: RegWrite): RegionFile {
    match w
    case ToRbar(v) =>
      var r := if ValidBit(v) then RegionField(v) else f.rnr;
      RegionFile(r, f.base[r := AddrField(v)], f.attr)
    case ToRasr(v) =>
      f.(attr := f.attr[f.rnr := v])
  }

  function CommitAll(f: RegionFile, ws: seq<RegWrite>): RegionFile {
    if ws == [] then f else Commit(CommitAll(f, ws[..|ws| - 1]), ws[|ws| - 1])
  }

  lemma {:induction false} CommitConcat(f: RegionFile, a: seq<RegWrite>, b: seq<RegWrite>)
    ensures CommitAll(f, a + b) == CommitAll(CommitAll(f, a), b)
    decreases |b|
  {
    if b == [] {
      assert a + b == a;
    } else {
      assert (a + b)[..|a + b| - 1] == a + b[..|b| - 1];
      CommitConcat(f, a, b[..|b| - 1]);
    }
  }

  /** The writes of programming the rows one by one, in order. */
  function RowWrites(rows: seq<Region>): (ws: seq<RegWrite>)
    ensures |ws| == 2 * |rows|
  {
    if rows == [] then []
    else
      var last := rows[|rows| - 1];
      RowWrites(rows[..|rows| - 1]) + [ToRbar(last.RBAR), ToRasr(last.RASR)]
  }

  lemma {:induction false} RowWritesConcat(a: seq<Region>, b: seq<Region>)
    ensures RowWrites(a + b) == RowWrites(a) + RowWrites(b)
    decreases |b|
  {
    if b == [] {
      assert a + b == a;
    } else {
      assert (a + b)[..|a + b| - 1] == a + b[..|b| - 1];
      RowWritesConcat(a, b[..|b| - 1]);
    }
  }

  /** Word `k` of the rows as they lie in memory. */
  function WordAt(rows: seq<Region>, k: nat): u32
    requires k < 2 * |rows|
  {
    if k % 2 == 0 then rows[k / 2].RBAR else rows[k / 2].RASR
  }

  lemma {:induction false} RowWritesAt(rows: seq<Region>, k: nat)
    requires k < 2 * |rows|
    ensures RowWrites(rows)[k] == if k % 2 == 0 then ToRbar(WordAt(rows, k)) else ToRasr(WordAt(rows, k))
    decreases |rows|
  {
    var n := |rows| - 1;
    if 2 * n <= k {
    } else {
      RowWritesAt(rows[..n], k);
    }
  }

  /** The peripheral: its registers and the log of the writes it has seen. */
  class Peripheral {
    var file: RegionFile
    ghost var log: seq<RegWrite>

    /** A store `k` words past RBAR. The window holds RBAR, RASR and three alias pairs,
        eight words in all; beyond it there is nothing to write. */
    method Store(k: nat, value: u32)
      requires k < 2 * MPU_TYPE_RALIASES
      modifies this
      ensures var w := if k % 2 == 0 then ToRbar(value) else ToRasr(value);
              file == Commit(old(file), w) && log == old(log) + [w]
      ensures k % 2 == 0 && value / 0x10 % 2 == 1 ==>
                file == RegionFile(value % 0x10, old(file.base)[value % 0x10 := value / 0x20 * 0x20], old(file.attr))
      ensures k % 2 == 0 && value / 0x10 % 2 == 0 ==>
                file == RegionFile(old(file.rnr), old(file.base)[old(file.rnr) := value / 0x20 * 0x20], old(file.attr))
      ensures k % 2 == 1 ==>
                file == RegionFile(old(file.rnr), old(file.base), old(file.attr)[old(file.rnr) := value])
    {
      if k % 2 == 0 {
        var r := if ValidBit(value) then RegionField(value) else file.rnr;
        file := file.(rnr := r, base := file.base[r := AddrField(value)]);
        log := log + [ToRbar(value)];
      } else {
        file := file.(attr := file.attr[file.rnr := value]);
        log := log + [ToRasr(value)];
      }
    }

    method SetRegion(rbar: u32, rasr: u32)
      modifies this
      ensures log == old(log) + [ToRbar(rbar), ToRasr(rasr)]
      ensures log == old(log) + RowWrites([Region(rbar, rasr)])
      ensures file == CommitAll(old(file), RowWrites([Region(rbar, rasr)]))
    {
      ghost var was := file;
      Store(0, rbar);
      Store(1, rasr);
      SingleRow(was, Region(rbar, rasr));
    }

    /** Copy the first `len` words of the rows to the window, one store at a time. */
    method OrderedMemcpy(rows: seq<Region>, len: nat)
      requires len <= 2 * MPU_TYPE_RALIASES && len == 2 * |rows|
      modifies this
      ensures log == old(log) + RowWrites(rows)
      ensures file == CommitAll(old(file), RowWrites(rows))
    {
      ghost var ws := RowWrites(rows);
      var i := 0;
      while i < len
        invariant 0 <= i <= len
        invariant log == old(log) + ws[..i]
        invariant file == CommitAll(old(file), ws[..i])
      {
        RowWritesAt(rows, i);
        assert ws[..i + 1][..i] == ws[..i] && ws[..i + 1] == ws[..i] + [ws[i]];
        Store(i, WordAt(rows, i));
        i := i + 1;
      }
      assert ws[..len] == ws;
    }

    /** Chunks of four rows through the window mean exactly what the rows mean one by one. */
    method Load(table: array<Region>, count: nat)
      requires count <= table.Length
      modifies this
      ensures log == old(log) + RowWrites(table[..count])
      ensures file == CommitAll(old(file), RowWrites(table[..count]))
      ensures |log| == |old(log)| + 2 * count
      ensures forall i :: 0 <= i < count ==>
                && log[|old(log)| + 2 * i] == ToRbar(table[i].RBAR)
                && log[|old(log)| + 2 * i + 1] == ToRasr(table[i].RASR)
    {
      hide CommitAll, RowWrites;
      ghost var f, rows := file, table[..];
      NoRows(f);
      var at := 0;
      var cnt := count;
      assert rows[..0] == [] && rows[..count] == table[..count];
      while cnt > MPU_TYPE_RALIASES
        invariant 0 <= at && 0 <= cnt && at + cnt == count
        invariant log == old(log) + RowWrites(rows[..at])
        invariant file == CommitAll(f, RowWrites(rows[..at]))
      {
        Append(f, rows, at, MPU_TYPE_RALIASES);
        assert table[at..at + MPU_TYPE_RALIASES] == rows[at..at + MPU_TYPE_RALIASES];
        OrderedMemcpy(table[at..at + MPU_TYPE_RALIASES], MPU_TYPE_RALIASES * 2);
        at := at + MPU_TYPE_RALIASES;
        cnt := cnt - MPU_TYPE_RALIASES;
      }
      Append(f, rows, at, cnt);
      assert table[at..at + cnt] == rows[at..at + cnt];
      OrderedMemcpy(table[at..at + cnt], cnt * 2);
      RowWritesPairs(rows[..count]);
    }
  }

  /** The writes come in pairs, base before attributes, in the order of the rows. */
  lemma RowWritesPairs(rows: seq<Region>)
    ensures forall i :: 0 <= i < |rows| ==>
              RowWrites(rows)[2 * i] == ToRbar(rows[i].RBAR) && RowWrites(rows)[2 * i + 1] == ToRasr(rows[i].RASR)
  {
    forall i | 0 <= i < |rows|
      ensures RowWrites(rows)[2 * i] == ToRbar(rows[i].RBAR) && RowWrites(rows)[2 * i + 1] == ToRasr(rows[i].RASR)
    {
      RowWritesAt(rows, 2 * i);
      RowWritesAt(rows, 2 * i + 1);
    }
  }

  lemma NoRows(f: RegionFile)
    ensures RowWrites([]) == [] && CommitAll(f, []) == f
  {
  }

  lemma SingleRow(f: RegionFile, row: Region)
    ensures RowWrites([row]) == [ToRbar(row.RBAR), ToRasr(row.RASR)]
    ensures CommitAll(f, RowWrites([row])) == Commit(Commit(f, ToRbar(row.RBAR)), ToRasr(row.RASR))
  {
    assert [row][..0] == [];
    TwoWrites(f, ToRbar(row.RBAR), ToRasr(row.RASR));
  }

  lemma TwoWrites(f: RegionFile, v: RegWrite, w: RegWrite)
    ensures CommitAll(f, [v, w]) == Commit(Commit(f, v), w)
  {
    assert [v, w][..1] == [v] && [v][..0] == [];
    assert CommitAll(f, [v]) == Commit(f, v);
  }

  lemma Append(f: RegionFile, table: seq<Region>, at: nat, n: nat)
    requires at + n <= |table|
    ensures RowWrites(table[..at + n]) == RowWrites(table[..at]) + RowWrites(table[at..at + n])
    ensures CommitAll(f, RowWrites(table[..at + n]))
         == CommitAll(CommitAll(f, RowWrites(table[..at])), RowWrites(table[at..at + n]))
  {
    assert table[..at + n] == table[..at] + table[at..at + n];
    RowWritesConcat(table[..at], table[at..at + n]);
    CommitConcat(f, RowWrites(table[..at]), RowWrites(table[at..at + n]));
  }

  // -------------------------------------------------------------------------
  // What a loaded table leaves in the region file
  // -------------------------------------------------------------------------

  /** The region a row programs: the one it names, or the last one named before it. */
  function Target(rnr: u32, rows: seq<Region>, i: nat): u32
    requires i < |rows|
  {
    if ValidBit(rows[i].RBAR) then RegionField(rows[i].RBAR)
    else if i == 0 then rnr
    else Target(rnr, rows, i - 1)
  }

  lemma {:induction false} TargetOfPrefix(rnr: u32, rows: seq<Region>, n: nat, i: nat)
    requires i < n <= |rows|
    ensures Target(rnr, rows[..n], i) == Target(rnr, rows, i)
    decreases i
  {
    if i == 0 {
    } else {
      TargetOfPrefix(rnr, rows, n, i - 1);
    }
  }

  /** The last row sets base and attributes of its target, and nothing else. */
  lemma {:induction false} LastRow(f: RegionFile, rows: seq<Region>)
    requires rows != []
    ensures var n := |rows| - 1;
            var before, t := CommitAll(f, RowWrites(rows[..n])), Target(f.rnr, rows, n);
            CommitAll(f, RowWrites(rows))
            == RegionFile(t, before.base[t := AddrField(rows[n].RBAR)], before.attr[t := rows[n].RASR])
    decreases |rows|
  {
    var n := |rows| - 1;
    assert rows[..n + 1] == rows && rows[n..n + 1] == [rows[n]];
    Append(f, rows, n, 1);
    SingleRow(CommitAll(f, RowWrites(rows[..n])), rows[n]);
    if n > 0 {
      LastRow(f, rows[..n]);
      TargetOfPrefix(f.rnr, rows, n, n - 1);
    } else {
      assert rows[..n] == [];
    }
  }

  /** Last writer wins, for rows with and without VALID alike: the last row to program a
      region decides its base and attributes. */
  lemma {:induction false} LastWriterWins(f: RegionFile, rows: seq<Region>, i: nat)
    requires i < |rows|
    requires forall j :: i < j < |rows| ==> Target(f.rnr, rows, j) != Target(f.rnr, rows, i)
    ensures var f', r := CommitAll(f, RowWrites(rows)), Target(f.rnr, rows, i);
            && r in f'.base && f'.base[r] == rows[i].RBAR / 0x20 * 0x20
            && r in f'.attr && f'.attr[r] == rows[i].RASR
    decreases |rows|
  {
    var n := |rows| - 1;
    LastRow(f, rows);
    if i == n {
    } else {
      TargetOfPrefix(f.rnr, rows, n, i);
      forall j | i < j < n
        ensures Target(f.rnr, rows[..n], j) != Target(f.rnr, rows[..n], i)
      {
        TargetOfPrefix(f.rnr, rows, n, j);
      }
      LastWriterWins(f, rows[..n], i);
      assert Target(f.rnr, rows, n) != Target(f.rnr, rows, i);
    }
  }

  /** A region no row programs keeps what it had. */
  lemma {:induction false} OthersKept(f: RegionFile, rows: seq<Region>, r: u32)
    requires forall j :: 0 <= j < |rows| ==> Target(f.rnr, rows, j) != r
    ensures var f' := CommitAll(f, RowWrites(rows));
            && (r in f'.base <==> r in f.base) && (r in f.base ==> f'.base[r] == f.base[r])
            && (r in f'.attr <==> r in f.attr) && (r in f.attr ==> f'.attr[r] == f.attr[r])
    decreases |rows|
  {
    if rows == [] {
    } else {
      var n := |rows| - 1;
      LastRow(f, rows);
      forall j | 0 <= j < n
        ensures Target(f.rnr, rows[..n], j) != r
      {
        TargetOfPrefix(f.rnr, rows, n, j);
      }
      OthersKept(f, rows[..n], r);
      assert Target(f.rnr, rows, n) != r;
    }
  }

  // -------------------------------------------------------------------------
  // Tables built with ARM_MPU_RBAR
  // -------------------------------------------------------------------------

  /** The three masked fields or-ed together; they share no bits. */
  function ArmMpuRbar(region: u32, baseAddress: u32): u32 {
    AddrField(baseAddress) + RegionField(region) + 0x10
  }

  lemma RbarFields(region: u32, baseAddress: u32)
    ensures var v := ArmMpuRbar(region, baseAddress);
            && v == baseAddress / 0x20 * 0x20 + 0x10 + region % 0x10
            && ValidBit(v) && RegionField(v) == region % 0x10 && AddrField(v) == baseAddress / 0x20 * 0x20
  {
  }

  /** Every row names its own region. */
  ghost predicate NamesRegions(rows: seq<Region>) {
    forall i :: 0 <= i < |rows| ==> ValidBit(rows[i].RBAR)
  }

  ghost predicate DistinctRegions(rows: seq<Region>) {
    forall i, j :: 0 <= i < j < |rows| ==>
      RegionField(rows[i].RBAR) != RegionField(rows[j].RBAR)
  }

  /** If every row names a different region, the order of the table is immaterial: a table
      with the same rows leaves the same regions. */
  lemma OrderIsImmaterial(f: RegionFile, rows: seq<Region>, rows': seq<Region>)
    requires NamesRegions(rows) && DistinctRegions(rows)
    requires NamesRegions(rows') && DistinctRegions(rows')
    requires forall row :: row in rows <==> row in rows'
    ensures var g, g' := CommitAll(f, RowWrites(rows)), CommitAll(f, RowWrites(rows'));
            g.base == g'.base && g.attr == g'.attr
  {
    hide CommitAll, RowWrites;
    var g, g' := CommitAll(f, RowWrites(rows)), CommitAll(f, RowWrites(rows'));
    forall r: u32
      ensures (r in g.base <==> r in g'.base) && (r in g.base && r in g'.base ==> g.base[r] == g'.base[r])
      ensures (r in g.attr <==> r in g'.attr) && (r in g.attr && r in g'.attr ==> g.attr[r] == g'.attr[r])
    {
      SameRegion(f, rows, rows', r);
    }
    assert g.base.Keys == g'.base.Keys && g.attr.Keys == g'.attr.Keys;
  }

  lemma SameRegion(f: RegionFile, rows: seq<Region>, rows': seq<Region>, r: u32)
    requires NamesRegions(rows) && DistinctRegions(rows)
    requires NamesRegions(rows') && DistinctRegions(rows')
    requires forall row :: row in rows <==> row in rows'
    ensures var g, g' := CommitAll(f, RowWrites(rows)), CommitAll(f, RowWrites(rows'));
            && (r in g.base <==> r in g'.base) && (r in g.base && r in g'.base ==> g.base[r] == g'.base[r])
            && (r in g.attr <==> r in g'.attr) && (r in g.attr && r in g'.attr ==> g.attr[r] == g'.attr[r])
  {
    if i :| 0 <= i < |rows| && RegionField(rows[i].RBAR) == r {
      assert rows[i] in rows';
      var j :| 0 <= j < |rows'| && rows'[j] == rows[i];
      LastWriterWins(f, rows, i);
      LastWriterWins(f, rows', j);
    } else {
      forall j | 0 <= j < |rows'|
        ensures Target(f.rnr, rows', j) != r
      {
        assert rows'[j] in rows;
      }
      OthersKept(f, rows, r);
      OthersKept(f, rows', r);
    }
  }
}
