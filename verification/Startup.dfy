/** The default start-up code: copy the initialised sections into place, then clear the
    rest. Memory is a flat array of words, and the two linker tables are sequences. */
module Startup {
  import opened Arith
  import opened FixedPoint

  datatype CopyEntry = CopyEntry(src: nat, dest: nat, wlen: nat)
  datatype ZeroEntry = ZeroEntry(dest: nat, wlen: nat)

  predicate CopyFits(e: CopyEntry, size: nat) {
    e.src + e.wlen <= size && e.dest + e.wlen <= size
  }

  predicate ZeroFits(e: ZeroEntry, size: nat) {
    e.dest + e.wlen <= size
  }

  ghost predicate TablesFit(copies: seq<CopyEntry>, zeros: seq<ZeroEntry>, size: nat) {
    && (forall i :: 0 <= i < |copies| ==> CopyFits(copies[i], size))
    && (forall i :: 0 <= i < |zeros| ==> ZeroFits(zeros[i], size))
  }

  // -------------------------------------------------------------------------
  // What the loops compute, overlaps included
  // -------------------------------------------------------------------------

  /** The first `n` words of an entry, each read after the ones before it were written. */
  function CopyWords(m: seq<u32>, e: CopyEntry, n: nat): (r: seq<u32>)
    requires CopyFits(e, |m|) && n <= e.wlen
    ensures |r| == |m|
  {
    if n == 0 then m
    else
      var m' := CopyWords(m, e, n - 1);
      m'[e.dest + n - 1 := m'[e.src + n - 1]]
  }

  function CopyAll(m: seq<u32>, copies: seq<CopyEntry>): (r: seq<u32>)
    requires forall i :: 0 <= i < |copies| ==> CopyFits(copies[i], |m|)
    ensures |r| == |m|
    decreases |copies|
  {
    if copies == [] then m
    else
      var n := |copies| - 1;
      CopyWords(CopyAll(m, copies[..n]), copies[n], copies[n].wlen)
  }

  function ZeroWords(m: seq<u32>, e: ZeroEntry, n: nat): (r: seq<u32>)
    requires ZeroFits(e, |m|) && n <= e.wlen
    ensures |r| == |m|
  {
    if n == 0 then m else ZeroWords(m, e, n - 1)[e.dest + n - 1 := 0]
  }

  function ZeroAll(m: seq<u32>, zeros: seq<ZeroEntry>): (r: seq<u32>)
    requires forall i :: 0 <= i < |zeros| ==> ZeroFits(zeros[i], |m|)
    ensures |r| == |m|
    decreases |zeros|
  {
    if zeros == [] then m
    else
      var n := |zeros| - 1;
      ZeroWords(ZeroAll(m, zeros[..n]), zeros[n], zeros[n].wlen)
  }

  method Start(memory: array<u32>, copies: seq<CopyEntry>, zeros: seq<ZeroEntry>)
    requires TablesFit(copies, zeros, memory.Length)
    modifies memory
    ensures memory[..] == ZeroAll(CopyAll(old(memory[..]), copies), zeros)
  {
    ghost var m := memory[..];
    assert copies[..0] == [];
    for t := 0 to |copies|
      invariant memory[..] == CopyAll(m, copies[..t])
    {
      ghost var before := memory[..];
      for i := 0 to copies[t].wlen
        invariant memory[..] == CopyWords(before, copies[t], i)
      {
        memory[copies[t].dest + i] := memory[copies[t].src + i];
      }
      assert copies[..t + 1][..t] == copies[..t];
    }
    assert copies[..|copies|] == copies && zeros[..0] == [];
    m := memory[..];
    for t := 0 to |zeros|
      invariant memory[..] == ZeroAll(m, zeros[..t])
    {
      ghost var before := memory[..];
      for i := 0 to zeros[t].wlen
        invariant memory[..] == ZeroWords(before, zeros[t], i)
      {
        memory[zeros[t].dest + i] := 0;
      }
      assert zeros[..t + 1][..t] == zeros[..t];
    }
    assert zeros[..|zeros|] == zeros;
  }

  // -------------------------------------------------------------------------
  // One entry
  // -------------------------------------------------------------------------

  predicate Within(a: nat, start: nat, len: nat) {
    start <= a < start + len
  }

  lemma {:induction false} CopyWordsKeeps(m: seq<u32>, e: CopyEntry, n: nat, a: nat)
    requires CopyFits(e, |m|) && n <= e.wlen && a < |m| && !Within(a, e.dest, n)
    ensures CopyWords(m, e, n)[a] == m[a]
  {
    if n == 0 {
    } else {
      CopyWordsKeeps(m, e, n - 1, a);
    }
  }

  /** The upward copy only goes wrong when the destination starts inside the source. */
  predicate CopiesForward(e: CopyEntry) {
    !(e.src < e.dest < e.src + e.wlen)
  }

  lemma {:induction false} CopyWordsCopies(m: seq<u32>, e: CopyEntry, n: nat, k: nat)
    requires CopyFits(e, |m|) && k < n <= e.wlen && CopiesForward(e)
    ensures CopyWords(m, e, n)[e.dest + k] == m[e.src + k]
  {
    if k < n - 1 {
      CopyWordsCopies(m, e, n - 1, k);
    } else {
      CopyWordsKeeps(m, e, n - 1, e.src + k);
    }
  }

  predicate Delivered(m: seq<u32>, e: CopyEntry, k: nat)
    requires CopyFits(e, |m|) && k < e.wlen
  {
    CopyWords(m, e, e.wlen)[e.dest + k] == m[e.src + k]
  }

  /** An entry delivers its source, whatever memory holds, exactly when it copies forward. */
  lemma CopyEntryExactly(e: CopyEntry, size: nat)
    requires CopyFits(e, size)
    ensures (forall m: seq<u32>, k: nat | |m| == size && k < e.wlen :: Delivered(m, e, k))
       <==> CopiesForward(e)
  {
    if CopiesForward(e) {
      forall m: seq<u32>, k: nat | |m| == size && k < e.wlen
        ensures Delivered(m, e, k)
      {
        CopyWordsCopies(m, e, e.wlen, k);
      }
    } else {
      var m: seq<u32> := seq(size, i => if i == e.src then 1 else 0);
      var gap := e.dest - e.src;
      // the first word lands on what the word `gap` further on is still to be read from
      FirstWordSmears(m, e, gap + 1);
      CopyWordsStays(m, e, gap + 1, e.wlen, gap);
      assert !Delivered(m, e, gap);
    }
  }

  /** When it does start inside, the words before it are repeated over and over. */
  lemma {:induction false} OverlapRepeats(m: seq<u32>, e: CopyEntry, n: nat, k: nat)
    requires CopyFits(e, |m|) && e.src < e.dest && k < n <= e.wlen
    ensures CopyWords(m, e, n)[e.dest + k] == m[e.src + k % (e.dest - e.src)]
  {
    var gap := e.dest - e.src;
    Repeats(k, gap);
    if k < n - 1 {
      OverlapRepeats(m, e, n - 1, k);
    } else if k < gap {
      CopyWordsKeeps(m, e, n - 1, e.src + k);
    } else {
      OverlapRepeats(m, e, n - 1, k - gap);
    }
  }

  lemma FirstWordSmears(m: seq<u32>, e: CopyEntry, n: nat)
    requires CopyFits(e, |m|) && !CopiesForward(e) && n == e.dest - e.src + 1
    ensures CopyWords(m, e, n)[e.dest + n - 1] == m[e.src]
  {
    CopyWordsStays(m, e, 1, n - 1, 0);
    assert CopyWords(m, e, 0) == m;
    assert CopyWords(m, e, 1)[e.dest] == m[e.src];
  }

  lemma {:induction false} CopyWordsStays(m: seq<u32>, e: CopyEntry, n: nat, n': nat, k: nat)
    requires CopyFits(e, |m|) && k < n <= n' <= e.wlen
    ensures CopyWords(m, e, n')[e.dest + k] == CopyWords(m, e, n)[e.dest + k]
    decreases n'
  {
    if n == n' {
    } else {
      CopyWordsStays(m, e, n, n' - 1, k);
    }
  }

  lemma {:induction false} ZeroWordsValue(m: seq<u32>, e: ZeroEntry, n: nat, a: nat)
    requires ZeroFits(e, |m|) && n <= e.wlen && a < |m|
    ensures ZeroWords(m, e, n)[a] == if Within(a, e.dest, n) then 0 else m[a]
  {
    if n == 0 {
    } else {
      ZeroWordsValue(m, e, n - 1, a);
    }
  }

  // -------------------------------------------------------------------------
  // The whole tables
  // -------------------------------------------------------------------------

  lemma {:induction false} CopyAllKeeps(m: seq<u32>, copies: seq<CopyEntry>, from: nat, a: nat)
    requires forall i :: 0 <= i < |copies| ==> CopyFits(copies[i], |m|)
    requires from <= |copies| && a < |m|
    requires forall j :: from <= j < |copies| ==> !Within(a, copies[j].dest, copies[j].wlen)
    ensures CopyAll(m, copies)[a] == CopyAll(m, copies[..from])[a]
    decreases |copies|
  {
    var n := |copies| - 1;
    if from == |copies| {
      assert copies[..from] == copies;
    } else {
      CopyAllKeeps(m, copies[..n], from, a);
      assert copies[..n][..from] == copies[..from];
      CopyWordsKeeps(CopyAll(m, copies[..n]), copies[n], copies[n].wlen, a);
    }
  }

  lemma {:induction false} ZeroAllValue(m: seq<u32>, zeros: seq<ZeroEntry>, a: nat)
    requires forall i :: 0 <= i < |zeros| ==> ZeroFits(zeros[i], |m|)
    requires a < |m|
    ensures ZeroAll(m, zeros)[a]
         == if exists i :: 0 <= i < |zeros| && Within(a, zeros[i].dest, zeros[i].wlen) then 0 else m[a]
    decreases |zeros|
  {
    if zeros == [] {
    } else {
      var n := |zeros| - 1;
      ZeroAllValue(m, zeros[..n], a);
      ZeroWordsValue(ZeroAll(m, zeros[..n]), zeros[n], zeros[n].wlen, a);
      if i :| 0 <= i < |zeros| && Within(a, zeros[i].dest, zeros[i].wlen) {
        assert i < n ==> zeros[..n][i] == zeros[i];
      } else {
        assert forall i :: 0 <= i < n ==> zeros[..n][i] == zeros[i];
      }
    }
  }

  /** The address sets of two stretches of memory share nothing. */
  predicate Apart(start: nat, len: nat, start': nat, len': nat) {
    len == 0 || len' == 0 || start + len <= start' || start' + len' <= start
  }

  /** What the linker owes entry `i`: no earlier copy spoils its source, no later copy and
      no clearing spoils its destination. Sources may overlap one another freely, and so
      may cleared sections. */
  ghost predicate EntrySafe(copies: seq<CopyEntry>, zeros: seq<ZeroEntry>, i: nat)
    requires i < |copies|
  {
    var e := copies[i];
    && CopiesForward(e)
    && (forall j :: 0 <= j < i ==> Apart(copies[j].dest, copies[j].wlen, e.src, e.wlen))
    && (forall j :: i < j < |copies| ==> Apart(copies[j].dest, copies[j].wlen, e.dest, e.wlen))
    && (forall j :: 0 <= j < |zeros| ==> Apart(zeros[j].dest, zeros[j].wlen, e.dest, e.wlen))
  }

  /** After start-up every safe section holds its initial source, */
  lemma SectionCopied(m: seq<u32>, copies: seq<CopyEntry>, zeros: seq<ZeroEntry>, i: nat, k: nat)
    requires TablesFit(copies, zeros, |m|)
    requires i < |copies| && k < copies[i].wlen && EntrySafe(copies, zeros, i)
    ensures ZeroAll(CopyAll(m, copies), zeros)[copies[i].dest + k] == m[copies[i].src + k]
  {
    hide CopyAll, ZeroAll, EntrySafe;
    SourceIntact(m, copies, zeros, i, k);
    DestinationKept(m, copies, zeros, i, k);
  }

  /** No earlier copy reaches the source, */
  lemma SourceIntact(m: seq<u32>, copies: seq<CopyEntry>, zeros: seq<ZeroEntry>, i: nat, k: nat)
    requires TablesFit(copies, zeros, |m|)
    requires i < |copies| && k < copies[i].wlen && EntrySafe(copies, zeros, i)
    ensures CopyAll(m, copies[..i + 1])[copies[i].dest + k] == m[copies[i].src + k]
  {
    hide CopyWords, CopyAll;
    var e := copies[i];
    forall j | 0 <= j < i
      ensures !Within(e.src + k, copies[..i][j].dest, copies[..i][j].wlen)
    {
      assert Apart(copies[j].dest, copies[j].wlen, e.src, e.wlen);
    }
    CopyAllKeeps(m, copies[..i], 0, e.src + k);
    FirstEntries(m, copies, i);
    CopyWordsCopies(CopyAll(m, copies[..i]), e, e.wlen, k);
  }

  lemma FirstEntries(m: seq<u32>, copies: seq<CopyEntry>, i: nat)
    requires forall j :: 0 <= j < |copies| ==> CopyFits(copies[j], |m|)
    requires i < |copies|
    ensures CopyAll(m, copies[..i][..0]) == m
    ensures CopyAll(m, copies[..i + 1]) == CopyWords(CopyAll(m, copies[..i]), copies[i], copies[i].wlen)
  {
    hide CopyWords;
    assert copies[..i + 1][..i] == copies[..i];
  }

  /** and nothing later reaches the destination. */
  lemma DestinationKept(m: seq<u32>, copies: seq<CopyEntry>, zeros: seq<ZeroEntry>, i: nat, k: nat)
    requires TablesFit(copies, zeros, |m|)
    requires i < |copies| && k < copies[i].wlen && EntrySafe(copies, zeros, i)
    ensures ZeroAll(CopyAll(m, copies), zeros)[copies[i].dest + k] == CopyAll(m, copies[..i + 1])[copies[i].dest + k]
  {
    hide CopyAll, ZeroAll;
    CopyAllKeeps(m, copies, i + 1, copies[i].dest + k);
    ZeroAllValue(CopyAll(m, copies), zeros, copies[i].dest + k);
  }

  /** every cleared section is zero, and every other word is as it was. */
  lemma RestOfMemory(m: seq<u32>, copies: seq<CopyEntry>, zeros: seq<ZeroEntry>, a: nat)
    requires TablesFit(copies, zeros, |m|) && a < |m|
    ensures (exists i :: 0 <= i < |zeros| && Within(a, zeros[i].dest, zeros[i].wlen)) ==>
              ZeroAll(CopyAll(m, copies), zeros)[a] == 0
    ensures (&& (forall i :: 0 <= i < |zeros| ==> !Within(a, zeros[i].dest, zeros[i].wlen))
             && (forall i :: 0 <= i < |copies| ==> !Within(a, copies[i].dest, copies[i].wlen))) ==>
              ZeroAll(CopyAll(m, copies), zeros)[a] == m[a]
  {
    ZeroAllValue(CopyAll(m, copies), zeros, a);
    if forall i :: 0 <= i < |copies| ==> !Within(a, copies[i].dest, copies[i].wlen) {
      CopyAllKeeps(m, copies, 0, a);
      assert copies[..0] == [];
    }
  }
}
