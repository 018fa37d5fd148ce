/** arm_circularWrite_* and arm_circularRead_*. The three sample types share one body,
    so the element type is a parameter here. */
module CircularBuffer {
  import opened Arith

  // -------------------------------------------------------------------------
  // What the loops compute
  // -------------------------------------------------------------------------

  /** Slot of the k-th access of a walk with stride `inc` round `len` slots. */
  function Slot(start: int, inc: int, len: int, k: nat): (s: int)
    requires 0 < len
    ensures 0 <= s < len
  {
    (start + k * inc) % len
  }

  /** Store the samples one after another, each over whatever its slot held. */
  function WriteBlock<T>(buf: seq<T>, start: int, inc: int, len: int, xs: seq<T>): (r: seq<T>)
    requires 0 < len <= |buf|
    ensures |r| == |buf|
    decreases |xs|
  {
    if xs == [] then buf
    else
      var n := |xs| - 1;
      WriteBlock(buf, start, inc, len, xs[..n])[Slot(start, inc, len, n) := xs[n]]
  }

  /** The samples a read of `n` accesses delivers, in order. */
  function Samples<T>(buf: seq<T>, start: int, inc: int, len: int, n: nat): (r: seq<T>)
    requires 0 < len <= |buf|
    ensures |r| == n
  {
    seq(n, k requires 0 <= k < n => buf[Slot(start, inc, len, k)])
  }

  /** Where a source pointer stands after `k` steps of any sign. */
  function SrcPos(start: int, inc: int, k: nat): int {
    start + k * inc
  }

  /** The samples such a pointer passes over. */
  function Gather<T>(src: seq<T>, start: int, inc: int, n: nat): (r: seq<T>)
    requires forall k :: 0 <= k < n ==> 0 <= SrcPos(start, inc, k) < |src|
    ensures |r| == n
  {
    seq(n, k requires 0 <= k < n => src[SrcPos(start, inc, k)])
  }

  /** The destination pointer: it steps, and goes back to its base when a step lands
      exactly on the end of the destination area. */
  function DstPos(start: int, base: int, length: int, inc: int, k: nat): int {
    if k == 0 then start
    else
      var next := DstPos(start, base, length, inc, k - 1) + inc;
      if next == base + length then base else next
  }

  function Scatter<T>(dst: seq<T>, start: int, base: int, length: int, inc: int, ys: seq<T>): (r: seq<T>)
    requires forall k :: 0 <= k < |ys| ==> 0 <= DstPos(start, base, length, inc, k) < |dst|
    ensures |r| == |dst|
    decreases |ys|
  {
    if ys == [] then dst
    else
      var n := |ys| - 1;
      Scatter(dst, start, base, length, inc, ys[..n])[DstPos(start, base, length, inc, n) := ys[n]]
  }

  /** The offset after `k` steps: it wraps when a step reaches the end, and only there. */
  function Offset(start: int, inc: int, len: int, k: nat): int {
    if k == 0 then start
    else
      var next := Offset(start, inc, len, k - 1) + inc;
      if next >= len then next - len else next
  }

  /** The first `n` offsets are inside the array, and their steps inside 32 bits. */
  ghost predicate Walkable(start: int, inc: int, len: int, n: nat, size: int) {
    forall k :: 0 <= k < n ==>
      && 0 <= Offset(start, inc, len, k) < size
      && -0x8000_0000 <= Offset(start, inc, len, k) + inc < 0x8000_0000
  }

  function WriteWalk<T>(buf: seq<T>, start: int, inc: int, len: int, xs: seq<T>): (r: seq<T>)
    requires Walkable(start, inc, len, |xs|, |buf|)
    ensures |r| == |buf|
    decreases |xs|
  {
    if xs == [] then buf
    else
      var n := |xs| - 1;
      WriteWalk(buf, start, inc, len, xs[..n])[Offset(start, inc, len, n) := xs[n]]
  }

  function ReadWalk<T>(buf: seq<T>, start: int, inc: int, len: int, n: nat): (r: seq<T>)
    requires Walkable(start, inc, len, n, |buf|)
    ensures |r| == n
  {
    seq(n, k requires 0 <= k < n => buf[Offset(start, inc, len, k)])
  }

  // -------------------------------------------------------------------------
  // One array for both: each sample is read after the ones before it were stored.
  // -------------------------------------------------------------------------

  function WriteWithin<T>(buf: seq<T>, start: int, inc: int, len: int, srcStart: int, srcInc: int, n: nat): (r: seq<T>)
    requires Walkable(start, inc, len, n, |buf|)
    requires forall k :: 0 <= k < n ==> 0 <= SrcPos(srcStart, srcInc, k) < |buf|
    ensures |r| == |buf|
  {
    if n == 0 then buf
    else
      var b := WriteWithin(buf, start, inc, len, srcStart, srcInc, n - 1);
      b[Offset(start, inc, len, n - 1) := b[SrcPos(srcStart, srcInc, n - 1)]]
  }

  function ReadWithin<T>(buf: seq<T>, start: int, inc: int, len: int,
                         dstStart: int, base: int, length: int, dstInc: int, n: nat): (r: seq<T>)
    requires Walkable(start, inc, len, n, |buf|)
    requires forall k :: 0 <= k < n ==> 0 <= DstPos(dstStart, base, length, dstInc, k) < |buf|
    ensures |r| == |buf|
  {
    if n == 0 then buf
    else
      var b := ReadWithin(buf, start, inc, len, dstStart, base, length, dstInc, n - 1);
      b[DstPos(dstStart, base, length, dstInc, n - 1) := b[Offset(start, inc, len, n - 1)]]
  }

  // -------------------------------------------------------------------------
  // The loops
  // -------------------------------------------------------------------------

  lemma NextSlot(start: int, inc: int, len: int, k: nat)
    requires 0 < len && 0 <= inc <= len
    ensures var s := Slot(start, inc, len, k) + inc;
            Slot(start, inc, len, k + 1) == if s >= len then s - len else s
  {
    NextMultiple(k, inc);
    ModStep(start + k * inc, inc, len);
  }

  lemma NextMultiple(k: int, inc: int)
    ensures (k + 1) * inc == k * inc + inc
  {
  }

  lemma ModStep(z: int, inc: int, len: int)
    requires 0 < len && 0 <= inc <= len
    ensures var s := z % len + inc;
            (z + inc) % len == if s >= len then s - len else s
  {
    var q := z / len;
    var s := z % len + inc;
    assert z == q * len + z % len;
    if s >= len {
      NextMultiple(q, len);
      QuotientIs(z + inc, len, q + 1);
    } else {
      QuotientIs(z + inc, len, q);
    }
  }

  lemma SlotZero(start: int, inc: int, len: int)
    requires 0 <= start < len
    ensures Slot(start, inc, len, 0) == start
  {
    assert 0 * inc == 0;
    QuotientIs(start, len, 0);
  }

  /** Upwards, by at most a whole round, the offset goes round the slots. */
  lemma {:induction false} OffsetIsSlot(start: int, inc: int, len: int, k: nat)
    requires 0 <= start < len && 0 <= inc <= len
    ensures Offset(start, inc, len, k) == Slot(start, inc, len, k) == (start + k * inc) % len
  {
    if k == 0 {
      SlotZero(start, inc, len);
    } else {
      OffsetIsSlot(start, inc, len, k - 1);
      NextSlot(start, inc, len, k - 1);
    }
  }

  lemma {:induction false} WriteWalkIsBlock<T>(buf: seq<T>, start: int, inc: int, len: int, xs: seq<T>)
    requires 0 <= start < len <= |buf| && 0 <= inc <= len
    requires Walkable(start, inc, len, |xs|, |buf|)
    ensures WriteWalk(buf, start, inc, len, xs) == WriteBlock(buf, start, inc, len, xs)
    decreases |xs|
  {
    if xs == [] {
    } else {
      WriteWalkIsBlock(buf, start, inc, len, xs[..|xs| - 1]);
      OffsetIsSlot(start, inc, len, |xs| - 1);
    }
  }

  lemma ReadWalkIsSamples<T>(buf: seq<T>, start: int, inc: int, len: int, n: nat)
    requires 0 <= start < len <= |buf| && 0 <= inc <= len
    requires Walkable(start, inc, len, n, |buf|)
    ensures ReadWalk(buf, start, inc, len, n) == Samples(buf, start, inc, len, n)
  {
    forall k | 0 <= k < n
      ensures ReadWalk(buf, start, inc, len, n)[k] == Samples(buf, start, inc, len, n)[k]
    {
      OffsetIsSlot(start, inc, len, k);
    }
  }

  lemma {:induction false} WriteWithinKeeps<T>(buf: seq<T>, start: int, inc: int, len: int,
                                               srcStart: int, srcInc: int, n: nat, i: int)
    requires Walkable(start, inc, len, n, |buf|)
    requires forall k :: 0 <= k < n ==> 0 <= SrcPos(srcStart, srcInc, k) < |buf|
    requires 0 <= i < |buf| && forall j :: 0 <= j < n ==> Offset(start, inc, len, j) != i
    ensures WriteWithin(buf, start, inc, len, srcStart, srcInc, n)[i] == buf[i]
  {
    hide Offset, SrcPos;
    if n == 0 {
    } else {
      WriteWithinKeeps(buf, start, inc, len, srcStart, srcInc, n - 1, i);
    }
  }

  /** Within one array a write still delivers the block as it was, if no sample is read
      after its place was written; */
  lemma {:induction false} WriteWithinIsWalk<T>(buf: seq<T>, start: int, inc: int, len: int,
                                                srcStart: int, srcInc: int, n: nat)
    requires Walkable(start, inc, len, n, |buf|)
    requires forall k :: 0 <= k < n ==> 0 <= SrcPos(srcStart, srcInc, k) < |buf|
    requires forall j, k :: 0 <= j < k < n ==> Offset(start, inc, len, j) != SrcPos(srcStart, srcInc, k)
    ensures WriteWithin(buf, start, inc, len, srcStart, srcInc, n)
         == WriteWalk(buf, start, inc, len, Gather(buf, srcStart, srcInc, n))
  {
    hide Offset, SrcPos, Gather, WriteWalk;
    WalkOfGather(buf, start, inc, len, srcStart, srcInc, n);
    if n == 0 {
    } else {
      WriteWithinIsWalk(buf, start, inc, len, srcStart, srcInc, n - 1);
      WriteWithinKeeps(buf, start, inc, len, srcStart, srcInc, n - 1, SrcPos(srcStart, srcInc, n - 1));
    }
  }

  lemma WalkOfGather<T>(buf: seq<T>, start: int, inc: int, len: int, srcStart: int, srcInc: int, n: nat)
    requires Walkable(start, inc, len, n, |buf|)
    requires forall k :: 0 <= k < n ==> 0 <= SrcPos(srcStart, srcInc, k) < |buf|
    ensures WriteWalk(buf, start, inc, len, Gather(buf, srcStart, srcInc, n))
         == if n == 0 then buf
            else WriteWalk(buf, start, inc, len, Gather(buf, srcStart, srcInc, n - 1))
                 [Offset(start, inc, len, n - 1) := buf[SrcPos(srcStart, srcInc, n - 1)]]
  {
    hide Offset, SrcPos;
    if n > 0 {
      assert Gather(buf, srcStart, srcInc, n)[..n - 1] == Gather(buf, srcStart, srcInc, n - 1);
    }
  }

  lemma {:induction false} ReadWithinKeeps<T>(buf: seq<T>, start: int, inc: int, len: int, dstStart: int,
                                              base: int, length: int, dstInc: int, n: nat, i: int)
    requires Walkable(start, inc, len, n, |buf|)
    requires forall k :: 0 <= k < n ==> 0 <= DstPos(dstStart, base, length, dstInc, k) < |buf|
    requires 0 <= i < |buf| && forall j :: 0 <= j < n ==> DstPos(dstStart, base, length, dstInc, j) != i
    ensures ReadWithin(buf, start, inc, len, dstStart, base, length, dstInc, n)[i] == buf[i]
  {
    hide Offset, DstPos;
    if n == 0 {
    } else {
      ReadWithinKeeps(buf, start, inc, len, dstStart, base, length, dstInc, n - 1, i);
    }
  }

  /** and so does a read. */
  lemma {:induction false} ReadWithinIsScatter<T>(buf: seq<T>, start: int, inc: int, len: int, dstStart: int,
                                                  base: int, length: int, dstInc: int, n: nat)
    requires Walkable(start, inc, len, n, |buf|)
    requires forall k :: 0 <= k < n ==> 0 <= DstPos(dstStart, base, length, dstInc, k) < |buf|
    requires forall j, k :: 0 <= j < k < n ==>
               DstPos(dstStart, base, length, dstInc, j) != Offset(start, inc, len, k)
    ensures ReadWithin(buf, start, inc, len, dstStart, base, length, dstInc, n)
         == Scatter(buf, dstStart, base, length, dstInc, ReadWalk(buf, start, inc, len, n))
  {
    hide Offset, DstPos;
    if n == 0 {
    } else {
      ReadWithinIsScatter(buf, start, inc, len, dstStart, base, length, dstInc, n - 1);
      ReadWithinKeeps(buf, start, inc, len, dstStart, base, length, dstInc, n - 1, Offset(start, inc, len, n - 1));
      assert ReadWalk(buf, start, inc, len, n)[..n - 1] == ReadWalk(buf, start, inc, len, n - 1);
    }
  }

  /** Every walk upwards from a slot of the buffer is inside it. */
  lemma UpwardIsWalkable(start: int, inc: int, len: int, n: nat, size: int)
    requires 0 <= start < len <= size && len <= 0x4000_0000 && 0 <= inc <= len
    ensures Walkable(start, inc, len, n, size)
  {
    forall k | 0 <= k < n
      ensures 0 <= Offset(start, inc, len, k) < len
    {
      OffsetIsSlot(start, inc, len, k);
    }
  }

  lemma {:induction false} OffsetDown(start: int, inc: int, len: int, k: nat)
    requires 0 <= start < len && inc <= 0
    ensures Offset(start, inc, len, k) == start + k * inc
  {
    if k == 0 {
      assert 0 * inc == 0;
    } else {
      OffsetDown(start, inc, len, k - 1);
      NextMultiple(k - 1, inc);
      MulMonotone(inc, 0, k);
    }
  }

  /** Downwards the code does not wrap: a walk is inside the array exactly when its last
      access is still at or above slot zero. */
  lemma DownwardExactly(start: int, inc: int, len: int, n: nat, size: int)
    requires 0 <= start < len <= size <= 0x8000_0000 && -0x8000_0000 <= inc <= 0
    ensures Walkable(start, inc, len, n, size) <==> n == 0 || 0 <= start + (n - 1) * inc
  {
    hide Offset;
    if n > 0 && 0 <= start + (n - 1) * inc {
      forall k | 0 <= k < n
        ensures 0 <= Offset(start, inc, len, k) <= start
      {
        OffsetDown(start, inc, len, k);
        StepsBetween(inc, k, n - 1);
      }
    }
    if n > 0 && Walkable(start, inc, len, n, size) {
      assert 0 <= Offset(start, inc, len, n - 1);
      OffsetDown(start, inc, len, n - 1);
    }
  }

  lemma StepsBetween(inc: int, k: int, n: int)
    requires inc <= 0 && 0 <= k <= n
    ensures n * inc <= k * inc <= 0
  {
    MulMonotone(k, n, -inc);
    MulMonotone(0, k, -inc);
    assert k * -inc == -(k * inc) && n * -inc == -(n * inc);
  }

  // -------------------------------------------------------------------------
  // Which sample ends up where
  // -------------------------------------------------------------------------

  /** A write takes the samples a source pointer of that step passes over. */
  lemma GatherAt<T>(src: seq<T>, start: int, inc: int, n: nat, k: nat)
    requires forall i :: 0 <= i < n ==> 0 <= SrcPos(start, inc, i) < |src|
    requires k < n
    ensures 0 <= start + k * inc < |src| && Gather(src, start, inc, n)[k] == src[start + k * inc]
  {
    assert 0 <= SrcPos(start, inc, k) < |src|;
  }

  lemma GatherForward<T>(src: seq<T>, start: nat, n: nat)
    requires start + n <= |src|
    ensures forall i :: 0 <= i < n ==> 0 <= SrcPos(start, 1, i) < |src|
    ensures Gather(src, start, 1, n) == src[start..start + n]
  {
  }

  /** Each slot holds the last sample sent to it. */
  lemma {:induction false} LastWriterStays<T>(buf: seq<T>, start: int, inc: int, len: int, xs: seq<T>, k: nat)
    requires 0 < len <= |buf| && k < |xs|
    requires forall j :: k < j < |xs| ==> Slot(start, inc, len, j) != Slot(start, inc, len, k)
    ensures WriteBlock(buf, start, inc, len, xs)[Slot(start, inc, len, k)] == xs[k]
    decreases |xs|
  {
    var n := |xs| - 1;
    if k == n {
    } else {
      LastWriterStays(buf, start, inc, len, xs[..n], k);
    }
  }

  lemma {:induction false} UnvisitedStays<T>(buf: seq<T>, start: int, inc: int, len: int, xs: seq<T>, s: int)
    requires 0 < len <= |buf| && 0 <= s < |buf|
    requires forall j :: 0 <= j < |xs| ==> Slot(start, inc, len, j) != s
    ensures WriteBlock(buf, start, inc, len, xs)[s] == buf[s]
    decreases |xs|
  {
    if xs == [] {
    } else {
      UnvisitedStays(buf, start, inc, len, xs[..|xs| - 1], s);
    }
  }

  /** What a write leaves in each slot: the sample of the last access to it, or what was there. */
  lemma BlockLands<T>(buf: seq<T>, start: int, inc: int, len: int, src: seq<T>, srcStart: int, srcInc: int, n: nat)
    requires 0 < len <= |buf|
    requires forall k :: 0 <= k < n ==> 0 <= SrcPos(srcStart, srcInc, k) < |src|
    ensures forall k :: 0 <= k < n && LastVisitTo(start, inc, len, n, k) ==>
              && 0 <= srcStart + k * srcInc < |src|
              && WriteBlock(buf, start, inc, len, Gather(src, srcStart, srcInc, n))[(start + k * inc) % len]
                 == src[srcStart + k * srcInc]
    ensures forall s :: 0 <= s < |buf| && NotVisited(start, inc, len, n, s) ==>
              WriteBlock(buf, start, inc, len, Gather(src, srcStart, srcInc, n))[s] == buf[s]
  {
    hide WriteBlock, Gather;
    forall k | 0 <= k < n && LastVisitTo(start, inc, len, n, k)
      ensures 0 <= srcStart + k * srcInc < |src|
      ensures WriteBlock(buf, start, inc, len, Gather(src, srcStart, srcInc, n))[(start + k * inc) % len]
           == src[srcStart + k * srcInc]
    {
      GatherAt(src, srcStart, srcInc, n, k);
      LastWriterStays(buf, start, inc, len, Gather(src, srcStart, srcInc, n), k);
    }
    forall s | 0 <= s < |buf| && NotVisited(start, inc, len, n, s)
      ensures WriteBlock(buf, start, inc, len, Gather(src, srcStart, srcInc, n))[s] == buf[s]
    {
      UnvisitedStays(buf, start, inc, len, Gather(src, srcStart, srcInc, n), s);
    }
  }

  ghost predicate NotVisited(start: int, inc: int, len: int, n: nat, s: int)
    requires 0 < len
  {
    forall j :: 0 <= j < n ==> Slot(start, inc, len, j) != s
  }

  /** Access `k` is the last of `n` to its slot; in a block within one round every access is. */
  ghost predicate LastVisitTo(start: int, inc: int, len: int, n: nat, k: nat)
    requires 0 < len
  {
    forall j :: k < j < n ==> Slot(start, inc, len, j) != Slot(start, inc, len, k)
  }

  lemma {:induction false} LastScatterStays<T>(dst: seq<T>, start: int, base: int, length: int, inc: int,
                                               ys: seq<T>, k: nat)
    requires forall j :: 0 <= j < |ys| ==> 0 <= DstPos(start, base, length, inc, j) < |dst|
    requires k < |ys|
    requires forall j :: k < j < |ys| ==> DstPos(start, base, length, inc, j) != DstPos(start, base, length, inc, k)
    ensures Scatter(dst, start, base, length, inc, ys)[DstPos(start, base, length, inc, k)] == ys[k]
    decreases |ys|
  {
    var n := |ys| - 1;
    if k == n {
    } else {
      LastScatterStays(dst, start, base, length, inc, ys[..n], k);
    }
  }

  lemma {:induction false} UnscatteredStays<T>(dst: seq<T>, start: int, base: int, length: int, inc: int,
                                               ys: seq<T>, p: int)
    requires forall j :: 0 <= j < |ys| ==> 0 <= DstPos(start, base, length, inc, j) < |dst|
    requires 0 <= p < |dst| && forall j :: 0 <= j < |ys| ==> DstPos(start, base, length, inc, j) != p
    ensures Scatter(dst, start, base, length, inc, ys)[p] == dst[p]
    decreases |ys|
  {
    if ys == [] {
    } else {
      UnscatteredStays(dst, start, base, length, inc, ys[..|ys| - 1], p);
    }
  }

  /** What a read leaves at each place of the destination. */
  lemma ReadLands<T>(dst: seq<T>, dstStart: int, base: int, length: int, dstInc: int,
                     buf: seq<T>, start: int, inc: int, len: int, n: nat)
    requires 0 < len <= |buf|
    requires forall k :: 0 <= k < n ==> 0 <= DstPos(dstStart, base, length, dstInc, k) < |dst|
    ensures var after := Scatter(dst, dstStart, base, length, dstInc, Samples(buf, start, inc, len, n));
            && (forall k :: 0 <= k < n && LastStandAt(dstStart, base, length, dstInc, n, k) ==>
                  after[DstPos(dstStart, base, length, dstInc, k)] == buf[(start + k * inc) % len])
            && (forall p :: 0 <= p < |dst| && NeverStoodAt(dstStart, base, length, dstInc, n, p) ==>
                  after[p] == dst[p])
  {
    hide Scatter, DstPos;
    var ys := Samples(buf, start, inc, len, n);
    forall k | 0 <= k < n && LastStandAt(dstStart, base, length, dstInc, n, k)
      ensures Scatter(dst, dstStart, base, length, dstInc, ys)[DstPos(dstStart, base, length, dstInc, k)]
           == buf[(start + k * inc) % len]
    {
      LastScatterStays(dst, dstStart, base, length, dstInc, ys, k);
    }
    forall p | 0 <= p < |dst| && NeverStoodAt(dstStart, base, length, dstInc, n, p)
      ensures Scatter(dst, dstStart, base, length, dstInc, ys)[p] == dst[p]
    {
      UnscatteredStays(dst, dstStart, base, length, dstInc, ys, p);
    }
  }

  ghost predicate LastStandAt(start: int, base: int, length: int, inc: int, n: nat, k: nat) {
    forall j :: k < j < n ==> DstPos(start, base, length, inc, j) != DstPos(start, base, length, inc, k)
  }

  ghost predicate NeverStoodAt(start: int, base: int, length: int, inc: int, n: nat, p: int) {
    forall j :: 0 <= j < n ==> DstPos(start, base, length, inc, j) != p
  }

  /** The destination pointer just steps as long as no step lands exactly on the end of the
      area; a step that jumps over the end is never brought back. */
  lemma {:induction false} DstStepsOn(start: int, base: int, length: int, inc: int, k: nat)
    requires forall j :: 0 < j <= k ==> SrcPos(start, inc, j) != base + length
    ensures DstPos(start, base, length, inc, k) == start + k * inc
  {
    if k == 0 {
      assert 0 * inc == 0;
    } else {
      DstStepsOn(start, base, length, inc, k - 1);
      NextMultiple(k - 1, inc);
      assert SrcPos(start, inc, k) != base + length;
    }
  }

  /** One that lands there starts again from the base. */
  lemma {:induction false} DstStartsAgain(start: int, base: int, length: int, inc: int, m: nat, k: nat)
    requires 0 < m && DstPos(start, base, length, inc, m - 1) + inc == base + length
    ensures DstPos(start, base, length, inc, m + k) == DstPos(base, base, length, inc, k)
    decreases k
  {
    if k == 0 {
    } else {
      DstStartsAgain(start, base, length, inc, m, k - 1);
    }
  }

  /** A stride longer than the buffer climbs: each step takes off the length once only. */
  lemma {:induction false} OffsetClimbs(start: int, inc: int, len: int, k: nat)
    requires 0 <= start && len <= inc
    ensures Offset(start, inc, len, k) == start + k * (inc - len)
  {
    if k == 0 {
      assert 0 * (inc - len) == 0;
    } else {
      OffsetClimbs(start, inc, len, k - 1);
      NextMultiple(k - 1, inc - len);
      MulMonotone(0, k - 1, inc - len);
    }
  }

  /** A walk downwards stores and delivers in descending order, and touches nothing else. */
  lemma DownwardLands<T>(buf: seq<T>, start: int, inc: int, len: int, xs: seq<T>, k: nat)
    requires 0 <= start < len && inc < 0 && Walkable(start, inc, len, |xs|, |buf|) && k < |xs|
    ensures 0 <= start + k * inc < |buf|
    ensures WriteWalk(buf, start, inc, len, xs)[start + k * inc] == xs[k]
    ensures ReadWalk(buf, start, inc, len, |xs|)[k] == buf[start + k * inc]
  {
    hide WriteWalk, Offset;
    OffsetDown(start, inc, len, k);
    assert 0 <= Offset(start, inc, len, k) < |buf|;
    forall j | k < j < |xs|
      ensures Offset(start, inc, len, j) != Offset(start, inc, len, k)
    {
      OffsetDown(start, inc, len, j);
      MulMonotone(k + 1, j, -inc);
      assert (k + 1) * -inc == -(k * inc) - inc && j * -inc == -(j * inc);
    }
    LastOfWalkStays(buf, start, inc, len, xs, k);
  }

  lemma {:induction false} LastOfWalkStays<T>(buf: seq<T>, start: int, inc: int, len: int, xs: seq<T>, k: nat)
    requires Walkable(start, inc, len, |xs|, |buf|) && k < |xs|
    requires forall j :: k < j < |xs| ==> Offset(start, inc, len, j) != Offset(start, inc, len, k)
    ensures 0 <= Offset(start, inc, len, k) < |buf|
    ensures WriteWalk(buf, start, inc, len, xs)[Offset(start, inc, len, k)] == xs[k]
    decreases |xs|
  {
    hide Offset;
    var n := |xs| - 1;
    if k == n {
    } else {
      LastOfWalkStays(buf, start, inc, len, xs[..n], k);
    }
  }

  lemma {:induction false} OffWalkStays<T>(buf: seq<T>, start: int, inc: int, len: int, xs: seq<T>, s: int)
    requires Walkable(start, inc, len, |xs|, |buf|)
    requires 0 <= s < |buf| && forall j :: 0 <= j < |xs| ==> Offset(start, inc, len, j) != s
    ensures WriteWalk(buf, start, inc, len, xs)[s] == buf[s]
    decreases |xs|
  {
    hide Offset;
    if xs == [] {
    } else {
      OffWalkStays(buf, start, inc, len, xs[..|xs| - 1], s);
    }
  }

  /** Copying upwards within the buffer into its own source repeats the samples before the
      destination, over and over; */
  lemma {:induction false} WriteWithinSmears<T>(buf: seq<T>, start: int, len: int, srcStart: int, n: nat, k: nat)
    requires 0 <= srcStart < start && start + n <= len <= |buf| && len <= 0x4000_0000 && k < n
    ensures Walkable(start, 1, len, n, |buf|)
    ensures forall i :: 0 <= i < n ==> 0 <= SrcPos(srcStart, 1, i) < |buf|
    ensures WriteWithin(buf, start, 1, len, srcStart, 1, n)[start + k] == buf[srcStart + k % (start - srcStart)]
    decreases n
  {
    hide WriteWithin, Offset;
    var gap := start - srcStart;
    UpwardIsWalkable(start, 1, len, n, |buf|);
    UpwardIsWalkable(start, 1, len, n - 1, |buf|);
    WriteWithinStep(buf, start, len, srcStart, n);
    Repeats(k, gap);
    if k < n - 1 {
      WriteWithinSmears(buf, start, len, srcStart, n - 1, k);
    } else if k < gap {
      forall j | 0 <= j < n - 1
        ensures Offset(start, 1, len, j) != srcStart + k
      {
        UnitOffset(start, len, j);
      }
      WriteWithinKeeps(buf, start, 1, len, srcStart, 1, n - 1, srcStart + k);
    } else {
      WriteWithinSmears(buf, start, len, srcStart, n - 1, k - gap);
    }
  }

  lemma WriteWithinStep<T>(buf: seq<T>, start: int, len: int, srcStart: int, n: nat)
    requires 0 <= srcStart < start && start + n <= len <= |buf| && 0 < n
    requires Walkable(start, 1, len, n, |buf|) && Walkable(start, 1, len, n - 1, |buf|)
    ensures var b := WriteWithin(buf, start, 1, len, srcStart, 1, n - 1);
            WriteWithin(buf, start, 1, len, srcStart, 1, n) == b[start + n - 1 := b[srcStart + n - 1]]
  {
    hide Offset, Walkable;
    UnitOffset(start, len, n - 1);
  }

  /** so does reading upwards into its own source. */
  lemma {:induction false} ReadWithinSmears<T>(buf: seq<T>, start: int, len: int,
                                               dstStart: int, base: int, length: int, n: nat, k: nat)
    requires 0 <= start < dstStart && start + n <= len <= |buf| && len <= 0x4000_0000
    requires dstStart + n <= base + length && dstStart + n <= |buf| && k < n
    ensures Walkable(start, 1, len, n, |buf|)
    ensures forall i :: 0 <= i < n ==> 0 <= DstPos(dstStart, base, length, 1, i) < |buf|
    ensures ReadWithin(buf, start, 1, len, dstStart, base, length, 1, n)[dstStart + k]
         == buf[start + k % (dstStart - start)]
    decreases n
  {
    hide ReadWithin, Offset, DstPos;
    var gap := dstStart - start;
    UpwardIsWalkable(start, 1, len, n, |buf|);
    UpwardIsWalkable(start, 1, len, n - 1, |buf|);
    forall j | 0 <= j < n
      ensures DstPos(dstStart, base, length, 1, j) == dstStart + j
    {
      UnitDst(dstStart, base, length, j);
    }
    ReadWithinStep(buf, start, len, dstStart, base, length, n);
    Repeats(k, gap);
    if k < n - 1 {
      ReadWithinSmears(buf, start, len, dstStart, base, length, n - 1, k);
    } else if k < gap {
      ReadWithinKeeps(buf, start, 1, len, dstStart, base, length, 1, n - 1, start + k);
    } else {
      ReadWithinSmears(buf, start, len, dstStart, base, length, n - 1, k - gap);
    }
  }

  lemma ReadWithinStep<T>(buf: seq<T>, start: int, len: int, dstStart: int, base: int, length: int, n: nat)
    requires 0 <= start < dstStart && start + n <= len <= |buf| && 0 < n
    requires dstStart + n <= base + length && dstStart + n <= |buf|
    requires Walkable(start, 1, len, n, |buf|) && Walkable(start, 1, len, n - 1, |buf|)
    requires forall j :: 0 <= j < n ==> DstPos(dstStart, base, length, 1, j) == dstStart + j
    ensures var b := ReadWithin(buf, start, 1, len, dstStart, base, length, 1, n - 1);
            ReadWithin(buf, start, 1, len, dstStart, base, length, 1, n) == b[dstStart + n - 1 := b[start + n - 1]]
  {
    hide Offset, DstPos, Walkable;
    UnitOffset(start, len, n - 1);
  }

  lemma UnitOffset(start: int, len: int, k: nat)
    requires 0 <= start && start + k < len
    ensures Offset(start, 1, len, k) == start + k
  {
    OffsetIsSlot(start, 1, len, k);
    QuotientIs(start + k, len, 0);
  }

  lemma UnitDst(start: int, base: int, length: int, k: nat)
    requires start + k < base + length
    ensures DstPos(start, base, length, 1, k) == start + k
  {
    DstStepsOn(start, base, length, 1, k);
  }

  // -------------------------------------------------------------------------
  // The calls
  // -------------------------------------------------------------------------

  lemma OffsetSteps(start: int, inc: int, len: int, k: nat)
    ensures Offset(start, inc, len, 0) == start
    ensures var next := Offset(start, inc, len, k) + inc;
            Offset(start, inc, len, k + 1) == if next >= len then next - len else next
  {
  }

  lemma DstPosSteps(start: int, base: int, length: int, inc: int, k: nat)
    ensures DstPos(start, base, length, inc, 0) == start
    ensures var next := DstPos(start, base, length, inc, k) + inc;
            DstPos(start, base, length, inc, k + 1) == if next == base + length then base else next
  {
  }

  /** The offset comes back through a 16-bit variable. */
  method CircularWrite<T>(circBuffer: array<T>, L: int, writeOffset: int, bufferInc: int,
                          src: array<T>, srcStart: int, srcInc: int, blockSize: nat)
    returns (newOffset: int)
    requires 0 < L && 0 <= writeOffset < 0x1_0000
    requires Walkable(writeOffset, bufferInc, L, blockSize, circBuffer.Length)
    requires forall k :: 0 <= k < blockSize ==> 0 <= SrcPos(srcStart, srcInc, k) < src.Length
    modifies circBuffer
    ensures newOffset == Offset(writeOffset, bufferInc, L, blockSize) % 0x1_0000
    ensures src != circBuffer ==>
              circBuffer[..] == WriteWalk(old(circBuffer[..]), writeOffset, bufferInc, L,
                                          Gather(src[..], srcStart, srcInc, blockSize))
    ensures src == circBuffer ==>
              circBuffer[..] == WriteWithin(old(circBuffer[..]), writeOffset, bufferInc, L,
                                            srcStart, srcInc, blockSize)
    ensures writeOffset < L <= circBuffer.Length && 0 <= bufferInc <= L ==>
              && newOffset == (writeOffset + blockSize * bufferInc) % L % 0x1_0000
              && (src != circBuffer ==>
                    circBuffer[..] == WriteBlock(old(circBuffer[..]), writeOffset, bufferInc, L,
                                                 Gather(src[..], srcStart, srcInc, blockSize)))
    ensures src != circBuffer && writeOffset < L <= circBuffer.Length && 0 <= bufferInc <= L ==>
              && (forall k :: 0 <= k < blockSize && LastVisitTo(writeOffset, bufferInc, L, blockSize, k) ==>
                    && 0 <= srcStart + k * srcInc < src.Length
                    && circBuffer[..][(writeOffset + k * bufferInc) % L] == src[..][srcStart + k * srcInc])
              && (forall s :: 0 <= s < circBuffer.Length && NotVisited(writeOffset, bufferInc, L, blockSize, s) ==>
                    circBuffer[..][s] == old(circBuffer[..])[s])
  {
    hide WriteBlock, Slot, Offset, LastVisitTo, NotVisited;
    ghost var buf := circBuffer[..];
    ghost var xs := Gather(src[..], srcStart, srcInc, blockSize);
    var wOffset := writeOffset;
    var p := srcStart;
    var i := blockSize;
    assert xs[..0] == [];
    OffsetSteps(writeOffset, bufferInc, L, 0);
    while i > 0
      invariant 0 <= i <= blockSize
      invariant wOffset == Offset(writeOffset, bufferInc, L, blockSize - i)
      invariant p == SrcPos(srcStart, srcInc, blockSize - i)
      invariant src != circBuffer ==>
                  && src[..] == old(src[..])
                  && circBuffer[..] == WriteWalk(buf, writeOffset, bufferInc, L, xs[..blockSize - i])
      invariant src == circBuffer ==>
                  circBuffer[..] == WriteWithin(buf, writeOffset, bufferInc, L, srcStart, srcInc, blockSize - i)
    {
      ghost var k := blockSize - i;
      assert xs[..k + 1][..k] == xs[..k] && xs[..k + 1][k] == xs[k];
      OffsetSteps(writeOffset, bufferInc, L, k);
      circBuffer[wOffset] := src[p];
      p := p + srcInc;
      NextMultiple(k, srcInc);
      wOffset := wOffset + bufferInc;
      if wOffset >= L {
        wOffset := wOffset - L;
      }
      i := i - 1;
    }
    assert xs[..blockSize] == xs;
    newOffset := wOffset % 0x1_0000;
    if writeOffset < L <= circBuffer.Length && 0 <= bufferInc <= L {
      WriteWalkIsBlock(buf, writeOffset, bufferInc, L, xs);
      BlockLands(buf, writeOffset, bufferInc, L, old(src[..]), srcStart, srcInc, blockSize);
      OffsetIsSlot(writeOffset, bufferInc, L, blockSize);
    }
  }

  method CircularRead<T>(circBuffer: array<T>, L: int, readOffset: int, bufferInc: int,
                         dst: array<T>, dstStart: int, dstBase: int, dstLength: int, dstInc: int,
                         blockSize: nat)
    returns (newOffset: int)
    requires 0 < L
    requires Walkable(readOffset, bufferInc, L, blockSize, circBuffer.Length)
    requires forall k :: 0 <= k < blockSize ==> 0 <= DstPos(dstStart, dstBase, dstLength, dstInc, k) < dst.Length
    modifies dst
    ensures newOffset == Offset(readOffset, bufferInc, L, blockSize)
    ensures dst != circBuffer ==>
              dst[..] == Scatter(old(dst[..]), dstStart, dstBase, dstLength, dstInc,
                                 ReadWalk(circBuffer[..], readOffset, bufferInc, L, blockSize))
    ensures dst == circBuffer ==>
              dst[..] == ReadWithin(old(dst[..]), readOffset, bufferInc, L,
                                    dstStart, dstBase, dstLength, dstInc, blockSize)
    ensures 0 <= readOffset < L <= circBuffer.Length && 0 <= bufferInc <= L ==>
              && newOffset == (readOffset + blockSize * bufferInc) % L
              && (dst != circBuffer ==>
                    dst[..] == Scatter(old(dst[..]), dstStart, dstBase, dstLength, dstInc,
                                       Samples(circBuffer[..], readOffset, bufferInc, L, blockSize)))
    ensures dst != circBuffer && 0 <= readOffset < L <= circBuffer.Length && 0 <= bufferInc <= L ==>
              && (forall k :: 0 <= k < blockSize && LastStandAt(dstStart, dstBase, dstLength, dstInc, blockSize, k) ==>
                    dst[..][DstPos(dstStart, dstBase, dstLength, dstInc, k)]
                    == circBuffer[..][(readOffset + k * bufferInc) % L])
              && (forall p | 0 <= p < dst.Length && NeverStoodAt(dstStart, dstBase, dstLength, dstInc, blockSize, p) ::
                    dst[..][p] == old(dst[..])[p])
  {
    hide Samples, Slot, Offset, DstPos, LastStandAt, NeverStoodAt;
    ghost var was := dst[..];
    ghost var ys := ReadWalk(circBuffer[..], readOffset, bufferInc, L, blockSize);
    var rOffset := readOffset;
    var dstEnd := dstBase + dstLength;
    var p := dstStart;
    var i := blockSize;
    assert ys[..0] == [];
    OffsetSteps(readOffset, bufferInc, L, 0);
    DstPosSteps(dstStart, dstBase, dstLength, dstInc, 0);
    while i > 0
      invariant 0 <= i <= blockSize
      invariant rOffset == Offset(readOffset, bufferInc, L, blockSize - i)
      invariant p == DstPos(dstStart, dstBase, dstLength, dstInc, blockSize - i)
      invariant dst != circBuffer ==>
                  && circBuffer[..] == old(circBuffer[..])
                  && dst[..] == Scatter(was, dstStart, dstBase, dstLength, dstInc, ys[..blockSize - i])
      invariant dst == circBuffer ==>
                  dst[..] == ReadWithin(was, readOffset, bufferInc, L,
                                        dstStart, dstBase, dstLength, dstInc, blockSize - i)
    {
      ghost var k := blockSize - i;
      assert ys[..k + 1][..k] == ys[..k] && ys[..k + 1][k] == ys[k];
      OffsetSteps(readOffset, bufferInc, L, k);
      DstPosSteps(dstStart, dstBase, dstLength, dstInc, k);
      dst[p] := circBuffer[rOffset];
      p := p + dstInc;
      if p == dstEnd {
        p := dstBase;
      }
      rOffset := rOffset + bufferInc;
      if rOffset >= L {
        rOffset := rOffset - L;
      }
      i := i - 1;
    }
    assert ys[..blockSize] == ys;
    newOffset := rOffset;
    if 0 <= readOffset < L <= circBuffer.Length && 0 <= bufferInc <= L {
      ReadWalkIsSamples(old(circBuffer[..]), readOffset, bufferInc, L, blockSize);
      ReadLands(was, dstStart, dstBase, dstLength, dstInc, old(circBuffer[..]), readOffset, bufferInc, L, blockSize);
      OffsetIsSlot(readOffset, bufferInc, L, blockSize);
    }
  }

  // -------------------------------------------------------------------------
  // Increment 1: the buffer is a window on an unbounded history
  // -------------------------------------------------------------------------

  /** The last `len` samples of the history sit at their index modulo `len`. */
  ghost predicate Window<T>(buf: seq<T>, len: int, history: seq<T>)
    requires 0 < len <= |buf|
  {
    forall i :: 0 <= i < |history| && |history| - len <= i ==> buf[i % len] == history[i]
  }

  lemma {:induction false} WriteExtendsHistory<T>(buf: seq<T>, len: int, history: seq<T>, xs: seq<T>)
    requires 0 < len <= |buf|
    requires Window(buf, len, history)
    ensures Window(WriteBlock(buf, |history| % len, 1, len, xs), len, history + xs)
    ensures Slot(|history| % len, 1, len, |xs|) == |history + xs| % len
    decreases |xs|
  {
    SlotAfter(|history|, len, |xs|);
    if xs == [] {
      assert history + xs == history;
    } else {
      var n := |xs| - 1;
      WriteExtendsHistory(buf, len, history, xs[..n]);
      SlotAfter(|history|, len, n);
      var h := history + xs[..n];
      assert history + xs == h + [xs[n]];
      StoreExtendsHistory(WriteBlock(buf, |history| % len, 1, len, xs[..n]), len, h, xs[n]);
    }
  }

  lemma SlotAfter(n: nat, len: int, k: nat)
    requires 0 < len
    ensures Slot(n % len, 1, len, k) == (n + k) % len
  {
    assert n == len * (n / len) + n % len;
    ModAddMultiple(n % len + k, n / len, len);
  }

  lemma StoreExtendsHistory<T>(buf: seq<T>, len: int, h: seq<T>, x: T)
    requires 0 < len <= |buf|
    requires Window(buf, len, h)
    ensures Window(buf[|h| % len := x], len, h + [x])
  {
    forall i | 0 <= i < |h| + 1 && |h| + 1 - len <= i
      ensures buf[|h| % len := x][i % len] == (h + [x])[i]
    {
      if i < |h| {
        DifferentResidues(i, |h|, len);
      }
    }
  }

  lemma DifferentResidues(i: int, j: int, len: int)
    requires 0 < len && i < j < i + len
    ensures i % len != j % len
  {
    assert i == len * (i / len) + i % len && j == len * (j / len) + j % len;
    if i % len == j % len {
      assert len * (j / len - i / len) == j - i;
      if j / len - i / len >= 1 {
        MulMonotone(1, j / len - i / len, len);
      } else {
        MulMonotone(j / len - i / len, 0, len);
      }
    }
  }

  function Flatten<T>(blocks: seq<seq<T>>): seq<T> {
    if blocks == [] then [] else blocks[0] + Flatten(blocks[1..])
  }

  /** A run of write calls, each fed the offset the one before returned. */
  function WriteRun<T>(buf: seq<T>, offset: int, len: int, blocks: seq<seq<T>>): (r: (seq<T>, int))
    requires 0 < len <= |buf|
    ensures |r.0| == |buf|
    decreases |blocks|
  {
    if blocks == [] then (buf, offset)
    else
      WriteRun(WriteBlock(buf, offset, 1, len, blocks[0]),
               Slot(offset, 1, len, |blocks[0]|) % 0x1_0000, len, blocks[1..])
  }

  /** However a stream is cut into blocks, empty or longer than the buffer, the buffer ends
      up holding exactly its last `len` samples. */
  lemma {:induction false} RunRefinesHistory<T>(buf: seq<T>, len: int, history: seq<T>, blocks: seq<seq<T>>)
    requires 0 < len <= |buf| && len <= 0x1_0000
    requires Window(buf, len, history)
    ensures var (buf', offset') := WriteRun(buf, |history| % len, len, blocks);
            && Window(buf', len, history + Flatten(blocks))
            && offset' == |history + Flatten(blocks)| % len
    decreases |blocks|
  {
    if blocks == [] {
      assert history + Flatten(blocks) == history;
    } else {
      var h := history + blocks[0];
      WriteExtendsHistory(buf, len, history, blocks[0]);
      QuotientIs(|h| % len, 0x1_0000, 0);
      RunRefinesHistory(WriteBlock(buf, |history| % len, 1, len, blocks[0]), len, h, blocks[1..]);
      assert h + Flatten(blocks[1..]) == history + Flatten(blocks);
    }
  }

  /** The 16-bit offset is why the length matters: every call returns the true offset
      exactly when the buffer has at most 65536 slots. */
  lemma OffsetSurvivesExactly(len: int)
    requires 0 < len
    ensures (forall offset, n: nat :: 0 <= offset < len && offset < 0x1_0000 ==>
               Slot(offset, 1, len, n) % 0x1_0000 == Slot(offset, 1, len, n))
       <==> len <= 0x1_0000
  {
    if len <= 0x1_0000 {
      forall offset, n: nat | 0 <= offset < len
        ensures Slot(offset, 1, len, n) % 0x1_0000 == Slot(offset, 1, len, n)
      {
        QuotientIs(Slot(offset, 1, len, n), 0x1_0000, 0);
      }
    } else {
      QuotientIs(0x1_0000, len, 0);
      assert Slot(0xFFFF, 1, len, 1) == 0x1_0000;
    }
  }

  /** Over runs too: from an empty stream, the buffer follows every sequence of blocks
      exactly when it has at most 65536 slots. */
  lemma RunRefinesExactly(len: int)
    requires 0 < len
    ensures (forall buf: seq<int>, blocks: seq<seq<int>> :: |buf| == len ==>
               Window(WriteRun(buf, 0, len, blocks).0, len, Flatten(blocks)))
       <==> len <= 0x1_0000
  {
    hide Window, WriteRun, Flatten;
    if len <= 0x1_0000 {
      forall buf: seq<int>, blocks: seq<seq<int>> | |buf| == len
        ensures Window(WriteRun(buf, 0, len, blocks).0, len, Flatten(blocks))
      {
        QuotientIs(0, len, 0);
        EmptyWindow(buf, len);
        RunRefinesHistory(buf, len, [], blocks);
        assert [] + Flatten(blocks) == Flatten(blocks);
      }
    } else {
      var zeros := seq(len, i => 0);
      var blocks := [seq(0x1_0000, i => 0), [1]];
      OffsetLost(zeros, len, blocks);
      assert !Window(WriteRun(zeros, 0, len, blocks).0, len, Flatten(blocks));
    }
  }

  lemma EmptyWindow<T>(buf: seq<T>, len: int)
    requires 0 < len <= |buf|
    ensures Window(buf, len, [])
  {
  }

  /** After 65536 samples the offset comes back as zero, and the next sample lands there. */
  lemma OffsetLost(zeros: seq<int>, len: int, blocks: seq<seq<int>>)
    requires 0x1_0000 < len && zeros == seq(len, i => 0) && blocks == [seq(0x1_0000, i => 0), [1]]
    ensures !Window(WriteRun(zeros, 0, len, blocks).0, len, Flatten(blocks))
  {
    var first := blocks[0];
    var buf := WriteBlock(zeros, 0, 1, len, first);
    ZerosStay(zeros, 0, len, first);
    QuotientIs(0x1_0000, len, 0);
    assert Slot(0, 1, len, 0x1_0000) == 0x1_0000;
    assert blocks[1..] == [[1]] && [[1]][1..] == [];
    OneSample(buf, len, 1);
    assert Flatten<int>([]) == [];
    assert Flatten([[1]]) == [1] + [];
    assert Flatten(blocks) == first + ([1] + []);
    assert Flatten(blocks)[0x1_0000] == 1;
    var after := WriteBlock(buf, 0, 1, len, [1]);
    assert WriteRun(zeros, 0, len, blocks).0 == after;
    assert after[0x1_0000] == 0;
    assert |Flatten(blocks)| - len <= 0x1_0000;
  }

  lemma {:induction false} ZerosStay(buf: seq<int>, start: int, len: int, xs: seq<int>)
    requires 0 < len <= |buf| && forall i :: 0 <= i < |buf| ==> buf[i] == 0
    requires forall i :: 0 <= i < |xs| ==> xs[i] == 0
    ensures forall i :: 0 <= i < |buf| ==> WriteBlock(buf, start, 1, len, xs)[i] == 0
    decreases |xs|
  {
    if xs == [] {
    } else {
      ZerosStay(buf, start, len, xs[..|xs| - 1]);
    }
  }

  lemma OneSample<T>(buf: seq<T>, len: int, x: T)
    requires 0 < len <= |buf|
    ensures WriteBlock(buf, 0, 1, len, [x]) == buf[0 := x]
  {
    SlotZero(0, 1, len);
    assert [x][..0] == [];
  }

  // -------------------------------------------------------------------------
  // Reading behind the writer
  // -------------------------------------------------------------------------

  lemma ReadBehind<T>(buf: seq<T>, len: int, history: seq<T>, delay: nat, n: nat)
    requires 0 < len <= |buf|
    requires Window(buf, len, history)
    requires n <= delay <= |history| && delay <= len
    ensures var from := |history| - delay;
            Samples(buf, from % len, 1, len, n) == history[from..from + n]
  {
    var from := |history| - delay;
    forall k | 0 <= k < n
      ensures Samples(buf, from % len, 1, len, n)[k] == history[from + k]
    {
      SlotAfter(from, len, k);
    }
  }

  /** A delay line: each call pair writes a block and reads back as many samples. */
  function DelayLine<T>(buf: seq<T>, w: int, r: int, len: int, blocks: seq<seq<T>>): seq<T>
    requires 0 < len <= |buf|
    decreases |blocks|
  {
    if blocks == [] then []
    else
      var xs := blocks[0];
      var buf' := WriteBlock(buf, w, 1, len, xs);
      Samples(buf', r, 1, len, |xs|)
      + DelayLine(buf', Slot(w, 1, len, |xs|) % 0x1_0000, Slot(r, 1, len, |xs|), len, blocks[1..])
  }

  /** Over a whole run the output is the input stream delayed by `delay` samples, as long
      as no block together with the delay exceeds the buffer. */
  lemma {:induction false} DelayLineDelays<T>(buf: seq<T>, len: int, history: seq<T>, delay: nat, blocks: seq<seq<T>>)
    requires 0 < len <= |buf| && len <= 0x1_0000
    requires Window(buf, len, history)
    requires delay <= |history|
    requires forall b :: 0 <= b < |blocks| ==> delay + |blocks[b]| <= len
    ensures var from := |history| - delay;
            DelayLine(buf, |history| % len, from % len, len, blocks)
            == (history + Flatten(blocks))[from..from + |Flatten(blocks)|]
    decreases |blocks|
  {
    hide WriteBlock, Samples, Window, Slot;
    if blocks == [] {
      assert (history + Flatten(blocks))[|history| - delay..|history| - delay] == [];
    } else {
      var xs := blocks[0];
      var from := |history| - delay;
      var h := history + xs;
      WriteExtendsHistory(buf, len, history, xs);
      QuotientIs(|h| % len, 0x1_0000, 0);
      SlotAfter(from, len, |xs|);
      var buf' := WriteBlock(buf, |history| % len, 1, len, xs);
      ReadBehind(buf', len, h, delay + |xs|, |xs|);
      DelayLineDelays(buf', len, h, delay, blocks[1..]);
      var rest := Flatten(blocks[1..]);
      assert history + Flatten(blocks) == h + rest;
      AdjacentSlices(h, rest, from, |xs|, |rest|);
    }
  }

  /** Blocks of `n` samples come back delayed whatever the history exactly when a block and
      the delay fit the buffer together. */
  lemma DelayLineExactly(len: int, delay: nat, n: nat)
    requires 0 < len <= 0x1_0000 && 0 < n
    ensures (forall buf: seq<int>, history: seq<int>, blocks: seq<seq<int>> ::
               |buf| == len && Window(buf, len, history) && delay <= |history| && AllOfSize(blocks, n) ==>
                 DelayLine(buf, |history| % len, (|history| - delay) % len, len, blocks)
                 == Delayed(history, delay, blocks))
       <==> delay + n <= len
  {
    hide Window, DelayLine, Flatten;
    if delay + n <= len {
      forall buf: seq<int>, history: seq<int>, blocks: seq<seq<int>> |
        |buf| == len && Window(buf, len, history) && delay <= |history| && AllOfSize(blocks, n)
        ensures DelayLine(buf, |history| % len, (|history| - delay) % len, len, blocks)
             == Delayed(history, delay, blocks)
      {
        DelayLineDelays(buf, len, history, delay, blocks);
      }
    } else {
      var buf, history, block := LappedBlock(len, delay, n);
      assert AllOfSize([block], n);
    }
  }

  ghost predicate AllOfSize<T>(blocks: seq<seq<T>>, n: nat) {
    forall b :: 0 <= b < |blocks| ==> |blocks[b]| == n
  }

  /** The stream, starting `delay` samples before the first block. */
  function Delayed<T>(history: seq<T>, delay: nat, blocks: seq<seq<T>>): seq<T>
    requires delay <= |history|
  {
    var from := |history| - delay;
    (history + Flatten(blocks))[from..from + |Flatten(blocks)|]
  }

  /** A block too long for the delay overwrites what is still to be read. */
  lemma LappedBlock(len: int, delay: nat, n: nat) returns (buf: seq<int>, history: seq<int>, block: seq<int>)
    requires 0 < len <= 0x1_0000 && 0 < n && len < delay + n
    ensures |buf| == len && |history| == delay && |block| == n && Window(buf, len, history)
    ensures DelayLine(buf, |history| % len, (|history| - delay) % len, len, [block])
         != Delayed(history, delay, [block])
  {
    hide WriteBlock, Slot;
    var empty := seq(len, i => 0);
    history := seq(delay, i => i);
    block := seq(n, i => delay + i);
    QuotientIs(0, len, 0);
    EmptyWindow(empty, len);
    WriteExtendsHistory(empty, len, [], history);
    assert [] + history == history;
    buf := WriteBlock(empty, 0, 1, len, history);
    WriteExtendsHistory(buf, len, history, block);
    var last := LastMultiple(delay + n, len);
    var buf' := WriteBlock(buf, delay % len, 1, len, block);
    assert buf'[last % len] == (history + block)[last] == last;
    SlotZero(0, 1, len);
    OneBlock(buf, delay % len, 0, len, block);
    assert DelayLine(buf, delay % len, 0, len, [block])[0] == last;
    assert Flatten([block]) == block;
    assert Delayed(history, delay, [block])[0] == (history + block)[0] == 0;
  }

  lemma OneBlock<T>(buf: seq<T>, w: int, r: int, len: int, xs: seq<T>)
    requires 0 < len <= |buf|
    ensures DelayLine(buf, w, r, len, [xs]) == Samples(WriteBlock(buf, w, 1, len, xs), r, 1, len, |xs|)
    ensures Flatten([xs]) == xs
  {
    assert [xs][1..] == [];
    assert Flatten<T>([]) == [];
  }

  lemma AdjacentSlices<T>(h: seq<T>, rest: seq<T>, from: nat, m: nat, n: nat)
    requires from + m <= |h| && from + m + n <= |h| + |rest|
    ensures h[from..from + m] + (h + rest)[from + m..from + m + n] == (h + rest)[from..from + m + n]
  {
  }

  /** One sample further behind and the oldest one read has already been overwritten. */
  lemma ReadBehindExactly(len: int, delay: nat)
    requires 0 < len && 0 < delay
    ensures (forall buf: seq<int>, history: seq<int> ::
               |buf| == len && |history| >= delay && Window(buf, len, history) ==>
                 Samples(buf, (|history| - delay) % len, 1, len, delay) == history[|history| - delay..])
       <==> delay <= len
  {
    if delay <= len {
      forall buf: seq<int>, history: seq<int> |
        |buf| == len && |history| >= delay && Window(buf, len, history)
        ensures Samples(buf, (|history| - delay) % len, 1, len, delay) == history[|history| - delay..]
      {
        ReadBehind(buf, len, history, delay, delay);
      }
    } else {
      Overwritten(len, delay);
    }
  }

  lemma Overwritten(len: int, delay: nat)
    requires 0 < len < delay
    ensures exists buf: seq<int>, history: seq<int> ::
              && |buf| == len && |history| >= delay && Window(buf, len, history)
              && Samples(buf, (|history| - delay) % len, 1, len, delay) != history[|history| - delay..]
  {
    var history := seq(delay, i => i);
    var empty := seq(len, i => 0);
    var buf := WriteBlock(empty, 0, 1, len, history);
    QuotientIs(0, len, 0);
    WriteExtendsHistory(empty, len, [], history);
    assert [] + history == history;
    var last := LastMultiple(delay, len);
    assert buf[last % len] == history[last] == last;
    SlotZero(0, 1, len);
    assert Samples(buf, 0, 1, len, delay)[0] == buf[0] == last;
    assert history[|history| - delay..] == history && history[0] == 0;
    assert |buf| == len && |history| >= delay && Window(buf, len, history)
        && Samples(buf, (|history| - delay) % len, 1, len, delay) != history[|history| - delay..];
  }

  lemma LastMultiple(n: int, len: int) returns (last: int)
    requires 0 < len < n
    ensures 0 < last < n && n - len <= last && last % len == 0
  {
    var q := (n - 1) / len;
    assert n - 1 == len * q + (n - 1) % len;
    if q < 1 {
      MulMonotone(q, 0, len);
    }
    MulMonotone(1, q, len);
    last := q * len;
    ModAddMultiple(0, q, len);
    QuotientIs(0, len, 0);
  }
}
