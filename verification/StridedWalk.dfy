/** Strides other than one: which slots a walk visits, when a block survives being written
    along it, and where a read lays its samples down. */
module StridedWalk {
  import opened Arith
  import opened CircularBuffer

  function Gcd(a: nat, b: nat): (g: nat)
    requires 0 < a || 0 < b
    ensures 0 < g
    decreases b
  {
    if b == 0 then a else Gcd(b, a % b)
  }

  /** Accesses before the walk is back where it started. */
  function Period(inc: nat, len: nat): (p: nat)
    requires 0 < len
    ensures 0 < p
  {
    GcdDivides(len, inc);
    GcdAtMost(len, Gcd(len, inc));
    len / Gcd(len, inc)
  }

  lemma GcdAtMost(x: nat, g: nat)
    requires 0 < x && 0 < g && x % g == 0
    ensures 0 < x / g && g * (x / g) == x
  {
    var q := x / g;
    assert x == g * q + x % g;
    if q <= 0 {
      MulMonotone(q, 0, g);
    }
  }

  lemma DivisibleSum(x: int, y: int, k: int, d: int)
    requires 0 < d && x % d == 0 && y % d == 0
    ensures (x + k * y) % d == 0
  {
    var p, q := x / d, y / d;
    assert x == p * d && y == q * d;
    assert k * y == (k * q) * d by {
      assert k * (q * d) == (k * q) * d;
    }
    ModAddMultiple(x, k * q, d);
  }

  lemma {:induction false} GcdDivides(a: nat, b: nat)
    requires 0 < a || 0 < b
    ensures a % Gcd(a, b) == 0 && b % Gcd(a, b) == 0
    decreases b
  {
    if b == 0 {
      QuotientIs(a, a, 1);
      QuotientIs(0, a, 0);
    } else {
      GcdDivides(b, a % b);
      var g := Gcd(b, a % b);
      DivisibleSum(a % b, b, a / b, g);
      assert a == a % b + (a / b) * b;
    }
  }

  /** If `d` divides k*a and k*b, it divides k*gcd(a, b). */
  lemma {:induction false} GcdCombines(a: nat, b: nat, k: int, d: int)
    requires 0 < d && (0 < a || 0 < b)
    requires (k * a) % d == 0 && (k * b) % d == 0
    ensures (k * Gcd(a, b)) % d == 0
    decreases b
  {
    if b == 0 {
    } else {
      var q := a / b;
      assert a % b == a + (-q) * b;
      assert k * (a % b) == k * a + (-q) * (k * b) by {
        assert k * ((-q) * b) == (-q) * (k * b);
      }
      DivisibleSum(k * a, k * b, -q, d);
      GcdCombines(b, a % b, k, d);
    }
  }

  lemma PeriodTimesGcd(inc: nat, len: nat)
    requires 0 < len
    ensures Gcd(len, inc) * Period(inc, len) == len
    ensures inc % Gcd(len, inc) == 0
  {
    GcdDivides(len, inc);
    GcdAtMost(len, Gcd(len, inc));
  }

  /** k strides come back to the start exactly at the multiples of the period. */
  lemma ReturnsExactly(inc: nat, len: nat, k: nat)
    requires 0 < len
    ensures (k * inc) % len == 0 <==> k % Period(inc, len) == 0
  {
    PeriodTimesGcd(inc, len);
    if (k * inc) % len == 0 {
      ModAddMultiple(0, k, len);
      QuotientIs(0, len, 0);
      GcdCombines(len, inc, k, len);
      StripFactor(k, Gcd(len, inc), Period(inc, len));
    }
    if k % Period(inc, len) == 0 {
      CarryFactor(k, inc, Gcd(len, inc), Period(inc, len));
    }
  }

  lemma StripFactor(k: int, g: int, p: int)
    requires 0 < g && 0 < p && 0 < g * p && (k * g) % (g * p) == 0
    ensures k % p == 0
  {
    var q := (k * g) / (g * p);
    assert k * g == (g * p) * q + (k * g) % (g * p);
    assert (g * p) * q == (q * p) * g;
    CancelFactor(k, q * p, g);
    ModAddMultiple(0, q, p);
    QuotientIs(0, p, 0);
  }

  lemma CarryFactor(k: int, inc: int, g: int, p: int)
    requires 0 < g && 0 < p && 0 < g * p && k % p == 0 && inc % g == 0
    ensures (k * inc) % (g * p) == 0
  {
    var m, n := k / p, inc / g;
    assert k == p * m + k % p && inc == g * n + inc % g;
    Interchange(p, m, g, n);
    ModAddMultiple(0, m * n, g * p);
    QuotientIs(0, g * p, 0);
  }

  lemma CancelFactor(x: int, y: int, g: int)
    requires 0 < g && x * g == y * g
    ensures x == y
  {
    if x < y {
      MulMonotone(x + 1, y, g);
    } else if y < x {
      MulMonotone(y + 1, x, g);
    }
  }

  lemma Interchange(p: int, m: int, g: int, n: int)
    ensures (p * m) * (g * n) == (m * n) * (g * p)
  {
    var a, b := p * m, g * n;
    assert a * b == p * (m * (g * n)) == p * (g * (m * n)) == (p * g) * (m * n);
  }

  /** Two accesses of a walk share a slot exactly when their distance is a multiple of the
      period. */
  lemma SameSlotExactly(start: int, inc: nat, len: nat, i: nat, j: nat)
    requires 0 < len && i <= j
    ensures Slot(start, inc, len, i) == Slot(start, inc, len, j) <==> (j - i) % Period(inc, len) == 0
  {
    ReturnsExactly(inc, len, j - i);
    var x, y := start + i * inc, start + j * inc;
    assert y == x + (j - i) * inc;
    SameResidue(x, (j - i) * inc, len);
  }

  lemma SameResidue(x: int, d: int, len: int)
    requires 0 < len
    ensures x % len == (x + d) % len <==> d % len == 0
  {
    assert x == len * (x / len) + x % len;
    assert d == len * (d / len) + d % len;
    ModAddMultiple(x % len + d % len, x / len + d / len, len);
    assert (x / len + d / len) * len == len * (x / len) + len * (d / len);
    ModStep(x % len, d % len, len);
    QuotientIs(x % len, len, 0);
  }

  // -------------------------------------------------------------------------
  // Writing a block and reading it back along the same walk
  // -------------------------------------------------------------------------

  /** A write changes exactly the slots its walk visits: no block of that length touches any
      other, and some block changes each of them. */
  lemma WriteTouchesExactly(buf: seq<int>, start: int, inc: int, len: int, n: nat, s: int)
    requires 0 < len <= |buf| && 0 <= s < |buf|
    ensures (forall xs: seq<int> :: |xs| == n ==> WriteBlock(buf, start, inc, len, xs)[s] == buf[s])
       <==> forall j :: 0 <= j < n ==> Slot(start, inc, len, j) != s
  {
    hide WriteBlock, Slot;
    if forall j :: 0 <= j < n ==> Slot(start, inc, len, j) != s {
      forall xs: seq<int> | |xs| == n
        ensures WriteBlock(buf, start, inc, len, xs)[s] == buf[s]
      {
        UnvisitedStays(buf, start, inc, len, xs, s);
      }
    } else {
      var j := LastVisit(start, inc, len, n, s);
      var xs := seq(n, i => buf[s] + 1);
      LastWriterStays(buf, start, inc, len, xs, j);
      assert WriteBlock(buf, start, inc, len, xs)[s] != buf[s];
    }
  }

  lemma {:induction false} LastVisit(start: int, inc: int, len: int, n: nat, s: int) returns (k: nat)
    requires 0 < len && exists j :: 0 <= j < n && Slot(start, inc, len, j) == s
    ensures k < n && Slot(start, inc, len, k) == s
    ensures forall j :: k < j < n ==> Slot(start, inc, len, j) != s
  {
    hide Slot;
    if Slot(start, inc, len, n - 1) == s {
      k := n - 1;
    } else {
      k := LastVisit(start, inc, len, n - 1, s);
    }
  }

  /** A block no longer than the period: sample by sample, every one is where its access was. */
  lemma StridedBlockLands<T>(buf: seq<T>, start: int, inc: nat, len: nat,
                             src: seq<T>, srcStart: int, srcInc: int, n: nat, k: nat)
    requires 0 < len <= |buf| && k < n <= Period(inc, len)
    requires forall i :: 0 <= i < n ==> 0 <= SrcPos(srcStart, srcInc, i) < |src|
    ensures 0 <= srcStart + k * srcInc < |src|
    ensures WriteBlock(buf, start, inc, len, Gather(src, srcStart, srcInc, n))[(start + k * inc) % len]
         == src[srcStart + k * srcInc]
  {
    hide WriteBlock, Gather, Slot;
    forall j | k < j < n
      ensures Slot(start, inc, len, j) != Slot(start, inc, len, k)
    {
      SameSlotExactly(start, inc, len, k, j);
      QuotientIs(j - k, Period(inc, len), 0);
    }
    GatherAt(src, srcStart, srcInc, n, k);
    assert LastVisitTo(start, inc, len, n, k);
    BlockLands(buf, start, inc, len, src, srcStart, srcInc, n);
  }

  lemma RoundTrip<T>(buf: seq<T>, start: int, inc: nat, len: nat, xs: seq<T>)
    requires 0 < len <= |buf| && |xs| <= Period(inc, len)
    ensures Samples(WriteBlock(buf, start, inc, len, xs), start, inc, len, |xs|) == xs
  {
    var r := Samples(WriteBlock(buf, start, inc, len, xs), start, inc, len, |xs|);
    forall k | 0 <= k < |xs|
      ensures r[k] == xs[k]
    {
      forall j | k < j < |xs|
        ensures Slot(start, inc, len, j) != Slot(start, inc, len, k)
      {
        SameSlotExactly(start, inc, len, k, j);
        QuotientIs(j - k, Period(inc, len), 0);
      }
      LastWriterStays(buf, start, inc, len, xs, k);
    }
  }

  /** With a stride coprime to the length, a block of up to one round hits no slot twice and
      comes back whole. */
  lemma CoprimeRoundTrip<T>(buf: seq<T>, start: int, inc: nat, len: nat, xs: seq<T>)
    requires 0 < len <= |buf| && |xs| <= len && Gcd(len, inc) == 1
    ensures forall j, k :: 0 <= j < k < |xs| ==> Slot(start, inc, len, j) != Slot(start, inc, len, k)
    ensures Samples(WriteBlock(buf, start, inc, len, xs), start, inc, len, |xs|) == xs
  {
    RoundTrip(buf, start, inc, len, xs);
    forall j, k | 0 <= j < k < |xs|
      ensures Slot(start, inc, len, j) != Slot(start, inc, len, k)
    {
      SameSlotExactly(start, inc, len, j, k);
      QuotientIs(k - j, len, 0);
    }
  }

  /** A block written along a walk and read back along it returns unchanged, whatever the
      samples, exactly when it is no longer than the walk's period. */
  lemma RoundTripExactly(buf: seq<int>, start: int, inc: nat, len: nat, n: nat)
    requires 0 < len <= |buf|
    ensures (forall xs: seq<int> :: |xs| == n ==>
               Samples(WriteBlock(buf, start, inc, len, xs), start, inc, len, n) == xs)
       <==> n <= Period(inc, len)
  {
    if n <= Period(inc, len) {
      forall xs: seq<int> | |xs| == n
        ensures Samples(WriteBlock(buf, start, inc, len, xs), start, inc, len, n) == xs
      {
        RoundTrip(buf, start, inc, len, xs);
      }
    } else {
      var p := Period(inc, len);
      var xs := seq(n, i => i);
      var r := Samples(WriteBlock(buf, start, inc, len, xs), start, inc, len, n);
      SameSlotExactly(start, inc, len, 0, p);
      QuotientIs(p, p, 1);
      assert r[0] == r[p];
      assert xs[0] != xs[p];
      assert r != xs;
    }
  }

  // -------------------------------------------------------------------------
  // The destination of a read
  // -------------------------------------------------------------------------

  /** A destination step that divides the area walks round it and never past its end. */
  lemma {:induction false} DstWraps(start: int, base: int, length: int, inc: int, k: nat)
    requires 0 < inc <= length && base <= start < base + length
    requires length % inc == 0 && (start - base) % inc == 0
    ensures DstPos(start, base, length, inc, k) == base + Slot(start - base, inc, length, k)
    ensures Slot(start - base, inc, length, k) % inc == 0
    decreases k
  {
    if k == 0 {
      SlotZero(start - base, inc, length);
    } else {
      DstWraps(start, base, length, inc, k - 1);
      var s := Slot(start - base, inc, length, k - 1);
      NextSlot(start - base, inc, length, k - 1);
      DivisibleSum(s, inc, 1, inc) by { QuotientIs(inc, inc, 1); }
      DivisibleSum(s + inc, length, -1, inc);
      if s + inc > length {
        // both are multiples of inc, so they would differ by at least inc
        NoMultipleBetween(s, length, inc);
      }
    }
  }

  lemma NoMultipleBetween(x: int, y: int, d: int)
    requires 0 < d && x % d == 0 && y % d == 0 && x < y
    ensures x + d <= y
  {
    var p, q := x / d, y / d;
    assert x == d * p && y == d * q;
    if q <= p {
      MulMonotone(q, p, d);
    }
    MulMonotone(p + 1, q, d);
  }

  /** A read into a destination area it does not lap leaves every sample where the
      destination pointer stood when it was read. */
  lemma ScatterLands<T>(dst: seq<T>, start: int, base: int, length: int, inc: int, ys: seq<T>, k: nat)
    requires 0 < inc <= length && base <= start < base + length
    requires length % inc == 0 && (start - base) % inc == 0
    requires 0 <= base && base + length <= |dst|
    requires |ys| <= Period(inc, length) && k < |ys|
    ensures forall j :: 0 <= j < |ys| ==> 0 <= DstPos(start, base, length, inc, j) < |dst|
    ensures Scatter(dst, start, base, length, inc, ys)[base + Slot(start - base, inc, length, k)] == ys[k]
  {
    forall j | 0 <= j < |ys|
      ensures DstPos(start, base, length, inc, j) == base + Slot(start - base, inc, length, j)
    {
      DstWraps(start, base, length, inc, j);
    }
    forall j | k < j < |ys|
      ensures DstPos(start, base, length, inc, j) != DstPos(start, base, length, inc, k)
    {
      SameSlotExactly(start - base, inc, length, k, j);
      QuotientIs(j - k, Period(inc, length), 0);
    }
    LastScatterStays(dst, start, base, length, inc, ys, k);
  }
}
