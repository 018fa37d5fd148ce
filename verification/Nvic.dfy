/** Interrupt priorities: NVIC_EncodePriority, NVIC_DecodePriority and the priority
    registers. `W` is the number of priority bits the device implements. The split of a
    stored priority byte into group and subpriority follows section B1.5.4 of the Armv7-M
    Architecture Reference Manual. */
module Nvic {
  import opened Arith
  import opened FixedPoint

  /** Bits of preemption priority; only the low three bits of the group count. */
  function PreemptBits(W: nat, group: u32): nat {
    var g := group % 8;
    if 7 - g > W then W else 7 - g
  }

  /** Bits of subpriority; the subtraction is unsigned and wraps before W brings it back. */
  function SubBits(W: nat, group: u32): nat {
    var g := group % 8;
    if g + W < 7 then 0 else ToU32(ToU32(g - 7) + W)
  }

  /** Masked fields, shifted together. */
  function EncodePriority(W: nat, group: u32, preempt: u32, sub: u32): nat {
    preempt % Pow2(PreemptBits(W, group)) * Pow2(SubBits(W, group)) + sub % Pow2(SubBits(W, group))
  }

  function DecodePriority(W: nat, group: u32, priority: nat): (nat, nat) {
    (priority / Pow2(SubBits(W, group)) % Pow2(PreemptBits(W, group)),
     priority % Pow2(SubBits(W, group)))
  }

  /** The two fields share exactly the implemented bits. */
  lemma BitsAddUp(W: nat, group: u32)
    requires W <= 8
    ensures PreemptBits(W, group) + SubBits(W, group) == W
    ensures PreemptBits(W, group) == if 7 - group % 8 < W then 7 - group % 8 else W
  {
  }

  lemma SplitFields(a: int, b: int, w: int)
    requires 0 <= b < w
    ensures (a * w + b) / w == a && (a * w + b) % w == b
  {
    QuotientIs(a * w + b, w, a);
  }

  lemma BelowProduct(a: int, b: int, p: int, w: int)
    requires 0 <= a < p && 0 <= b < w
    ensures 0 <= a * w + b < p * w
  {
    MulMonotone(0, a, w);
    MulMonotone(a, p - 1, w);
    assert (p - 1) * w == p * w - w;
  }

  /** Decoding an encoded pair gives the pair back, masked to its fields. */
  lemma DecodeEncode(W: nat, group: u32, preempt: u32, sub: u32)
    ensures DecodePriority(W, group, EncodePriority(W, group, preempt, sub))
         == (preempt % Pow2(PreemptBits(W, group)), sub % Pow2(SubBits(W, group)))
  {
    var p, s := Pow2(PreemptBits(W, group)), Pow2(SubBits(W, group));
    SplitFields(preempt % p, sub % s, s);
    QuotientIs(preempt % p, p, 0);
  }

  /** Encoding a decoded priority gives it back, if it fits the implemented bits. */
  lemma EncodeDecode(W: nat, group: u32, priority: u32)
    requires W <= 8 && priority < Pow2(W)
    ensures var (preempt, sub) := DecodePriority(W, group, priority);
            preempt <= priority && sub <= priority && EncodePriority(W, group, preempt, sub) == priority
  {
    BitsAddUp(W, group);
    Pow2Add(PreemptBits(W, group), SubBits(W, group));
    FieldsOf(priority, Pow2(PreemptBits(W, group)), Pow2(SubBits(W, group)));
  }

  lemma FieldsOf(x: int, p: int, s: int)
    requires 0 <= x < p * s && 0 < s && 0 < p
    ensures x / s % p == x / s && x / s % p % p == x / s && x % s % s == x % s
    ensures 0 <= x / s <= x && 0 <= x % s <= x
    ensures x / s * s + x % s == x
  {
    var q := x / s;
    assert x == s * q + x % s;
    if q >= p {
      MulMonotone(p, q, s);
    }
    if q < 0 {
      MulMonotone(q, -1, s);
    }
    MulMonotone(1, s, q);
    QuotientIs(q, p, 0);
    QuotientIs(x % s, s, 0);
  }

  /** Bits beyond the fields are ignored, on the way in and on the way out. */
  lemma FieldsOnly(W: nat, group: u32, preempt: u32, sub: u32, priority: nat)
    requires W <= 8
    ensures var p := if 7 - group % 8 < W then 7 - group % 8 else W;
            && EncodePriority(W, group, preempt, sub)
               == preempt % Pow2(p) * Pow2(W - p) + sub % Pow2(W - p)
            && DecodePriority(W, group, priority)
               == (priority % Pow2(W) / Pow2(W - p), priority % Pow2(W - p))
  {
    hide Pow2;
    BitsAddUp(W, group);
    var p, s := PreemptBits(W, group), SubBits(W, group);
    Pow2Add(p, s);
    MiddleField(priority, Pow2(p), Pow2(s));
  }

  /** Taking a field out after the shift or before it is the same. */
  lemma MiddleField(x: int, p: int, s: int)
    requires 0 <= x && 0 < p && 0 < s && 0 < p * s
    ensures x / s % p == x % (p * s) / s
  {
    var q := x / s;
    assert x == s * q + x % s && q == p * (q / p) + q % p;
    LowFields(x, p, s, q, q / p, q % p, x % s);
  }

  lemma LowFields(x: int, p: int, s: int, q: int, m: int, n: int, r: int)
    requires 0 < p && 0 < s && 0 < p * s
    requires x == s * q + r && q == p * m + n && 0 <= n < p && 0 <= r < s
    ensures x % (p * s) / s == n
  {
    FieldsRegroup(x, p, s, q, m, n, r);
    BelowProduct(n, r, p, s);
    QuotientIs(x, p * s, m);
    SplitFields(n, r, s);
  }

  lemma FieldsRegroup(x: int, p: int, s: int, q: int, m: int, n: int, r: int)
    requires x == s * q + r && q == p * m + n
    ensures x == m * (p * s) + (n * s + r)
  {
    assert s * q == s * (p * m) + s * n;
    assert s * (p * m) == m * (p * s);
  }

  // -------------------------------------------------------------------------
  // The priority byte
  // -------------------------------------------------------------------------

  /** What SetPriority stores: the implemented bits at the top of a byte. */
  function StoredByte(W: nat, priority: u32): nat
    requires 1 <= W <= 8
  {
    ToU32(priority * Pow2(8 - W)) % 0x100
  }

  /** What GetPriority makes of it. */
  function ReadBack(W: nat, stored: nat): nat
    requires 1 <= W <= 8
  {
    DivNonnegative(stored, Pow2(8 - W));
    stored / Pow2(8 - W)
  }

  lemma StoredByteValue(W: nat, priority: u32)
    requires 1 <= W <= 8
    ensures StoredByte(W, priority) == priority % Pow2(W) * Pow2(8 - W) < 0x100
    ensures ReadBack(W, StoredByte(W, priority)) == priority % Pow2(W)
  {
    Pow2Values();
    Pow2Add(W, 8 - W);
    LowByte(priority * Pow2(8 - W));
    ShiftedByte(priority, Pow2(W), Pow2(8 - W));
  }

  /** Narrowing to 32 bits on the way to the byte loses nothing. */
  lemma LowByte(z: int)
    ensures ToU32(z) % 0x100 == z % 0x100
  {
    var q := z / 0x1_0000_0000;
    assert z == 0x1_0000_0000 * q + ToU32(z);
    ModAddMultiple(ToU32(z), q * 0x100_0000, 0x100);
  }

  lemma ShiftedByte(x: int, w: int, k: int)
    requires 0 < w && 0 < k && w * k == 0x100
    ensures (x * k) % 0x100 == x % w * k < 0x100
    ensures x % w * k / k == x % w
  {
    var q, r := x / w, x % w;
    assert x == w * q + r;
    assert x * k == q * 0x100 + r * k by {
      assert (w * q + r) * k == (w * q) * k + r * k;
      assert (w * q) * k == q * (w * k);
    }
    BelowProduct(r, 0, w, k);
    MulMonotone(r, w - 1, k);
    assert (w - 1) * k == w * k - k;
    QuotientIs(x * k, 0x100, q);
    SplitFields(r, 0, k);
  }

  /** The hardware's view of a stored byte: bits 7 down to PRIGROUP+1 decide preemption. */
  function GroupField(group: u32, stored: int): int {
    stored / Pow2(group % 8 + 1)
  }

  /** The group field the hardware sees is the preemption priority, scaled up when the
      device implements fewer bits than the group has. */
  lemma GroupFieldIsPreempt(W: nat, group: u32, a: nat, b: nat)
    requires 1 <= W <= 8
    requires a < Pow2(PreemptBits(W, group)) && b < Pow2(SubBits(W, group))
    ensures GroupField(group, (a * Pow2(SubBits(W, group)) + b) * Pow2(8 - W)) == a * Pow2(UnusedBits(W, group))
  {
    hide Pow2, PreemptBits, SubBits, UnusedBits, GroupField;
    FieldWidths(W, group);
    if group % 8 + W < 7 {
      WideGroup(W, group, a, b);
    } else {
      NarrowGroup(W, group, a, b);
    }
  }

  lemma FieldWidths(W: nat, group: u32)
    requires 1 <= W <= 8
    ensures var g := group % 8;
            if g + W < 7 then SubBits(W, group) == 0 && UnusedBits(W, group) == 7 - W - g
            else SubBits(W, group) == g - 7 + W && UnusedBits(W, group) == 0
  {
  }

  lemma WideGroup(W: nat, group: u32, a: nat, b: nat)
    requires 1 <= W && group % 8 + W < 7 && b < Pow2(0)
    ensures GroupField(group, (a * Pow2(0) + b) * Pow2(8 - W)) == a * Pow2(7 - W - group % 8)
  {
    var g := group % 8;
    assert a * Pow2(0) + b == a;
    Pow2Add(7 - W - g, g + 1);
    GroupAbove(a, Pow2(7 - W - g), Pow2(g + 1));
  }

  lemma NarrowGroup(W: nat, group: u32, a: nat, b: nat)
    requires 1 <= W <= 8 && 7 <= group % 8 + W && b < Pow2(group % 8 - 7 + W)
    ensures GroupField(group, (a * Pow2(group % 8 - 7 + W) + b) * Pow2(8 - W)) == a * Pow2(0)
  {
    var g := group % 8;
    Pow2Add(g - 7 + W, 8 - W);
    GroupBelow(a, b, Pow2(g - 7 + W), Pow2(8 - W));
  }

  /** Group bits the device does not implement. */
  function UnusedBits(W: nat, group: u32): nat {
    if group % 8 + W < 7 then 7 - W - group % 8 else 0
  }

  lemma GroupAbove(a: int, u: int, v: int)
    requires 0 < v
    ensures a * (u * v) / v == a * u
  {
    assert a * (u * v) == (a * u) * v;
    SplitFields(a * u, 0, v);
  }

  lemma GroupBelow(a: int, b: int, s: int, k: int)
    requires 0 <= b < s && 0 < k && 0 < s * k
    ensures (a * s + b) * k / (s * k) == a
  {
    assert (a * s + b) * k == a * (s * k) + b * k by {
      assert (a * s + b) * k == a * s * k + b * k;
      assert a * s * k == a * (s * k);
    }
    MulMonotone(b, s - 1, k);
    assert (s - 1) * k == s * k - k;
    MulMonotone(0, b, k);
    SplitFields(a, b * k, s * k);
  }

  lemma ScaleOrder(a: int, b: int, w: int)
    requires 0 < w
    ensures a < b <==> a * w < b * w
    ensures a == b <==> a * w == b * w
  {
    if a < b {
      MulMonotone(a, b - 1, w);
      assert (b - 1) * w == b * w - w;
    } else {
      MulMonotone(b, a, w);
      if b < a {
        MulMonotone(b, a - 1, w);
        assert (a - 1) * w == a * w - w;
      }
    }
  }

  lemma FieldOrder(a: int, b: int, a': int, b': int, w: int)
    requires 0 <= b < w && 0 <= b' < w
    ensures a * w + b < a' * w + b' <==> a < a' || (a == a' && b < b')
  {
    if a < a' {
      MulMonotone(a + 1, a', w);
      assert (a + 1) * w == a * w + w;
    } else if a' < a {
      MulMonotone(a' + 1, a, w);
      assert (a' + 1) * w == a' * w + w;
    }
  }

  /** Two priorities encoded in range and stored compare in hardware as they were meant:
      one preempts the other exactly when its preemption priority is lower, and the whole
      bytes are ordered by preemption priority first and subpriority second. */
  lemma HardwareOrder(W: nat, group: u32, a: u32, b: u32, a': u32, b': u32)
    requires 1 <= W <= 8
    requires a < Pow2(PreemptBits(W, group)) && b < Pow2(SubBits(W, group))
    requires a' < Pow2(PreemptBits(W, group)) && b' < Pow2(SubBits(W, group))
    ensures var x := StoredByte(W, EncodedWord(W, group, a, b));
            var x' := StoredByte(W, EncodedWord(W, group, a', b'));
            && (GroupField(group, x) < GroupField(group, x') <==> a < a')
            && (GroupField(group, x) == GroupField(group, x') <==> a == a')
            && (x < x' <==> a < a' || (a == a' && b < b'))
  {
    StoredEncoding(W, group, a, b);
    StoredEncoding(W, group, a', b');
    GroupFieldIsPreempt(W, group, a, b);
    GroupFieldIsPreempt(W, group, a', b');
    ScaleOrder(a, a', Pow2(UnusedBits(W, group)));
    var s := Pow2(SubBits(W, group));
    ScaleOrder(a * s + b, a' * s + b', Pow2(8 - W));
    FieldOrder(a, b, a', b', s);
  }

  /** The encoding as the 32-bit word it is passed on as. */
  function EncodedWord(W: nat, group: u32, preempt: u32, sub: u32): u32
    requires W <= 8
  {
    EncodingFits(W, group, preempt, sub);
    EncodePriority(W, group, preempt, sub)
  }

  lemma EncodingFits(W: nat, group: u32, preempt: u32, sub: u32)
    requires W <= 8
    ensures EncodePriority(W, group, preempt, sub) < Pow2(W) <= 0x100
  {
    var p, s := PreemptBits(W, group), SubBits(W, group);
    BitsAddUp(W, group);
    Pow2Add(p, s);
    BelowProduct(preempt % Pow2(p), sub % Pow2(s), Pow2(p), Pow2(s));
    Pow2AtMost(W, 8);
    Pow2Values();
  }

  lemma StoredEncoding(W: nat, group: u32, a: u32, b: u32)
    requires 1 <= W <= 8
    requires a < Pow2(PreemptBits(W, group)) && b < Pow2(SubBits(W, group))
    ensures EncodePriority(W, group, a, b) == a * Pow2(SubBits(W, group)) + b
    ensures StoredByte(W, EncodedWord(W, group, a, b))
         == (a * Pow2(SubBits(W, group)) + b) * Pow2(8 - W)
  {
    QuotientIs(a, Pow2(PreemptBits(W, group)), 0);
    QuotientIs(b, Pow2(SubBits(W, group)), 0);
    EncodingFits(W, group, a, b);
    StoredByteValue(W, EncodedWord(W, group, a, b));
    QuotientIs(EncodedWord(W, group, a, b), Pow2(W), 0);
  }

  /** A pair survives the trip through the register: encode, store, read back, decode. */
  lemma RegisterRoundTrip(W: nat, group: u32, a: u32, b: u32)
    requires 1 <= W <= 8
    requires a < Pow2(PreemptBits(W, group)) && b < Pow2(SubBits(W, group))
    ensures DecodePriority(W, group, ReadBack(W, StoredByte(W, EncodedWord(W, group, a, b)))) == (a, b)
  {
    EncodingFits(W, group, a, b);
    StoredByteValue(W, EncodedWord(W, group, a, b));
    QuotientIs(EncodedWord(W, group, a, b), Pow2(W), 0);
    DecodeEncode(W, group, a, b);
    QuotientIs(a, Pow2(PreemptBits(W, group)), 0);
    QuotientIs(b, Pow2(SubBits(W, group)), 0);
  }

  // -------------------------------------------------------------------------
  // The registers
  // -------------------------------------------------------------------------

  /** IP holds the priorities of device interrupts, SHP those of the system exceptions,
      whose numbers are negative: -12 is its first entry and -1 its last. */
  class Priorities {
    const W: nat
    const IP: array<nat>
    const SHP: array<nat>

    constructor (w: nat, devices: nat)
      requires 1 <= w <= 8
      ensures Valid() && W == w && IP.Length == devices && fresh(IP) && fresh(SHP)
      ensures forall irqn :: Settable(irqn) ==> Stored(irqn) == 0
    {
      W := w;
      IP := new nat[devices](i => 0);
      SHP := new nat[12](i => 0);
    }

    ghost predicate Valid()
    {
      1 <= W <= 8 && SHP.Length == 12 && IP != SHP
    }

    predicate Settable(irqn: int)
    {
      -12 <= irqn < IP.Length
    }

    /** `(((uint32_t)IRQn) & 0xFUL)-4UL` */
    static function SystemIndex(irqn: int): (i: nat)
      requires -12 <= irqn < 0
      ensures i == irqn + 12
    {
      ToU32(irqn) % 16 - 4
    }

    function Stored(irqn: int): nat
      requires Valid() && Settable(irqn)
      reads IP, SHP
    {
      if irqn >= 0 then IP[irqn] else SHP[SystemIndex(irqn)]
    }

    method SetPriority(irqn: int, priority: u32)
      requires Valid() && Settable(irqn)
      modifies IP, SHP
      ensures irqn >= 0 ==>
                && IP[..] == old(IP[..])[irqn := priority * Pow2(8 - W) % 0x100]
                && SHP[..] == old(SHP[..])
      ensures irqn < 0 ==>
                && SHP[..] == old(SHP[..])[irqn + 12 := priority * Pow2(8 - W) % 0x100]
                && IP[..] == old(IP[..])
      ensures Stored(irqn) == StoredByte(W, priority)
      ensures forall other :: Settable(other) && other != irqn ==> Stored(other) == old(Stored(other))
    {
      LowByte(priority * Pow2(8 - W));
      if irqn >= 0 {
        IP[irqn] := ToU32(priority * Pow2(8 - W)) % 0x100;
      } else {
        SHP[SystemIndex(irqn)] := ToU32(priority * Pow2(8 - W)) % 0x100;
      }
    }

    method GetPriority(irqn: int) returns (priority: int)
      requires Valid() && Settable(irqn)
      ensures priority == if irqn >= 0 then IP[irqn] / Pow2(8 - W) else SHP[irqn + 12] / Pow2(8 - W)
      ensures priority == ReadBack(W, Stored(irqn))
    {
      if irqn >= 0 {
        priority := IP[irqn] / Pow2(8 - W);
      } else {
        priority := SHP[SystemIndex(irqn)] / Pow2(8 - W);
      }
    }
  }
}
