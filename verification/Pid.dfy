/** The incremental PID controllers arm_pid_q15 and arm_pid_q31: one accumulation, one
    shift, one narrowing per sample, and three remembered values. */
module Pid {
  import opened Arith
  import opened FixedPoint

  datatype Gains = Gains(A0: int, A1: int, A2: int)

  /** The state array: x[n-1], x[n-2], y[n-1]. */
  datatype State = State(x1: int, x2: int, y1: int)

  const ZERO := State(0, 0, 0)

  /** A0*x[n] + A1*x[n-1] + A2*x[n-2], the part of the accumulator the gains make. */
  function Weighted(g: Gains, s: State, x: int): int {
    g.A0 * x + g.A1 * s.x1 + g.A2 * s.x2
  }

  /** How a controller turns gains, state and sample into an output. */
  type Controller = (Gains, State, int) -> int

  function Step(out: Controller, g: Gains, s: State, x: int): State {
    State(x, s.x1, out(g, s, x))
  }

  function Run(out: Controller, g: Gains, s: State, xs: seq<int>): State {
    if xs == [] then s
    else Step(out, g, Run(out, g, s, xs[..|xs| - 1]), xs[|xs| - 1])
  }

  // -------------------------------------------------------------------------
  // Conservation over a run, at any scale and for any rule of narrowing
  // -------------------------------------------------------------------------

  /** What one step drops: the accumulator less the output it was narrowed to. */
  function Dropped(scale: int, out: Controller, g: Gains, s: State, x: int): int {
    Weighted(g, s, x) + scale * s.y1 - scale * out(g, s, x)
  }

  function TotalDropped(scale: int, out: Controller, g: Gains, s: State, xs: seq<int>): int {
    if xs == [] then 0
    else
      var before := xs[..|xs| - 1];
      TotalDropped(scale, out, g, s, before) + Dropped(scale, out, g, Run(out, g, s, before), xs[|xs| - 1])
  }

  /** The gains the initialisation derives from the three constants. */
  function DerivedGains(Kp: int, Ki: int, Kd: int): Gains {
    Gains(Kp + Ki + Kd, -Kp - 2 * Kd, Kd)
  }

  function Sum(xs: seq<int>): int {
    if xs == [] then 0 else Sum(xs[..|xs| - 1]) + xs[|xs| - 1]
  }

  /** The k-th sample from the end, or zero before the start. */
  function FromEnd(xs: seq<int>, k: nat): int {
    if k < |xs| then xs[|xs| - 1 - k] else 0
  }

  /** The textbook controller: proportional, integral and derivative terms. */
  function Positional(Kp: int, Ki: int, Kd: int, xs: seq<int>): int {
    Kp * FromEnd(xs, 0) + Ki * Sum(xs) + Kd * (FromEnd(xs, 0) - FromEnd(xs, 1))
  }

  lemma {:induction false} RunRemembers(out: Controller, g: Gains, xs: seq<int>)
    ensures Run(out, g, ZERO, xs).x1 == FromEnd(xs, 0)
    ensures Run(out, g, ZERO, xs).x2 == FromEnd(xs, 1)
  {
    if xs == [] {
    } else {
      RunRemembers(out, g, xs[..|xs| - 1]);
    }
  }

  /** From rest, the output and everything dropped on the way add up to the positional
      form exactly, saturated or not, whatever the narrowing rule. */
  lemma {:induction false} PidConservation(scale: int, out: Controller, Kp: int, Ki: int, Kd: int, xs: seq<int>)
    ensures DerivedGains(Kp, Ki, Kd) == Gains(Kp + Ki + Kd, -Kp - 2 * Kd, Kd)
    ensures var g := DerivedGains(Kp, Ki, Kd);
            scale * Run(out, g, ZERO, xs).y1 + TotalDropped(scale, out, g, ZERO, xs)
            == Positional(Kp, Ki, Kd, xs)
  {
    var g := DerivedGains(Kp, Ki, Kd);
    if xs != [] {
      var before, x := xs[..|xs| - 1], xs[|xs| - 1];
      PidConservation(scale, out, Kp, Ki, Kd, before);
      RunRemembers(out, g, before);
      Telescope(Kp, Ki, Kd, x, FromEnd(before, 0), FromEnd(before, 1), Sum(before));
    } else {
      Rest(Kp, Ki, Kd, scale);
    }
  }

  lemma Rest(Kp: int, Ki: int, Kd: int, scale: int)
    ensures Kp * 0 + Ki * 0 + Kd * (0 - 0) == 0 == scale * 0
  {
  }

  lemma Telescope(Kp: int, Ki: int, Kd: int, x: int, x1: int, x2: int, sum: int)
    ensures (Kp + Ki + Kd) * x + (-Kp - 2 * Kd) * x1 + Kd * x2
         == (Kp * x + Ki * (sum + x) + Kd * (x - x1)) - (Kp * x1 + Ki * sum + Kd * (x1 - x2))
  {
    assert (Kp + Ki + Kd) * x == Kp * x + Ki * x + Kd * x;
    assert (-Kp - 2 * Kd) * x1 == -(Kp * x1) - 2 * (Kd * x1);
    assert Ki * (sum + x) == Ki * sum + Ki * x;
    assert Kd * (x - x1) == Kd * x - Kd * x1 && Kd * (x1 - x2) == Kd * x1 - Kd * x2;
  }

  // -------------------------------------------------------------------------
  // arm_pid_q15, the portable body
  // -------------------------------------------------------------------------

  predicate GainsFitQ15(g: Gains) {
    -0x8000 <= g.A0 < 0x8000 && -0x8000 <= g.A1 < 0x8000 && -0x8000 <= g.A2 < 0x8000
  }

  predicate StateFitsQ15(s: State) {
    -0x8000 <= s.x1 < 0x8000 && -0x8000 <= s.x2 < 0x8000 && -0x8000 <= s.y1 < 0x8000
  }

  predicate InputsFitQ15(xs: seq<int>) {
    forall i :: 0 <= i < |xs| ==> -0x8000 <= xs[i] < 0x8000
  }

  /** Shift the accumulator down, saturate to 16 bits, narrow. */
  function NarrowQ15(acc: int): q15 {
    ToQ15(Ssat(ToQ31(acc / 0x8000), 16))
  }

  function OutQ15(g: Gains, s: State, x: int): int {
    NarrowQ15(Weighted(g, s, x) + s.y1 * 0x8000)
  }

  lemma AccumulatorRange(g: Gains, s: State, x: int)
    requires GainsFitQ15(g) && StateFitsQ15(s) && -0x8000 <= x < 0x8000
    ensures -0xC000_0000 <= Weighted(g, s, x) <= 0xC000_0000
  {
    ProductBound(g.A0, x, 0x8000, 0x8000);
    ProductBound(g.A1, s.x1, 0x8000, 0x8000);
    ProductBound(g.A2, s.x2, 0x8000, 0x8000);
  }

  lemma NarrowQ15Saturates(acc: int)
    requires -0x1_0001_0000 <= acc <= 0x1_0001_0000
    ensures NarrowQ15(acc) == Clamp(acc / 0x8000, -0x8000, 0x7FFF)
  {
    ToQ31Id(acc / 0x8000);
    Ssat16(acc / 0x8000);
    ToQ15Id(Clamp(acc / 0x8000, -0x8000, 0x7FFF));
  }

  /** As documented, the accumulator has no risk of overflow on the way to the saturation:
      every partial sum fits 64 bits, its shifted value fits 32, and the output is the
      clamped sum. */
  lemma OutQ15Saturates(g: Gains, s: State, x: int)
    requires GainsFitQ15(g) && StateFitsQ15(s) && -0x8000 <= x < 0x8000
    ensures var p, q := g.A0 * x, g.A0 * x + g.A1 * s.x1;
            var acc := Weighted(g, s, x) + s.y1 * 0x8000;
            && ToQ63(p) == p && ToQ63(q) == q && ToQ63(Weighted(g, s, x)) == Weighted(g, s, x)
            && ToQ63(acc) == acc && ToQ31(acc / 0x8000) == acc / 0x8000
            && OutQ15(g, s, x) == Clamp(acc / 0x8000, -0x8000, 0x7FFF)
  {
    hide ToQ31, ToQ63, NarrowQ15;
    AccumulatorRange(g, s, x);
    ProductBound(g.A0, x, 0x8000, 0x8000);
    ProductBound(g.A1, s.x1, 0x8000, 0x8000);
    var acc := Weighted(g, s, x) + s.y1 * 0x8000;
    ToQ63Id(g.A0 * x);
    ToQ63Id(g.A0 * x + g.A1 * s.x1);
    ToQ63Id(Weighted(g, s, x));
    ToQ63Id(acc);
    ToQ31Id(acc / 0x8000);
    NarrowQ15Saturates(acc);
  }

  lemma ToQ63Id(x: int)
    ensures -0x8000_0000_0000_0000 <= x < 0x8000_0000_0000_0000 ==> ToQ63(x) == x
  {
  }

  /** The step's shifted accumulator is already a Q15 value. */
  predicate InRangeQ15(g: Gains, s: State, x: int) {
    -0x8000 <= (Weighted(g, s, x) + s.y1 * 0x8000) / 0x8000 < 0x8000
  }

  /** A step drops less than one LSB, and nothing negative, exactly when it does not
      saturate. */
  lemma DroppedQ15Exactly(g: Gains, s: State, x: int)
    requires GainsFitQ15(g) && StateFitsQ15(s) && -0x8000 <= x < 0x8000
    ensures 0 <= Dropped(0x8000, OutQ15, g, s, x) < 0x8000 <==> InRangeQ15(g, s, x)
  {
    AccumulatorRange(g, s, x);
    NarrowQ15Saturates(Weighted(g, s, x) + s.y1 * 0x8000);
  }

  ghost predicate Unsaturated(g: Gains, s: State, xs: seq<int>) {
    forall k :: 0 <= k < |xs| ==> InRangeQ15(g, Run(OutQ15, g, s, xs[..k]), xs[k])
  }

  lemma {:induction false} RunFitsQ15(g: Gains, s: State, xs: seq<int>)
    requires StateFitsQ15(s) && InputsFitQ15(xs)
    ensures StateFitsQ15(Run(OutQ15, g, s, xs))
  {
    if xs == [] {
    } else {
      RunFitsQ15(g, s, xs[..|xs| - 1]);
    }
  }

  lemma {:induction false} TotalDroppedQ15(g: Gains, s: State, xs: seq<int>)
    requires GainsFitQ15(g) && StateFitsQ15(s) && InputsFitQ15(xs)
    requires Unsaturated(g, s, xs)
    ensures 0 <= TotalDropped(0x8000, OutQ15, g, s, xs) <= |xs| * 0x7FFF
  {
    if xs == [] {
    } else {
      var n := |xs| - 1;
      var before := xs[..n];
      forall k | 0 <= k < n
        ensures InRangeQ15(g, Run(OutQ15, g, s, before[..k]), before[k])
      {
        assert before[..k] == xs[..k];
      }
      TotalDroppedQ15(g, s, before);
      RunFitsQ15(g, s, before);
      DroppedQ15Exactly(g, Run(OutQ15, g, s, before), xs[n]);
    }
  }

  /** Over any unsaturated run from rest, the incremental controller is the positional one
      less at most one truncation per sample. */
  lemma PidTelescopes(Kp: int, Ki: int, Kd: int, xs: seq<int>)
    requires GainsFitQ15(DerivedGains(Kp, Ki, Kd)) && InputsFitQ15(xs)
    requires Unsaturated(DerivedGains(Kp, Ki, Kd), ZERO, xs)
    ensures 0 <= Positional(Kp, Ki, Kd, xs)
                 - 0x8000 * Run(OutQ15, DerivedGains(Kp, Ki, Kd), ZERO, xs).y1
              <= |xs| * 0x7FFF
  {
    PidConservation(0x8000, OutQ15, Kp, Ki, Kd, xs);
    TotalDroppedQ15(DerivedGains(Kp, Ki, Kd), ZERO, xs);
  }

  /** The controller instance and its processing function. */
  class PidQ15 {
    var A0: q15
    var A1: q15
    var A2: q15
    const state: array<q15>

    ghost predicate Valid()
      reads this
    {
      state.Length == 3
    }

    ghost function TheGains(): Gains
      reads this
    {
      Gains(A0, A1, A2)
    }

    ghost function TheState(): State
      requires Valid()
      reads this, state
    {
      State(state[0], state[1], state[2])
    }

    constructor (a0: q15, a1: q15, a2: q15)
      ensures Valid() && fresh(state)
      ensures TheGains() == Gains(a0, a1, a2) && TheState() == ZERO
    {
      A0, A1, A2 := a0, a1, a2;
      state := new q15[3](i => 0);
    }

    method Process(x: q15) returns (out: q15)
      requires Valid()
      modifies state
      ensures state[0] == x && state[1] == old(state[0]) && state[2] == out
      ensures out == Clamp((A0 * x + A1 * old(state[0]) + A2 * old(state[1]) + old(state[2]) as int * 0x8000) / 0x8000,
                           -0x8000, 0x7FFF)
      ensures TheState() == Step(OutQ15, TheGains(), old(TheState()), x)
      ensures out == TheState().y1
    {
      OutQ15Saturates(TheGains(), TheState(), x);
      var acc: int := A0 * x;
      acc := acc + A1 * state[0];
      acc := acc + A2 * state[1];
      var last: int := state[2];
      acc := acc + last * 0x8000;
      out := ToQ15(Ssat(ToQ31(acc / 0x8000), 16));
      state[1] := state[0];
      state[0] := x;
      state[2] := out;
    }
  }

  // -------------------------------------------------------------------------
  // arm_pid_q31
  // -------------------------------------------------------------------------

  /** The 64-bit accumulator wraps; so do the narrowing and the addition of y[n-1]. */
  function OutQ31(g: Gains, s: State, x: int): int {
    NarrowQ31(g.A0 * x, g.A1 * s.x1, g.A2 * s.x2, s.y1)
  }

  function NarrowQ31(p: int, q: int, r: int, y1: int): q31 {
    ToQ31(ToQ31(ToQ63(ToQ63(ToQ63(p) + q) + r) / 0x8000_0000) + y1)
  }

  /** For any gains, state and sample, in range or not, the three casts together leave the
      low 32 bits of the shifted sum: a wrap of the 64-bit accumulator does not show. */
  lemma OutQ31Value(g: Gains, s: State, x: int)
    ensures OutQ31(g, s, x) == ToQ31((g.A0 * x + g.A1 * s.x1 + g.A2 * s.x2) / 0x8000_0000 + s.y1)
  {
    hide ToQ31, ToQ63;
    var p, q, r := g.A0 * x, g.A1 * s.x1, g.A2 * s.x2;
    AccumulatorModulo(p, q, r);
    ShiftModulo(ToQ63(ToQ63(ToQ63(p) + q) + r), p + q + r);
    NarrowedSum(ToQ63(ToQ63(ToQ63(p) + q) + r) / 0x8000_0000, (p + q + r) / 0x8000_0000, s.y1);
  }

  lemma AccumulatorModulo(p: int, q: int, r: int)
    ensures (ToQ63(ToQ63(ToQ63(p) + q) + r) - (p + q + r)) % 0x1_0000_0000_0000_0000 == 0
  {
    hide ToQ63;
    CastsKeepResidues(p);
    CastsKeepResidues(ToQ63(p) + q);
    CastsKeepResidues(ToQ63(ToQ63(p) + q) + r);
    ResidueChain(ToQ63(p), p, ToQ63(ToQ63(p) + q), q);
    ResidueChain(ToQ63(ToQ63(p) + q), p + q, ToQ63(ToQ63(ToQ63(p) + q) + r), r);
  }

  lemma ResidueChain(a: int, b: int, c: int, q: int)
    requires (a - b) % 0x1_0000_0000_0000_0000 == 0 && (c - (a + q)) % 0x1_0000_0000_0000_0000 == 0
    ensures (c - (b + q)) % 0x1_0000_0000_0000_0000 == 0
  {
  }

  lemma ShiftModulo(a: int, b: int)
    requires (a - b) % 0x1_0000_0000_0000_0000 == 0
    ensures (a / 0x8000_0000 - b / 0x8000_0000) % 0x1_0000_0000 == 0
  {
    var k := (a - b) / 0x1_0000_0000_0000_0000;
    assert a == b + 0x1_0000_0000_0000_0000 * k;
    assert a / 0x8000_0000 == b / 0x8000_0000 + 0x2_0000_0000 * k;
  }

  lemma NarrowedSum(a: int, b: int, y: int)
    requires (a - b) % 0x1_0000_0000 == 0
    ensures ToQ31(ToQ31(a) + y) == ToQ31(b + y)
  {
    hide ToQ31;
    ResidueDifference(ToQ31(a), a, b);
    CastsKeepResidues(a);
    SameNarrowing(ToQ31(a) + y, b + y);
  }

  lemma ResidueDifference(c: int, a: int, b: int)
    requires (a - b) % 0x1_0000_0000 == 0
    ensures (c - a) % 0x1_0000_0000 == 0 ==> (c - b) % 0x1_0000_0000 == 0
  {
  }

  lemma SameNarrowing(a: int, b: int)
    requires (a - b) % 0x1_0000_0000 == 0
    ensures ToQ31(a) == ToQ31(b)
  {
    var k := (a - b) / 0x1_0000_0000;
    assert a == b + k * 0x1_0000_0000;
    ModAddMultiple(b + 0x8000_0000, k, 0x1_0000_0000);
  }

  predicate GainsFitQ31(g: Gains) {
    && -0x8000_0000 <= g.A0 < 0x8000_0000
    && -0x8000_0000 <= g.A1 < 0x8000_0000
    && -0x8000_0000 <= g.A2 < 0x8000_0000
  }

  /** Samples scaled down by two bits, as the documentation asks. */
  predicate ScaledDown(x: int) {
    -0x2000_0000 <= x <= 0x2000_0000
  }

  /** With scaled samples the accumulator indeed never overflows; the output is then the
      saturated sum the documentation describes exactly when the sum needs no saturating. */
  lemma PidQ31Exactly(g: Gains, s: State, x: int)
    requires GainsFitQ31(g) && ScaledDown(x) && ScaledDown(s.x1) && ScaledDown(s.x2)
    requires -0x8000_0000 <= s.y1 < 0x8000_0000
    ensures var sum := Weighted(g, s, x) / 0x8000_0000 + s.y1;
            && OutQ31(g, s, x) == ToQ31(sum)
            && (OutQ31(g, s, x) == ClampQ31(sum) <==> -0x8000_0000 <= sum < 0x8000_0000)
  {
    ScaledProduct(g.A0, x);
    ScaledProduct(g.A1, s.x1);
    ScaledProduct(g.A2, s.x2);
    NarrowQ31Exactly(g.A0 * x, g.A1 * s.x1, g.A2 * s.x2, s.y1);
  }

  lemma ScaledProduct(a: int, x: int)
    requires -0x8000_0000 <= a < 0x8000_0000 && ScaledDown(x)
    ensures -0x1000_0000_0000_0000 <= a * x <= 0x1000_0000_0000_0000
  {
    ProductBound(a, x, 0x8000_0000, 0x2000_0000);
  }

  lemma NarrowQ31Exactly(p: int, q: int, r: int, y1: q31)
    requires -0x1000_0000_0000_0000 <= p <= 0x1000_0000_0000_0000
    requires -0x1000_0000_0000_0000 <= q <= 0x1000_0000_0000_0000
    requires -0x1000_0000_0000_0000 <= r <= 0x1000_0000_0000_0000
    ensures var sum := (p + q + r) / 0x8000_0000 + y1;
            && NarrowQ31(p, q, r, y1) == ToQ31(sum)
            && (NarrowQ31(p, q, r, y1) == ClampQ31(sum) <==> -0x8000_0000 <= sum < 0x8000_0000)
  {
    AccumulateQ63(p, q, r);
    WrapOrClamp((p + q + r) / 0x8000_0000 + y1);
  }

  lemma AccumulateQ63(p: int, q: int, r: int)
    requires -0x1000_0000_0000_0000 <= p <= 0x1000_0000_0000_0000
    requires -0x1000_0000_0000_0000 <= q <= 0x1000_0000_0000_0000
    requires -0x1000_0000_0000_0000 <= r <= 0x1000_0000_0000_0000
    ensures ToQ63(ToQ63(ToQ63(p) + q) + r) == p + q + r
    ensures -0x6000_0000 <= (p + q + r) / 0x8000_0000 <= 0x6000_0000
    ensures ToQ31((p + q + r) / 0x8000_0000) == (p + q + r) / 0x8000_0000
  {
    ToQ63Id(p);
    ToQ63Id(p + q);
    ToQ63Id(p + q + r);
    ToQ31Id((p + q + r) / 0x8000_0000);
  }

  /** A single unit gain adds one LSB less than the sample at each step. */
  lemma UnitGain(s: State)
    ensures Weighted(Gains(0x7FFF_FFFF, 0, 0), s, 0x2000_0000) / 0x8000_0000 == 0x1FFF_FFFF
  {
    assert 0 * s.x1 == 0 && 0 * s.x2 == 0;
    assert 0x7FFF_FFFF * 0x2000_0000 == 0x0FFF_FFFF_E000_0000;
  }

  lemma WrapOrClamp(sum: int)
    requires -0x1_0000_0000 < sum < 0x1_0000_0000
    ensures ToQ31(sum) == ClampQ31(sum) <==> -0x8000_0000 <= sum < 0x8000_0000
  {
    ToQ31Id(sum);
    ToQ31Wraps(sum);
  }

  /** Scaling the samples does not keep the output from overflowing: a constant positive
      sample under a unit gain drives it negative on the fifth call. */
  lemma ScaledRunWraps()
    ensures var xs := seq(5, i => 0x2000_0000);
            Run(OutQ31, Gains(0x7FFF_FFFF, 0, 0), ZERO, xs).y1 < 0
  {
    var xs := seq(5, i => 0x2000_0000);
    RampQ31(xs, 4);
    assert xs[..5] == xs && xs[..5][..4] == xs[..4];
    var s := Run(OutQ31, Gains(0x7FFF_FFFF, 0, 0), ZERO, xs[..4]);
    UnitGain(s);
    PidQ31Exactly(Gains(0x7FFF_FFFF, 0, 0), s, 0x2000_0000);
    assert ToQ31(5 * 0x1FFF_FFFF) == 5 * 0x1FFF_FFFF - 0x1_0000_0000;
  }

  lemma {:induction false} RampQ31(xs: seq<int>, k: nat)
    requires k <= 4 <= |xs| && forall i :: 0 <= i < |xs| ==> xs[i] == 0x2000_0000
    ensures var s := Run(OutQ31, Gains(0x7FFF_FFFF, 0, 0), ZERO, xs[..k]);
            s.y1 == k * 0x1FFF_FFFF && ScaledDown(s.x1) && ScaledDown(s.x2)
  {
    if k == 0 {
    } else {
      RampQ31(xs, k - 1);
      assert xs[..k][..k - 1] == xs[..k - 1];
      var s := Run(OutQ31, Gains(0x7FFF_FFFF, 0, 0), ZERO, xs[..k - 1]);
      UnitGain(s);
      PidQ31Exactly(Gains(0x7FFF_FFFF, 0, 0), s, 0x2000_0000);
      ToQ31Id(k * 0x1FFF_FFFF);
    }
  }

  /** The Q31 controller instance. */
  class PidQ31 {
    var A0: q31
    var A1: q31
    var A2: q31
    const state: array<q31>

    ghost predicate Valid()
      reads this
    {
      state.Length == 3
    }

    ghost function TheGains(): Gains
      reads this
    {
      Gains(A0, A1, A2)
    }

    ghost function TheState(): State
      requires Valid()
      reads this, state
    {
      State(state[0], state[1], state[2])
    }

    constructor (a0: q31, a1: q31, a2: q31)
      ensures Valid() && fresh(state)
      ensures TheGains() == Gains(a0, a1, a2) && TheState() == ZERO
    {
      A0, A1, A2 := a0, a1, a2;
      state := new q31[3](i => 0);
    }

    method Process(x: q31) returns (out: q31)
      requires Valid()
      modifies state
      ensures state[0] == x && state[1] == old(state[0]) && state[2] == out
      ensures out == ToQ31((A0 * x + A1 * old(state[0]) + A2 * old(state[1])) / 0x8000_0000 + old(state[2]))
      ensures TheState() == Step(OutQ31, TheGains(), old(TheState()), x)
    {
      hide ToQ31, ToQ63;
      OutQ31Value(TheGains(), TheState(), x);
      var acc := ToQ63(A0 * x);
      acc := ToQ63(acc + A1 * state[0]);
      acc := ToQ63(acc + A2 * state[1]);
      out := ToQ31(acc / 0x8000_0000);
      out := ToQ31(out + state[2]);
      state[1] := state[0];
      state[0] := x;
      state[2] := out;
    }
  }
}
