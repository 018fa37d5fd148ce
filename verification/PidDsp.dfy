/** The body of arm_pid_q15 for cores with the DSP extension, against the portable one.
    The intrinsics mean their portable bodies, and int additions that overflow wrap. */
module PidDsp {
  import opened Arith
  import opened FixedPoint
  import opened OddRoots
  import opened Simd
  import opened Pid

  /** A0 and the sample go through the dual multiply as sign-extended words; A1 and A2 are
      one packed word and the two old samples are read as another, low half first. */
  function WeightedDsp(g: Gains, s: State, x: int): int {
    var acc := ToQ31(Smuad(ToU32(g.A0), ToU32(x)));
    Smlald(Join(g.A2, g.A1), Join(s.x2, s.x1), acc)
  }

  function OutDsp(g: Gains, s: State, x: int): int {
    NarrowQ15(WeightedDsp(g, s, x) + s.y1 * 0x8000)
  }

  /** The sign lanes of A0 and the sample multiply too. */
  function SignLanes(g: Gains, x: int): int {
    if g.A0 < 0 && x < 0 then 1 else 0
  }

  /** The one case in which the 32-bit sum of the two lane products overflows. */
  predicate LaneSumOverflows(g: Gains, s: State) {
    g.A1 == g.A2 == s.x1 == s.x2 == -0x8000
  }

  lemma FirstProduct(a: q15, x: q15)
    ensures ToQ31(Smuad(ToU32(a), ToU32(x))) == a * x + if a < 0 && x < 0 then 1 else 0
  {
    SignExtendedLanes(a);
    SignExtendedLanes(x);
    ProductBound(a, x, 0x8000, 0x8000);
    var v := a * x + if a < 0 && x < 0 then 1 else 0;
    ReSigned(v);
  }

  lemma ReSigned(v: q31)
    ensures ToQ31(ToU32(v)) == v
  {
  }

  lemma LaneProducts(a: q15, b: q15, c: q15, d: q15)
    ensures ToQ31(a * c + b * d)
         == a * c + b * d - if a == b == c == d == -0x8000 then 0x1_0000_0000 else 0
  {
    ProductBound(a, c, 0x8000, 0x8000);
    ProductBound(b, d, 0x8000, 0x8000);
    TopProduct(a, c);
    TopProduct(b, d);
    ToQ31Id(a * c + b * d);
  }

  lemma TopProduct(a: q15, c: q15)
    ensures a * c == 0x4000_0000 <==> a == c == -0x8000
  {
    if a != -0x8000 {
      ProductBound(a, c, 0x7FFF, 0x8000);
    } else if c != -0x8000 {
      ProductBound(a, c, 0x8000, 0x7FFF);
    }
  }

  function WeightedClosed(g: Gains, s: State, x: int): int {
    Weighted(g, s, x) + SignLanes(g, x) - if LaneSumOverflows(g, s) then 0x1_0000_0000 else 0
  }

  /** For every gain, state and sample: the DSP accumulator is the portable one, plus one
      when A0 and the sample are both negative, less 2^32 when the lane sum overflows. */
  lemma WeightedDspExactly(g: Gains, s: State, x: int)
    requires GainsFitQ15(g) && StateFitsQ15(s) && -0x8000 <= x < 0x8000
    ensures WeightedDsp(g, s, x) == WeightedClosed(g, s, x)
    ensures WeightedDsp(g, s, x)
         == g.A0 * x + g.A1 * s.x1 + g.A2 * s.x2
            + (if g.A0 < 0 && x < 0 then 1 else 0)
            - (if g.A1 == g.A2 == s.x1 == s.x2 == -0x8000 then 0x1_0000_0000 else 0)
  {
    FirstProduct(g.A0, x);
    ProductBound(g.A0, x, 0x8000, 0x8000);
    SecondProduct(g.A1, g.A2, s.x1, s.x2, g.A0 * x + SignLanes(g, x));
  }

  lemma SecondProduct(a: q15, b: q15, c: q15, d: q15, sum: q31)
    ensures Smlald(Join(b, a), Join(d, c), sum)
         == a * c + b * d + sum - if a == b == c == d == -0x8000 then 0x1_0000_0000 else 0
  {
    JoinedLanes(a, b);
    JoinedLanes(c, d);
    SmlaldValue(Join(b, a), Join(d, c), a, b, c, d, sum);
  }

  lemma JoinedLanes(a: q15, b: q15)
    ensures Lo(Join(b, a)) == a && Hi(Join(b, a)) == b
  {
    JoinSplits(b, a);
    ToQ15Id(a);
    ToQ15Id(b);
  }

  lemma SmlaldValue(x: u32, y: u32, a: q15, b: q15, c: q15, d: q15, sum: q31)
    requires Lo(x) == a && Hi(x) == b && Lo(y) == c && Hi(y) == d
    ensures Smlald(x, y, sum)
         == a * c + b * d + sum - if a == b == c == d == -0x8000 then 0x1_0000_0000 else 0
  {
    LaneProducts(a, b, c, d);
    ToQ63Id(ToQ31(a * c + b * d) + sum);
  }

  /** Shifted and saturated, the extra one shows exactly when it carries into bit 15 of an
      unsaturated sum; the overflow always shows. */
  lemma OutDspExactly(g: Gains, s: State, x: int)
    requires GainsFitQ15(g) && StateFitsQ15(s) && -0x8000 <= x < 0x8000
    ensures OutDsp(g, s, x) == OutQ15(g, s, x)
       <==> !LaneSumOverflows(g, s)
            && !(SignLanes(g, x) == 1 && CarryCrosses(Weighted(g, s, x) + s.y1 * 0x8000))
  {
    hide OutDsp, OutClosed;
    OutDspIsClosed(g, s, x);
    OutClosedExactly(g, s, x);
  }

  /** The DSP output with its intrinsics evaluated. */
  function OutClosed(g: Gains, s: State, x: int): int {
    NarrowQ15(WeightedClosed(g, s, x) + s.y1 * 0x8000)
  }

  lemma OutDspIsClosed(g: Gains, s: State, x: int)
    requires GainsFitQ15(g) && StateFitsQ15(s) && -0x8000 <= x < 0x8000
    ensures OutDsp(g, s, x) == OutClosed(g, s, x)
  {
    hide WeightedDsp;
    WeightedDspExactly(g, s, x);
  }

  /** The output of the DSP body for every gain, state and sample. */
  lemma OutDspValue(g: Gains, s: State, x: int)
    requires GainsFitQ15(g) && StateFitsQ15(s) && -0x8000 <= x < 0x8000
    ensures OutDsp(g, s, x)
         == Clamp((g.A0 * x + g.A1 * s.x1 + g.A2 * s.x2 + s.y1 * 0x8000
                   + (if g.A0 < 0 && x < 0 then 1 else 0)
                   - (if g.A1 == g.A2 == s.x1 == s.x2 == -0x8000 then 0x1_0000_0000 else 0)) / 0x8000,
                  -0x8000, 0x7FFF)
  {
    hide NarrowQ15, WeightedDsp;
    WeightedDspExactly(g, s, x);
    AccumulatorRange(g, s, x);
    OverflowWeighted(g, s, x);
    OverflowRange(g.A0, x, s.y1);
    NarrowQ15Saturates(WeightedDsp(g, s, x) + s.y1 * 0x8000);
  }

  lemma OutClosedExactly(g: Gains, s: State, x: int)
    requires GainsFitQ15(g) && StateFitsQ15(s) && -0x8000 <= x < 0x8000
    ensures OutClosed(g, s, x) == OutQ15(g, s, x)
       <==> !LaneSumOverflows(g, s)
            && !(SignLanes(g, x) == 1 && CarryCrosses(Weighted(g, s, x) + s.y1 * 0x8000))
  {
    AccumulatorRange(g, s, x);
    OverflowWeighted(g, s, x);
    OverflowRange(g.A0, x, s.y1);
    CarryShows(Weighted(g, s, x) + s.y1 * 0x8000, SignLanes(g, x),
               if LaneSumOverflows(g, s) then 0x1_0000_0000 else 0);
  }

  lemma OverflowWeighted(g: Gains, s: State, x: int)
    ensures LaneSumOverflows(g, s) ==> Weighted(g, s, x) == g.A0 * x + 0x8000_0000
  {
  }

  /** Adding one to the accumulator changes the narrowed value. */
  predicate CarryCrosses(acc: int) {
    acc % 0x8000 == 0x7FFF && -0x8000 <= acc / 0x8000 < 0x7FFF
  }

  lemma OverflowRange(a: q15, x: q15, y1: q15)
    ensures 0 < a * x + 0x8000_0000 + y1 * 0x8000 <= 0x1_0000_0000 - 0x8000
  {
    ProductBound(a, x, 0x8000, 0x8000);
    if a != -0x8000 {
      ProductBound(a, x, 0x7FFF, 0x8000);
    }
  }

  lemma CarryShows(acc: int, one: int, lost: int)
    requires -0x1_0000_0000 <= acc <= 0x1_0000_0000 && (one == 0 || one == 1)
    requires lost == 0 || (lost == 0x1_0000_0000 && 0 < acc <= 0x1_0000_0000 - 0x8000)
    ensures NarrowQ15(acc + one - lost) == NarrowQ15(acc) <==> lost == 0 && !(one == 1 && CarryCrosses(acc))
  {
    NarrowQ15Saturates(acc);
    NarrowQ15Saturates(acc + one - lost);
  }

  // -------------------------------------------------------------------------
  // Which gains make the two bodies one controller
  // -------------------------------------------------------------------------

  predicate AllEven(g: Gains) {
    g.A0 % 2 == 0 && g.A1 % 2 == 0 && g.A2 % 2 == 0
  }

  /** Readable off the gains alone. */
  predicate BodiesAgree(g: Gains) {
    (g.A0 >= 0 || AllEven(g)) && !(g.A1 == g.A2 == -0x8000)
  }

  lemma StepAgrees(g: Gains, s: State, x: int)
    requires GainsFitQ15(g) && StateFitsQ15(s) && -0x8000 <= x < 0x8000
    requires BodiesAgree(g)
    ensures OutDsp(g, s, x) == OutQ15(g, s, x)
  {
    hide OutDsp;
    OutDspExactly(g, s, x);
    if AllEven(g) {
      EvenAccumulator(g, s, x);
    }
  }

  lemma EvenAccumulator(g: Gains, s: State, x: int)
    requires AllEven(g)
    ensures (Weighted(g, s, x) + s.y1 * 0x8000) % 0x8000 != 0x7FFF
  {
    var h := g.A0 / 2 * x + g.A1 / 2 * s.x1 + g.A2 / 2 * s.x2 + s.y1 * 0x4000;
    EvenProduct(g.A0, x);
    EvenProduct(g.A1, s.x1);
    EvenProduct(g.A2, s.x2);
    assert Weighted(g, s, x) + s.y1 * 0x8000 == 2 * h;
  }

  lemma EvenProduct(a: int, x: int)
    requires a % 2 == 0
    ensures a * x == 2 * (a / 2 * x)
  {
    var k := a / 2;
    assert a == 2 * k;
  }

  /** With such gains whole runs coincide, output by output and state by state. */
  lemma {:induction false} RunsCoincide(g: Gains, s: State, xs: seq<int>)
    requires GainsFitQ15(g) && StateFitsQ15(s) && InputsFitQ15(xs) && BodiesAgree(g)
    ensures Run(OutDsp, g, s, xs) == Run(OutQ15, g, s, xs)
  {
    hide OutDsp;
    if xs == [] {
    } else {
      var before := xs[..|xs| - 1];
      RunsCoincide(g, s, before);
      RunFitsQ15(g, s, before);
      StepAgrees(g, Run(OutQ15, g, s, before), xs[|xs| - 1]);
    }
  }

  /** An odd gain can bring a product to any residue modulo 2^15. */
  lemma SolveOddQ15(a: int, target: int) returns (x: int)
    requires a % 2 == 1
    ensures 0 <= x < 0x8000 && (a * x - target) % 0x8000 == 0
  {
    Pow2Values();
    x := SolveOdd(a, target, 15);
  }

  /** The residue just below a carry, from a coefficient that is odd while A0 is even, among
      the smaller half of the samples; being odd, it misses the end of that range. */
  lemma BalancedRoot(a: int, a0: int) returns (y: int)
    requires a % 2 == 1 && a0 % 2 == 0
    ensures -0x3FFF <= y <= 0x3FFF
    ensures (a * y - a0) % 0x8000 == 0x7FFF
  {
    var r := SolveOddQ15(a, a0 - 1);
    y := if r < 0x4000 then r else r - 0x8000;
    var k := if r < 0x4000 then 0 else -a;
    assert a * y == a * r + k * 0x8000 by {
      assert a * (r - 0x8000) == a * r - a * 0x8000;
    }
    BrinkOfCarry(a * r - a0, k, a * y - a0);
    if y == -0x4000 {
      EvenProduct(y, a);
    }
  }

  lemma BrinkOfCarry(z: int, k: int, w: int)
    requires (z + 1) % 0x8000 == 0 && w == z + k * 0x8000
    ensures w % 0x8000 == 0x7FFF
  {
  }

  /** An odd negative A0: the very first sample can be one that carries. */
  lemma NegativeRoot(a: int) returns (x: int)
    requires -0x8000 <= a < 0 && a % 2 == 1
    ensures -0x8000 <= x < 0 && CarryCrosses(a * x)
  {
    var r := SolveOddQ15(a, -1);
    x := r - 0x8000;
    assert a * x == a * r - a * 0x8000;
    BrinkOfCarry(a * r, -a, a * x);
    ProductBound(a, x, 0x7FFF, 0x8000);
    MulMonotone(a, 0, -x);
    NegMul(x, a);
  }

  /** A history from rest after which the two bodies answer a sample differently. */
  ghost predicate Separates(g: Gains, xs: seq<int>, x: int) {
    && InputsFitQ15(xs) && -0x8000 <= x < 0x8000
    && OutDsp(g, Run(OutQ15, g, ZERO, xs), x) != OutQ15(g, Run(OutQ15, g, ZERO, xs), x)
  }

  lemma CarrySeparates(g: Gains, xs: seq<int>, x: int)
    requires GainsFitQ15(g) && InputsFitQ15(xs) && -0x8000 <= x < 0 && g.A0 < 0
    requires var s := Run(OutQ15, g, ZERO, xs);
             CarryCrosses(Weighted(g, s, x) + s.y1 * 0x8000)
    ensures Separates(g, xs, x)
  {
    hide OutDsp, OutQ15;
    RunFitsQ15(g, ZERO, xs);
    OutDspExactly(g, Run(OutQ15, g, ZERO, xs), x);
  }

  lemma OneStep(g: Gains, a: int)
    ensures Run(OutQ15, g, ZERO, [a]) == State(a, 0, NarrowQ15(g.A0 * a))
  {
    hide NarrowQ15;
    assert [a][..0] == [];
    assert g.A1 * 0 == 0 && g.A2 * 0 == 0;
  }

  lemma TwoSteps(g: Gains, a: int, b: int)
    ensures Run(OutQ15, g, ZERO, [a, b])
         == State(b, a, NarrowQ15(g.A0 * b + g.A1 * a + NarrowQ15(g.A0 * a) * 0x8000))
  {
    hide NarrowQ15;
    OneStep(g, a);
    assert [a, b][..1] == [a];
    assert g.A2 * 0 == 0;
  }

  /** With A0 negative and even and A1 odd: one sample, and then -1. */
  lemma SeparatesAfterOne(g: Gains) returns (xs: seq<int>)
    requires GainsFitQ15(g) && g.A0 < 0 && g.A0 % 2 == 0 && g.A1 % 2 == 1
    ensures Separates(g, xs, -1)
  {
    hide NarrowQ15, Separates;
    var a := BalancedRoot(g.A1, g.A0);
    xs := [a];
    OneStep(g, a);
    ProductBound(g.A0, a, 0x8000, 0x3FFF);
    ProductBound(g.A1, a, 0x7FFF, 0x3FFF);
    NarrowQ15Saturates(g.A0 * a);
    var y := NarrowQ15(g.A0 * a);
    ModAddMultiple(g.A1 * a - g.A0, y, 0x8000);
    assert g.A2 * 0 == 0 && g.A0 * -1 == -g.A0;
    CarrySeparates(g, xs, -1);
  }

  /** With only A2 odd: a sample, its negative, and then -1. The first two outputs cancel
      enough for the third not to saturate. */
  lemma SeparatesAfterTwo(g: Gains) returns (xs: seq<int>)
    requires GainsFitQ15(g) && g.A0 < 0 && g.A0 % 2 == 0 && g.A1 % 2 == 0 && g.A2 % 2 == 1
    ensures Separates(g, xs, -1)
  {
    hide NarrowQ15, Separates, CarryCrosses, OutQ15, Run, ToQ15, OutDsp;
    var a := OddDifferenceRoot(g.A0, g.A1, g.A2);
    xs := [a, -a];
    TwoSteps(g, a, -a);
    var y, y' := SettledOutputs(g.A0, g.A1, a);
    CarryAfterTwo(g.A0, g.A1, g.A2, a, y');
    CarrySeparates(g, xs, -1);
  }

  lemma OddDifferenceRoot(a0: int, a1: int, a2: int) returns (a: int)
    requires a0 % 2 == 0 && a1 % 2 == 0 && a2 % 2 == 1
    ensures -0x3FFF <= a <= 0x3FFF && ((a2 - a1) * a - a0) % 0x8000 == 0x7FFF
  {
    a := BalancedRoot(a2 - a1, a0);
  }

  lemma CarryAfterTwo(a0: int, a1: int, a2: int, a: int, y: int)
    requires -0x8000 <= a0 < 0 && -0x7FFF <= a2 <= 0x7FFF && -0x3FFF <= a <= 0x3FFF
    requires ((a2 - a1) * a - a0) % 0x8000 == 0x7FFF
    requires a1 * a - 0x1_0000 < y * 0x8000 <= a1 * a
    ensures CarryCrosses(a0 * -1 + a1 * -a + a2 * a + y * 0x8000)
  {
    ProductBound(a2, a, 0x7FFF, 0x3FFF);
    var p, q := a1 * a, a2 * a;
    assert (a2 - a1) * a == q - p && a1 * -a == -p && a0 * -1 == -a0;
    ModAddMultiple(q - p - a0, y, 0x8000);
  }

  /** After a sample and its negative the output is about A1 times the sample. */
  lemma SettledOutputs(a0: int, a1: int, a: int) returns (y: int, y': int)
    requires -0x8000 <= a0 < 0 && -0x8000 <= a1 < 0x8000 && -0x3FFF <= a <= 0x3FFF
    ensures y == NarrowQ15(a0 * a)
    ensures y' == NarrowQ15(a0 * -a + a1 * a + y * 0x8000)
    ensures a1 * a - 0x1_0000 < y' * 0x8000 <= a1 * a
  {
    hide NarrowQ15;
    ProductBound(a0, a, 0x8000, 0x3FFF);
    ProductBound(a1, a, 0x8000, 0x3FFF);
    assert a0 * -a == -(a0 * a);
    y := NarrowQ15(a0 * a);
    NarrowQ15Saturates(a0 * a);
    var acc := a0 * -a + a1 * a + y * 0x8000;
    y' := NarrowQ15(acc);
    NarrowQ15Saturates(acc);
  }

  /** For any other gains some run from rest tells the two bodies apart. */
  lemma Disagreement(g: Gains) returns (xs: seq<int>, x: int)
    requires GainsFitQ15(g) && !BodiesAgree(g)
    ensures Separates(g, xs, x)
  {
    hide OutDsp, OutQ15, NarrowQ15, CarryCrosses;
    if g.A1 == g.A2 == -0x8000 {
      xs, x := [-0x8000, -0x8000], 0;
      TwoSteps(g, -0x8000, -0x8000);
      RunFitsQ15(g, ZERO, xs);
      OutDspExactly(g, Run(OutQ15, g, ZERO, xs), 0);
    } else if g.A0 % 2 == 1 {
      xs := [];
      x := NegativeRoot(g.A0);
      assert g.A1 * 0 == 0 && g.A2 * 0 == 0;
      CarrySeparates(g, xs, x);
    } else {
      x := -1;
      if g.A1 % 2 == 1 {
        xs := SeparatesAfterOne(g);
      } else {
        xs := SeparatesAfterTwo(g);
      }
    }
  }

  /** The two bodies are the same controller exactly for those gains: step by step on every
      state there is, */
  lemma BodiesAgreeExactly(g: Gains)
    requires GainsFitQ15(g)
    ensures (forall s: State, x: int :: StateFitsQ15(s) && -0x8000 <= x < 0x8000 ==>
               OutDsp(g, s, x) == OutQ15(g, s, x))
       <==> BodiesAgree(g)
  {
    hide OutDsp, OutQ15;
    if BodiesAgree(g) {
      forall s: State, x: int | StateFitsQ15(s) && -0x8000 <= x < 0x8000
        ensures OutDsp(g, s, x) == OutQ15(g, s, x)
      {
        StepAgrees(g, s, x);
      }
    } else {
      var xs, x := Disagreement(g);
      RunFitsQ15(g, ZERO, xs);
    }
  }

  /** and equally on every run from rest, so what tells them apart can always happen. */
  lemma RunsAgreeExactly(g: Gains)
    requires GainsFitQ15(g)
    ensures (forall xs: seq<int> :: InputsFitQ15(xs) ==>
               Run(OutDsp, g, ZERO, xs) == Run(OutQ15, g, ZERO, xs))
       <==> BodiesAgree(g)
  {
    hide OutDsp, OutQ15;
    if BodiesAgree(g) {
      forall xs: seq<int> | InputsFitQ15(xs)
        ensures Run(OutDsp, g, ZERO, xs) == Run(OutQ15, g, ZERO, xs)
      {
        RunsCoincide(g, ZERO, xs);
      }
    } else {
      var xs, x := Disagreement(g);
      var longer := xs + [x];
      assert longer[..|longer| - 1] == xs;
      assert InputsFitQ15(longer);
    }
  }

  /** The instance as the DSP build lays it out: A1 and A2 in one word. */
  class PidQ15Dsp {
    var A0: q15
    var A1: q31
    const state: array<q15>

    ghost predicate Valid()
      reads this
    {
      state.Length == 3
    }

    ghost function TheGains(): Gains
      reads this
    {
      Gains(A0, Lo(ToU32(A1)), Hi(ToU32(A1)))
    }

    ghost function TheState(): State
      requires Valid()
      reads this, state
    {
      State(state[0], state[1], state[2])
    }

    method Accumulate(x: q15) returns (acc: int)
      requires Valid()
      ensures acc == WeightedDsp(TheGains(), TheState(), x) + TheState().y1 * 0x8000
    {
      PackedGains(A0, ToU32(A1), TheState(), x);
      acc := ToQ31(Smuad(ToU32(A0), ToU32(x)));
      acc := Smlald(ToU32(A1), Join(state[1], state[0]), acc);
      var last: int := state[2];
      acc := acc + last * 0x8000;
    }

    method Process(x: q15) returns (out: q15)
      requires Valid()
      modifies state
      ensures state[0] == x && state[1] == old(state[0]) && state[2] == out
      ensures TheState() == Step(OutDsp, TheGains(), old(TheState()), x)
      ensures out == OutDsp(Gains(A0, ToQ15(ToU32(A1) % 0x1_0000), ToQ15(ToU32(A1) / 0x1_0000)), old(TheState()), x)
      ensures out == TheState().y1
    {
      hide OutDsp, NarrowQ15, Lo, Hi, ToQ15, ToU32;
      OutDspSteps(TheGains(), TheState(), x);
      LanesAreHalves(ToU32(A1));
      var acc := Accumulate(x);
      out := NarrowQ15(acc);
      state[1] := state[0];
      state[0] := x;
      state[2] := out;
    }

    constructor (a0: q15, a1: q15, a2: q15)
      ensures Valid() && fresh(state)
      ensures TheGains() == Gains(a0, a1, a2) && TheState() == ZERO
    {
      A0, A1 := a0, ToQ31(Join(a2, a1));
      state := new q15[3](i => 0);
      new;
      ReUnsigned(Join(a2, a1));
      JoinedLanes(a1, a2);
    }
  }

  lemma OutDspSteps(g: Gains, s: State, x: int)
    ensures OutDsp(g, s, x) == NarrowQ15(WeightedDsp(g, s, x) + s.y1 * 0x8000)
  {
  }

  lemma PackedGains(a0: q15, word: u32, s: State, x: int)
    ensures WeightedDsp(Gains(a0, Lo(word), Hi(word)), s, x)
         == Smlald(word, Join(s.x2, s.x1), ToQ31(Smuad(ToU32(a0), ToU32(x))))
  {
    LanesAreHalves(word);
  }

  lemma ReUnsigned(x: u32)
    ensures ToU32(ToQ31(x)) == x
  {
  }
}
