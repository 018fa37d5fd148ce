/** arm_pid_q31 over whole runs of samples scaled as its documentation asks: what the
    wrapping output is, when it is the documented one, and for which gains it always is. */
module PidQ31Runs {
  import opened Arith
  import opened FixedPoint
  import opened Pid

  ghost predicate ScaledInputs(xs: seq<int>) {
    forall i :: 0 <= i < |xs| ==> ScaledDown(xs[i])
  }

  /** The controller without a width: the shifted accumulator added to the last output. */
  function OutUnbounded(g: Gains, s: State, x: int): int {
    Weighted(g, s, x) / 0x8000_0000 + s.y1
  }

  /** The documented one: saturated to 1.31. */
  function OutDocumented(g: Gains, s: State, x: int): int {
    ClampQ31(OutUnbounded(g, s, x))
  }

  /** What the output would be after these samples, given room. */
  function Unbounded(g: Gains, xs: seq<int>): int {
    Run(OutUnbounded, g, ZERO, xs).y1
  }

  // -------------------------------------------------------------------------
  // The wrapping run
  // -------------------------------------------------------------------------

  lemma RememberedIsScaled(out: Controller, g: Gains, xs: seq<int>)
    requires ScaledInputs(xs)
    ensures ScaledDown(Run(out, g, ZERO, xs).x1) && ScaledDown(Run(out, g, ZERO, xs).x2)
  {
    RunRemembers(out, g, xs);
  }

  /** The code's run is the unbounded one with its output reduced to 32 bits, scaled samples
      or not: a wrap never disturbs more than the top bits. */
  lemma {:induction false} RunWrapsUnbounded(g: Gains, xs: seq<int>)
    ensures Run(OutQ31, g, ZERO, xs) == Run(OutUnbounded, g, ZERO, xs).(y1 := ToQ31(Unbounded(g, xs)))
  {
    hide OutQ31, ToQ31;
    if xs == [] {
      ToQ31Id(0);
    } else {
      var before, x := xs[..|xs| - 1], xs[|xs| - 1];
      RunWrapsUnbounded(g, before);
      var s := Run(OutQ31, g, ZERO, before);
      OutQ31Value(g, s, x);
      WrapInside(Weighted(g, s, x) / 0x8000_0000, Unbounded(g, before));
    }
  }

  lemma WrapInside(w: int, y: int)
    ensures ToQ31(w + ToQ31(y)) == ToQ31(w + y)
  {
    var k := (y + 0x8000_0000) / 0x1_0000_0000;
    ModAddMultiple(w + ToQ31(y) + 0x8000_0000, k, 0x1_0000_0000);
  }

  // -------------------------------------------------------------------------
  // When it is the documented run
  // -------------------------------------------------------------------------

  /** The unbounded output of every prefix fits 32 bits. */
  ghost predicate Fits(g: Gains, xs: seq<int>) {
    forall k :: 0 <= k <= |xs| ==> -0x8000_0000 <= Unbounded(g, xs[..k]) < 0x8000_0000
  }

  /** Call by call, the code does what its documentation says. */
  ghost predicate AsDocumented(g: Gains, xs: seq<int>) {
    forall k :: 0 <= k <= |xs| ==> Run(OutQ31, g, ZERO, xs[..k]) == Run(OutDocumented, g, ZERO, xs[..k])
  }

  lemma {:induction false} AsDocumentedExactly(g: Gains, xs: seq<int>)
    requires GainsFitQ31(g) && ScaledInputs(xs)
    ensures AsDocumented(g, xs) <==> Fits(g, xs)
  {
    hide Unbounded, Run;
    var n := |xs|;
    assert xs[..n] == xs;
    if n == 0 {
      EmptyRuns(g);
    } else {
      var before := xs[..n - 1];
      AsDocumentedExactly(g, before);
      forall k | 0 <= k < n
        ensures xs[..k] == before[..k]
      {
      }
      if AsDocumented(g, before) {
        assert before[..n - 1] == before;
        LastStepExactly(g, xs);
      } else {
        PrefixesFail(g, xs, before);
      }
    }
  }

  lemma EmptyRuns(g: Gains)
    ensures Run(OutQ31, g, ZERO, []) == Run(OutDocumented, g, ZERO, []) == ZERO
    ensures Unbounded(g, []) == 0
  {
  }

  /** A failure before the last sample is a failure of the whole run, on both sides. */
  lemma PrefixesFail(g: Gains, xs: seq<int>, before: seq<int>)
    requires 0 < |xs| && before == xs[..|xs| - 1]
    requires !AsDocumented(g, before) && !Fits(g, before)
    ensures !AsDocumented(g, xs) && !Fits(g, xs)
  {
    hide Unbounded, Run;
    var k :| 0 <= k <= |before| && Run(OutQ31, g, ZERO, before[..k]) != Run(OutDocumented, g, ZERO, before[..k]);
    assert xs[..k] == before[..k];
    var j :| 0 <= j <= |before| && !(-0x8000_0000 <= Unbounded(g, before[..j]) < 0x8000_0000);
    assert xs[..j] == before[..j];
  }

  lemma LastStepExactly(g: Gains, xs: seq<int>)
    requires GainsFitQ31(g) && ScaledInputs(xs) && xs != []
    requires var before := xs[..|xs| - 1];
             && Run(OutQ31, g, ZERO, before) == Run(OutDocumented, g, ZERO, before)
             && -0x8000_0000 <= Unbounded(g, before) < 0x8000_0000
    ensures Run(OutQ31, g, ZERO, xs) == Run(OutDocumented, g, ZERO, xs)
       <==> -0x8000_0000 <= Unbounded(g, xs) < 0x8000_0000
  {
    hide OutQ31;
    var before, x := xs[..|xs| - 1], xs[|xs| - 1];
    RunWrapsUnbounded(g, before);
    ToQ31Id(Unbounded(g, before));
    RememberedIsScaled(OutQ31, g, before);
    PidQ31Exactly(g, Run(OutQ31, g, ZERO, before), x);
  }

  // -------------------------------------------------------------------------
  // The unbounded run against the positional form
  // -------------------------------------------------------------------------

  lemma {:induction false} TotalDroppedQ31(g: Gains, xs: seq<int>)
    ensures 0 <= TotalDropped(0x8000_0000, OutUnbounded, g, ZERO, xs) <= |xs| * 0x7FFF_FFFF
  {
    if xs == [] {
    } else {
      TotalDroppedQ31(g, xs[..|xs| - 1]);
    }
  }

  /** Telescoping: given room, the output is the positional one less at most one truncation
      per sample. */
  lemma UnboundedTelescopes(Kp: int, Ki: int, Kd: int, xs: seq<int>)
    ensures 0 <= Positional(Kp, Ki, Kd, xs) - 0x8000_0000 * Unbounded(DerivedGains(Kp, Ki, Kd), xs)
              <= |xs| * 0x7FFF_FFFF
  {
    PidConservation(0x8000_0000, OutUnbounded, Kp, Ki, Kd, xs);
    TotalDroppedQ31(DerivedGains(Kp, Ki, Kd), xs);
  }

  /** A run whose positional controller stays in range, with a margin below of one LSB per
      sample, never wraps. */
  ghost predicate PositionalFits(Kp: int, Ki: int, Kd: int, xs: seq<int>) {
    forall k :: 0 <= k <= |xs| ==>
      k * 0x7FFF_FFFF - 0x4000_0000_0000_0000 <= Positional(Kp, Ki, Kd, xs[..k]) < 0x4000_0000_0000_0000
  }

  lemma PidTelescopesQ31(Kp: int, Ki: int, Kd: int, xs: seq<int>)
    requires GainsFitQ31(DerivedGains(Kp, Ki, Kd)) && ScaledInputs(xs)
    requires PositionalFits(Kp, Ki, Kd, xs)
    ensures AsDocumented(DerivedGains(Kp, Ki, Kd), xs)
    ensures 0 <= Positional(Kp, Ki, Kd, xs)
                 - 0x8000_0000 * Run(OutQ31, DerivedGains(Kp, Ki, Kd), ZERO, xs).y1
              <= |xs| * 0x7FFF_FFFF
  {
    hide Positional, Run, Unbounded;
    var g := DerivedGains(Kp, Ki, Kd);
    forall k | 0 <= k <= |xs|
      ensures -0x8000_0000 <= Unbounded(g, xs[..k]) < 0x8000_0000
    {
      UnboundedTelescopes(Kp, Ki, Kd, xs[..k]);
    }
    AsDocumentedExactly(g, xs);
    UnboundedTelescopes(Kp, Ki, Kd, xs);
    assert xs[..|xs|] == xs;
    RunWrapsUnbounded(g, xs);
    ToQ31Id(Unbounded(g, xs));
  }

  // -------------------------------------------------------------------------
  // Scaling alone is never enough
  // -------------------------------------------------------------------------

  /** Single samples two calls apart. */
  function Train(v: int, n: nat): seq<int> {
    if n == 0 then [] else Train(v, n - 1) + [v, 0, 0]
  }

  function Drift(g: Gains, v: int): int {
    g.A0 * v / 0x8000_0000 + g.A1 * v / 0x8000_0000 + g.A2 * v / 0x8000_0000
  }

  /** Each sample passes all three gains, and each product is rounded down. */
  lemma {:induction false} TrainDrifts(g: Gains, v: int, n: nat)
    ensures Run(OutUnbounded, g, ZERO, Train(v, n)) == State(0, 0, n * Drift(g, v))
  {
    if n == 0 {
    } else {
      TrainDrifts(g, v, n - 1);
      ThreeSteps(g, v, Train(v, n - 1), (n - 1) * Drift(g, v));
      assert n * Drift(g, v) == (n - 1) * Drift(g, v) + Drift(g, v);
    }
  }

  lemma ThreeSteps(g: Gains, v: int, xs: seq<int>, y: int)
    requires Run(OutUnbounded, g, ZERO, xs) == State(0, 0, y)
    ensures Run(OutUnbounded, g, ZERO, xs + [v, 0, 0]) == State(0, 0, y + Drift(g, v))
  {
    var xs1, xs2, xs3 := xs + [v], xs + [v, 0], xs + [v, 0, 0];
    assert xs1[..|xs1| - 1] == xs && xs2[..|xs2| - 1] == xs1 && xs3[..|xs3| - 1] == xs2;
    assert Run(OutUnbounded, g, ZERO, xs1) == State(v, 0, y + g.A0 * v / 0x8000_0000) by {
      assert g.A1 * 0 == 0 && g.A2 * 0 == 0;
    }
    assert g.A0 * 0 == 0 && g.A1 * 0 == 0 && g.A2 * 0 == 0;
  }

  lemma {:induction false} TrainIsScaled(v: int, n: nat)
    requires ScaledDown(v)
    ensures ScaledInputs(Train(v, n))
  {
    if n == 0 {
    } else {
      TrainIsScaled(v, n - 1);
    }
  }

  /** Unless all gains are zero, samples of one LSB drift the output down without end. */
  lemma SomeDrift(g: Gains) returns (v: int)
    requires GainsFitQ31(g) && g != Gains(0, 0, 0)
    ensures (v == 1 || v == -1) && Drift(g, v) <= -1
  {
    if g.A0 < 0 || g.A1 < 0 || g.A2 < 0 {
      v := 1;
    } else {
      v := -1;
    }
  }

  lemma SomeRunWraps(g: Gains) returns (xs: seq<int>)
    requires GainsFitQ31(g) && g != Gains(0, 0, 0)
    ensures ScaledInputs(xs) && !Fits(g, xs)
  {
    hide Run;
    var v := SomeDrift(g);
    var n := 0x8000_0001;
    xs := Train(v, n);
    TrainIsScaled(v, n);
    TrainDrifts(g, v, n);
    MulMonotone(Drift(g, v), -1, n);
    assert xs[..|xs|] == xs;
  }

  lemma {:induction false} ZeroGainsRest(xs: seq<int>)
    ensures Unbounded(Gains(0, 0, 0), xs) == 0
  {
    if xs == [] {
    } else {
      ZeroGainsRest(xs[..|xs| - 1]);
    }
  }

  /** The documented scaling avoids overflow on every run for exactly one controller, the
      one whose gains are all zero. */
  lemma ScalingSufficesExactly(g: Gains)
    requires GainsFitQ31(g)
    ensures (forall xs: seq<int> :: ScaledInputs(xs) ==> AsDocumented(g, xs)) <==> g == Gains(0, 0, 0)
  {
    hide Unbounded, Run;
    if g == Gains(0, 0, 0) {
      forall xs: seq<int> | ScaledInputs(xs)
        ensures AsDocumented(g, xs)
      {
        forall k | 0 <= k <= |xs|
          ensures Unbounded(g, xs[..k]) == 0
        {
          ZeroGainsRest(xs[..k]);
        }
        AsDocumentedExactly(g, xs);
      }
    } else {
      var xs := SomeRunWraps(g);
      AsDocumentedExactly(g, xs);
    }
  }
}
