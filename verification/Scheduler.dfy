/** The fan-out schedulers (crates/tmx-adapters/src/scheduler.rs): the serial loop, and the concurrent one
    as a transition system over its units, gated by a semaphore and counted by an atomic. */
module Scheduler {
  import opened Limits

  /** What the unit of each index produces. */
  type Make<R> = nat -> R

  /** The results of all units, in index order. */
  function InOrder<R>(count: nat, make: Make<R>): (out: seq<R>)
    ensures |out| == count
    ensures forall i | 0 <= i < count :: out[i] == make(i)
  {
    seq(count, i requires 0 <= i < count => make(i))
  }

  /** `SerialScheduler::run_indexed`. */
  method RunSerial<R>(count: nat, concurrency: nat, make: Make<R>) returns (out: seq<R>)
    requires 1 <= concurrency <= CONCURRENCY_MAX
    ensures out == InOrder(count, make)
  {
    out := [];
    for index := 0 to count
      invariant |out| == index
      invariant forall i | 0 <= i < index :: out[i] == make(i)
    {
      out := out + [make(index)];
    }
  }

  // ---------- The concurrent scheduler as a transition system ----------

  /** How far a unit has come: waiting for a permit, holding it before and after the counter is raised,
      having its result before and after the counter is lowered, and having returned the permit. */
  datatype Phase<R> =
    | Waiting
    | Admitted
    | Running
    | Produced(result: R)
    | Leaving(result: R)
    | Done(result: R)

  datatype FanOut<R> = FanOut(free: nat, inFlight: int, units: seq<Phase<R>>)

  function Start<R>(count: nat, concurrency: nat): (s: FanOut<R>) {
    FanOut(concurrency, 0, seq(count, _ => Waiting))
  }

  /** Unit `i` can take its next step. */
  predicate Enabled<R>(s: FanOut<R>, i: nat) {
    i < |s.units| && !s.units[i].Done? && (s.units[i].Waiting? ==> s.free > 0)
  }

  function Next<R>(s: FanOut<R>, i: nat, make: Make<R>): (s': FanOut<R>)
    requires Enabled(s, i)
  {
    match s.units[i]
    case Waiting => FanOut(s.free - 1, s.inFlight, s.units[i := Admitted])
    case Admitted => FanOut(s.free, s.inFlight + 1, s.units[i := Running])
    case Running => FanOut(s.free, s.inFlight, s.units[i := Produced(make(i))])
    case Produced(r) => FanOut(s.free, s.inFlight - 1, s.units[i := Leaving(r)])
    case Leaving(r) => FanOut(s.free + 1, s.inFlight, s.units[i := Done(r)])
  }

  predicate HoldsPermit<R>(u: Phase<R>) { !u.Waiting? && !u.Done? }

  function PermitOf<R>(u: Phase<R>): (n: nat) { if HoldsPermit(u) then 1 else 0 }

  /** What the unit adds to the atomic counter. */
  function CountOf<R>(u: Phase<R>): (n: nat) { if u.Running? || u.Produced? then 1 else 0 }

  function StepsLeft<R>(u: Phase<R>): (n: nat) {
    match u
    case Waiting => 5
    case Admitted => 4
    case Running => 3
    case Produced(_) => 2
    case Leaving(_) => 1
    case Done(_) => 0
  }

  /** The sum of a quantity over all units. */
  function Sum<R>(units: seq<Phase<R>>, f: Phase<R> -> nat): (n: nat) {
    if units == [] then 0 else f(units[0]) + Sum(units[1..], f)
  }

  function Held<R>(units: seq<Phase<R>>): (n: nat) {
    Sum(units, PermitOf)
  }

  function Counted<R>(units: seq<Phase<R>>): (n: nat) {
    Sum(units, CountOf)
  }

  /** How many steps are left until every unit is done. */
  function WorkLeft<R>(units: seq<Phase<R>>): (n: nat) {
    Sum(units, StepsLeft)
  }

  lemma {:induction false} SumUpdate<R>(units: seq<Phase<R>>, i: nat, u: Phase<R>, f: Phase<R> -> nat)
    requires i < |units|
    ensures Sum(units[i := u], f) + f(units[i]) == Sum(units, f) + f(u)
    decreases units
  {
    if i == 0 {
      assert units[0 := u][1..] == units[1..];
    } else {
      assert units[i := u][1..] == units[1..][i - 1 := u];
      SumUpdate(units[1..], i - 1, u, f);
    }
  }

  lemma {:induction false} SumLess<R>(units: seq<Phase<R>>, f: Phase<R> -> nat, g: Phase<R> -> nat)
    requires forall u :: f(u) <= g(u)
    ensures Sum(units, f) <= Sum(units, g)
    decreases units
  {
    if units != [] {
      SumLess(units[1..], f, g);
    }
  }

  lemma {:induction false} SumOfEqual<R>(units: seq<Phase<R>>, f: Phase<R> -> nat, n: nat)
    requires forall u | u in units :: f(u) == n
    ensures Sum(units, f) == n * |units|
    decreases units
  {
    if units != [] {
      assert units[0] in units;
      SumOfEqual(units[1..], f, n);
    }
  }

  lemma {:induction false} SumZero<R>(units: seq<Phase<R>>, f: Phase<R> -> nat)
    requires Sum(units, f) == 0
    ensures forall i | 0 <= i < |units| :: f(units[i]) == 0
    decreases units
  {
    if units != [] {
      SumZero(units[1..], f);
      assert forall i | 1 <= i < |units| :: units[i] == units[1..][i - 1];
    }
  }

  ghost predicate ResultOk<R>(u: Phase<R>, i: nat, make: Make<R>) {
    match u
    case Produced(r) => r == make(i)
    case Leaving(r) => r == make(i)
    case Done(r) => r == make(i)
    case _ => true
  }

  /** Permits held and free add up, the counter counts, and results belong to their index. */
  ghost predicate Invariant<R>(s: FanOut<R>, count: nat, concurrency: nat, make: Make<R>) {
    && |s.units| == count
    && s.free + Held(s.units) == concurrency
    && s.inFlight == Counted(s.units)
    && forall i | 0 <= i < count :: ResultOk(s.units[i], i, make)
  }

  lemma StartInvariant<R>(count: nat, concurrency: nat, make: Make<R>)
    ensures Invariant(Start(count, concurrency), count, concurrency, make)
    ensures WorkLeft(Start<R>(count, concurrency).units) == 5 * count
  {
    var s: FanOut<R> := Start(count, concurrency);
    SumOfEqual(s.units, PermitOf, 0);
    SumOfEqual(s.units, CountOf, 0);
    SumOfEqual(s.units, StepsLeft, 5);
  }

  /** Each step keeps the invariant and is one of the steps that were left. */
  lemma StepKeepsInvariant<R>(s: FanOut<R>, i: nat, count: nat, concurrency: nat, make: Make<R>)
    requires Invariant(s, count, concurrency, make) && Enabled(s, i)
    ensures Invariant(Next(s, i, make), count, concurrency, make)
    ensures WorkLeft(Next(s, i, make).units) == WorkLeft(s.units) - 1
  {
    var u := Next(s, i, make).units[i];
    SumUpdate(s.units, i, u, PermitOf);
    SumUpdate(s.units, i, u, CountOf);
    SumUpdate(s.units, i, u, StepsLeft);
  }

  /** The in-flight bound the code asserts: at most `concurrency` units are ever counted. */
  lemma InFlightBounded<R>(s: FanOut<R>, count: nat, concurrency: nat, make: Make<R>)
    requires Invariant(s, count, concurrency, make)
    ensures 0 <= s.inFlight <= concurrency
  {
    SumLess(s.units, CountOf, PermitOf);
  }

  predicate AllDone<R>(s: FanOut<R>) {
    forall i | 0 <= i < |s.units| :: s.units[i].Done?
  }

  /** No deadlock: until every unit is done, some unit can take a step. */
  lemma SomeUnitCanStep<R>(s: FanOut<R>, count: nat, concurrency: nat, make: Make<R>) returns (i: nat)
    requires Invariant(s, count, concurrency, make) && concurrency >= 1 && !AllDone(s)
    ensures Enabled(s, i)
  {
    i :| 0 <= i < |s.units| && !s.units[i].Done?;
    if s.units[i].Waiting? && s.free == 0 {
      if forall k | 0 <= k < |s.units| :: !HoldsPermit(s.units[k]) {
        SumOfEqual(s.units, PermitOf, 0);
        assert false;
      }
      i :| 0 <= i < |s.units| && HoldsPermit(s.units[i]);
    }
  }

  function Outputs<R>(s: FanOut<R>): (out: seq<R>)
    requires AllDone(s)
  {
    seq(|s.units|, i requires 0 <= i < |s.units| => s.units[i].result)
  }

  /** Once all units are done, the outputs are the serial ones, nothing is in flight and no permit is out. */
  lemma DoneIsSerial<R>(s: FanOut<R>, count: nat, concurrency: nat, make: Make<R>)
    requires Invariant(s, count, concurrency, make) && AllDone(s)
    ensures Outputs(s) == InOrder(count, make)
    ensures s.inFlight == 0 && s.free == concurrency && WorkLeft(s.units) == 0
  {
    SumOfEqual(s.units, PermitOf, 0);
    SumOfEqual(s.units, CountOf, 0);
    SumOfEqual(s.units, StepsLeft, 0);
  }

  // ---------- Whole runs ----------

  /** A run names, step by step, the unit that moves. */
  predicate IsRun<R>(s: FanOut<R>, run: seq<nat>, make: Make<R>)
    decreases |run|
  {
    run == [] || (Enabled(s, run[0]) && IsRun(Next(s, run[0], make), run[1..], make))
  }

  function After<R>(s: FanOut<R>, run: seq<nat>, make: Make<R>): (s': FanOut<R>)
    requires IsRun(s, run, make)
    decreases |run|
  {
    if run == [] then s else After(Next(s, run[0], make), run[1..], make)
  }

  lemma {:induction false} RunKeepsInvariant<R>(s: FanOut<R>, run: seq<nat>, count: nat, concurrency: nat, make: Make<R>)
    requires Invariant(s, count, concurrency, make) && IsRun(s, run, make)
    ensures Invariant(After(s, run, make), count, concurrency, make)
    ensures |run| + WorkLeft(After(s, run, make).units) == WorkLeft(s.units)
    decreases |run|
  {
    if run != [] {
      StepKeepsInvariant(s, run[0], count, concurrency, make);
      RunKeepsInvariant(Next(s, run[0], make), run[1..], count, concurrency, make);
    }
  }

  /** Every interleaving stays within the bound at every point, cannot take more than five steps a unit,
      and, when no unit can move any more, has the index-ordered results of the serial scheduler. */
  lemma EveryRunIsSerial<R>(count: nat, concurrency: nat, make: Make<R>, run: seq<nat>)
    requires concurrency >= 1 && IsRun(Start(count, concurrency), run, make)
    ensures var s := After(Start(count, concurrency), run, make);
            && 0 <= s.inFlight <= concurrency
            && s.free + Held(s.units) == concurrency
            && |run| <= 5 * count
            && (|run| == 5 * count <==> AllDone(s))
            && ((forall i :: !Enabled(s, i)) <==> AllDone(s))
            && (AllDone(s) ==> Outputs(s) == InOrder(count, make) && s.inFlight == 0)
  {
    var start: FanOut<R> := Start(count, concurrency);
    var s := After(start, run, make);
    StartInvariant(count, concurrency, make);
    RunKeepsInvariant(start, run, count, concurrency, make);
    InFlightBounded(s, count, concurrency, make);
    if AllDone(s) {
      DoneIsSerial(s, count, concurrency, make);
    } else {
      var i := SomeUnitCanStep(s, count, concurrency, make);
      StepKeepsInvariant(s, i, count, concurrency, make);
      assert Enabled(s, i);
    }
  }

  /** `TokioScheduler::run_indexed`: units move in any order until all are done. */
  method RunConcurrent<R>(count: nat, concurrency: nat, make: Make<R>) returns (out: seq<R>)
    requires 1 <= concurrency <= CONCURRENCY_MAX
    ensures out == InOrder(count, make)
  {
    var s: FanOut<R> := Start(count, concurrency);
    StartInvariant(count, concurrency, make);
    while !AllDone(s)
      invariant Invariant(s, count, concurrency, make)
      decreases WorkLeft(s.units)
    {
      ghost var movable := SomeUnitCanStep(s, count, concurrency, make);
      var i: nat :| i < |s.units| && Enabled(s, i);
      StepKeepsInvariant(s, i, count, concurrency, make);
      s := Next(s, i, make);
      InFlightBounded(s, count, concurrency, make);
      assert s.inFlight <= concurrency;
    }
    DoneIsSerial(s, count, concurrency, make);
    assert s.inFlight == 0;
    out := Outputs(s);
  }
}
