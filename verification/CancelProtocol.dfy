/** Guards and cancellers interleaving on one token (crates/tmx-core/src/cancel.rs).  Each locked section,
    each poll of the guarded work and each wake-up is one atomic step; any number of guards and cancellers
    take steps in any order. */
module CancelProtocol {
  import opened Wrappers
  import opened Cancel

  type GuardId = nat

  /** Where one `poll` of a guard stands, with the waker it was polled with. */
  datatype Pc =
    | Idle                       // never polled
    | Entered(waker: Waker)      // polled; about to look for hard cancellation
    | Working(waker: Waker)      // not cancelled; about to poll the work
    | Registering(waker: Waker)  // work pending; about to register the waker
    | SelfWaking(waker: Waker)   // registered too late; about to wake its own waker
    | Rechecking(waker: Waker)   // registered; about to look again for hard cancellation
    | Pending(waker: Waker)      // returned `Poll::Pending`
    | Finished(outcome: Outcome) // returned `Poll::Ready`

  datatype Outcome = WorkDone | Cancelled(reason: Reason)

  /** `woken` says whether the waker has been woken since the guard's last poll began. */
  datatype Guard = Guard(pc: Pc, woken: bool)

  /** `drains` holds, for each `hard_cancel` call, the wakers it has taken and still has to wake. */
  datatype System = System(token: Shared, guards: map<GuardId, Guard>, drains: seq<seq<Waker>>)

  datatype Step =
    | Spawn(g: GuardId)
    | SoftCancel(reason: Reason)
    | HardCancel(reason: Reason)
    | WakeNext(drain: nat)
    | BeginPoll(g: GuardId, waker: Waker)
    | CheckHard(g: GuardId)
    | WorkReady(g: GuardId)
    | WorkPending(g: GuardId)
    | Register(g: GuardId)
    | WakeSelf(g: GuardId)
    | Recheck(g: GuardId)

  const INITIAL := System(FRESH, map[], [])

  predicate HasWaker(pc: Pc) { !pc.Idle? && !pc.Finished? }

  /** Waking `waker` notifies every guard whose current poll was given it. */
  function Wake(guards: map<GuardId, Guard>, waker: Waker): (r: map<GuardId, Guard>)
    ensures r.Keys == guards.Keys
    ensures forall g | g in guards :: r[g].pc == guards[g].pc
    ensures forall g | g in guards ::
              r[g].woken <==> guards[g].woken || (HasWaker(guards[g].pc) && guards[g].pc.waker == waker)
  {
    map g | g in guards ::
      if HasWaker(guards[g].pc) && guards[g].pc.waker == waker then guards[g].(woken := true) else guards[g]
  }

  function At(s: System, g: GuardId, pc: Pc): (s': System)
    requires g in s.guards
  {
    s.(guards := s.guards[g := s.guards[g].(pc := pc)])
  }

  /** The outcome of looking at the hard phase: the cancellation, or `otherwise`. */
  function Look(token: Shared, otherwise: Pc): (pc: Pc) {
    if token.hard.Some? then Finished(Cancelled(token.hard.value)) else otherwise
  }

  predicate Enabled(s: System, step: Step) {
    match step
    case Spawn(g) => g !in s.guards
    case SoftCancel(_) => true
    case HardCancel(_) => true
    case WakeNext(d) => d < |s.drains| && s.drains[d] != []
    case BeginPoll(g, _) => g in s.guards && (s.guards[g].pc.Idle? || s.guards[g].pc.Pending?)
    case CheckHard(g) => g in s.guards && s.guards[g].pc.Entered?
    case WorkReady(g) => g in s.guards && s.guards[g].pc.Working?
    case WorkPending(g) => g in s.guards && s.guards[g].pc.Working?
    case Register(g) => g in s.guards && s.guards[g].pc.Registering?
    case WakeSelf(g) => g in s.guards && s.guards[g].pc.SelfWaking?
    case Recheck(g) => g in s.guards && s.guards[g].pc.Rechecking?
  }

  function Next(s: System, step: Step): (s': System)
    requires Enabled(s, step)
  {
    match step
    case Spawn(g) => s.(guards := s.guards[g := Guard(Idle, false)])
    case SoftCancel(reason) => s.(token := Requested(s.token, reason))
    case HardCancel(reason) => s.(token := HardCancelled(s.token, reason), drains := s.drains + [s.token.wakers])
    case WakeNext(d) =>
      s.(guards := Wake(s.guards, s.drains[d][0]), drains := s.drains[d := s.drains[d][1..]])
    case BeginPoll(g, waker) => s.(guards := s.guards[g := Guard(Entered(waker), false)])
    case CheckHard(g) => At(s, g, Look(s.token, Working(s.guards[g].pc.waker)))
    case WorkReady(g) => At(s, g, Finished(WorkDone))
    case WorkPending(g) => At(s, g, Registering(s.guards[g].pc.waker))
    case Register(g) =>
      var waker := s.guards[g].pc.waker;
      if s.token.hard.Some? then At(s, g, SelfWaking(waker))
      else At(s, g, Rechecking(waker)).(token := Parked(s.token, waker))
    case WakeSelf(g) =>
      var waker := s.guards[g].pc.waker;
      At(s.(guards := Wake(s.guards, waker)), g, Rechecking(waker))
    case Recheck(g) => At(s, g, Look(s.token, Pending(s.guards[g].pc.waker)))
  }

  /** A run from `s`: each step is enabled where it is taken. */
  predicate IsRun(s: System, steps: seq<Step>)
    decreases |steps|
  {
    steps == [] || (Enabled(s, steps[0]) && IsRun(Next(s, steps[0]), steps[1..]))
  }

  function After(s: System, steps: seq<Step>): (s': System)
    requires IsRun(s, steps)
    decreases |steps|
  {
    if steps == [] then s else After(Next(s, steps[0]), steps[1..])
  }

  predicate Reachable(s: System, steps: seq<Step>) {
    IsRun(INITIAL, steps) && After(INITIAL, steps) == s
  }

  // ---------- The invariant ----------

  predicate Distinct(ws: seq<Waker>) {
    forall i, j | 0 <= i < j < |ws| :: ws[i] != ws[j]
  }

  /** Some canceller has taken `waker` and will wake it. */
  predicate WakePending(s: System, waker: Waker) {
    exists d | 0 <= d < |s.drains| :: waker in s.drains[d]
  }

  /** What every reachable state satisfies about one guard. */
  predicate GuardOk(s: System, g: Guard) {
    && (s.token.hard.None? && (g.pc.Rechecking? || g.pc.Pending?) ==> g.pc.waker in s.token.wakers)
    && (s.token.hard.Some? && g.pc.Pending? ==> g.woken || WakePending(s, g.pc.waker))
    && (g.pc.SelfWaking? ==> s.token.hard.Some?)
    && (g.pc.Finished? && g.pc.outcome.Cancelled? ==> s.token.hard == Some(g.pc.outcome.reason))
  }

  predicate TokenOk(s: System) {
    && Distinct(s.token.wakers)
    && (s.token.hard.Some? ==> s.token.requested.Some? && s.token.wakers == [])
    && (s.token.hard.None? ==> s.drains == [])
  }

  predicate Invariant(s: System) {
    TokenOk(s) && forall g | g in s.guards :: GuardOk(s, s.guards[g])
  }

  /** Every step keeps the invariant. */
  lemma StepKeepsInvariant(s: System, step: Step)
    requires Invariant(s) && Enabled(s, step)
    ensures Invariant(Next(s, step))
  {
    var s' := Next(s, step);
    forall g | g in s'.guards
      ensures GuardOk(s', s'.guards[g])
    {
      if g in s.guards {
        assert GuardOk(s, s.guards[g]);
        match step
        case HardCancel(_) => HardCancelKeepsGuard(s, step, g);
        case WakeNext(_) => WakeNextKeepsGuard(s, step, g);
        case _ =>
          assert s'.drains == s.drains;
      }
    }
  }

  lemma HardCancelKeepsGuard(s: System, step: Step, g: GuardId)
    requires Invariant(s) && step.HardCancel? && g in s.guards
    ensures GuardOk(Next(s, step), Next(s, step).guards[g])
  {
    var s', guard := Next(s, step), s.guards[g];
    if guard.pc.Pending? && !guard.woken {
      if s.token.hard.None? {
        assert guard.pc.waker in s'.drains[|s.drains|];
      } else {
        var d :| 0 <= d < |s.drains| && guard.pc.waker in s.drains[d];
        assert guard.pc.waker in s'.drains[d];
      }
    }
  }

  lemma WakeNextKeepsGuard(s: System, step: Step, g: GuardId)
    requires Invariant(s) && step.WakeNext? && Enabled(s, step) && g in s.guards
    ensures GuardOk(Next(s, step), Next(s, step).guards[g])
  {
    var s', guard := Next(s, step), s.guards[g];
    if guard.pc.Pending? && !guard.woken && s.token.hard.Some? {
      var d :| 0 <= d < |s.drains| && guard.pc.waker in s.drains[d];
      if s.drains[step.drain][0] != guard.pc.waker {
        assert d == step.drain ==> s.drains[d] == [s.drains[d][0]] + s'.drains[d];
        assert guard.pc.waker in s'.drains[d];
      }
    }
  }

  lemma {:induction false} RunKeepsInvariant(s: System, steps: seq<Step>)
    requires Invariant(s) && IsRun(s, steps)
    ensures Invariant(After(s, steps))
    decreases |steps|
  {
    if steps != [] {
      StepKeepsInvariant(s, steps[0]);
      RunKeepsInvariant(Next(s, steps[0]), steps[1..]);
    }
  }

  // ---------- Main results ----------

  /** No lost wake-up.  In every reachable state, a guard that returned `Pending` is still registered
      while hard cancellation has not fired, and once it has fired the guard's waker has been woken since
      its last poll began, or a canceller has taken that waker and will wake it. */
  lemma NoLostWakeup(s: System, steps: seq<Step>, g: GuardId)
    requires Reachable(s, steps) && g in s.guards && s.guards[g].pc.Pending?
    ensures s.token.hard.None? ==> s.guards[g].pc.waker in s.token.wakers
    ensures s.token.hard.Some? ==> s.guards[g].woken || WakePending(s, s.guards[g].pc.waker)
  {
    RunKeepsInvariant(INITIAL, steps);
  }

  /** The step wakes the waker that guard `g` was last polled with. */
  predicate WakesGuard(s: System, step: Step, g: GuardId) {
    && g in s.guards && HasWaker(s.guards[g].pc) && Enabled(s, step)
    && match step
       case WakeNext(d) => s.drains[d][0] == s.guards[g].pc.waker
       case WakeSelf(h) => s.guards[h].pc.waker == s.guards[g].pc.waker
       case _ => false
  }

  /** Since the last poll of `g` in the run, some step has woken it. */
  predicate WokenSincePoll(s: System, steps: seq<Step>, g: GuardId)
    requires IsRun(s, steps)
    decreases |steps|
  {
    && steps != []
    && (|| WokenSincePoll(Next(s, steps[0]), steps[1..], g)
        || (WakesGuard(s, steps[0], g) && forall step | step in steps[1..] :: !(step.BeginPoll? && step.g == g)))
  }

  /** `woken` is true: a guard that has it set has been woken by a step of the run since it was last polled. */
  lemma {:induction false} WokenTellsTheTruth(s: System, steps: seq<Step>, g: GuardId)
    requires IsRun(s, steps) && g in After(s, steps).guards && After(s, steps).guards[g].woken
    ensures WokenSincePoll(s, steps, g)
         || (g in s.guards && s.guards[g].woken && forall step | step in steps :: !(step.BeginPoll? && step.g == g))
    decreases |steps|
  {
    if steps != [] {
      var next := Next(s, steps[0]);
      WokenTellsTheTruth(next, steps[1..], g);
      if !WokenSincePoll(next, steps[1..], g) {
        OnlyWakesWake(s, steps[0], g);
        assert steps == [steps[0]] + steps[1..];
      }
    }
  }

  lemma OnlyWakesWake(s: System, step: Step, g: GuardId)
    requires Enabled(s, step) && g in Next(s, step).guards && Next(s, step).guards[g].woken
    ensures g in s.guards && !(step.BeginPoll? && step.g == g)
    ensures s.guards[g].woken || WakesGuard(s, step, g)
  {
  }

  /** The guard's poll has found no cancellation and is about to poll the work. */
  predicate AtWork(s: System, g: GuardId, waker: Waker) {
    g in s.guards && s.guards[g].pc == Working(waker) && s.token.hard.None?
  }

  lemma PollReachesWork(s: System, g: GuardId, waker: Waker, rest: seq<Step>)
    requires Enabled(s, BeginPoll(g, waker)) && s.token.hard.None?
    ensures var s' := Next(Next(s, BeginPoll(g, waker)), CheckHard(g));
            && AtWork(s', g, waker)
            && (IsRun(s', rest) ==>
                  && IsRun(s, [BeginPoll(g, waker), CheckHard(g)] + rest)
                  && After(s, [BeginPoll(g, waker), CheckHard(g)] + rest) == After(s', rest))
  {
    var s' := Next(Next(s, BeginPoll(g, waker)), CheckHard(g));
    if IsRun(s', rest) {
      TwoMore(s, BeginPoll(g, waker), CheckHard(g), rest);
    }
  }

  /** While nobody cancels, a poll whose work is ready returns the work's own result. */
  lemma ReadyWorkFinishes(s: System, g: GuardId, waker: Waker)
    requires Enabled(s, BeginPoll(g, waker)) && s.token.hard.None?
    ensures var steps := [BeginPoll(g, waker), CheckHard(g)] + [WorkReady(g)];
            IsRun(s, steps) && g in After(s, steps).guards && After(s, steps).guards[g].pc == Finished(WorkDone)
  {
    PollReachesWork(s, g, waker, [WorkReady(g)]);
    LastStep(Next(Next(s, BeginPoll(g, waker)), CheckHard(g)), WorkReady(g), []);
  }

  /** And a poll whose work is pending returns `Pending`, its waker parked. */
  lemma PendingWorkParks(s: System, g: GuardId, waker: Waker)
    requires Enabled(s, BeginPoll(g, waker)) && s.token.hard.None?
    ensures var steps := [BeginPoll(g, waker), CheckHard(g)] + [WorkPending(g), Register(g), Recheck(g)];
            && IsRun(s, steps) && g in After(s, steps).guards
            && After(s, steps).guards[g].pc == Pending(waker) && waker in After(s, steps).token.wakers
  {
    var rest := [WorkPending(g), Register(g), Recheck(g)];
    PollReachesWork(s, g, waker, rest);
    WorkParks(Next(Next(s, BeginPoll(g, waker)), CheckHard(g)), g, waker, rest);
  }

  lemma WorkParks(s: System, g: GuardId, waker: Waker, rest: seq<Step>)
    requires AtWork(s, g, waker) && rest == [WorkPending(g), Register(g), Recheck(g)]
    ensures IsRun(s, rest) && g in After(s, rest).guards
    ensures After(s, rest).guards[g].pc == Pending(waker) && waker in After(s, rest).token.wakers
  {
    var s1 := Next(Next(s, WorkPending(g)), Register(g));
    assert s1.guards[g].pc == Rechecking(waker) && waker in s1.token.wakers && s1.token.hard.None?;
    LastStep(s1, Recheck(g), []);
    TwoMore(s, WorkPending(g), Register(g), [Recheck(g)]);
    assert [WorkPending(g), Register(g)] + [Recheck(g)] == rest;
  }

  /** A guard that comes to register after the hard phase wakes its own waker and parks nothing; its recheck
      then resolves it to the cancellation. */
  lemma LateRegistrationWakes(s: System, g: GuardId, waker: Waker)
    requires g in s.guards && s.guards[g].pc == Registering(waker) && s.token.hard.Some?
    ensures var steps := [Register(g), WakeSelf(g)] + [];
            && IsRun(s, steps) && After(s, steps).token == s.token && g in After(s, steps).guards
            && After(s, steps).guards[g].woken && Enabled(After(s, steps), Recheck(g))
            && Next(After(s, steps), Recheck(g)).guards[g].pc == Finished(Cancelled(s.token.hard.value))
  {
    TwoMore(s, Register(g), WakeSelf(g), []);
  }

  lemma LastStep(s: System, step: Step, rest: seq<Step>)
    requires Enabled(s, step) && IsRun(Next(s, step), rest)
    ensures IsRun(s, [step] + rest) && After(s, [step] + rest) == After(Next(s, step), rest)
    ensures rest == [] ==> IsRun(s, [step]) && After(s, [step]) == Next(s, step)
  {
    assert ([step] + rest)[1..] == rest && (rest == [] ==> [step] + rest == [step]);
  }

  lemma TwoMore(s: System, a: Step, b: Step, rest: seq<Step>)
    requires Enabled(s, a) && Enabled(Next(s, a), b) && IsRun(Next(Next(s, a), b), rest)
    ensures IsRun(s, [a, b] + rest) && After(s, [a, b] + rest) == After(Next(Next(s, a), b), rest)
  {
    LastStep(Next(s, a), b, rest);
    LastStep(s, a, [b] + rest);
    assert [a] + ([b] + rest) == [a, b] + rest;
  }

  /** The wakers that cancellers still have to wake. */
  function Outstanding(drains: seq<seq<Waker>>): (n: nat) {
    if drains == [] then 0 else |drains[0]| + Outstanding(drains[1..])
  }

  lemma {:induction false} OutstandingAfterWake(drains: seq<seq<Waker>>, d: nat)
    requires d < |drains| && drains[d] != []
    ensures Outstanding(drains[d := drains[d][1..]]) == Outstanding(drains) - 1
    decreases drains
  {
    var after := drains[d := drains[d][1..]];
    if d == 0 {
      assert after[1..] == drains[1..];
    } else {
      assert after[1..] == drains[1..][d - 1 := drains[d][1..]];
      OutstandingAfterWake(drains[1..], d - 1);
    }
  }

  lemma {:induction false} OutstandingZero(drains: seq<seq<Waker>>)
    ensures Outstanding(drains) == 0 <==> forall d | 0 <= d < |drains| :: drains[d] == []
    decreases drains
  {
    if drains != [] {
      OutstandingZero(drains[1..]);
      assert forall d | 1 <= d < |drains| :: drains[d] == drains[1..][d - 1];
    }
  }

  /** The cancellers' wake loops always finish: from any reachable hard-cancelled state, running them, and
      nothing else, wakes every pending guard and moves no guard. */
  lemma {:induction false} DrainsWakeEveryPendingGuard(s: System) returns (wakes: seq<Step>, s': System)
    requires Invariant(s) && s.token.hard.Some?
    ensures IsRun(s, wakes) && After(s, wakes) == s' && |wakes| == Outstanding(s.drains)
    ensures s'.token == s.token && s'.guards.Keys == s.guards.Keys
    ensures forall g | g in s.guards :: s'.guards[g].pc == s.guards[g].pc
    ensures forall g | g in s'.guards && s'.guards[g].pc.Pending? :: s'.guards[g].woken
    decreases Outstanding(s.drains)
  {
    OutstandingZero(s.drains);
    if Outstanding(s.drains) == 0 {
      wakes, s' := [], s;
      forall g | g in s.guards && s.guards[g].pc.Pending?
        ensures s.guards[g].woken
      {
        assert GuardOk(s, s.guards[g]);
      }
    } else {
      var d :| 0 <= d < |s.drains| && s.drains[d] != [];
      OutstandingAfterWake(s.drains, d);
      var step := WakeNext(d);
      StepKeepsInvariant(s, step);
      var rest;
      rest, s' := DrainsWakeEveryPendingGuard(Next(s, step));
      wakes := [step] + rest;
      assert wakes[1..] == rest;
    }
  }

  /** A guard polled again after the hard phase resolves to that cancellation without polling its work. */
  lemma RepollResolves(s: System, g: GuardId, waker: Waker)
    requires s.token.hard.Some? && Enabled(s, BeginPoll(g, waker))
    ensures var steps := [BeginPoll(g, waker), CheckHard(g)];
            && IsRun(s, steps) && g in After(s, steps).guards
            && After(s, steps).guards[g].pc == Finished(Cancelled(s.token.hard.value))
            && After(s, steps).token == s.token
  {
    var steps := [BeginPoll(g, waker), CheckHard(g)];
    var s1 := Next(s, steps[0]);
    assert steps[1..] == [CheckHard(g)] && steps[1..][1..] == [];
    assert IsRun(s1, steps[1..]);
    assert After(s1, steps[1..]) == Next(s1, CheckHard(g));
  }

  /** A set phase keeps its first reason over every run, and hard cancellation implies a request. */
  lemma {:induction false} FirstReasonWins(s: System, steps: seq<Step>)
    requires Invariant(s) && IsRun(s, steps)
    ensures s.token.requested.Some? ==> After(s, steps).token.requested == s.token.requested
    ensures s.token.hard.Some? ==> After(s, steps).token.hard == s.token.hard
    ensures After(s, steps).token.hard.Some? ==> After(s, steps).token.requested.Some?
    decreases |steps|
  {
    if steps != [] {
      StepKeepsInvariant(s, steps[0]);
      FirstReasonWins(Next(s, steps[0]), steps[1..]);
    }
  }

  /** The reason of the first hard cancel of a run. */
  function FirstHardReason(steps: seq<Step>): (reason: Option<Reason>) {
    if steps == [] then None
    else if steps[0].HardCancel? then Some(steps[0].reason)
    else FirstHardReason(steps[1..])
  }

  /** The reason of the first cancel of a run, soft or hard. */
  function FirstReason(steps: seq<Step>): (reason: Option<Reason>) {
    if steps == [] then None
    else if steps[0].HardCancel? || steps[0].SoftCancel? then Some(steps[0].reason)
    else FirstReason(steps[1..])
  }

  lemma {:induction false} RunSetsUnsetPhases(s: System, steps: seq<Step>)
    requires IsRun(s, steps)
    ensures s.token.hard.None? ==> After(s, steps).token.hard == FirstHardReason(steps)
    ensures s.token.hard.Some? ==> After(s, steps).token.hard == s.token.hard
    ensures s.token.requested.None? ==> After(s, steps).token.requested == FirstReason(steps)
    ensures s.token.requested.Some? ==> After(s, steps).token.requested == s.token.requested
    decreases |steps|
  {
    if steps != [] {
      RunSetsUnsetPhases(Next(s, steps[0]), steps[1..]);
    }
  }

  /** After every run of a fresh token each phase holds the reason of the first call that set it, or nothing,
      and a guard that was cancelled carries the reason of the first hard cancel. */
  lemma FirstCallsSetReasons(steps: seq<Step>)
    requires IsRun(INITIAL, steps)
    ensures var s := After(INITIAL, steps);
            && s.token.hard == FirstHardReason(steps)
            && s.token.requested == FirstReason(steps)
            && forall g | g in s.guards && s.guards[g].pc.Finished? && s.guards[g].pc.outcome.Cancelled? ::
                 FirstHardReason(steps) == Some(s.guards[g].pc.outcome.reason)
  {
    RunSetsUnsetPhases(INITIAL, steps);
    RunKeepsInvariant(INITIAL, steps);
  }

  /** A guard resolves to a cancellation only for the reason the hard phase keeps. */
  lemma CancelledForHardReason(s: System, steps: seq<Step>, g: GuardId)
    requires Reachable(s, steps) && g in s.guards
    requires s.guards[g].pc.Finished? && s.guards[g].pc.outcome.Cancelled?
    ensures s.token.hard == Some(s.guards[g].pc.outcome.reason) == FirstHardReason(steps)
  {
    FirstCallsSetReasons(steps);
  }

  /** A never-triggered token is a pass-through: no run without a hard cancel cancels or wakes a guard. */
  lemma {:induction false} UntriggeredIsTransparent(s: System, steps: seq<Step>)
    requires Invariant(s) && s.token.hard.None? && IsRun(s, steps)
    requires forall g | g in s.guards :: !s.guards[g].woken
    requires forall step | step in steps :: !step.HardCancel?
    ensures After(s, steps).token.hard.None?
    ensures forall g | g in After(s, steps).guards :: var guard := After(s, steps).guards[g];
              !guard.woken && (guard.pc.Finished? ==> guard.pc.outcome == WorkDone)
    decreases |steps|
  {
    if steps != [] {
      StepKeepsInvariant(s, steps[0]);
      UntriggeredIsTransparent(Next(s, steps[0]), steps[1..]);
    }
  }
}
