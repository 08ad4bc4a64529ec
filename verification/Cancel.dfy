/** The two-phase cancellation token (crates/tmx-core/src/cancel.rs): the locked state and its sections. */
module Cancel {
  import opened Wrappers

  datatype Reason = Timeout | Interrupt

  /** A waker's identity; `will_wake` compares identities. */
  type Waker = nat

  /** The state behind the lock. */
  datatype Shared = Shared(requested: Option<Reason>, hard: Option<Reason>, wakers: seq<Waker>)

  const FRESH := Shared(None, None, [])

  function FirstWins(current: Option<Reason>, reason: Reason): (r: Option<Reason>) {
    if current.None? then Some(reason) else current
  }

  /** The locked section of `request`. */
  function Requested(s: Shared, reason: Reason): (s': Shared) {
    s.(requested := FirstWins(s.requested, reason))
  }

  /** The locked section of `hard_cancel`; the wakers it takes are woken after the lock is dropped. */
  function HardCancelled(s: Shared, reason: Reason): (s': Shared) {
    Shared(FirstWins(s.requested, reason), FirstWins(s.hard, reason), [])
  }

  /** The locked section of `register`, when hard cancellation has not fired. */
  function Parked(s: Shared, waker: Waker): (s': Shared) {
    if waker in s.wakers then s else s.(wakers := s.wakers + [waker])
  }

  /** The token.  `woken` records the wakers woken through it, oldest first. */
  class CancelToken {
    var requested: Option<Reason>
    var hard: Option<Reason>
    var wakers: seq<Waker>
    ghost var woken: seq<Waker>

    ghost function State(): (s: Shared)
      reads this
    {
      Shared(requested, hard, wakers)
    }

    constructor ()
      ensures State() == FRESH && woken == []
    {
      requested, hard, wakers, woken := None, None, [], [];
    }

    method Wake(waker: Waker)
      modifies this`woken
      ensures woken == old(woken) + [waker]
    {
      woken := woken + [waker];
    }

    method Request(reason: Reason)
      modifies this`requested
      ensures State() == Requested(old(State()), reason)
      ensures requested == if old(requested).None? then Some(reason) else old(requested)
    {
      if requested.None? {
        requested := Some(reason);
      }
    }

    /** Every parked waker is taken out of the list and woken once, in parking order. */
    method HardCancel(reason: Reason)
      modifies this
      ensures State() == HardCancelled(old(State()), reason)
      ensures woken == old(woken) + old(wakers) && wakers == []
      ensures requested == if old(requested).None? then Some(reason) else old(requested)
      ensures hard == if old(hard).None? then Some(reason) else old(hard)
    {
      if requested.None? {
        requested := Some(reason);
      }
      if hard.None? {
        hard := Some(reason);
      }
      var taken := wakers;
      wakers := [];
      for i := 0 to |taken|
        invariant State() == HardCancelled(old(State()), reason)
        invariant woken == old(woken) + taken[..i]
      {
        Wake(taken[i]);
        assert taken[..i + 1] == taken[..i] + [taken[i]];
      }
      assert taken[..|taken|] == taken;
    }

    /** A waker is parked once, or woken at once when hard cancellation has already fired. */
    method Register(waker: Waker)
      modifies this
      ensures old(hard).None? ==> State() == Parked(old(State()), waker) && woken == old(woken)
      ensures old(hard).Some? ==> State() == old(State()) && woken == old(woken) + [waker]
    {
      if hard.Some? {
        Wake(waker);
        return;
      }
      var i, known := 0, false;
      while i < |wakers| && !known
        invariant i <= |wakers|
        invariant State() == old(State()) && woken == old(woken)
        invariant known <==> waker in wakers[..i]
      {
        known := wakers[i] == waker;
        i := i + 1;
      }
      if !known {
        wakers := wakers + [waker];
      }
    }
  }
}
