/** The run store (crates/tmx-adapters/src/runstore.rs): capped event logs, the storing sink that files
    events under runs, and the retention sweep. */
module RunStore {
  import opened Wrappers
  import opened Utf8
  import opened Timestamps

  type RunId = Bytes

  const U32_MAX: nat := 0xFFFF_FFFF

  /** `serde_json`'s rendering of the `log.truncated` event. */
  const TRUNCATED: Bytes := "{\"event\":\"log.truncated\"}"

  function SatAdd(a: nat, b: nat): (r: nat) {
    if a + b < U64_MAX then a + b else U64_MAX
  }

  /** The bytes an event line takes in the log, its newline included. */
  function LineBytes(line: Bytes): (n: nat) { |line| + 1 }

  // ---------- One run's log ----------

  /** A run's bookkeeping and the lines its file holds. */
  datatype Log = Log(bytes: nat, stopped: bool, lines: seq<Bytes>)

  const EMPTY := Log(0, false, [])

  /** What appending one event does to a run's log. */
  function Appended(log: Log, cap: nat, line: Bytes): (r: Log) {
    if log.stopped then log
    else if SatAdd(log.bytes, LineBytes(line)) > cap then Log(log.bytes, true, log.lines + [TRUNCATED])
    else Log(SatAdd(log.bytes, LineBytes(line)), false, log.lines + [line])
  }

  /** The log after a sequence of events. */
  function AfterAppends(cap: nat, events: seq<Bytes>): (r: Log) {
    if events == [] then EMPTY
    else Appended(AfterAppends(cap, events[..|events| - 1]), cap, events[|events| - 1])
  }

  /** The bytes of a sequence of lines. */
  function TotalBytes(lines: seq<Bytes>): (n: nat) {
    if lines == [] then 0 else TotalBytes(lines[..|lines| - 1]) + LineBytes(lines[|lines| - 1])
  }

  /** What a file of lines holds. */
  function FileText(lines: seq<Bytes>): (text: Bytes) {
    if lines == [] then [] else FileText(lines[..|lines| - 1]) + lines[|lines| - 1] + "\n"
  }

  /** The bytes counted are the length of the file. */
  lemma {:induction false} TotalIsFileLength(lines: seq<Bytes>)
    ensures TotalBytes(lines) == |FileText(lines)|
    decreases |lines|
  {
    if lines != [] {
      TotalIsFileLength(lines[..|lines| - 1]);
    }
  }

  /** The lines fit the cap; the counter saturates, so nothing exceeds the largest cap. */
  predicate Fits(cap: nat, lines: seq<Bytes>) {
    cap >= U64_MAX || TotalBytes(lines) <= cap
  }

  lemma {:induction false} PrefixFits(cap: nat, lines: seq<Bytes>, k: nat)
    requires k <= |lines|
    ensures TotalBytes(lines[..k]) <= TotalBytes(lines)
    ensures Fits(cap, lines) ==> Fits(cap, lines[..k])
    decreases |lines|
  {
    if k == |lines| {
      assert lines[..k] == lines;
    } else {
      assert lines[..|lines| - 1][..k] == lines[..k];
      PrefixFits(cap, lines[..|lines| - 1], k);
    }
  }

  /** `k` events are the longest prefix of `events` that fits the cap. */
  predicate IsLongestFit(cap: nat, events: seq<Bytes>, k: nat) {
    && k <= |events|
    && Fits(cap, events[..k])
    && forall j | k < j <= |events| :: !Fits(cap, events[..j])
  }

  /** The log is the longest prefix of the events that fits, closed by one marker when an event did not. */
  lemma {:induction false} LogIsLongestFit(cap: nat, events: seq<Bytes>) returns (k: nat)
    ensures IsLongestFit(cap, events, k)
    ensures var log := AfterAppends(cap, events);
            && log.lines == events[..k] + (if k < |events| then [TRUNCATED] else [])
            && log.stopped == (k < |events|)
            && (cap < U64_MAX ==> log.bytes == TotalBytes(events[..k]) <= cap)
    decreases |events|
  {
    if events == [] {
      k := 0;
    } else {
      var last := |events| - 1;
      var before := AfterAppends(cap, events[..last]);
      k := LogIsLongestFit(cap, events[..last]);
      forall j | 0 <= j <= last
        ensures events[..last][..j] == events[..j]
      {
      }
      assert events[..|events|] == events;
      if before.stopped {
        PrefixFits(cap, events, last);
        assert !Fits(cap, events[..last][..last]);
      } else if before.bytes + LineBytes(events[last]) <= cap || cap >= U64_MAX {
        k := |events|;
        assert events == events[..last] + [events[last]];
      } else {
        assert !Fits(cap, events);
      }
    }
  }

  // ---------- The store ----------

  /** A stored run: what its record says of its start, when the record can be read. */
  datatype Stored = Stored(startedAt: Option<Bytes>)

  /** A run is aged out when it started, as far as can be read, strictly before the cutoff. */
  predicate Expired(run: Stored, cutoff: Bytes) {
    run.startedAt.Some? && LexLess(run.startedAt.value, cutoff)
  }

  /** The least and greatest counts a `u32` keeps. */
  function SatCount(n: nat): (r: nat) { if n < U32_MAX then n else U32_MAX }

  class LocalRunStore {
    const cap: nat
    /** The run directories, by id. */
    var runs: map<RunId, Stored>
    /** The logs written so far, by id. */
    var logs: map<RunId, Log>

    constructor (cap: nat)
      ensures this.cap == cap && runs == map[] && logs == map[]
    {
      this.cap := cap;
      runs, logs := map[], map[];
    }

    function LogOf(id: RunId): (log: Log)
      reads this
    {
      if id in logs then logs[id] else EMPTY
    }

    /** `append_event`, one at a time: one run's log moves on by one event and no other changes. */
    method AppendEvent(id: RunId, line: Bytes)
      modifies this`logs
      ensures LogOf(id) == Appended(old(LogOf(id)), cap, line)
      ensures forall other | other != id :: LogOf(other) == old(LogOf(other))
    {
      var state := LogOf(id);
      if state.stopped {
        return;
      }
      var eventBytes := |line| + 1;
      if SatAdd(state.bytes, eventBytes) > cap {
        state := state.(stopped := true);
        logs := logs[id := state.(lines := state.lines + [TRUNCATED])];
        return;
      }
      state := state.(bytes := SatAdd(state.bytes, eventBytes));
      logs := logs[id := state.(lines := state.lines + [line])];
    }

    /** `prune`: remove every listed run that started before the cutoff, and count the removals. */
    method Prune(cutoff: Bytes) returns (removed: nat)
      modifies this
      ensures runs == map id | id in old(runs) && !Expired(old(runs)[id], cutoff) :: old(runs)[id]
      ensures removed == SatCount(|set id | id in old(runs) && Expired(old(runs)[id], cutoff)|)
      ensures forall id :: LogOf(id) == if id in old(runs) && Expired(old(runs)[id], cutoff) then EMPTY else old(LogOf(id))
      ensures forall id | id in old(runs) && old(runs)[id].startedAt.None? :: id in runs && LogOf(id) == old(LogOf(id))
    {
      removed := 0;
      ghost var before := runs;
      ghost var gone: set<RunId> := {};
      var listed := runs.Keys;
      while listed != {}
        invariant listed <= before.Keys
        invariant gone == set id | id in before && id !in listed && Expired(before[id], cutoff)
        invariant runs == map id | id in before && id !in gone :: before[id]
        invariant removed == SatCount(|gone|)
        invariant forall id :: LogOf(id) == if id in gone then EMPTY else old(LogOf(id))
        decreases listed
      {
        var id :| id in listed;
        listed := listed - {id};
        if Expired(runs[id], cutoff) {
          runs := runs - {id};
          logs := logs - {id};
          removed := SatAdd32(removed);
          gone := gone + {id};
        }
      }
      assert gone == set id | id in before && Expired(before[id], cutoff);
    }
  }

  function SatAdd32(n: nat): (r: nat) { if n < U32_MAX then n + 1 else U32_MAX }

  /** With recorded starts and cutoff written by the clock, up to the year 9999, a run is removed exactly
      when its start is an earlier instant than the cutoff. */
  lemma PruneComparesInstants(started: Instant, cutoff: Instant)
    requires started.millis < 1000 && cutoff.millis < 1000
    requires DateOf(started).year <= 9999 && DateOf(cutoff).year <= 9999
    ensures Expired(Stored(Some(Format(started))), Format(cutoff)) <==> Earlier(started, cutoff)
  {
    StringOrderIsTimeOrder(started, cutoff);
  }

  // ---------- The storing sink ----------

  /** An emitted event: a `run.start`, which carries a run id, or any other. */
  datatype Event = RunStart(id: RunId, line: Bytes) | Other(line: Bytes)

  function Latch(current: Option<RunId>, event: Event): (id: Option<RunId>) {
    if event.RunStart? then Some(event.id) else current
  }

  /** The run in force after a stream of events: that of its latest `run.start`. */
  function LatestRun(events: seq<Event>): (id: Option<RunId>) {
    if events == [] then None else Latch(LatestRun(events[..|events| - 1]), events[|events| - 1])
  }

  /** The lines of a stream that belong to run `id`, in order. */
  function FiledUnder(events: seq<Event>, id: RunId): (lines: seq<Bytes>) {
    if events == [] then []
    else
      FiledUnder(events[..|events| - 1], id)
      + (if LatestRun(events) == Some(id) then [events[|events| - 1].line] else [])
  }

  function LinesOf(events: seq<Event>): (lines: seq<Bytes>) {
    if events == [] then [] else LinesOf(events[..|events| - 1]) + [events[|events| - 1].line]
  }

  /** A `run.start` and the events up to the next one are filed under its id, and nothing else is; events
      before the first `run.start` are filed nowhere. */
  lemma {:induction false} SegmentIsFiled(before: seq<Event>, id: RunId, line: Bytes, after: seq<Event>, other: RunId)
    requires forall e | e in after :: !e.RunStart?
    ensures LatestRun(before + [RunStart(id, line)] + after) == Some(id)
    ensures FiledUnder(before + [RunStart(id, line)] + after, other)
         == FiledUnder(before, other) + (if other == id then [line] + LinesOf(after) else [])
    decreases |after|
  {
    var events := before + [RunStart(id, line)] + after;
    if after == [] {
      assert events[..|events| - 1] == before;
      assert FiledUnder(before, other) + [] == FiledUnder(before, other);
      assert [line] + [] == [line];
    } else {
      var front := after[..|after| - 1];
      assert events[..|events| - 1] == before + [RunStart(id, line)] + front;
      assert after[|after| - 1] in after;
      SegmentIsFiled(before, id, line, front, other);
    }
  }

  lemma {:induction false} NothingIsFiledBeforeStart(events: seq<Event>, id: RunId)
    requires forall e | e in events :: !e.RunStart?
    ensures LatestRun(events) == None && FiledUnder(events, id) == []
  {
    if events != [] {
      assert events[|events| - 1] in events;
      NothingIsFiledBeforeStart(events[..|events| - 1], id);
    }
  }

  /** One more event moves on the log of the run it is filed under, and no other. */
  lemma OneMoreEvent(events: seq<Event>, event: Event, cap: nat, id: RunId)
    ensures AfterAppends(cap, FiledUnder(events + [event], id))
         == if LatestRun(events + [event]) == Some(id)
            then Appended(AfterAppends(cap, FiledUnder(events, id)), cap, event.line)
            else AfterAppends(cap, FiledUnder(events, id))
  {
    var more, lines := events + [event], FiledUnder(events, id);
    assert more[..|more| - 1] == events;
    assert (lines + [event.line])[..|lines|] == lines && lines + [] == lines;
  }

  class StoringSink {
    const store: LocalRunStore
    var runId: Option<RunId>
    /** Everything emitted so far. */
    ghost var emitted: seq<Event>

    /** Each run's log is the capped log of the events emitted under it. */
    ghost predicate Valid()
      reads this, store
    {
      && runId == LatestRun(emitted)
      && forall id :: store.LogOf(id) == AfterAppends(store.cap, FiledUnder(emitted, id))
    }

    constructor (store: LocalRunStore)
      requires store.logs == map[]
      ensures Valid() && this.store == store && emitted == []
    {
      this.store := store;
      runId, emitted := None, [];
    }

    /** `emit`: latch the id of a `run.start`, then append the event to the latched run's log. */
    method Emit(event: Event)
      requires Valid()
      modifies this, store
      ensures Valid() && emitted == old(emitted) + [event]
    {
      emitted := emitted + [event];
      if event.RunStart? {
        runId := Some(event.id);
      }
      assert runId == LatestRun(emitted) by {
        assert emitted[..|emitted| - 1] == old(emitted);
      }
      if runId.Some? {
        store.AppendEvent(runId.value, event.line);
      }
      forall id
        ensures store.LogOf(id) == AfterAppends(store.cap, FiledUnder(emitted, id))
      {
        OneMoreEvent(old(emitted), event, store.cap, id);
      }
    }
  }
}
