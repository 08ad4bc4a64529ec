/** The `map` fan-out over the scheduler (crates/tmx-core/src/fanout.rs). */
module FanOut {
  import opened Wrappers
  import opened Limits
  import opened Utf8
  import opened Json
  import opened Scheduler
  import opened Numerals

  /** The error codes of a `map` task, and an aborting element's own error. */
  datatype MapError<E> =
    | ItemsNotArray
    | FanoutTooWide
    | ConcurrencyTooHigh
    | FlowDepthExceeded
    | Element(error: E)

  /** The parsed payload: the resolved items, and the options as written. */
  datatype MapTask = MapTask(items: Value, concurrency: Option<nat>, continueOnError: Option<bool>, innerIsFlow: bool)

  /** What runs the inner task: the element's index, its binding, and the depth. */
  type RunItem<E> = (nat, Value, nat) -> Result<Value, E>

  function Clamp(n: nat, low: nat, high: nat): (r: nat)
    requires low <= high
    ensures low <= r <= high
  {
    if n < low then low else if n > high then high else n
  }

  /** The units that may run at once. */
  function Effective(requested: nat, cap: nat): (n: nat)
    ensures 1 <= n <= CONCURRENCY_MAX
  {
    var wanted, ceiling := if requested < 1 then 1 else requested, Clamp(cap, 1, CONCURRENCY_MAX);
    if wanted < ceiling then wanted else ceiling
  }

  /** The binding of an element: an object without an `index` of its own gets its position. */
  function BindItem(element: Value, index: nat): (v: Value) {
    if element.Object? && Get(element.entries, "index").None? then
      Object(element.entries + [Entry("index", Number(PositionNumber(index)))])
    else element
  }

  /** The element result at `i`. */
  function ResultAt<E>(task: MapTask, depth: nat, run: RunItem<E>, i: nat): (r: Result<Value, E>)
    requires task.items.Array? && i < |task.items.items|
  {
    run(i, BindItem(task.items.items[i], i), depth)
  }

  /** What an element's result puts in its slot when failures are recorded. */
  function Slot<E>(r: Result<Value, E>, errorJson: E -> Value): (v: Value) {
    match r
    case Ok(value) => value
    case Err(error) => Object([Entry("error", errorJson(error))])
  }

  /** The depth of the inner task: a flow runs one level down, within the bound. */
  function InnerDepth(task: MapTask, depth: nat): (d: Option<nat>) {
    if !task.innerIsFlow then Some(depth) else if depth >= FLOW_DEPTH_MAX then None else Some(depth + 1)
  }

  /** The errors raised before any element runs, in the order the code looks for them. */
  function Rejection<E>(task: MapTask, depth: nat): (e: Option<MapError<E>>) {
    if !task.items.Array? then Some(ItemsNotArray)
    else if |task.items.items| > FANOUT_WIDTH_MAX then Some(FanoutTooWide)
    else if task.concurrency.Some? && task.concurrency.value > CONCURRENCY_MAX then Some(ConcurrencyTooHigh)
    else if InnerDepth(task, depth).None? then Some(FlowDepthExceeded)
    else None
  }

  predicate ContinuesOnError(task: MapTask) {
    task.continueOnError == Some(true)
  }

  /** `run_map`, over the concurrent scheduler.  Whatever order the elements complete in: recorded failures
      leave one slot for each element, in element order; otherwise the failing element with the lowest
      index decides the error. */
  method RunMap<E>(task: MapTask, cap: nat, depth: nat, run: RunItem<E>, errorJson: E -> Value)
    returns (r: Result<Value, MapError<E>>)
    ensures Rejection<E>(task, depth).Some? ==> r == Err(Rejection<E>(task, depth).value)
    ensures Rejection<E>(task, depth).None? ==>
              var n, d := |task.items.items|, InnerDepth(task, depth).value;
              match r
              case Ok(out) =>
                && out.Array? && |out.items| == n
                && (forall i | 0 <= i < n :: out.items[i] == (match ResultAt(task, d, run, i)
                                                              case Ok(value) => value
                                                              case Err(error) => Object([Entry("error", errorJson(error))])))
                && (ContinuesOnError(task) || forall i | 0 <= i < n :: ResultAt(task, d, run, i).Ok?)
              case Err(e) =>
                !ContinuesOnError(task) && exists k | 0 <= k < n ::
                  && ResultAt(task, d, run, k).Err? && e == Element(ResultAt(task, d, run, k).error)
                  && forall i | 0 <= i < k :: ResultAt(task, d, run, i).Ok?
  {
    if !task.items.Array? {
      return Err(ItemsNotArray);
    }
    var items := task.items.items;
    if |items| > FANOUT_WIDTH_MAX {
      return Err(FanoutTooWide);
    }
    var requested := if task.concurrency.Some? then task.concurrency.value else 1;
    if requested > CONCURRENCY_MAX {
      return Err(ConcurrencyTooHigh);
    }
    var effective := Effective(requested, cap);
    var innerDepth := depth;
    if task.innerIsFlow {
      if depth >= FLOW_DEPTH_MAX {
        return Err(FlowDepthExceeded);
      }
      innerDepth := depth + 1;
    }
    var make := (i: nat) => run(i, if i < |items| then BindItem(items[i], i) else Null, innerDepth);
    var results := RunConcurrent(|items|, effective, make);
    var out: seq<Value> := [];
    for i := 0 to |results|
      invariant |out| == i
      invariant forall k | 0 <= k < i :: out[k] == Slot(ResultAt(task, innerDepth, run, k), errorJson)
      invariant ContinuesOnError(task) || forall k | 0 <= k < i :: ResultAt(task, innerDepth, run, k).Ok?
    {
      assert results[i] == make(i) == ResultAt(task, innerDepth, run, i);
      match results[i] {
        case Ok(value) =>
          out := out + [value];
        case Err(error) =>
          if task.continueOnError == Some(true) {
            out := out + [Object([Entry("error", errorJson(error))])];
          } else {
            return Err(Element(error));
          }
      }
    }
    r := Ok(Array(out));
  }

  /** The budget is the greatest that neither the request nor the run's cap nor the engine's ceiling is below,
      where a request or cap of zero counts as one. */
  lemma EffectiveIsBounded(requested: nat, cap: nat, n: nat)
    ensures 1 <= Effective(requested, cap) <= CONCURRENCY_MAX
    ensures requested >= 1 ==> Effective(requested, cap) <= requested
    ensures cap >= 1 ==> Effective(requested, cap) <= cap
    ensures n <= requested && n <= cap && n <= CONCURRENCY_MAX ==> n <= Effective(requested, cap)
    ensures requested == 0 || cap == 0 ==> Effective(requested, cap) == 1
  {
  }

  /** Which task is refused for which reason; an inner flow runs one level down. */
  lemma RejectedExactlyWhen<E>(task: MapTask, depth: nat)
    ensures var wide := task.items.Array? && |task.items.items| > FANOUT_WIDTH_MAX;
            var many := task.concurrency.Some? && task.concurrency.value > CONCURRENCY_MAX;
            var deep := task.innerIsFlow && depth >= FLOW_DEPTH_MAX;
            && (Rejection<E>(task, depth) == Some(ItemsNotArray) <==> !task.items.Array?)
            && (Rejection<E>(task, depth) == Some(FanoutTooWide) <==> wide)
            && (Rejection<E>(task, depth) == Some(ConcurrencyTooHigh) <==> task.items.Array? && !wide && many)
            && (Rejection<E>(task, depth) == Some(FlowDepthExceeded) <==> task.items.Array? && !wide && !many && deep)
            && (Rejection<E>(task, depth).None? ==>
                  InnerDepth(task, depth) == Some(if task.innerIsFlow then depth + 1 else depth))
  {
  }

  /** `bound` is the element as the inner task sees it at position `i`: an object without an `index` of its own
      gains one, a number that reads as `i`; every other element is itself. */
  predicate IsBinding(element: Value, bound: Value, i: nat) {
    if element.Object? && (forall e | e in element.entries :: e.key != "index") then
      && bound.Object? && |bound.entries| == |element.entries| + 1
      && bound.entries[..|element.entries|] == element.entries
      && IsPosition(bound.entries[|element.entries|], i)
    else bound == element
  }

  predicate IsPosition(e: Entry, i: nat) {
    e.key == "index" && e.value.Number? && AsIndex(e.value.n) == Some(i) && e.value.n.value == i as real
  }

  lemma BindItemIsBinding(element: Value, i: nat)
    ensures IsBinding(element, BindItem(element, i), i)
  {
    PositionIsRead(i);
  }

  /** An object element without an `index` of its own reads its position under that key. */
  lemma BoundPositionIsFound(element: Value, bound: Value, i: nat)
    requires element.Object? && Get(element.entries, "index").None? && IsBinding(element, bound, i)
    ensures bound.Object?
    ensures var v := Get(bound.entries, "index");
            v.Some? && v.value.Number? && AsIndex(v.value.n) == Some(i) && v.value.n.value == i as real
  {
    var at := |element.entries|;
    forall j | 0 <= j < at
      ensures bound.entries[j].key != "index"
    {
      assert bound.entries[j] == element.entries[j] && element.entries[j] in element.entries;
    }
    assert bound.entries[at] in bound.entries;
    assert Find(bound.entries, "index") == at;
  }

  /** The slot at `i` comes from the inner task run at position `i` on the element bound to that position. */
  lemma SlotIsOfBoundElement<E>(task: MapTask, depth: nat, run: RunItem<E>, i: nat) returns (bound: Value)
    requires task.items.Array? && i < |task.items.items|
    ensures IsBinding(task.items.items[i], bound, i) && ResultAt(task, depth, run, i) == run(i, bound, depth)
  {
    bound := BindItem(task.items.items[i], i);
    BindItemIsBinding(task.items.items[i], i);
  }

  /** Binding keeps an element's own data, and a position is readable under `index` in every object. */
  lemma BindItemKeepsData(element: Value, index: nat, key: Bytes)
    requires element.Object? && DistinctKeys(element.entries)
    ensures var bound := BindItem(element, index);
            && bound.Object? && DistinctKeys(bound.entries)
            && (Get(element.entries, key).Some? ==> Get(bound.entries, key) == Get(element.entries, key))
            && Get(bound.entries, "index").Some?
            && (key != "index" ==> Get(bound.entries, key) == Get(element.entries, key))
  {
    var entries, bound := element.entries, BindItem(element, index).entries;
    assert Get(entries, "index").None? ==> bound[|entries|].key == "index" && bound[|entries|] in bound;
    assert Get(entries, "index").None? ==> forall i | 0 <= i < |entries| :: entries[i] in entries && bound[i] == entries[i];
    var i, k := Find(entries, key), Find(bound, key);
    if i < |entries| {
      assert bound[i].key == key;
    }
  }
}
