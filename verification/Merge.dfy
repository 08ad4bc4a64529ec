/** The pipeline state and its merges (crates/tmx-core/src/merge.rs). */
module Merge {
  import opened Wrappers
  import opened Limits
  import opened Utf8
  import opened Json

  /** The error codes `json_too_deep` and `state_cap_exceeded`. */
  datatype MergeError = JsonTooDeep | StateCapExceeded

  function Min(a: nat, b: nat): (m: nat) { if a < b then a else b }

  function CanonicalLen(v: Value): (n: nat) { |Render(v)| }

  function KeyTokenLen(key: Bytes): (n: nat) { |RenderString(key)| }

  // ---------- The depth check: an explicit stack against the recursive height ----------

  /** A value still to be looked at, and the state depth it sits at. */
  datatype Frame = Frame(value: Value, depth: nat)

  predicate Fits(f: Frame) { f.depth + Height(f.value) <= JSON_DEPTH_MAX + 1 }

  predicate AllFit(stack: seq<Frame>) { forall f | f in stack :: Fits(f) }

  function Nodes(v: Value): (n: nat)
    ensures n >= 1
    decreases v, 0
  {
    match v
    case Array(items) => 1 + NodesOfItems(items)
    case Object(entries) => 1 + NodesOfEntries(entries)
    case _ => 1
  }

  function NodesOfItems(items: seq<Value>): (n: nat)
    decreases items, 1
  {
    if items == [] then 0 else Nodes(items[0]) + NodesOfItems(items[1..])
  }

  function NodesOfEntries(entries: seq<Entry>): (n: nat)
    decreases entries, 1
  {
    if entries == [] then 0 else NodesOfEntry(entries[0]) + NodesOfEntries(entries[1..])
  }

  function NodesOfEntry(e: Entry): (n: nat)
    ensures n == Nodes(e.value)
    decreases e, 1
  {
    Nodes(e.value)
  }

  function NodesOnStack(stack: seq<Frame>): (n: nat) {
    if stack == [] then 0 else NodesOnStack(stack[..|stack| - 1]) + Nodes(stack[|stack| - 1].value)
  }

  function FramesOfItems(items: seq<Value>, depth: nat): (frames: seq<Frame>) {
    seq(|items|, i requires 0 <= i < |items| => Frame(items[i], depth))
  }

  function FramesOfEntries(entries: seq<Entry>, depth: nat): (frames: seq<Frame>) {
    seq(|entries|, i requires 0 <= i < |entries| => Frame(entries[i].value, depth))
  }

  lemma NodesPush(stack: seq<Frame>, f: Frame)
    ensures NodesOnStack(stack + [f]) == NodesOnStack(stack) + Nodes(f.value)
  {
    assert (stack + [f])[..|stack|] == stack;
  }

  lemma {:induction false} NodesPushItems(stack: seq<Frame>, items: seq<Value>, depth: nat)
    ensures NodesOnStack(stack + FramesOfItems(items, depth)) == NodesOnStack(stack) + NodesOfItems(items)
    decreases |items|
  {
    if items == [] {
      assert stack + FramesOfItems(items, depth) == stack;
    } else {
      var f := Frame(items[0], depth);
      NodesPush(stack, f);
      NodesPushItems(stack + [f], items[1..], depth);
      assert stack + FramesOfItems(items, depth) == stack + [f] + FramesOfItems(items[1..], depth);
    }
  }

  lemma {:induction false} NodesPushEntries(stack: seq<Frame>, entries: seq<Entry>, depth: nat)
    ensures NodesOnStack(stack + FramesOfEntries(entries, depth)) == NodesOnStack(stack) + NodesOfEntries(entries)
    decreases |entries|
  {
    if entries == [] {
      assert stack + FramesOfEntries(entries, depth) == stack;
    } else {
      var f := Frame(entries[0].value, depth);
      NodesPush(stack, f);
      NodesPushEntries(stack + [f], entries[1..], depth);
      assert stack + FramesOfEntries(entries, depth) == stack + [f] + FramesOfEntries(entries[1..], depth);
    }
  }

  lemma AllFitAppend(a: seq<Frame>, b: seq<Frame>)
    ensures AllFit(a + b) <==> AllFit(a) && AllFit(b)
  {
    assert forall f | f in a :: f in a + b;
    assert forall f | f in b :: f in a + b;
  }

  lemma {:induction false} HighestItem(items: seq<Value>) returns (i: nat)
    requires items != []
    ensures i < |items| && Height(items[i]) == HeightOfItems(items)
  {
    i := 0;
    if HeightOfItems(items[1..]) > Height(items[0]) {
      var k := HighestItem(items[1..]);
      i := k + 1;
    }
  }

  lemma {:induction false} HighestEntry(entries: seq<Entry>) returns (i: nat)
    requires entries != []
    ensures i < |entries| && Height(entries[i].value) == HeightOfEntries(entries)
  {
    i := 0;
    if HeightOfEntries(entries[1..]) > Height(entries[0].value) {
      var k := HighestEntry(entries[1..]);
      i := k + 1;
    }
  }

  /** A container within the depth limit fits exactly when all its children do, one level deeper. */
  lemma ArrayFits(items: seq<Value>, depth: nat)
    requires depth <= JSON_DEPTH_MAX
    ensures Fits(Frame(Array(items), depth)) <==> AllFit(FramesOfItems(items, depth + 1))
  {
    var frames := FramesOfItems(items, depth + 1);
    assert forall i | 0 <= i < |items| :: frames[i] in frames;
    if items != [] {
      var i := HighestItem(items);
      assert Fits(frames[i]) ==> Fits(Frame(Array(items), depth));
    }
  }

  lemma ObjectFits(entries: seq<Entry>, depth: nat)
    requires depth <= JSON_DEPTH_MAX
    ensures Fits(Frame(Object(entries), depth)) <==> AllFit(FramesOfEntries(entries, depth + 1))
  {
    var frames := FramesOfEntries(entries, depth + 1);
    assert forall i | 0 <= i < |entries| :: frames[i] in frames;
    if entries != [] {
      var i := HighestEntry(entries);
      assert Fits(frames[i]) ==> Fits(Frame(Object(entries), depth));
    }
  }

  method PushItems(base: seq<Frame>, items: seq<Value>, depth: nat) returns (stack: seq<Frame>)
    ensures stack == base + FramesOfItems(items, depth)
  {
    stack := base;
    for i := 0 to |items|
      invariant stack == base + FramesOfItems(items[..i], depth)
    {
      assert FramesOfItems(items[..i + 1], depth) == FramesOfItems(items[..i], depth) + [Frame(items[i], depth)];
      stack := stack + [Frame(items[i], depth)];
    }
    assert items[..|items|] == items;
  }

  method PushEntries(base: seq<Frame>, entries: seq<Entry>, depth: nat) returns (stack: seq<Frame>)
    ensures stack == base + FramesOfEntries(entries, depth)
  {
    stack := base;
    for i := 0 to |entries|
      invariant stack == base + FramesOfEntries(entries[..i], depth)
    {
      assert FramesOfEntries(entries[..i + 1], depth)
          == FramesOfEntries(entries[..i], depth) + [Frame(entries[i].value, depth)];
      stack := stack + [Frame(entries[i].value, depth)];
    }
    assert entries[..|entries|] == entries;
  }

  lemma PopTop(stack: seq<Frame>)
    requires stack != []
    ensures var base, top := stack[..|stack| - 1], stack[|stack| - 1];
            && (AllFit(stack) <==> AllFit(base) && Fits(top))
            && NodesOnStack(stack) == NodesOnStack(base) + Nodes(top.value)
  {
    var base, top := stack[..|stack| - 1], stack[|stack| - 1];
    assert stack == base + [top];
    AllFitAppend(base, [top]);
    assert top in [top];
  }

  function ChildFrames(f: Frame): (frames: seq<Frame>) {
    match f.value
    case Array(items) => FramesOfItems(items, f.depth + 1)
    case Object(entries) => FramesOfEntries(entries, f.depth + 1)
    case _ => []
  }

  /** Replacing a frame within the limit by its children changes no verdict and leaves fewer nodes. */
  lemma ExpandTop(base: seq<Frame>, top: Frame)
    requires top.depth <= JSON_DEPTH_MAX
    ensures AllFit(base + ChildFrames(top)) <==> AllFit(base) && Fits(top)
    ensures NodesOnStack(base + ChildFrames(top)) < NodesOnStack(base) + Nodes(top.value)
  {
    AllFitAppend(base, ChildFrames(top));
    match top.value
    case Array(items) =>
      ArrayFits(items, top.depth);
      NodesPushItems(base, items, top.depth + 1);
    case Object(entries) =>
      ObjectFits(entries, top.depth);
      NodesPushEntries(base, entries, top.depth + 1);
    case _ =>
      assert base + [] == base;
  }

  /** `check_merge_depth`: pop a frame, reject it when too deep, push its children. */
  method CheckMergeDepth(output: Value) returns (ok: bool)
    ensures ok <==> 1 + Height(output) <= JSON_DEPTH_MAX
  {
    var stack := [Frame(output, 2)];
    assert Fits(stack[0]) && stack[0] in stack <==> AllFit(stack);
    while |stack| > 0
      invariant 1 + Height(output) <= JSON_DEPTH_MAX <==> AllFit(stack)
      decreases NodesOnStack(stack)
    {
      var top := stack[|stack| - 1];
      var base := stack[..|stack| - 1];
      PopTop(stack);
      if top.depth > JSON_DEPTH_MAX {
        return false;
      }
      ExpandTop(base, top);
      match top.value {
        case Array(items) => stack := PushItems(base, items, top.depth + 1);
        case Object(entries) => stack := PushEntries(base, entries, top.depth + 1);
        case _ => stack := base + [];
      }
    }
    return true;
  }

  // ---------- The size arithmetic ----------

  lemma {:induction false} RenderAppend(entries: seq<Entry>, e: Entry)
    ensures |RenderEntries(entries + [e])|
         == |RenderEntries(entries)| + (if entries == [] then 0 else 1) + |RenderEntry(e)|
    decreases |entries|
  {
    var all := entries + [e];
    if |entries| == 0 {
      assert all == [e];
    } else {
      assert all[1..] == entries[1..] + [e];
      RenderAppend(entries[1..], e);
    }
  }

  lemma {:induction false} RenderOverwrite(entries: seq<Entry>, i: nat, v: Value)
    requires i < |entries|
    ensures |Render(entries[i].value)| <= |RenderEntries(entries)|
    ensures var e := Entry(entries[i].key, v);
            |RenderEntries(entries[i := e])| == |RenderEntries(entries)| - |Render(entries[i].value)| + |Render(v)|
    decreases |entries|
  {
    var e := Entry(entries[i].key, v);
    if i > 0 {
      assert entries[i := e][1..] == entries[1..][i - 1 := e];
      RenderOverwrite(entries[1..], i - 1, v);
    } else {
      assert entries[i := e][1..] == entries[1..];
    }
  }

  /** The byte count the merge computes from the old count and the delta of one key. */
  function NewSize(size: nat, entries: seq<Entry>, key: Bytes, output: Value): (n: int) {
    match Get(entries, key)
    case Some(existing) => size - CanonicalLen(existing) + CanonicalLen(output)
    case None => size + (KeyTokenLen(key) + 1 + CanonicalLen(output)) + (if entries == [] then 0 else 1)
  }

  /** The delta is exact: the count stays the length of the whole serialised state, and the subtraction
      for an overwritten value never goes below zero. */
  lemma DeltaIsExact(entries: seq<Entry>, key: Bytes, output: Value)
    ensures var size := CanonicalLen(Object(entries));
            && (Get(entries, key).Some? ==> CanonicalLen(Get(entries, key).value) <= size)
            && NewSize(size, entries, key, output) == CanonicalLen(Object(Insert(entries, key, output)))
  {
    var i := Find(entries, key);
    if i < |entries| {
      RenderOverwrite(entries, i, output);
    } else {
      RenderAppend(entries, Entry(key, output));
    }
  }

  // ---------- The builder ----------

  /** What a merge makes of the state; it is all there is to a merge. */
  function Merged(state: seq<Entry>, cap: nat, key: Bytes, output: Value): (r: Result<seq<Entry>, MergeError>) {
    if 1 + Height(output) > JSON_DEPTH_MAX then Err(JsonTooDeep)
    else if CanonicalLen(Object(Insert(state, key, output))) > cap then Err(StateCapExceeded)
    else Ok(Insert(state, key, output))
  }

  class StateBuilder {
    var state: Value
    var sizeBytes: nat
    var capBytes: nat

    /** The state is an object, and the running count is the length of its whole serialisation. */
    ghost predicate Valid()
      reads this
    {
      && state.Object?
      && DistinctKeys(state.entries)
      && sizeBytes == CanonicalLen(state)
      && capBytes <= STATE_SIZE_MAX_BYTES
    }

    /** Start from a seeded state; a configured cap can lower the ceiling but not raise it. */
    constructor FromStateWithCap(seed: Value, cap: nat)
      requires seed.Object? && DistinctKeys(seed.entries)
      ensures Valid() && state == seed
      ensures capBytes == if cap < STATE_SIZE_MAX_BYTES then cap else STATE_SIZE_MAX_BYTES
    {
      state := seed;
      sizeBytes := CanonicalLen(seed);
      capBytes := Min(cap, STATE_SIZE_MAX_BYTES);
    }

    /** Start from the empty state. */
    constructor WithCap(cap: nat)
      ensures Valid() && state == Object([]) && sizeBytes == 2
      ensures capBytes == if cap < STATE_SIZE_MAX_BYTES then cap else STATE_SIZE_MAX_BYTES
    {
      state := Object([]);
      sizeBytes := CanonicalLen(Object([]));
      capBytes := Min(cap, STATE_SIZE_MAX_BYTES);
    }

    /** Merge `output` under `key`.  A rejected merge changes nothing. */
    method Merge(key: Bytes, output: Value) returns (r: Result<(), MergeError>)
      requires Valid() && key != ""
      modifies this`state, this`sizeBytes
      ensures Valid()
      ensures match Merged(old(state.entries), capBytes, key, output)
              case Ok(entries) => r == Ok(()) && state == Object(entries) && sizeBytes <= capBytes
              case Err(e) => r == Err(e) && state == old(state) && sizeBytes == old(sizeBytes)
      ensures r == Err(JsonTooDeep) <==> 1 + Height(output) > JSON_DEPTH_MAX
      ensures r.Ok? <==>
                && 1 + Height(output) <= JSON_DEPTH_MAX
                && |Render(Object(Insert(old(state.entries), key, output)))| <= capBytes
      ensures r.Ok? ==> Get(state.entries, key) == Some(output)
      ensures forall other | other != key :: Get(state.entries, other) == Get(old(state.entries), other)
    {
      var shallow := CheckMergeDepth(output);
      if !shallow {
        return Err(JsonTooDeep);
      }
      var entries := state.entries;
      var valueLen := CanonicalLen(output);
      DeltaIsExact(entries, key, output);
      var newSize: nat;
      match Get(entries, key) {
        case Some(existing) =>
          var oldLen := CanonicalLen(existing);
          assert oldLen <= sizeBytes;
          newSize := sizeBytes - oldLen + valueLen;
        case None =>
          var element := KeyTokenLen(key) + 1 + valueLen;
          var separator := if entries == [] then 0 else 1;
          newSize := sizeBytes + element + separator;
      }
      if newSize > capBytes {
        return Err(StateCapExceeded);
      }
      forall other: Bytes
        ensures Get(Insert(entries, key, output), other) == if other == key then Some(output) else Get(entries, other)
      {
        InsertThenGet(entries, key, output, other);
      }
      state := Object(Insert(entries, key, output));
      sizeBytes := newSize;
      r := Ok(());
    }
  }

  // ---------- Whole sequences of merges ----------

  datatype MergeCall = MergeCall(key: Bytes, output: Value)

  /** The state after a sequence of merges, rejected ones skipped. */
  function AfterMerges(state: seq<Entry>, cap: nat, calls: seq<MergeCall>): (r: seq<Entry>) {
    if calls == [] then state
    else
      var before := AfterMerges(state, cap, calls[..|calls| - 1]);
      var call := calls[|calls| - 1];
      match Merged(before, cap, call.key, call.output)
      case Ok(after) => after
      case Err(_) => before
  }

  /** Whether call number `i` of the sequence was accepted. */
  predicate Accepted(state: seq<Entry>, cap: nat, calls: seq<MergeCall>, i: nat)
    requires i < |calls|
  {
    Merged(AfterMerges(state, cap, calls[..i]), cap, calls[i].key, calls[i].output).Ok?
  }

  /** No accepted call after `i` writes the key of call `i`. */
  predicate IsLastWrite(state: seq<Entry>, cap: nat, calls: seq<MergeCall>, i: nat)
    requires i < |calls|
  {
    Accepted(state, cap, calls, i)
    && forall j | i < j < |calls| :: calls[j].key == calls[i].key ==> !Accepted(state, cap, calls, j)
  }

  lemma InsertThenGet(entries: seq<Entry>, key: Bytes, value: Value, other: Bytes)
    requires DistinctKeys(entries)
    ensures Get(Insert(entries, key, value), other) == if other == key then Some(value) else Get(entries, other)
  {
    var r := Insert(entries, key, value);
    var i, k := Find(entries, other), Find(r, other);
    if i < |entries| {
      assert r[i].key == other;
    } else if other == key {
      assert r[|entries|].key == key;
    }
  }

  /** The prefix of a sequence accepts the same calls. */
  lemma PrefixAccepts(state: seq<Entry>, cap: nat, calls: seq<MergeCall>, i: nat)
    requires i < |calls| - 1
    ensures Accepted(state, cap, calls[..|calls| - 1], i) == Accepted(state, cap, calls, i)
  {
    assert calls[..|calls| - 1][..i] == calls[..i];
  }

  lemma {:induction false} MergesKeepKeysDistinct(state: seq<Entry>, cap: nat, calls: seq<MergeCall>)
    requires DistinctKeys(state)
    ensures DistinctKeys(AfterMerges(state, cap, calls))
    decreases |calls|
  {
    if calls != [] {
      MergesKeepKeysDistinct(state, cap, calls[..|calls| - 1]);
    }
  }

  /** The state is within the cap from the start, or from its first accepted merge on. */
  lemma {:induction false} MergesKeepCap(state: seq<Entry>, cap: nat, calls: seq<MergeCall>)
    requires CanonicalLen(Object(state)) <= cap || exists i | 0 <= i < |calls| :: Accepted(state, cap, calls, i)
    ensures CanonicalLen(Object(AfterMerges(state, cap, calls))) <= cap
    decreases |calls|
  {
    if calls != [] {
      var last := |calls| - 1;
      if !Accepted(state, cap, calls, last) {
        if CanonicalLen(Object(state)) > cap {
          var i :| 0 <= i < |calls| && Accepted(state, cap, calls, i);
          PrefixAccepts(state, cap, calls, i);
          assert Accepted(state, cap, calls[..last], i);
        }
        MergesKeepCap(state, cap, calls[..last]);
      }
    }
  }

  /** After any sequence of merges, mixing inserts, overwrites and rejections, each key holds the output
      of its last accepted merge. */
  lemma {:induction false} LastWriteWins(state: seq<Entry>, cap: nat, calls: seq<MergeCall>, i: nat)
    requires DistinctKeys(state) && i < |calls| && IsLastWrite(state, cap, calls, i)
    ensures Get(AfterMerges(state, cap, calls), calls[i].key) == Some(calls[i].output)
    decreases |calls|
  {
    var last := |calls| - 1;
    var prefix := calls[..last];
    MergesKeepKeysDistinct(state, cap, prefix);
    if i < last {
      PrefixLastWrite(state, cap, calls, i);
      LastWriteWins(state, cap, prefix, i);
      assert Get(AfterMerges(state, cap, prefix), calls[i].key) == Some(calls[i].output);
    }
    if Accepted(state, cap, calls, last) {
      InsertThenGet(AfterMerges(state, cap, prefix), calls[last].key, calls[last].output, calls[i].key);
    }
  }

  lemma PrefixLastWrite(state: seq<Entry>, cap: nat, calls: seq<MergeCall>, i: nat)
    requires i < |calls| - 1 && IsLastWrite(state, cap, calls, i)
    ensures IsLastWrite(state, cap, calls[..|calls| - 1], i)
    ensures Accepted(state, cap, calls, |calls| - 1) ==> calls[|calls| - 1].key != calls[i].key
  {
    var prefix := calls[..|calls| - 1];
    PrefixAccepts(state, cap, calls, i);
    forall j | i < j < |prefix| && prefix[j].key == prefix[i].key
      ensures !Accepted(state, cap, prefix, j)
    {
      PrefixAccepts(state, cap, calls, j);
      assert calls[j].key == calls[i].key;
    }
  }
}
