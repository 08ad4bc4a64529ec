/** The equality and subset relations of the matcher engine (crates/tmx-core/src/matcher.rs) and of the
    expression evaluator (crates/tmx-core/src/interpolate.rs) on JSON values. */
module Matcher {
  import opened Wrappers
  import opened Utf8
  import opened Json

  // ---------- The relations ----------

  /** `Object.is`: scalars by value, a negative zero apart from a positive one; compounds never. */
  predicate SameValue(a: Value, b: Value) {
    match (a, b)
    case (Null, Null) => true
    case (Bool(x), Bool(y)) => x == y
    case (String(x), String(y)) => x == y
    case (Number(x), Number(y)) =>
      if x.value == 0.0 && y.value == 0.0 then x.negativeZero == y.negativeZero else x.value == y.value
    case _ => false
  }

  /** `===`: scalars by value; compounds never. */
  predicate StrictEq(a: Value, b: Value) {
    match (a, b)
    case (Null, Null) => true
    case (Bool(x), Bool(y)) => x == y
    case (String(x), String(y)) => x == y
    case (Number(x), Number(y)) => x.value == y.value
    case _ => false
  }

  /** Structural equality (`toEqual`). */
  predicate DeepEqual(a: Value, b: Value)
    decreases a
  {
    match a
    case Null => b.Null?
    case Bool(x) => b.Bool? && x == b.b
    case String(x) => b.String? && x == b.s
    case Number(x) => b.Number? && x.value == b.n.value
    case Array(x) => b.Array? && |x| == |b.items| && forall i | 0 <= i < |x| :: DeepEqual(x[i], b.items[i])
    case Object(x) => b.Object? && |x| == |b.entries| && forall i | 0 <= i < |x| ::
                        Get(b.entries, x[i].key).Some? && DeepEqual(x[i].value, Get(b.entries, x[i].key).value)
  }

  /** The evaluator's `===`, a separate routine that compares compounds structurally. */
  predicate ExprStrictEq(a: Value, b: Value)
    decreases a
  {
    match (a, b)
    case (Null, Null) => true
    case (Bool(x), Bool(y)) => x == y
    case (Number(x), Number(y)) => x.value == y.value
    case (String(x), String(y)) => x == y
    case (Array(x), Array(y)) => |x| == |y| && ZipStrictEq(x, y)
    case (Object(x), Object(y)) => |x| == |y| && EntriesStrictEq(x, y)
    case _ => false
  }

  predicate ZipStrictEq(x: seq<Value>, y: seq<Value>)
    decreases x
  {
    x == [] || y == [] || (ExprStrictEq(x[0], y[0]) && ZipStrictEq(x[1..], y[1..]))
  }

  predicate EntriesStrictEq(x: seq<Entry>, y: seq<Entry>)
    decreases x
  {
    x == [] || (EntryStrictEq(x[0], y) && EntriesStrictEq(x[1..], y))
  }

  predicate EntryStrictEq(e: Entry, y: seq<Entry>)
    decreases e
  {
    Get(y, e.key).Some? && ExprStrictEq(e.value, Get(y, e.key).value)
  }

  /** `toMatchObject`: `actual` contains `expected`. */
  predicate MatchesObject(actual: Value, expected: Value)
    decreases expected
  {
    match expected
    case Object(want) => actual.Object? && forall i | 0 <= i < |want| ::
                           Get(actual.entries, want[i].key).Some? && MatchesObject(Get(actual.entries, want[i].key).value, want[i].value)
    case Array(want) =>
      actual.Array? && |want| == |actual.items| && forall i | 0 <= i < |want| :: MatchesObject(actual.items[i], want[i])
    case _ => DeepEqual(actual, expected)
  }

  // ---------- Keys ----------

  function Keys(entries: seq<Entry>): (ks: set<Bytes>)
    ensures forall k :: k in ks <==> exists i :: 0 <= i < |entries| && entries[i].key == k
  {
    set i | 0 <= i < |entries| :: entries[i].key
  }

  lemma GetAt(entries: seq<Entry>, i: nat)
    requires DistinctKeys(entries) && i < |entries|
    ensures Get(entries, entries[i].key) == Some(entries[i].value)
  {
    var k := Find(entries, entries[i].key);
  }

  lemma GetPast(before: seq<Entry>, key: Bytes, v: Value, after: seq<Entry>)
    requires forall e | e in before :: e.key != key
    ensures Get(before + [Entry(key, v)] + after, key) == Some(v)
  {
    var entries := before + [Entry(key, v)] + after;
    forall k | 0 <= k < |before|
      ensures entries[k].key != key
    {
      assert entries[k] == before[k] && before[k] in before;
    }
    assert entries[|before|] == Entry(key, v) && entries[|before|] in entries;
  }

  lemma GetHas(entries: seq<Entry>, key: Bytes)
    ensures Get(entries, key).Some? <==> key in Keys(entries)
    ensures Get(entries, key).Some? ==>
              var i := Find(entries, key); i < |entries| && entries[i] == Entry(key, Get(entries, key).value)
  {
  }

  lemma {:induction false} KeyCount(entries: seq<Entry>)
    requires DistinctKeys(entries)
    ensures |Keys(entries)| == |entries|
    decreases entries
  {
    if entries != [] {
      KeyCount(entries[1..]);
      var k := entries[0].key;
      assert k !in Keys(entries[1..]);
      assert Keys(entries) == Keys(entries[1..]) + {k} by {
        forall x
          ensures x in Keys(entries) <==> x in Keys(entries[1..]) + {k}
        {
          if i :| 0 <= i < |entries| && entries[i].key == x {
            if i > 0 {
              assert entries[1..][i - 1].key == x;
            }
          }
          if i :| 0 <= i < |entries[1..]| && entries[1..][i].key == x {
            assert entries[i + 1].key == x;
          }
        }
      }
    }
  }

  /** A subset of keys of the same size is all the keys. */
  lemma SameSizeSameKeys(x: seq<Entry>, y: seq<Entry>)
    requires DistinctKeys(x) && DistinctKeys(y) && |x| == |y| && Keys(x) <= Keys(y)
    ensures Keys(x) == Keys(y)
  {
    KeyCount(x);
    KeyCount(y);
    SubsetSameSize(Keys(x), Keys(y));
  }

  lemma SubsetSameSize(a: set<Bytes>, b: set<Bytes>)
    requires a <= b && |a| == |b|
    ensures a == b
  {
    assert |b - a| == |b| - |a|;
  }

  /** The values of well-formed compounds are well-formed. */
  lemma EntryWellFormed(entries: seq<Entry>, i: nat)
    requires WellFormed(Object(entries)) && i < |entries|
    ensures WellFormed(entries[i].value)
  {
    assert entries[i] in entries;
  }

  // ---------- Equivalence ----------

  lemma {:induction false} DeepEqualReflexive(a: Value)
    requires WellFormed(a)
    ensures DeepEqual(a, a)
    decreases a
  {
    match a
    case Array(x) =>
      forall i | 0 <= i < |x|
        ensures DeepEqual(x[i], x[i])
      {
        DeepEqualReflexive(x[i]);
      }
    case Object(x) =>
      forall i | 0 <= i < |x|
        ensures Get(x, x[i].key) == Some(x[i].value) && DeepEqual(x[i].value, x[i].value)
      {
        GetAt(x, i);
        EntryWellFormed(x, i);
        DeepEqualReflexive(x[i].value);
      }
    case _ =>
  }

  lemma KeysIncluded(x: seq<Entry>, y: seq<Entry>)
    requires forall i | 0 <= i < |x| :: Get(y, x[i].key).Some?
    ensures Keys(x) <= Keys(y)
  {
    forall k | k in Keys(x)
      ensures k in Keys(y)
    {
      var i :| 0 <= i < |x| && x[i].key == k;
      GetHas(y, x[i].key);
    }
  }

  lemma {:induction false} DeepEqualSymmetric(a: Value, b: Value)
    requires WellFormed(a) && WellFormed(b) && DeepEqual(a, b)
    ensures DeepEqual(b, a)
    decreases a
  {
    match a
    case Array(x) =>
      forall i | 0 <= i < |x|
        ensures DeepEqual(b.items[i], x[i])
      {
        DeepEqualSymmetric(x[i], b.items[i]);
      }
    case Object(x) =>
      var y := b.entries;
      KeysIncluded(x, y);
      SameSizeSameKeys(x, y);
      forall j | 0 <= j < |y|
        ensures Get(x, y[j].key).Some? && DeepEqual(y[j].value, Get(x, y[j].key).value)
      {
        GetHas(x, y[j].key);
        var i := Find(x, y[j].key);
        GetAt(y, j);
        EntryWellFormed(x, i);
        EntryWellFormed(y, j);
        DeepEqualSymmetric(x[i].value, y[j].value);
      }
    case _ =>
  }

  lemma {:induction false} DeepEqualTransitive(a: Value, b: Value, c: Value)
    requires DeepEqual(a, b) && DeepEqual(b, c)
    ensures DeepEqual(a, c)
    decreases a
  {
    match a
    case Array(x) =>
      forall i | 0 <= i < |x|
        ensures DeepEqual(x[i], c.items[i])
      {
        DeepEqualTransitive(x[i], b.items[i], c.items[i]);
      }
    case Object(x) =>
      var y, z := b.entries, c.entries;
      forall i | 0 <= i < |x|
        ensures Get(z, x[i].key).Some? && DeepEqual(x[i].value, Get(z, x[i].key).value)
      {
        GetHas(y, x[i].key);
        var j := Find(y, x[i].key);
        assert y[j].key == x[i].key;
        DeepEqualTransitive(x[i].value, y[j].value, Get(z, y[j].key).value);
      }
    case _ =>
  }

  // ---------- The subset relation ----------

  /** Equality is the strongest match. */
  lemma {:induction false} EqualMatches(a: Value, b: Value)
    requires WellFormed(a) && WellFormed(b) && DeepEqual(a, b)
    ensures MatchesObject(a, b)
    decreases b
  {
    match b
    case Array(y) =>
      forall i | 0 <= i < |y|
        ensures MatchesObject(a.items[i], y[i])
      {
        EqualMatches(a.items[i], y[i]);
      }
    case Object(y) =>
      DeepEqualSymmetric(a, b);
      var x := a.entries;
      forall j | 0 <= j < |y|
        ensures Get(x, y[j].key).Some? && MatchesObject(Get(x, y[j].key).value, y[j].value)
      {
        GetHas(x, y[j].key);
        var i := Find(x, y[j].key);
        EntryWellFormed(x, i);
        EntryWellFormed(y, j);
        DeepEqualSymmetric(y[j].value, x[i].value);
        EqualMatches(x[i].value, y[j].value);
      }
    case _ =>
  }

  lemma MatchesReflexive(a: Value)
    requires WellFormed(a)
    ensures MatchesObject(a, a)
  {
    DeepEqualReflexive(a);
    EqualMatches(a, a);
  }

  lemma {:induction false} MatchesTransitive(a: Value, b: Value, c: Value)
    requires MatchesObject(a, b) && MatchesObject(b, c)
    ensures MatchesObject(a, c)
    decreases c
  {
    match c
    case Array(z) =>
      forall i | 0 <= i < |z|
        ensures MatchesObject(a.items[i], z[i])
      {
        MatchesTransitive(a.items[i], b.items[i], z[i]);
      }
    case Object(z) =>
      var x, y := a.entries, b.entries;
      forall k | 0 <= k < |z|
        ensures Get(x, z[k].key).Some? && MatchesObject(Get(x, z[k].key).value, z[k].value)
      {
        GetHas(y, z[k].key);
        var j := Find(y, z[k].key);
        assert y[j].key == z[k].key;
        MatchesTransitive(Get(x, y[j].key).value, y[j].value, z[k].value);
      }
    case _ =>
      if !b.Array? && !b.Object? {
        DeepEqualTransitive(a, b, c);
      }
  }

  /** Two values match each other exactly when they are equal. */
  lemma {:induction false} MutualMatchIsEqual(a: Value, b: Value)
    requires WellFormed(a) && WellFormed(b)
    ensures MatchesObject(a, b) && MatchesObject(b, a) <==> DeepEqual(a, b)
  {
    if MatchesObject(a, b) && MatchesObject(b, a) {
      MutualMatchGivesEqual(a, b);
    }
    if DeepEqual(a, b) {
      DeepEqualSymmetric(a, b);
      EqualMatches(a, b);
      EqualMatches(b, a);
    }
  }

  lemma {:induction false} MutualMatchGivesEqual(a: Value, b: Value)
    requires WellFormed(a) && WellFormed(b) && MatchesObject(a, b) && MatchesObject(b, a)
    ensures DeepEqual(a, b)
    decreases a
  {
    match a
    case Array(x) =>
      forall i | 0 <= i < |x|
        ensures DeepEqual(x[i], b.items[i])
      {
        MutualMatchGivesEqual(x[i], b.items[i]);
      }
    case Object(x) =>
      var y := b.entries;
      KeysIncluded(x, y);
      KeysIncluded(y, x);
      KeyCount(x);
      KeyCount(y);
      assert Keys(x) == Keys(y);
      forall i | 0 <= i < |x|
        ensures Get(y, x[i].key).Some? && DeepEqual(x[i].value, Get(y, x[i].key).value)
      {
        GetHas(y, x[i].key);
        var j := Find(y, x[i].key);
        GetAt(x, i);
        assert y[j].key == x[i].key;
        EntryWellFormed(x, i);
        EntryWellFormed(y, j);
        MutualMatchGivesEqual(x[i].value, y[j].value);
      }
    case _ =>
  }

  // ---------- How the relations compare ----------

  // ---------- Containment is equality after deleting entries ----------

  /** `d` is `a` with some object entries deleted, at any depth. */
  predicate IsPart(d: Value, a: Value)
    decreases a, 0
  {
    match a
    case Array(x) => d.Array? && ArePartItems(d.items, x)
    case Object(x) => d.Object? && ArePartEntries(d.entries, x)
    case _ => d == a
  }

  predicate ArePartItems(ds: seq<Value>, x: seq<Value>)
    decreases x, 1
  {
    if x == [] then ds == [] else ds != [] && IsPart(ds[0], x[0]) && ArePartItems(ds[1..], x[1..])
  }

  /** Each entry of `x` is deleted, or kept with a part of its value. */
  predicate ArePartEntries(ds: seq<Entry>, x: seq<Entry>)
    decreases x, 1
  {
    if x == [] then ds == []
    else ArePartEntries(ds, x[1..]) || (ds != [] && IsPartEntry(ds[0], x[0]) && ArePartEntries(ds[1..], x[1..]))
  }

  predicate IsPartEntry(d: Entry, e: Entry)
    decreases e, 1
  {
    d.key == e.key && IsPart(d.value, e.value)
  }

  /** A value matches every part of itself. */
  lemma {:induction false} PartsAreMatched(d: Value, a: Value)
    requires WellFormed(a) && IsPart(d, a)
    ensures WellFormed(d) && MatchesObject(a, d)
    decreases a, 0
  {
    match a
    case Array(x) => PartItemsAreMatched(d.items, x);
    case Object(x) =>
      PartEntriesAreMatched(d.entries, x);
      forall i | 0 <= i < |d.entries|
        ensures Get(x, d.entries[i].key).Some? && MatchesObject(Get(x, d.entries[i].key).value, d.entries[i].value)
      {
        assert IsKeptFrom(d.entries[i], x);
        var j :| 0 <= j < |x| && Keeps(x[j], d.entries[i]);
        GetAt(x, j);
      }
    case _ => DeepEqualReflexive(a);
  }

  lemma {:induction false} PartItemsAreMatched(ds: seq<Value>, x: seq<Value>)
    requires (forall v | v in x :: WellFormed(v)) && ArePartItems(ds, x)
    ensures |ds| == |x| && forall i | 0 <= i < |x| :: WellFormed(ds[i]) && MatchesObject(x[i], ds[i])
    decreases x, 1
  {
    if x != [] {
      PartsAreMatched(ds[0], x[0]);
      PartItemsAreMatched(ds[1..], x[1..]);
      forall i | 1 <= i < |x|
        ensures WellFormed(ds[i]) && MatchesObject(x[i], ds[i])
      {
        assert ds[i] == ds[1..][i - 1] && x[i] == x[1..][i - 1];
      }
    }
  }

  predicate Keeps(e: Entry, d: Entry) { e.key == d.key && WellFormed(d.value) && MatchesObject(e.value, d.value) }

  predicate IsKeptFrom(d: Entry, x: seq<Entry>) {
    exists j | 0 <= j < |x| :: Keeps(x[j], d)
  }

  lemma KeptFromTail(d: Entry, x: seq<Entry>)
    requires x != [] && IsKeptFrom(d, x[1..])
    ensures IsKeptFrom(d, x) && (DistinctKeys(x) ==> d.key != x[0].key)
  {
    var j :| 0 <= j < |x[1..]| && Keeps(x[1..][j], d);
    assert Keeps(x[j + 1], d);
  }

  lemma {:induction false} PartEntriesAreMatched(ds: seq<Entry>, x: seq<Entry>)
    requires DistinctKeys(x) && (forall e | e in x :: WellFormed(e.value)) && ArePartEntries(ds, x)
    ensures DistinctKeys(ds) && forall i | 0 <= i < |ds| :: IsKeptFrom(ds[i], x)
    decreases x, 1
  {
    if x != [] {
      if ArePartEntries(ds, x[1..]) {
        PartEntriesAreMatched(ds, x[1..]);
        forall i | 0 <= i < |ds|
          ensures IsKeptFrom(ds[i], x)
        {
          KeptFromTail(ds[i], x);
        }
      } else {
        PartEntryIsMatched(ds[0], x[0]);
        PartEntriesAreMatched(ds[1..], x[1..]);
        forall i | 1 <= i < |ds|
          ensures IsKeptFrom(ds[i], x) && ds[i].key != ds[0].key
        {
          assert ds[i] == ds[1..][i - 1];
          KeptFromTail(ds[i], x);
        }
        FirstKeyIsNew(ds);
      }
    }
  }

  lemma FirstKeyIsNew(ds: seq<Entry>)
    requires ds != [] && DistinctKeys(ds[1..]) && forall i | 1 <= i < |ds| :: ds[i].key != ds[0].key
    ensures DistinctKeys(ds)
  {
    forall i, k | 0 <= i < k < |ds|
      ensures ds[i].key != ds[k].key
    {
      if i > 0 {
        assert ds[i] == ds[1..][i - 1] && ds[k] == ds[1..][k - 1];
      }
    }
  }

  lemma {:induction false} PartEntryIsMatched(d: Entry, e: Entry)
    requires WellFormed(e.value) && IsPartEntry(d, e)
    ensures Keeps(e, d)
    decreases e, 1
  {
    PartsAreMatched(d.value, e.value);
  }

  /** What is left of `a` when every key that `e` does not ask for is deleted. */
  function Restrict(a: Value, e: Value): (d: Value)
    decreases a, 0
  {
    match (a, e)
    case (Array(x), Array(want)) => Array(RestrictItems(x, want))
    case (Object(x), Object(want)) => Object(RestrictEntries(x, want))
    case _ => a
  }

  function RestrictItems(x: seq<Value>, want: seq<Value>): (ds: seq<Value>)
    decreases x, 1
  {
    if x == [] || want == [] then [] else [Restrict(x[0], want[0])] + RestrictItems(x[1..], want[1..])
  }

  function RestrictEntries(x: seq<Entry>, want: seq<Entry>): (ds: seq<Entry>)
    decreases x, 1
  {
    if x == [] then [] else RestrictEntry(x[0], want) + RestrictEntries(x[1..], want)
  }

  function RestrictEntry(e: Entry, want: seq<Entry>): (ds: seq<Entry>)
    decreases e, 1
  {
    match Get(want, e.key)
    case None => []
    case Some(w) => [Entry(e.key, Restrict(e.value, w))]
  }

  lemma {:induction false} RestrictionIsEqual(a: Value, e: Value)
    requires WellFormed(a) && WellFormed(e) && MatchesObject(a, e)
    ensures IsPart(Restrict(a, e), a) && DeepEqual(Restrict(a, e), e)
    decreases a, 0
  {
    match e
    case Array(want) => RestrictedItemsAreEqual(a.items, want);
    case Object(want) =>
      var x := a.entries;
      forall i | 0 <= i < |x|
        ensures EntryMatches(x[i], want)
      {
        if Get(want, x[i].key).Some? {
          GetHas(want, x[i].key);
          GetAt(x, i);
        }
      }
      RestrictedEntriesAreEqual(x, want);
      RestrictedCount(x, want);
    case _ =>
  }

  lemma {:induction false} RestrictedItemsAreEqual(x: seq<Value>, want: seq<Value>)
    requires |x| == |want| && (forall v | v in x :: WellFormed(v)) && (forall v | v in want :: WellFormed(v))
    requires forall i | 0 <= i < |x| :: MatchesObject(x[i], want[i])
    ensures var ds := RestrictItems(x, want);
            ArePartItems(ds, x) && |ds| == |x| && forall i | 0 <= i < |x| :: DeepEqual(ds[i], want[i])
    decreases x, 1
  {
    if x != [] {
      RestrictionIsEqual(x[0], want[0]);
      RestrictedItemsAreEqual(x[1..], want[1..]);
      var ds := RestrictItems(x, want);
      assert ds[1..] == RestrictItems(x[1..], want[1..]);
      assert forall i | 1 <= i < |x| :: ds[i] == ds[1..][i - 1] && want[i] == want[1..][i - 1];
    }
  }

  /** The entry is not asked for, or its value matches what is. */
  predicate EntryMatches(e: Entry, want: seq<Entry>) {
    Get(want, e.key).Some? ==> MatchesObject(e.value, Get(want, e.key).value)
  }

  /** The entry is asked for, with an equal value. */
  predicate EntryEquals(d: Entry, want: seq<Entry>) {
    Get(want, d.key).Some? && DeepEqual(d.value, Get(want, d.key).value)
  }

  lemma {:induction false} RestrictedEntriesAreEqual(x: seq<Entry>, want: seq<Entry>)
    requires (forall e | e in x :: WellFormed(e.value)) && WellFormed(Object(want))
    requires forall i | 0 <= i < |x| :: EntryMatches(x[i], want)
    ensures var ds := RestrictEntries(x, want);
            ArePartEntries(ds, x) && forall i | 0 <= i < |ds| :: EntryEquals(ds[i], want)
    decreases x, 1
  {
    if x != [] {
      RestrictedEntryIsEqual(x[0], want);
      RestrictedEntriesAreEqual(x[1..], want);
      var first, rest, ds := RestrictEntry(x[0], want), RestrictEntries(x[1..], want), RestrictEntries(x, want);
      if first == [] {
        assert ds == rest;
      } else {
        assert ds[1..] == rest;
        assert forall i | 1 <= i < |ds| :: ds[i] == rest[i - 1];
      }
    }
  }

  lemma {:induction false} RestrictedEntryIsEqual(e: Entry, want: seq<Entry>)
    requires WellFormed(e.value) && WellFormed(Object(want)) && EntryMatches(e, want)
    ensures Get(want, e.key).Some? ==>
              var d := RestrictEntry(e, want)[0]; IsPartEntry(d, e) && EntryEquals(d, want)
    decreases e, 1
  {
    if Get(want, e.key).Some? {
      var w := Get(want, e.key).value;
      assert Entry(e.key, w) in want;
      RestrictionIsEqual(e.value, w);
    }
  }

  lemma {:induction false} RestrictedKeys(x: seq<Entry>, want: seq<Entry>)
    ensures Keys(RestrictEntries(x, want)) == Keys(x) * Keys(want)
  {
    if x != [] {
      RestrictedKeys(x[1..], want);
      KeysOfCons(x[0], x[1..]);
      assert x == [x[0]] + x[1..];
      GetHas(want, x[0].key);
      var rest := RestrictEntries(x[1..], want);
      if Get(want, x[0].key).Some? {
        KeysOfCons(RestrictEntry(x[0], want)[0], rest);
      } else {
        assert RestrictEntries(x, want) == rest;
      }
    }
  }

  lemma KeysOfCons(e: Entry, rest: seq<Entry>)
    ensures Keys([e] + rest) == {e.key} + Keys(rest)
  {
    var all := [e] + rest;
    forall k
      ensures k in Keys(all) <==> k == e.key || k in Keys(rest)
    {
      if k in Keys(rest) {
        var i :| 0 <= i < |rest| && rest[i].key == k;
        assert all[i + 1].key == k;
      }
      if k == e.key {
        assert all[0].key == k;
      }
      if k in Keys(all) && k != e.key {
        var i :| 0 <= i < |all| && all[i].key == k;
        assert rest[i - 1].key == k;
      }
    }
  }

  /** As many entries are left as are asked for. */
  lemma RestrictedCount(x: seq<Entry>, want: seq<Entry>)
    requires DistinctKeys(x) && DistinctKeys(want) && (forall e | e in x :: WellFormed(e.value))
    requires forall i | 0 <= i < |want| :: Get(x, want[i].key).Some?
    requires ArePartEntries(RestrictEntries(x, want), x)
    ensures |RestrictEntries(x, want)| == |want|
  {
    var ds := RestrictEntries(x, want);
    PartEntriesAreMatched(ds, x);
    RestrictedKeys(x, want);
    KeysIncluded(want, x);
    assert Keys(x) * Keys(want) == Keys(want);
    KeyCount(ds);
    KeyCount(want);
  }

  /** `toMatchObject` holds exactly when deleting some object entries of the actual value, at any depth, leaves
      a value equal to the expected one. */
  lemma MatchIsEqualPart(actual: Value, expected: Value)
    requires WellFormed(actual) && WellFormed(expected)
    ensures MatchesObject(actual, expected) <==> exists d :: IsPart(d, actual) && DeepEqual(d, expected)
  {
    if MatchesObject(actual, expected) {
      RestrictionIsEqual(actual, expected);
      assert IsPart(Restrict(actual, expected), actual) && DeepEqual(Restrict(actual, expected), expected);
    }
    forall d | IsPart(d, actual) && DeepEqual(d, expected)
      ensures MatchesObject(actual, expected)
    {
      PartsAreMatched(d, actual);
      EqualMatches(d, expected);
      MatchesTransitive(actual, d, expected);
    }
  }

  /** `toBe` is finer than `===`, which is finer than `toEqual`, which agrees with `===` on scalars. */
  lemma RelationsNest(a: Value, b: Value)
    ensures SameValue(a, b) ==> StrictEq(a, b)
    ensures StrictEq(a, b) ==> DeepEqual(a, b)
    ensures !a.Array? && !a.Object? ==> (DeepEqual(a, b) <==> StrictEq(a, b))
    ensures StrictEq(a, b) && !SameValue(a, b) <==>
              a.Number? && b.Number? && a.n.value == 0.0 && b.n.value == 0.0 && a.n.negativeZero != b.n.negativeZero
  {
  }

  /** The evaluator's `===` is the matcher's structural equality. */
  lemma {:induction false} ExprStrictEqIsDeepEqual(a: Value, b: Value)
    ensures ExprStrictEq(a, b) <==> DeepEqual(a, b)
    decreases a, 1
  {
    match a
    case Array(x) =>
      if b.Array? && |x| == |b.items| {
        ZipIsElementwise(x, b.items);
      }
    case Object(x) =>
      if b.Object? && |x| == |b.entries| {
        EntriesAreLookups(x, b.entries);
      }
    case _ =>
  }

  lemma {:induction false} ZipIsElementwise(x: seq<Value>, y: seq<Value>)
    requires |x| == |y|
    ensures ZipStrictEq(x, y) <==> forall i | 0 <= i < |x| :: DeepEqual(x[i], y[i])
    decreases x, 1
  {
    if x != [] {
      ExprStrictEqIsDeepEqual(x[0], y[0]);
      ZipIsElementwise(x[1..], y[1..]);
      assert forall i | 1 <= i < |x| :: x[i] == x[1..][i - 1] && y[i] == y[1..][i - 1];
    }
  }

  predicate LooksUp(e: Entry, y: seq<Entry>) {
    Get(y, e.key).Some? && DeepEqual(e.value, Get(y, e.key).value)
  }

  lemma {:induction false} EntriesAreLookups(x: seq<Entry>, y: seq<Entry>)
    ensures EntriesStrictEq(x, y) <==> forall i | 0 <= i < |x| :: LooksUp(x[i], y)
    decreases x, 1
  {
    if x != [] {
      EntryIsLookup(x[0], y);
      EntriesAreLookups(x[1..], y);
      assert forall i | 1 <= i < |x| :: x[i] == x[1..][i - 1];
    }
  }

  lemma {:induction false} EntryIsLookup(e: Entry, y: seq<Entry>)
    ensures EntryStrictEq(e, y) <==> LooksUp(e, y)
    decreases e, 1
  {
    if Get(y, e.key).Some? {
      ExprStrictEqIsDeepEqual(e.value, Get(y, e.key).value);
    }
  }
}
