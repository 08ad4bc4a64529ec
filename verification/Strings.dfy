/** Substring search, as `str::contains` and `str::find` define it. */
module Strings {
  import opened Wrappers
  import opened Utf8

  predicate MatchesAt(p: Bytes, s: Bytes, i: nat) {
    i + |p| <= |s| && forall k | 0 <= k < |p| :: s[i + k] == p[k]
  }

  predicate Occurs(p: Bytes, s: Bytes) {
    exists i | 0 <= i <= |s| :: MatchesAt(p, s, i)
  }

  /** `str::find`: the first place where `p` occurs. */
  function FindText(p: Bytes, s: Bytes): (at: Option<nat>)
    ensures at.Some? ==> at.value + |p| <= |s|
  {
    FindTextFrom(p, s, 0)
  }

  function FindTextFrom(p: Bytes, s: Bytes, i: nat): (at: Option<nat>)
    requires i <= |s|
    ensures at.Some? ==> at.value + |p| <= |s|
    decreases |s| - i
  {
    if MatchesAt(p, s, i) then Some(i) else if i == |s| then None else FindTextFrom(p, s, i + 1)
  }

  lemma {:induction false} FirstPlaceFrom(p: Bytes, s: Bytes, i: nat)
    requires i <= |s| && forall k | 0 <= k < i :: !MatchesAt(p, s, k)
    ensures var at := FindTextFrom(p, s, i);
            && (at.Some? ==> MatchesAt(p, s, at.value) && forall k | 0 <= k < at.value :: !MatchesAt(p, s, k))
            && (at.None? <==> !Occurs(p, s))
    decreases |s| - i
  {
    if !MatchesAt(p, s, i) && i < |s| {
      FirstPlaceFrom(p, s, i + 1);
    }
  }

  /** What is found is the first occurrence, and nothing is found exactly when there is none. */
  lemma FirstPlace(p: Bytes, s: Bytes)
    ensures var at := FindText(p, s);
            && (at.Some? ==> MatchesAt(p, s, at.value) && forall k | 0 <= k < at.value :: !MatchesAt(p, s, k))
            && (at.None? <==> !Occurs(p, s))
  {
    FirstPlaceFrom(p, s, 0);
  }

  lemma FoundAt(p: Bytes, s: Bytes, i: nat)
    requires MatchesAt(p, s, i) && forall k | 0 <= k < i :: !MatchesAt(p, s, k)
    ensures FindText(p, s) == Some(i)
  {
    FirstPlace(p, s);
  }

  lemma OccursInTail(p: Bytes, s: Bytes, k: nat)
    requires k <= |s| && Occurs(p, s[k..])
    ensures Occurs(p, s)
  {
    var i :| 0 <= i <= |s[k..]| && MatchesAt(p, s[k..], i);
    forall m | 0 <= m < |p|
      ensures s[k + i + m] == p[m]
    {
      assert s[k..][i + m] == p[m];
    }
    assert MatchesAt(p, s, k + i);
  }

  /** An occurrence is at the front or in the tail. */
  lemma OccursInTailOrFront(p: Bytes, s: Bytes)
    requires s != [] && Occurs(p, s)
    ensures p <= s || Occurs(p, s[1..])
  {
    var i :| 0 <= i <= |s| && MatchesAt(p, s, i);
    if i == 0 {
      assert forall m | 0 <= m < |p| :: s[0 + m] == p[m];
    } else {
      MatchesInTail(p, s, i, 1);
    }
  }

  lemma MatchesInTail(p: Bytes, s: Bytes, i: nat, k: nat)
    requires k <= i && MatchesAt(p, s, i)
    ensures MatchesAt(p, s[k..], i - k) && Occurs(p, s[k..])
  {
    forall m | 0 <= m < |p|
      ensures s[k..][i - k + m] == p[m]
    {
      assert s[i + m] == p[m];
    }
  }

  lemma OccursHere(p: Bytes, s: Bytes)
    requires p <= s
    ensures Occurs(p, s)
  {
    assert MatchesAt(p, s, 0);
  }

  lemma OccursTransitive(p: Bytes, q: Bytes, s: Bytes)
    requires Occurs(p, q) && Occurs(q, s)
    ensures Occurs(p, s)
  {
    var i :| 0 <= i <= |q| && MatchesAt(p, q, i);
    var j :| 0 <= j <= |s| && MatchesAt(q, s, j);
    forall m | 0 <= m < |p|
      ensures s[j + i + m] == p[m]
    {
      assert s[j + (i + m)] == q[i + m] == p[m];
    }
    assert MatchesAt(p, s, j + i);
  }
}
