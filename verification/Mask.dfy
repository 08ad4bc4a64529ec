/** The secret masker (crates/tmx-core/src/mask.rs): repeated find-and-replace over strings, lifted over
    JSON values. */
module Mask {
  import opened Wrappers
  import opened Limits
  import opened Utf8
  import opened Json
  import opened Strings

  const PLACEHOLDER: Bytes := "[REDACTED]"
  const PLACEHOLDER_WORD: Bytes := "REDACTED"

  // ---------- Replacement, as `str::replace` defines it ----------

  /** Replace the occurrences of `p`, found left to right without overlap. */
  function Replace(s: Bytes, p: Bytes, to: Bytes): (r: Bytes)
    requires p != []
    decreases |s|
  {
    if |s| < |p| then s
    else if p <= s then to + Replace(s[|p|..], p, to)
    else [s[0]] + Replace(s[1..], p, to)
  }

  predicate Comparable(a: Bytes, b: Bytes) { a <= b || b <= a }

  /** A placeholder can stand where `p` is under way: some end of `p` and the placeholder agree. */
  predicate RunsInto(p: Bytes) {
    exists k | 0 <= k < |p| :: Comparable(p[k..], PLACEHOLDER)
  }

  /** `p` can start inside a placeholder: some end of the placeholder and `p` agree. */
  predicate RunsOut(p: Bytes) {
    exists j | 0 <= j < |PLACEHOLDER| :: Comparable(PLACEHOLDER[j..], p)
  }

  /** `p` can share a byte with a placeholder. */
  predicate Touches(p: Bytes) { RunsInto(p) || RunsOut(p) }

  lemma SharedPrefix(p: Bytes, a: Bytes, b: Bytes)
    requires p <= a + b
    ensures Comparable(p, a)
  {
    if |p| <= |a| {
      assert p == (a + b)[..|p|] == a[..|p|];
    } else {
      assert a == (a + b)[..|a|] == p[..|a|];
    }
  }

  lemma MatchIsPrefix(p: Bytes, s: Bytes, i: nat)
    requires i <= |s|
    ensures MatchesAt(p, s, i) <==> p <= s[i..]
  {
    if MatchesAt(p, s, i) {
      assert forall m | 0 <= m < |p| :: s[i..][m] == s[i + m] == p[m];
    }
    if p <= s[i..] {
      forall m | 0 <= m < |p|
        ensures s[i + m] == p[m]
      {
        assert s[i..][m] == s[i + m];
      }
    }
  }

  lemma RunsIntoTail(p: Bytes)
    requires p != [] && !RunsInto(p)
    ensures !RunsInto(p[1..]) && !Comparable(p, PLACEHOLDER)
  {
    forall k | 0 <= k < |p[1..]|
      ensures !Comparable(p[1..][k..], PLACEHOLDER)
    {
      assert p[1..][k..] == p[k + 1..];
    }
    assert p[0..] == p;
  }

  /** A prefix of the replaced text that runs into no placeholder was a prefix of the text. */
  lemma {:induction false} PrefixSurvives(p: Bytes, s: Bytes, q: Bytes)
    requires p != [] && q != [] && !RunsInto(p) && p <= Replace(s, q, PLACEHOLDER)
    ensures p <= s && (|s| < |q| || !(q <= s))
    decreases |s|
  {
    if |s| >= |q| {
      RunsIntoTail(p);
      if q <= s {
        SharedPrefix(p, PLACEHOLDER, Replace(s[|q|..], q, PLACEHOLDER));
        assert false;
      } else {
        var r, r' := Replace(s, q, PLACEHOLDER), Replace(s[1..], q, PLACEHOLDER);
        assert p[0] == r[0];
        if |p| > 1 {
          assert r[1..] == r' && p[1..] <= r';
          PrefixSurvives(p[1..], s[1..], q);
        }
        assert p == [p[0]] + p[1..] && s == [s[0]] + s[1..];
      }
    }
  }

  /** An occurrence in the replaced text that touches no placeholder lies in the text, and not as `q`. */
  lemma {:induction false} OccurrenceSurvives(p: Bytes, s: Bytes, q: Bytes)
    requires p != [] && q != [] && !Touches(p) && Occurs(p, Replace(s, q, PLACEHOLDER))
    ensures Occurs(p, s) && p != q
    decreases |s|
  {
    var r := Replace(s, q, PLACEHOLDER);
    var i :| 0 <= i <= |r| && MatchesAt(p, r, i);
    if |s| < |q| {
    } else if q <= s {
      var rest := Replace(s[|q|..], q, PLACEHOLDER);
      if i < |PLACEHOLDER| {
        StartsInPlaceholder(p, rest, i);
        assert false;
      }
      MatchesInTail(p, r, i, |PLACEHOLDER|);
      assert r[|PLACEHOLDER|..] == rest;
      OccurrenceSurvives(p, s[|q|..], q);
      OccursInTail(p, s, |q|);
    } else if i == 0 {
      MatchIsPrefix(p, r, 0);
      assert r[0..] == r;
      PrefixSurvives(p, s, q);
      OccursHere(p, s);
    } else {
      MatchesInTail(p, r, i, 1);
      assert r[1..] == Replace(s[1..], q, PLACEHOLDER);
      OccurrenceSurvives(p, s[1..], q);
      OccursInTail(p, s, 1);
    }
  }

  lemma StartsInPlaceholder(p: Bytes, rest: Bytes, i: nat)
    requires i < |PLACEHOLDER| && MatchesAt(p, PLACEHOLDER + rest, i)
    ensures RunsOut(p)
  {
    MatchIsPrefix(p, PLACEHOLDER + rest, i);
    assert (PLACEHOLDER + rest)[i..] == PLACEHOLDER[i..] + rest;
    SharedPrefix(p, PLACEHOLDER[i..], rest);
  }

  /** A replacement that hits leaves a placeholder; one that misses changes nothing. */
  lemma {:induction false} ReplaceHitsOrMisses(s: Bytes, q: Bytes)
    requires q != []
    ensures Occurs(q, s) ==> Occurs(PLACEHOLDER, Replace(s, q, PLACEHOLDER))
    ensures !Occurs(q, s) ==> Replace(s, q, PLACEHOLDER) == s
    decreases |s|
  {
    var r := Replace(s, q, PLACEHOLDER);
    if |s| >= |q| {
      if q <= s {
        OccursHere(q, s);
        OccursHere(PLACEHOLDER, r);
      } else {
        ReplaceHitsOrMisses(s[1..], q);
        assert r[1..] == Replace(s[1..], q, PLACEHOLDER);
        if Occurs(q, s) {
          OccursInTailOrFront(q, s);
          OccursInTail(PLACEHOLDER, r, 1);
        } else {
          if Occurs(q, s[1..]) {
            OccursInTail(q, s, 1);
          }
          assert s == [s[0]] + s[1..];
        }
      }
    }
  }

  // ---------- The registry ----------

  /** Sorted by length, longest first. */
  predicate LongestFirst(secrets: seq<Bytes>) {
    forall i, j | 0 <= i < j < |secrets| :: |secrets[i]| >= |secrets[j]|
  }

  predicate NoDuplicates(secrets: seq<Bytes>) {
    forall i, j | 0 <= i < j < |secrets| :: secrets[i] != secrets[j]
  }

  /** The two buckets of a masker. */
  datatype Registry = Registry(substring: seq<Bytes>, exact: seq<Bytes>)
  {
    predicate Valid() {
      && (forall p | p in substring :: |p| >= MASK_SCAN_LEN_MIN_BYTES)
      && (forall p | p in exact :: 0 < |p| < MASK_SCAN_LEN_MIN_BYTES)
      && LongestFirst(substring)
      && NoDuplicates(substring) && NoDuplicates(exact)
    }

    predicate Contains(secret: Bytes) { secret in substring || secret in exact }
  }

  // ---------- Scrubbing ----------

  /** The substring scan with `secrets` in order. */
  function ScrubAll(current: Bytes, secrets: seq<Bytes>): (r: Bytes)
    requires forall p | p in secrets :: |p| > 0
    decreases |secrets|
  {
    if secrets == [] then current
    else ScrubAll(Replace(current, secrets[0], PLACEHOLDER), secrets[1..])
  }

  predicate Hits(text: Bytes, secrets: seq<Bytes>) {
    exists p | p in secrets :: Occurs(p, text)
  }

  /** The scrubbed form of a string. */
  function Scrub(m: Registry, text: Bytes): (r: Bytes)
    requires m.Valid()
  {
    if text in m.exact then PLACEHOLDER else ScrubAll(text, m.substring)
  }

  /** One secret of the scan; a secret that does not occur changes nothing. */
  lemma ScrubStep(current: Bytes, secrets: seq<Bytes>, i: nat)
    requires i < |secrets| && forall p | p in secrets :: |p| > 0
    ensures ScrubAll(current, secrets[i..])
         == ScrubAll(if Occurs(secrets[i], current) then Replace(current, secrets[i], PLACEHOLDER) else current,
                     secrets[i + 1..])
  {
    assert secrets[i] in secrets;
    assert secrets[i..][0] == secrets[i] && secrets[i..][1..] == secrets[i + 1..];
    ReplaceHitsOrMisses(current, secrets[i]);
  }

  lemma HitsStep(text: Bytes, secrets: seq<Bytes>, i: nat)
    requires i < |secrets|
    ensures Hits(text, secrets[..i + 1]) <==> Hits(text, secrets[..i]) || Occurs(secrets[i], text)
  {
    assert secrets[..i + 1] == secrets[..i] + [secrets[i]];
    if Occurs(secrets[i], text) {
      assert secrets[i] in secrets[..i + 1];
    }
    if Hits(text, secrets[..i]) {
      var p :| p in secrets[..i] && Occurs(p, text);
      assert p in secrets[..i + 1];
    }
  }

  /** Whether scrubbing finds a secret in the string. */
  predicate HasSecret(m: Registry, text: Bytes) {
    text in m.exact || Hits(text, m.substring)
  }

  /** The scrubbed form of a value: strings, and numbers by their text, at any depth; not object keys. */
  function ScrubValue(m: Registry, v: Value): (r: Value)
    requires m.Valid()
    decreases v, 0
  {
    match v
    case String(s) => String(Scrub(m, s))
    case Number(n) => if HasSecret(m, n.text) then String(Scrub(m, n.text)) else v
    case Array(items) => Array(ScrubItems(m, items))
    case Object(entries) => Object(ScrubEntries(m, entries))
    case _ => v
  }

  function ScrubItems(m: Registry, items: seq<Value>): (r: seq<Value>)
    requires m.Valid()
    ensures |r| == |items|
    decreases items, 1
  {
    if items == [] then [] else [ScrubValue(m, items[0])] + ScrubItems(m, items[1..])
  }

  function ScrubEntry(m: Registry, e: Entry): (r: Entry)
    requires m.Valid()
    ensures r.key == e.key
    decreases e, 1
  {
    Entry(e.key, ScrubValue(m, e.value))
  }

  function ScrubEntries(m: Registry, entries: seq<Entry>): (r: seq<Entry>)
    requires m.Valid()
    ensures |r| == |entries| && forall i | 0 <= i < |r| :: r[i].key == entries[i].key
    decreases entries, 1
  {
    if entries == [] then [] else [ScrubEntry(m, entries[0])] + ScrubEntries(m, entries[1..])
  }

  // ---------- The code ----------

  class Masker {
    var substring: seq<Bytes>
    var exact: seq<Bytes>

    ghost predicate Valid()
      reads this
    {
      State().Valid()
    }

    function State(): (m: Registry)
      reads this
    {
      Registry(substring, exact)
    }

    constructor ()
      ensures Valid() && substring == [] && exact == []
    {
      substring, exact := [], [];
    }

    /** Register a secret in the bucket of its length, once; an empty one is ignored. */
    method Register(secret: Bytes)
      requires Valid()
      modifies this
      ensures Valid()
      ensures secret == [] ==> State() == old(State())
      ensures secret != [] ==> State().Contains(secret)
      ensures multiset(substring) == multiset(old(substring))
                + (if |secret| >= MASK_SCAN_LEN_MIN_BYTES && secret !in old(substring) then multiset{secret} else multiset{})
      ensures exact == old(exact)
                + (if 0 < |secret| < MASK_SCAN_LEN_MIN_BYTES && secret !in old(exact) then [secret] else [])
    {
      if secret == [] {
        return;
      }
      if |secret| >= MASK_SCAN_LEN_MIN_BYTES {
        if secret !in substring {
          AppendNew(substring, secret);
          substring := substring + [secret];
        }
      } else if secret !in exact {
        AppendNew(exact, secret);
        exact := exact + [secret];
      }
      substring := SortLongestFirst(substring);
    }

    /** Scrub one string: the exact bucket first, then the substring scan. */
    method ScrubStr(input: Bytes) returns (r: Bytes, changed: bool)
      requires Valid()
      ensures r == Scrub(State(), input)
      ensures changed <==> HasSecret(State(), input)
    {
      if input in exact {
        return PLACEHOLDER, true;
      }
      var current := input;
      changed := false;
      for i := 0 to |substring|
        invariant ScrubAll(input, substring) == ScrubAll(current, substring[i..])
        invariant changed <==> Hits(input, substring[..i])
        invariant !changed ==> current == input
      {
        var secret := substring[i];
        ScrubStep(current, substring, i);
        HitsStep(input, substring, i);
        if Occurs(secret, current) {
          current := Replace(current, secret, PLACEHOLDER);
          changed := true;
        }
      }
      assert substring[..|substring|] == substring;
      r := current;
    }
  }

  /** `sort_unstable_by_key` by falling length: some longest-first order of the same secrets. */
  method SortLongestFirst(secrets: seq<Bytes>) returns (r: seq<Bytes>)
    requires NoDuplicates(secrets)
    ensures LongestFirst(r) && NoDuplicates(r) && multiset(r) == multiset(secrets)
    ensures forall p :: p in r <==> p in secrets
  {
    r := [];
    for n := 0 to |secrets|
      invariant LongestFirst(r) && multiset(r) == multiset(secrets[..n])
    {
      var i := 0;
      while i < |r| && |r[i]| >= |secrets[n]|
        invariant i <= |r|
        invariant forall k | 0 <= k < i :: |r[k]| >= |secrets[n]|
      {
        i := i + 1;
      }
      InsertKeepsOrder(r, i, secrets[n]);
      assert secrets[..n + 1] == secrets[..n] + [secrets[n]];
      r := r[..i] + [secrets[n]] + r[i..];
    }
    assert secrets[..|secrets|] == secrets;
    SameMultisetNoDuplicates(secrets, r);
    assert forall p :: p in r <==> p in multiset(r);
    assert forall p :: p in secrets <==> p in multiset(secrets);
  }

  lemma AppendNew(secrets: seq<Bytes>, secret: Bytes)
    requires NoDuplicates(secrets) && secret !in secrets
    ensures NoDuplicates(secrets + [secret]) && multiset(secrets + [secret]) == multiset(secrets) + multiset{secret}
  {
  }

  lemma InsertKeepsOrder(r: seq<Bytes>, i: nat, x: Bytes)
    requires i <= |r| && LongestFirst(r)
    requires forall k | 0 <= k < i :: |r[k]| >= |x|
    requires i < |r| ==> |r[i]| < |x|
    ensures LongestFirst(r[..i] + [x] + r[i..])
    ensures multiset(r[..i] + [x] + r[i..]) == multiset(r) + multiset{x}
  {
    var s := r[..i] + [x] + r[i..];
    forall j, k | 0 <= j < k < |s|
      ensures |s[j]| >= |s[k]|
    {
      assert s[j] == if j < i then r[j] else if j == i then x else r[j - 1];
      assert s[k] == if k < i then r[k] else if k == i then x else r[k - 1];
      if i < k {
        assert |r[i]| >= |r[k - 1]|;
      }
    }
    InsertKeepsCount(r, i, x);
  }

  lemma InsertKeepsCount(r: seq<Bytes>, i: nat, x: Bytes)
    requires i <= |r|
    ensures multiset(r[..i] + [x] + r[i..]) == multiset(r) + multiset{x}
  {
    assert r == r[..i] + r[i..];
  }

  lemma SameMultisetNoDuplicates(a: seq<Bytes>, b: seq<Bytes>)
    requires NoDuplicates(a) && multiset(a) == multiset(b)
    ensures NoDuplicates(b)
  {
    forall i, j | 0 <= i < j < |b|
      ensures b[i] != b[j]
    {
      assert b == b[..i] + [b[i]] + b[i + 1..j] + [b[j]] + b[j + 1..];
      if b[i] == b[j] {
        assert multiset(b)[b[i]] >= 2;
        CountsOnce(a, b[i]);
      }
    }
  }

  lemma {:induction false} CountsOnce(a: seq<Bytes>, x: Bytes)
    requires NoDuplicates(a)
    ensures multiset(a)[x] <= 1
    decreases a
  {
    if a != [] {
      CountsOnce(a[1..], x);
      assert a == [a[0]] + a[1..];
      if x == a[0] {
        assert x !in a[1..];
        assert multiset(a[1..])[x] == 0;
      }
    }
  }

  // ---------- Main results ----------

  /** After the scan no secret that touches no placeholder occurs, nor any such text that did not occur
      before. */
  lemma {:induction false} ScanLeavesNone(text: Bytes, secrets: seq<Bytes>, p: Bytes)
    requires forall q | q in secrets :: |q| > 0
    requires p != [] && !Touches(p)
    requires p in secrets || !Occurs(p, text)
    ensures !Occurs(p, ScrubAll(text, secrets))
    decreases |secrets|
  {
    if secrets != [] {
      var next := Replace(text, secrets[0], PLACEHOLDER);
      if Occurs(p, next) {
        OccurrenceSurvives(p, text, secrets[0]);
        assert p in secrets[1..];
      }
      ScanLeavesNone(next, secrets[1..], p);
    }
  }

  /** A scan that hits leaves a placeholder, whatever is scanned for after the hit. */
  lemma {:induction false} ScanHitLeavesPlaceholder(text: Bytes, secrets: seq<Bytes>)
    requires forall q | q in secrets :: |q| > 0
    requires Occurs(PLACEHOLDER, text) || Hits(text, secrets)
    ensures Occurs(PLACEHOLDER, ScrubAll(text, secrets))
    decreases |secrets|
  {
    if secrets != [] {
      ReplaceHitsOrMisses(text, secrets[0]);
      if !Occurs(PLACEHOLDER, text) && !Occurs(secrets[0], text) {
        var p :| p in secrets && Occurs(p, text);
        assert p in secrets[1..];
      }
      ScanHitLeavesPlaceholder(Replace(text, secrets[0], PLACEHOLDER), secrets[1..]);
    }
  }

  /** A scan that misses changes nothing. */
  lemma {:induction false} ScanMissKeeps(text: Bytes, secrets: seq<Bytes>)
    requires forall q | q in secrets :: |q| > 0
    requires !Hits(text, secrets)
    ensures ScrubAll(text, secrets) == text
    decreases |secrets|
  {
    if secrets != [] {
      assert secrets[0] in secrets;
      ReplaceHitsOrMisses(text, secrets[0]);
      assert forall p | p in secrets[1..] :: p in secrets;
      ScanMissKeeps(text, secrets[1..]);
    }
  }

  /** No scanned secret can share a byte with a placeholder. */
  predicate SecretsStandApart(m: Registry) {
    forall p | p in m.substring :: !Touches(p)
  }

  /** The text holds no scanned secret and is no below-floor secret. */
  predicate IsCleanText(m: Registry, text: Bytes) {
    text !in m.exact && !Hits(text, m.substring)
  }

  lemma PlaceholderIsClean(m: Registry)
    requires m.Valid() && SecretsStandApart(m)
    ensures IsCleanText(m, PLACEHOLDER)
  {
    assert PLACEHOLDER !in m.exact by {
      assert |PLACEHOLDER| == 10;
    }
    forall p | p in m.substring
      ensures !Occurs(p, PLACEHOLDER)
    {
      if Occurs(p, PLACEHOLDER) {
        OccursInPlaceholder(p);
        assert false;
      }
    }
  }

  lemma OccursInPlaceholder(p: Bytes)
    requires p != [] && Occurs(p, PLACEHOLDER)
    ensures RunsOut(p)
  {
    var i :| 0 <= i <= |PLACEHOLDER| && MatchesAt(p, PLACEHOLDER, i);
    assert PLACEHOLDER + [] == PLACEHOLDER;
    StartsInPlaceholder(p, [], i);
  }

  lemma OccurrenceIsLong(p: Bytes, s: Bytes)
    requires Occurs(p, s)
    ensures |p| <= |s|
  {
  }

  /** No leak: the scrubbed text holds no scanned secret and is no below-floor secret. */
  lemma ScrubbedIsClean(m: Registry, text: Bytes)
    requires m.Valid() && SecretsStandApart(m)
    ensures IsCleanText(m, Scrub(m, text))
  {
    PlaceholderIsClean(m);
    if text !in m.exact {
      var r := Scrub(m, text);
      forall p | p in m.substring
        ensures !Occurs(p, r)
      {
        ScanLeavesNone(text, m.substring, p);
      }
      if Hits(text, m.substring) {
        ScanHitLeavesPlaceholder(text, m.substring);
        OccurrenceIsLong(PLACEHOLDER, r);
      } else {
        ScanMissKeeps(text, m.substring);
      }
    }
  }

  lemma WordInPlaceholder()
    ensures Occurs(PLACEHOLDER_WORD, PLACEHOLDER)
  {
    assert MatchesAt(PLACEHOLDER_WORD, PLACEHOLDER, 1);
  }

  /** A secret that is a part of the placeholder's word leaks from its own redaction. */
  lemma PlaceholderPartLeaks(m: Registry, p: Bytes)
    requires m.Valid() && p in m.substring && Occurs(p, PLACEHOLDER_WORD)
    ensures Occurs(p, Scrub(m, p))
  {
    assert p !in m.exact;
    OccursHere(p, p);
    ScanHitLeavesPlaceholder(p, m.substring);
    WordInPlaceholder();
    OccursTransitive(p, PLACEHOLDER_WORD, PLACEHOLDER);
    OccursTransitive(p, PLACEHOLDER, Scrub(m, p));
  }

  predicate NoSecretIn(m: Registry, text: Bytes) {
    forall p | p in m.substring :: !Occurs(p, text)
  }

  predicate BracketFree(p: Bytes) { '[' !in p && ']' !in p }

  /** No scanned secret contains a bracket. */
  predicate SecretsBracketFree(m: Registry) {
    forall p | p in m.substring :: BracketFree(p)
  }

  /** No scanned secret is a part of the placeholder's word. */
  predicate PlaceholderClear(m: Registry) {
    forall p | p in m.substring :: !Occurs(p, PLACEHOLDER_WORD)
  }

  /** Without brackets only a part of the placeholder's word touches a placeholder. */
  lemma BracketFreeStandsApart(p: Bytes)
    requires p != [] && BracketFree(p) && !Occurs(p, PLACEHOLDER_WORD)
    ensures !Touches(p)
  {
    forall k | 0 <= k < |p|
      ensures !Comparable(p[k..], PLACEHOLDER)
    {
      assert p[k] in p && p[k..][0] == p[k] && PLACEHOLDER[0] == '[';
    }
    forall j | 0 <= j < |PLACEHOLDER|
      ensures !Comparable(PLACEHOLDER[j..], p)
    {
      if PLACEHOLDER[j..] <= p {
        EndsInBracket(p, j);
        assert false;
      }
      if p <= PLACEHOLDER[j..] {
        InsideWord(p, j);
        assert false;
      }
    }
  }

  lemma EndsInBracket(p: Bytes, j: nat)
    requires j < |PLACEHOLDER| && PLACEHOLDER[j..] <= p
    ensures ']' in p
  {
    assert p[9 - j] == PLACEHOLDER[j..][9 - j] == ']';
  }

  lemma InsideWord(p: Bytes, j: nat)
    requires p != [] && BracketFree(p) && j < |PLACEHOLDER| && p <= PLACEHOLDER[j..]
    ensures Occurs(p, PLACEHOLDER_WORD)
  {
    assert p[0] in p && p[|p| - 1] in p;
    assert p[0] == PLACEHOLDER[j] && p[|p| - 1] == PLACEHOLDER[j + |p| - 1];
    assert PLACEHOLDER[0] == '[' && PLACEHOLDER[9] == ']';
    assert 1 <= j && j + |p| <= 9;
    forall m | 0 <= m < |p|
      ensures PLACEHOLDER_WORD[j - 1 + m] == p[m]
    {
      assert p[m] == PLACEHOLDER[j..][m] == PLACEHOLDER[j + m];
      WordAt(j + m - 1);
    }
    assert MatchesAt(p, PLACEHOLDER_WORD, j - 1);
  }

  lemma WordAt(i: nat)
    requires i < 8
    ensures PLACEHOLDER[i + 1] == PLACEHOLDER_WORD[i]
  {
  }

  /** For secrets without brackets, scrubbing leaks on no text exactly when no secret is a part of the
      placeholder's word. */
  lemma NoLeakIffPlaceholderClear(m: Registry)
    requires m.Valid() && SecretsBracketFree(m)
    ensures (forall text: Bytes :: NoSecretIn(m, Scrub(m, text))) <==> PlaceholderClear(m)
  {
    if PlaceholderClear(m) {
      forall p | p in m.substring
        ensures !Touches(p)
      {
        BracketFreeStandsApart(p);
      }
      forall text: Bytes
        ensures NoSecretIn(m, Scrub(m, text))
      {
        ScrubbedIsClean(m, text);
      }
    } else {
      var p :| p in m.substring && Occurs(p, PLACEHOLDER_WORD);
      PlaceholderPartLeaks(m, p);
      assert !NoSecretIn(m, Scrub(m, p));
    }
  }

  // ---------- Exactly when a lone secret leaks ----------

  /** Scanning `p[..k]` and then `p` meets `p` nowhere before `k`. */
  predicate ReachedFirst(p: Bytes, k: nat)
    requires k <= |p|
  {
    NoneBefore(p, p[..k] + p, k)
  }

  /** The secret can start inside a placeholder, or run into one that the scan puts behind its beginning. */
  predicate CanLeak(p: Bytes) {
    RunsOut(p) || exists k | 1 <= k < |p| :: Comparable(p[k..], PLACEHOLDER) && ReachedFirst(p, k)
  }

  lemma ShortTextIsKept(s: Bytes, p: Bytes)
    requires |s| < |p|
    ensures Replace(s, p, PLACEHOLDER) == s
  {
  }

  lemma ReplaceFirst(p: Bytes, tail: Bytes)
    requires p != [] && |tail| < |p|
    ensures Replace(p + tail, p, PLACEHOLDER) == PLACEHOLDER + tail
  {
    assert p <= p + tail && (p + tail)[|p|..] == tail;
    ShortTextIsKept(tail, p);
  }

  predicate NoneBefore(p: Bytes, s: Bytes, n: nat) {
    forall i | 0 <= i < n :: !MatchesAt(p, s, i)
  }

  lemma NoneAtFront(a: Bytes, p: Bytes, rest: Bytes)
    requires a != [] && NoneBefore(p, a + p, |a|)
    ensures !(p <= a + p + rest)
  {
    assert !MatchesAt(p, a + p, 0);
    MatchIsPrefix(p, a + p, 0);
    assert (a + p)[0..] == a + p;
    assert (a + p + rest)[..|p|] == (a + p)[..|p|];
  }

  lemma NoneInTail(a: Bytes, p: Bytes)
    requires a != [] && NoneBefore(p, a + p, |a|)
    ensures NoneBefore(p, a[1..] + p, |a[1..]|)
  {
    forall i | 0 <= i < |a[1..]|
      ensures !MatchesAt(p, a[1..] + p, i)
    {
      assert !MatchesAt(p, a + p, i + 1);
      MatchIsPrefix(p, a + p, i + 1);
      MatchIsPrefix(p, a[1..] + p, i);
      assert (a + p)[i + 1..] == (a[1..] + p)[i..];
    }
  }

  lemma CopyOne(s: Bytes, p: Bytes)
    requires p != [] && |s| >= |p| && !(p <= s)
    ensures Replace(s, p, PLACEHOLDER) == [s[0]] + Replace(s[1..], p, PLACEHOLDER)
  {
  }

  /** Text before the first match is copied. */
  lemma {:induction false} CopiedFront(a: Bytes, p: Bytes, rest: Bytes)
    requires p != [] && NoneBefore(p, a + p, |a|)
    ensures Replace(a + p + rest, p, PLACEHOLDER) == a + Replace(p + rest, p, PLACEHOLDER)
    decreases |a|
  {
    if a == [] {
      assert a + p + rest == p + rest;
    } else {
      var s, s' := a + p + rest, a[1..] + p + rest;
      NoneAtFront(a, p, rest);
      NoneInTail(a, p);
      CopiedFront(a[1..], p, rest);
      assert s[0] == a[0] && s[1..] == s';
      CopyOne(s, p);
      assert a == [a[0]] + a[1..];
    }
  }

  /** A text that leaks a secret able to start inside a placeholder. */
  lemma LeakFromInside(p: Bytes, j: nat) returns (text: Bytes)
    requires p != [] && j < |PLACEHOLDER| && Comparable(PLACEHOLDER[j..], p)
    ensures |text| >= |p| && Occurs(p, Replace(text, p, PLACEHOLDER))
  {
    var tail := if p <= PLACEHOLDER[j..] then [] else p[|PLACEHOLDER| - j..];
    text := p + tail;
    ReplaceFirst(p, tail);
    var r := PLACEHOLDER + tail;
    assert r[j..] == PLACEHOLDER[j..] + tail;
    assert p <= r[j..];
    MatchIsPrefix(p, r, j);
  }

  /** A text that leaks a secret able to run into a placeholder. */
  lemma LeakFromBefore(p: Bytes, k: nat) returns (text: Bytes)
    requires 1 <= k < |p| && Comparable(p[k..], PLACEHOLDER) && ReachedFirst(p, k)
    ensures |text| >= |p| && Occurs(p, Replace(text, p, PLACEHOLDER))
  {
    var tail := if p[k..] <= PLACEHOLDER then [] else p[k..][|PLACEHOLDER|..];
    text := p[..k] + p + tail;
    CopiedFront(p[..k], p, tail);
    ReplaceFirst(p, tail);
    var r := p[..k] + (PLACEHOLDER + tail);
    assert p[k..] <= PLACEHOLDER + tail;
    assert p == p[..k] + p[k..];
    assert p <= r;
    OccursHere(p, r);
  }

  /** A secret that the scan leaves at the front of its output, but that was not there, runs into a
      placeholder. */
  lemma {:induction false} FrontLeak(p: Bytes, s: Bytes, k: nat)
    requires p != [] && k <= |p| && k <= |s| && p[..k] == s[..k] && !(p <= s) && NoneBefore(p, s, k)
    requires p[k..] <= Replace(s[k..], p, PLACEHOLDER)
    ensures CanLeak(p)
    decreases |p| - k
  {
    if p <= s[k..] {
      FrontRunsInto(p, s, k);
    } else if |s[k..]| >= |p| {
      MatchIsPrefix(p, s, k);
      FrontAdvances(p, s, k);
      FrontLeak(p, s, k + 1);
    } else {
      FrontIsKept(p, s, k);
      assert false;
    }
  }

  lemma FrontIsKept(p: Bytes, s: Bytes, k: nat)
    requires k <= |p| && k <= |s| && p[..k] == s[..k] && p != [] && |s[k..]| < |p|
    requires p[k..] <= Replace(s[k..], p, PLACEHOLDER)
    ensures p <= s
  {
    ShortTextIsKept(s[k..], p);
    assert s == s[..k] + s[k..] && p == p[..k] + p[k..];
  }

  /** The scan has copied some of `p`, but not all of it. */
  lemma FrontIsProper(p: Bytes, s: Bytes, k: nat)
    requires k <= |p| && k <= |s| && p[..k] == s[..k] && !(p <= s)
    ensures k < |p| && (p <= s[k..] ==> k > 0)
  {
    if k == 0 {
      assert s[k..] == s;
    }
  }

  lemma FrontRunsInto(p: Bytes, s: Bytes, k: nat)
    requires p != [] && k <= |p| && k <= |s| && p[..k] == s[..k] && !(p <= s) && NoneBefore(p, s, k)
    requires p <= s[k..] && p[k..] <= Replace(s[k..], p, PLACEHOLDER)
    ensures CanLeak(p)
  {
    FrontIsProper(p, s, k);
    PrefixOfReplaced(p[k..], s[k..], p);
    forall i | 0 <= i < k
      ensures !MatchesAt(p, p[..k] + p, i)
    {
      EarlierMatch(p, s, k, i);
    }
    assert ReachedFirst(p, k);
  }

  lemma PrefixOfReplaced(u: Bytes, s: Bytes, q: Bytes)
    requires q != [] && q <= s && u <= Replace(s, q, PLACEHOLDER)
    ensures Comparable(u, PLACEHOLDER)
  {
    SharedPrefix(u, PLACEHOLDER, Replace(s[|q|..], q, PLACEHOLDER));
  }

  lemma FrontAdvances(p: Bytes, s: Bytes, k: nat)
    requires p != [] && k <= |p| && k + |p| <= |s| && p[..k] == s[..k] && !(p <= s) && !(p <= s[k..])
    requires p[k..] <= Replace(s[k..], p, PLACEHOLDER)
    ensures k < |p| && p[..k + 1] == s[..k + 1] && p[k + 1..] <= Replace(s[k + 1..], p, PLACEHOLDER)
  {
    FrontIsProper(p, s, k);
    CopyOne(s[k..], p);
    FirstOfPrefix(p[k..], s[k..][0], Replace(s[k..][1..], p, PLACEHOLDER));
    DropOne(p, k);
    DropOne(s, k);
  }

  lemma DropOne(s: Bytes, k: nat)
    requires k < |s|
    ensures s[k..][0] == s[k] && s[k..][1..] == s[k + 1..] && s[..k + 1] == s[..k] + [s[k]]
  {
  }

  lemma FirstOfPrefix(u: Bytes, b: char, r: Bytes)
    requires u != [] && u <= [b] + r
    ensures u[0] == b && u[1..] <= r
  {
    assert ([b] + r)[1..] == r;
  }

  lemma EarlierMatch(p: Bytes, s: Bytes, k: nat, i: nat)
    requires k <= |p| && k <= |s| && p[..k] == s[..k] && p <= s[k..] && i < k
    ensures MatchesAt(p, p[..k] + p, i) ==> MatchesAt(p, s, i)
  {
    var t := p[..k] + p;
    assert t == s[..|t|];
    assert forall m | 0 <= m < |t| :: t[m] == s[m];
    if MatchesAt(p, t, i) {
      forall m | 0 <= m < |p|
        ensures s[i + m] == p[m]
      {
        assert t[i + m] == p[m];
      }
    }
  }

  lemma {:induction false} LeakTouches(p: Bytes, s: Bytes)
    requires p != [] && Occurs(p, Replace(s, p, PLACEHOLDER))
    ensures CanLeak(p)
    decreases |s|
  {
    var r := Replace(s, p, PLACEHOLDER);
    var i :| 0 <= i <= |r| && MatchesAt(p, r, i);
    assert |s| >= |p|;
    if p <= s {
      var rest := Replace(s[|p|..], p, PLACEHOLDER);
      if i < |PLACEHOLDER| {
        StartsInPlaceholder(p, rest, i);
      } else {
        MatchesInTail(p, r, i, |PLACEHOLDER|);
        assert r[|PLACEHOLDER|..] == rest;
        LeakTouches(p, s[|p|..]);
      }
    } else if i == 0 {
      MatchIsPrefix(p, r, 0);
      assert r[0..] == r && s[0..] == s && p[0..] == p;
      FrontLeak(p, s, 0);
    } else {
      MatchesInTail(p, r, i, 1);
      assert r[1..] == Replace(s[1..], p, PLACEHOLDER);
      LeakTouches(p, s[1..]);
    }
  }

  lemma LoneScan(m: Registry, p: Bytes, text: Bytes)
    requires m.Valid() && m.substring == [p]
    ensures Scrub(m, text) == if text in m.exact then PLACEHOLDER else Replace(text, p, PLACEHOLDER)
  {
    assert [p][1..] == [];
    assert ScrubAll(text, [p]) == ScrubAll(Replace(text, p, PLACEHOLDER), [p][1..]);
  }

  /** When one secret is scanned for, it leaks from no text exactly when it cannot start inside a
      placeholder, nor run into one that stands where the scan can put it. */
  lemma LoneSecretLeaksIff(m: Registry, p: Bytes)
    requires m.Valid() && m.substring == [p]
    ensures (forall text: Bytes :: !Occurs(p, Scrub(m, text))) <==> !CanLeak(p)
  {
    assert p in m.substring;
    if RunsOut(p) {
      var j :| 0 <= j < |PLACEHOLDER| && Comparable(PLACEHOLDER[j..], p);
      var text := LeakFromInside(p, j);
      LoneScan(m, p, text);
    } else if CanLeak(p) {
      var k :| 1 <= k < |p| && Comparable(p[k..], PLACEHOLDER) && ReachedFirst(p, k);
      var text := LeakFromBefore(p, k);
      LoneScan(m, p, text);
    } else {
      forall text: Bytes
        ensures !Occurs(p, Scrub(m, text))
      {
        LoneScan(m, p, text);
        if Occurs(p, PLACEHOLDER) {
          OccursInPlaceholder(p);
          assert false;
        }
        if Occurs(p, Replace(text, p, PLACEHOLDER)) {
          LeakTouches(p, text);
          assert false;
        }
      }
    }
  }

  // ---------- Lifted to JSON values ----------

  /** Every string and number leaf, at any depth, is clean. */
  predicate IsClean(m: Registry, v: Value) {
    match v
    case String(s) => IsCleanText(m, s)
    case Number(n) => IsCleanText(m, n.text)
    case Array(items) => forall x | x in items :: IsClean(m, x)
    case Object(entries) => forall e | e in entries :: IsClean(m, e.value)
    case _ => true
  }

  /** The same value up to its string and number leaves: array lengths and object keys agree throughout. */
  predicate SameShape(v: Value, w: Value) {
    match v
    case Array(items) =>
      w.Array? && |w.items| == |items| && forall i | 0 <= i < |items| :: SameShape(items[i], w.items[i])
    case Object(entries) =>
      && w.Object? && |w.entries| == |entries|
      && forall i | 0 <= i < |entries| ::
           w.entries[i].key == entries[i].key && SameShape(entries[i].value, w.entries[i].value)
    case String(_) => w.String?
    case Number(_) => w == v || w.String?
    case _ => w == v
  }

  /** Redaction leaks nothing at any depth and keeps the shape. */
  lemma {:induction false} ScrubbedValueIsClean(m: Registry, v: Value)
    requires m.Valid() && SecretsStandApart(m)
    ensures IsClean(m, ScrubValue(m, v)) && SameShape(v, ScrubValue(m, v))
    decreases v, 0
  {
    match v
    case String(s) => ScrubbedIsClean(m, s);
    case Number(n) => ScrubbedIsClean(m, n.text);
    case Array(items) => ScrubbedItemsAreClean(m, items);
    case Object(entries) => ScrubbedEntriesAreClean(m, entries);
    case _ =>
  }

  lemma {:induction false} ScrubbedItemsAreClean(m: Registry, items: seq<Value>)
    requires m.Valid() && SecretsStandApart(m)
    ensures forall i | 0 <= i < |items| ::
              var r := ScrubItems(m, items)[i]; IsClean(m, r) && SameShape(items[i], r)
    decreases items, 1
  {
    if items != [] {
      ScrubbedValueIsClean(m, items[0]);
      ScrubbedItemsAreClean(m, items[1..]);
      assert forall i | 1 <= i < |items| :: items[i] == items[1..][i - 1];
    }
  }

  lemma {:induction false} ScrubbedEntriesAreClean(m: Registry, entries: seq<Entry>)
    requires m.Valid() && SecretsStandApart(m)
    ensures forall i | 0 <= i < |entries| ::
              var r := ScrubEntries(m, entries)[i].value; IsClean(m, r) && SameShape(entries[i].value, r)
    decreases entries, 1
  {
    if entries != [] {
      ScrubbedEntryIsClean(m, entries[0]);
      ScrubbedEntriesAreClean(m, entries[1..]);
      assert forall i | 1 <= i < |entries| :: entries[i] == entries[1..][i - 1];
    }
  }

  lemma {:induction false} ScrubbedEntryIsClean(m: Registry, e: Entry)
    requires m.Valid() && SecretsStandApart(m)
    ensures IsClean(m, ScrubEntry(m, e).value) && SameShape(e.value, ScrubEntry(m, e).value)
    decreases e, 1
  {
    ScrubbedValueIsClean(m, e.value);
  }

  /** A clean value is left as it is. */
  lemma {:induction false} CleanIsKept(m: Registry, v: Value)
    requires m.Valid() && IsClean(m, v)
    ensures ScrubValue(m, v) == v
    decreases v, 0
  {
    match v
    case String(s) => ScanMissKeeps(s, m.substring);
    case Number(n) =>
    case Array(items) => CleanItemsAreKept(m, items);
    case Object(entries) => CleanEntriesAreKept(m, entries);
    case _ =>
  }

  lemma {:induction false} CleanItemsAreKept(m: Registry, items: seq<Value>)
    requires m.Valid() && forall x | x in items :: IsClean(m, x)
    ensures ScrubItems(m, items) == items
    decreases items, 1
  {
    if items != [] {
      CleanIsKept(m, items[0]);
      CleanItemsAreKept(m, items[1..]);
    }
  }

  lemma {:induction false} CleanEntriesAreKept(m: Registry, entries: seq<Entry>)
    requires m.Valid() && forall e | e in entries :: IsClean(m, e.value)
    ensures ScrubEntries(m, entries) == entries
    decreases entries, 1
  {
    if entries != [] {
      CleanEntryIsKept(m, entries[0]);
      CleanEntriesAreKept(m, entries[1..]);
    }
  }

  lemma {:induction false} CleanEntryIsKept(m: Registry, e: Entry)
    requires m.Valid() && IsClean(m, e.value)
    ensures ScrubEntry(m, e) == e
    decreases e, 1
  {
    CleanIsKept(m, e.value);
  }

  /** Redacting twice is redacting once. */
  lemma RedactingIsIdempotent(m: Registry, v: Value)
    requires m.Valid() && SecretsStandApart(m)
    ensures ScrubValue(m, ScrubValue(m, v)) == ScrubValue(m, v)
  {
    ScrubbedValueIsClean(m, v);
    CleanIsKept(m, ScrubValue(m, v));
  }

  // ---------- Why longest-first ----------

  lemma ReplaceItself(p: Bytes)
    requires p != []
    ensures Replace(p, p, PLACEHOLDER) == PLACEHOLDER
  {
    assert p[|p|..] == [] && PLACEHOLDER + [] == PLACEHOLDER;
  }

  lemma SameLengthOccurrence(p: Bytes, s: Bytes)
    requires Occurs(p, s) && |p| >= |s|
    ensures p == s
  {
    var i :| 0 <= i <= |s| && MatchesAt(p, s, i);
    assert i == 0;
    assert forall k | 0 <= k < |p| :: s[0 + k] == p[k];
  }

  lemma {:induction false} ScanOfSecret(p: Bytes, secrets: seq<Bytes>)
    requires p in secrets && LongestFirst(secrets)
    requires forall q | q in secrets :: |q| > 0 && !Touches(q)
    ensures ScrubAll(p, secrets) == PLACEHOLDER
    decreases |secrets|
  {
    var q := secrets[0];
    if q == p {
      ReplaceItself(p);
      forall s | s in secrets[1..]
        ensures !Occurs(s, PLACEHOLDER)
      {
        if Occurs(s, PLACEHOLDER) {
          OccursInPlaceholder(s);
          assert false;
        }
      }
      ScanMissKeeps(PLACEHOLDER, secrets[1..]);
    } else {
      assert |q| >= |p|;
      if Occurs(q, p) {
        SameLengthOccurrence(q, p);
      }
      ReplaceHitsOrMisses(p, q);
      ScanOfSecret(p, secrets[1..]);
    }
  }

  /** A text that is a registered secret becomes the bare placeholder: because longer secrets come first,
      no shorter secret inside it is replaced before it and leaves its rest behind. */
  lemma SecretBecomesPlaceholder(m: Registry, secret: Bytes)
    requires m.Valid() && SecretsStandApart(m) && m.Contains(secret)
    ensures Scrub(m, secret) == PLACEHOLDER
  {
    if secret !in m.exact {
      ScanOfSecret(secret, m.substring);
    }
  }
}
