/** The lint scanner: a second, independent reader of the expression language
    (crates/tmx-core/src/lint.rs). */
module Lint {
  import opened Wrappers
  import opened Utf8
  import opened Lexer

  /** A read the dataflow pass checks. */
  datatype Ref = Input(name: Bytes) | Secret(name: Bytes) | Task(name: Bytes, field: Option<Bytes>)

  predicate IsAsciiWhitespace(b: char) { IsSpace(b) || b as int == 12 }

  predicate IsBlank(b: char) { b == ' ' || b == '\t' }

  predicate IsCheckedRoot(ident: Bytes) { ident == "inputs" || ident == "secrets" || ident == "tasks" }

  /** The classes, listed; a form feed is white space to the scanner's main loop alone. */
  lemma SpacesAreListed(b: char)
    ensures IsBlank(b) <==> b in " \t"
    ensures IsAsciiWhitespace(b) <==> b in " \t\n\r" + [12 as char]
  {
  }

  // ---------- The specification, from an index on ----------

  function BlankEnd(s: Bytes, i: nat): (j: nat)
    ensures i <= j
    ensures i <= |s| ==> j <= |s|
    ensures j < |s| ==> !IsBlank(s[j])
    decreases |s| - i
  {
    if i < |s| && IsBlank(s[i]) then BlankEnd(s, i + 1) else i
  }

  /** The index past the closing quote (or past the end) of the string whose contents start at `i`. */
  function StringEnd(s: Bytes, i: nat, quote: char): (j: nat)
    ensures i <= j
    decreases |s| - i
  {
    if i >= |s| then i
    else if s[i] == '\\' then StringEnd(s, i + 2, quote)
    else if s[i] == quote then i + 1
    else StringEnd(s, i + 1, quote)
  }

  /** The `.name` step at `pos`, and the index past it (`pos` itself when there is none). */
  function FieldFrom(s: Bytes, pos: nat): (r: (Option<Bytes>, nat))
    requires pos <= |s|
    ensures pos <= r.1 <= |s|
  {
    var i := BlankEnd(s, pos);
    if !ByteAt(s, i, '.') then (None, pos)
    else
      var k := BlankEnd(s, i + 1);
      if k == |s| || !IsIdentStart(s[k]) then (None, pos)
      else (Some(s[k..IdentEnd(s, k)]), IdentEnd(s, k))
  }

  /** What the identifier `ident`, which ends at `after`, reads as a namespace root. */
  function RootFrom(ident: Bytes, s: Bytes, after: nat): (r: Option<Ref>)
    requires after <= |s|
  {
    var (name, next) := FieldFrom(s, after);
    if !IsCheckedRoot(ident) || name.None? then None
    else if ident == "inputs" then Some(Input(name.value))
    else if ident == "secrets" then Some(Secret(name.value))
    else Some(Task(name.value, FieldFrom(s, next).0))
  }

  function Listed(r: Option<Ref>): (refs: seq<Ref>) {
    if r.Some? then [r.value] else []
  }

  /** The reads found from `i` on, after the significant byte `prev`. */
  function Scan(s: Bytes, i: nat, prev: char): (refs: seq<Ref>)
    decreases |s| - i
  {
    if i >= |s| then []
    else if IsQuote(s[i]) then Scan(s, StringEnd(s, i + 1, s[i]), s[i])
    else if IsIdentStart(s[i]) then
      var j := IdentEnd(s, i);
      (if prev != '.' then Listed(RootFrom(s[i..j], s, j)) else []) + Scan(s, j, 'a')
    else Scan(s, i + 1, if IsAsciiWhitespace(s[i]) then prev else s[i])
  }

  // ---------- The code: index loops ----------

  method SkipSpaces(bytes: Bytes, start: nat) returns (pos: nat)
    ensures pos == BlankEnd(bytes, start)
  {
    pos := start;
    while pos < |bytes| && IsBlank(bytes[pos])
      invariant start <= pos
      invariant BlankEnd(bytes, start) == BlankEnd(bytes, pos)
    {
      pos := pos + 1;
    }
  }

  method SkipString(bytes: Bytes, start: nat) returns (i: nat)
    requires start < |bytes| && IsQuote(bytes[start])
    ensures i == StringEnd(bytes, start + 1, bytes[start])
  {
    var quote := bytes[start];
    i := start + 1;
    while i < |bytes|
      invariant StringEnd(bytes, start + 1, quote) == StringEnd(bytes, i, quote)
      decreases |bytes| - i
    {
      if bytes[i] == '\\' {
        i := i + 2;
        continue;
      }
      if bytes[i] == quote {
        return i + 1;
      }
      i := i + 1;
    }
  }

  /** The end of the identifier that starts at `start`. */
  method SkipIdent(bytes: Bytes, start: nat) returns (i: nat)
    requires start < |bytes| && IsIdentStart(bytes[start])
    ensures i == IdentEnd(bytes, start)
  {
    i := start + 1;
    while i < |bytes| && IsIdentContinue(bytes[i])
      invariant start < i <= |bytes|
      invariant IdentEnd(bytes, start) == IdentEnd(bytes, i)
    {
      i := i + 1;
    }
  }

  method ReadField(bytes: Bytes, pos: nat) returns (name: Option<Bytes>, next: nat)
    requires pos <= |bytes|
    ensures (name, next) == FieldFrom(bytes, pos)
  {
    var i := SkipSpaces(bytes, pos);
    if i >= |bytes| || bytes[i] != '.' {
      return None, pos;
    }
    i := SkipSpaces(bytes, i + 1);
    if i >= |bytes| || !IsIdentStart(bytes[i]) {
      return None, pos;
    }
    var start := i;
    i := SkipIdent(bytes, start);
    return Some(bytes[start..i]), i;
  }

  method ReadRoot(ident: Bytes, bytes: Bytes, after: nat) returns (r: Option<Ref>)
    requires after <= |bytes|
    ensures r == RootFrom(ident, bytes, after)
  {
    if !IsCheckedRoot(ident) {
      return None;
    }
    var name, next := ReadField(bytes, after);
    if name.None? {
      return None;
    }
    if ident == "inputs" {
      return Some(Input(name.value));
    }
    if ident == "secrets" {
      return Some(Secret(name.value));
    }
    var field, _ := ReadField(bytes, next);
    return Some(Task(name.value, field));
  }

  /** One identifier of the scan. */
  lemma ScanIdent(s: Bytes, i: nat, j: nat, prev: char, refs: seq<Ref>)
    requires i < |s| && IsIdentStart(s[i]) && j == IdentEnd(s, i)
    ensures refs + Scan(s, i, prev)
         == refs + (if prev != '.' then Listed(RootFrom(s[i..j], s, j)) else []) + Scan(s, j, 'a')
  {
    var found := if prev != '.' then Listed(RootFrom(s[i..j], s, j)) else [];
    assert refs + (found + Scan(s, j, 'a')) == refs + found + Scan(s, j, 'a');
  }

  /** Extract the reads of one expression. */
  method ExtractRefs(bytes: Bytes) returns (refs: seq<Ref>)
    ensures refs == Scan(bytes, 0, 0 as char)
  {
    refs := [];
    var i := 0;
    var prev := 0 as char;
    while i < |bytes|
      invariant Scan(bytes, 0, 0 as char) == refs + Scan(bytes, i, prev)
      decreases |bytes| - i
    {
      var c := bytes[i];
      if IsQuote(c) {
        i := SkipString(bytes, i);
        prev := c;
        continue;
      }
      if IsIdentStart(c) {
        var start := i;
        i := SkipIdent(bytes, i);
        ScanIdent(bytes, start, i, prev, refs);
        if prev != '.' {
          var reference := ReadRoot(bytes[start..i], bytes, i);
          if reference.Some? {
            refs := refs + [reference.value];
          }
        }
        prev := 'a';
        continue;
      }
      if !IsAsciiWhitespace(c) {
        prev := c;
      }
      i := i + 1;
    }
  }
}
