/** The `${{ … }}` template layer (crates/tmx-core/src/dispatch.rs): a string with expressions in it, and
    its lift over JSON values. */
module Template {
  import opened Wrappers
  import opened Utf8
  import opened Strings
  import Evaluator
  import opened Json

  const INTERP_OPEN: Bytes := "${{"
  const INTERP_CLOSE: Bytes := "}}"

  /** `expr_unterminated`, or what evaluating an expression failed with. */
  datatype TemplateError = Unterminated | Failed(error: Evaluator.EvalError)

  /** `str::trim`, and the value of an expression in the scope at hand. */
  datatype Engine = Engine(trim: Bytes -> Bytes, evaluate: Bytes -> Evaluator.Outcome)

  function ValueToText(v: Value): (text: Bytes) {
    if v.String? then v.s else Render(v)
  }

  function EvaluateCode(code: Bytes, engine: Engine): (r: Result<Value, TemplateError>) {
    match engine.evaluate(engine.trim(code))
    case Ok(v) => Ok(v)
    case Err(error) => Err(Failed(error))
  }

  predicate EndsWith(s: Bytes, suffix: Bytes) {
    |suffix| <= |s| && s[|s| - |suffix|..] == suffix
  }

  /** The code of a trimmed template that is one expression and nothing else. */
  function LoneCode(trimmed: Bytes): (code: Option<Bytes>) {
    if !(INTERP_OPEN <= trimmed) then None
    else
      var rest := trimmed[|INTERP_OPEN|..];
      if !EndsWith(rest, INTERP_CLOSE) then None
      else
        var inner := rest[..|rest| - |INTERP_CLOSE|];
        if Occurs(INTERP_OPEN, inner) then None else Some(inner)
  }

  /** Replace each expression of `s` by the text of its value, left to right. */
  function Fill(s: Bytes, engine: Engine): (r: Result<Bytes, TemplateError>)
    decreases |s|
  {
    match FindText(INTERP_OPEN, s)
    case None => Ok(s)
    case Some(start) =>
      var after := s[start + |INTERP_OPEN|..];
      match FindText(INTERP_CLOSE, after)
      case None => Err(Unterminated)
      case Some(end) =>
        var value :- EvaluateCode(after[..end], engine);
        var rest :- Fill(after[end + |INTERP_CLOSE|..], engine);
        Ok(s[..start] + ValueToText(value) + rest)
  }

  function Interpolate(s: Bytes, engine: Engine): (r: Result<Value, TemplateError>) {
    if !Occurs(INTERP_OPEN, s) then Ok(Value.String(s))
    else match LoneCode(engine.trim(s))
      case Some(code) => EvaluateCode(code, engine)
      case None =>
        var text :- Fill(s, engine);
        Ok(Value.String(text))
  }

  // ---------- The code: a loop over the rest of the text ----------

  function Onto<T>(out: seq<T>, rest: Result<seq<T>, TemplateError>): (r: Result<seq<T>, TemplateError>) {
    if rest.Err? then rest else Ok(out + rest.value)
  }

  lemma OntoEnds<T>(all: Result<seq<T>, TemplateError>, out: seq<T>)
    ensures Onto([], all) == all && Onto(out, Ok([])) == Ok(out)
  {
    assert out + [] == out;
    if all.Ok? {
      assert [] + all.value == all.value;
    }
  }

  /** What one round of the loop adds to the output. */
  function Extend(out: Bytes, v: Result<Bytes, TemplateError>, rest: Bytes, engine: Engine): (r: Result<Bytes, TemplateError>) {
    match v
    case Ok(text) => Onto(out + text, Fill(rest, engine))
    case Err(error) => Err(error)
  }

  function TextOf(code: Bytes, engine: Engine): (r: Result<Bytes, TemplateError>) {
    match EvaluateCode(code, engine)
    case Ok(v) => Ok(ValueToText(v))
    case Err(error) => Err(error)
  }

  lemma FillOpen(rest: Bytes, start: nat, after: Bytes, end: nat, engine: Engine)
    requires FindText(INTERP_OPEN, rest) == Some(start) && after == rest[start + |INTERP_OPEN|..]
    requires FindText(INTERP_CLOSE, after) == Some(end)
    ensures Fill(rest, engine)
         == Extend(rest[..start], TextOf(after[..end], engine), after[end + |INTERP_CLOSE|..], engine)
  {
  }

  lemma OntoExtend(out: Bytes, before: Bytes, v: Result<Bytes, TemplateError>, rest: Bytes, engine: Engine)
    ensures Onto(out, Extend(before, v, rest, engine)) == Extend(out + before, v, rest, engine)
  {
    var more := Fill(rest, engine);
    if v.Ok? && more.Ok? {
      assert out + ((before + v.value) + more.value) == ((out + before) + v.value) + more.value;
    }
  }

  lemma FillRound(out: Bytes, rest: Bytes, start: nat, after: Bytes, end: nat, engine: Engine)
    requires FindText(INTERP_OPEN, rest) == Some(start) && after == rest[start + |INTERP_OPEN|..]
    requires FindText(INTERP_CLOSE, after) == Some(end)
    ensures Onto(out, Fill(rest, engine))
         == Extend(out + rest[..start], TextOf(after[..end], engine), after[end + |INTERP_CLOSE|..], engine)
  {
    FillOpen(rest, start, after, end, engine);
    OntoExtend(out, rest[..start], TextOf(after[..end], engine), after[end + |INTERP_CLOSE|..], engine);
  }

  /** `interp_template`. */
  method InterpTemplate(s: Bytes, engine: Engine) returns (r: Result<Value, TemplateError>)
    ensures r == Interpolate(s, engine)
  {
    if !Occurs(INTERP_OPEN, s) {
      return Ok(Value.String(s));
    }
    var code := LoneCode(engine.trim(s));
    if code.Some? {
      r := EvaluateCode(code.value, engine);
      return;
    }
    var text := FillTemplate(s, engine);
    r := if text.Ok? then Ok(Value.String(text.value)) else Err(text.error);
  }

  /** The loop of `interp_template`. */
  method FillTemplate(s: Bytes, engine: Engine) returns (r: Result<Bytes, TemplateError>)
    ensures r == Fill(s, engine)
  {
    var out: Bytes := "";
    var rest := s;
    OntoEnds(Fill(s, engine), []);
    while FindText(INTERP_OPEN, rest).Some?
      invariant Fill(s, engine) == Onto(out, Fill(rest, engine))
      decreases |rest|
    {
      var start := FindText(INTERP_OPEN, rest).value;
      var after := rest[start + |INTERP_OPEN|..];
      var end := FindText(INTERP_CLOSE, after);
      if end.None? {
        return Err(Unterminated);
      }
      FillRound(out, rest, start, after, end.value, engine);
      var value := EvaluateCode(after[..end.value], engine);
      if value.Err? {
        return Err(value.error);
      }
      out := out + rest[..start] + ValueToText(value.value);
      rest := after[end.value + |INTERP_CLOSE|..];
    }
    return Ok(out + rest);
  }

  // ---------- What a template is made of ----------

  /** Literal text, then an expression. */
  datatype Hole = Hole(before: Bytes, code: Bytes)

  /** The delimiters of the hole are the first that a reader meets. */
  predicate IsProper(h: Hole) {
    && !Occurs(INTERP_OPEN, h.before)
    && !Occurs(INTERP_CLOSE, h.code) && (h.code == [] || h.code[|h.code| - 1] != '}')
  }

  /** The text after the last hole: no opening delimiter, or one that is never closed. */
  predicate IsTail(tail: Bytes) { FirstHole(tail).None? }

  /** The first hole of a text, and the text after it. */
  function FirstHole(s: Bytes): (r: Option<(Hole, Bytes)>)
    ensures r.Some? ==> |r.value.1| < |s|
  {
    match FindText(INTERP_OPEN, s)
    case None => None
    case Some(start) =>
      var after := s[start + |INTERP_OPEN|..];
      match FindText(INTERP_CLOSE, after)
      case None => None
      case Some(end) => Some((Hole(s[..start], after[..end]), after[end + |INTERP_CLOSE|..]))
  }

  function Assemble(holes: seq<Hole>, tail: Bytes): (s: Bytes) {
    if holes == [] then tail
    else Join(holes[0], Assemble(holes[1..], tail))
  }

  function Join(h: Hole, more: Bytes): (s: Bytes) {
    h.before + (INTERP_OPEN + (h.code + (INTERP_CLOSE + more)))
  }

  function Split(s: Bytes): (r: (seq<Hole>, Bytes))
    decreases |s|
  {
    match FirstHole(s)
    case None => ([], s)
    case Some((h, rest)) =>
      var (holes, tail) := Split(rest);
      ([h] + holes, tail)
  }

  /** The literals and the values' texts in turn; the first failure wins. */
  function Filled(holes: seq<Hole>, tail: Bytes, engine: Engine): (r: Result<Bytes, TemplateError>) {
    if holes == [] then if Occurs(INTERP_OPEN, tail) then Err(Unterminated) else Ok(tail)
    else
      var value :- EvaluateCode(holes[0].code, engine);
      var rest :- Filled(holes[1..], tail, engine);
      Ok(holes[0].before + ValueToText(value) + rest)
  }

  lemma OpenIsFirst(before: Bytes, rest: Bytes)
    requires !Occurs(INTERP_OPEN, before)
    ensures FindText(INTERP_OPEN, before + (INTERP_OPEN + rest)) == Some(|before|)
  {
    var s := before + (INTERP_OPEN + rest);
    assert s[|before|..][..3] == INTERP_OPEN;
    forall k | 0 <= k < |INTERP_OPEN|
      ensures s[|before| + k] == INTERP_OPEN[k]
    {
    }
    assert MatchesAt(INTERP_OPEN, s, |before|);
    forall i | 0 <= i < |before|
      ensures !MatchesAt(INTERP_OPEN, s, i)
    {
      if i + 3 <= |before| {
        if MatchesAt(INTERP_OPEN, s, i) {
          MatchesInPrefix(INTERP_OPEN, before, INTERP_OPEN + rest, i);
          assert false;
        }
      } else {
        assert s[|before|] == '$' && INTERP_OPEN[|before| - i] == '{';
        assert s[i + (|before| - i)] != INTERP_OPEN[|before| - i];
      }
    }
    FoundAt(INTERP_OPEN, s, |before|);
  }

  lemma MatchesInPrefix(p: Bytes, a: Bytes, b: Bytes, i: nat)
    requires MatchesAt(p, a + b, i) && i + |p| <= |a|
    ensures Occurs(p, a)
  {
    forall k | 0 <= k < |p|
      ensures a[i + k] == p[k]
    {
      assert (a + b)[i + k] == p[k];
    }
    assert MatchesAt(p, a, i);
  }

  lemma CloseIsFirst(code: Bytes, rest: Bytes)
    requires !Occurs(INTERP_CLOSE, code) && (code == [] || code[|code| - 1] != '}')
    ensures FindText(INTERP_CLOSE, code + (INTERP_CLOSE + rest)) == Some(|code|)
  {
    var s := code + (INTERP_CLOSE + rest);
    forall k | 0 <= k < |INTERP_CLOSE|
      ensures s[|code| + k] == INTERP_CLOSE[k]
    {
    }
    assert MatchesAt(INTERP_CLOSE, s, |code|);
    forall i | 0 <= i < |code|
      ensures !MatchesAt(INTERP_CLOSE, s, i)
    {
      if i + 2 <= |code| {
        if MatchesAt(INTERP_CLOSE, s, i) {
          MatchesInPrefix(INTERP_CLOSE, code, INTERP_CLOSE + rest, i);
          assert false;
        }
      } else {
        assert s[i + 0] == code[|code| - 1] != INTERP_CLOSE[0];
      }
    }
    FoundAt(INTERP_CLOSE, s, |code|);
  }

  /** Splitting undoes assembling: a template has one decomposition only. */
  lemma {:induction false} SplitUndoesAssemble(holes: seq<Hole>, tail: Bytes)
    requires (forall h | h in holes :: IsProper(h)) && IsTail(tail)
    ensures Split(Assemble(holes, tail)) == (holes, tail)
  {
    if holes != [] {
      var h := holes[0];
      var more := Assemble(holes[1..], tail);
      assert IsProper(h);
      SplitUndoesAssemble(holes[1..], tail);
      FirstHoleOfJoin(h, more);
      assert holes == [h] + holes[1..];
    }
  }

  lemma FirstHoleOfJoin(h: Hole, more: Bytes)
    requires IsProper(h)
    ensures FirstHole(Join(h, more)) == Some((h, more))
  {
    var after := h.code + (INTERP_CLOSE + more);
    var s := h.before + (INTERP_OPEN + after);
    OpenIsFirst(h.before, after);
    CloseIsFirst(h.code, more);
    assert s[..|h.before|] == h.before && s[|h.before| + |INTERP_OPEN|..] == after;
    assert after[..|h.code|] == h.code && after[|h.code| + |INTERP_CLOSE|..] == more;
  }

  /** Every text is assembled from proper holes and a tail. */
  lemma {:induction false} AssembleUndoesSplit(s: Bytes)
    ensures var (holes, tail) := Split(s);
            Assemble(holes, tail) == s && (forall h | h in holes :: IsProper(h)) && IsTail(tail)
    decreases |s|
  {
    var first := FirstHole(s);
    if first.Some? {
      var (h, rest) := first.value;
      JoinOfFirstHole(s, h, rest);
      AssembleUndoesSplit(rest);
      AssembleCons(h, Split(rest).0, Split(rest).1);
    }
  }

  lemma JoinOfFirstHole(s: Bytes, h: Hole, rest: Bytes)
    requires FirstHole(s) == Some((h, rest))
    ensures IsProper(h) && s == Join(h, rest)
  {
    var start := FindText(INTERP_OPEN, s).value;
    var after := s[start + |INTERP_OPEN|..];
    HoleIsProper(s, start, after, FindText(INTERP_CLOSE, after).value);
  }

  lemma AssembleCons(h: Hole, holes: seq<Hole>, tail: Bytes)
    ensures Assemble([h] + holes, tail) == Join(h, Assemble(holes, tail))
  {
    assert ([h] + holes)[1..] == holes;
  }

  lemma HoleIsProper(s: Bytes, start: nat, after: Bytes, end: nat)
    requires FindText(INTERP_OPEN, s) == Some(start) && after == s[start + |INTERP_OPEN|..]
    requires FindText(INTERP_CLOSE, after) == Some(end)
    ensures IsProper(Hole(s[..start], after[..end]))
    ensures s == Join(Hole(s[..start], after[..end]), after[end + |INTERP_CLOSE|..])
  {
    FirstPlace(INTERP_OPEN, s);
    FirstPlace(INTERP_CLOSE, after);
    CutAt(INTERP_OPEN, s, start);
    CutAt(INTERP_CLOSE, after, end);
    PrefixIsFree(INTERP_OPEN, s, start);
    PrefixIsFree(INTERP_CLOSE, after, end);
    if end > 0 {
      CodeEnd(after, end);
    }
  }

  lemma CutAt(p: Bytes, s: Bytes, i: nat)
    requires MatchesAt(p, s, i)
    ensures s == s[..i] + (p + s[i + |p|..])
  {
    assert forall k | 0 <= k < |p| :: s[i..i + |p|][k] == s[i + k] == p[k];
    assert s[i..i + |p|] == p;
  }

  /** Nothing occurs before its first occurrence. */
  lemma PrefixIsFree(p: Bytes, s: Bytes, i: nat)
    requires p != [] && FindText(p, s) == Some(i)
    ensures !Occurs(p, s[..i])
  {
    FirstPlace(p, s);
    forall j | 0 <= j <= |s[..i]|
      ensures !MatchesAt(p, s[..i], j)
    {
      if j + |p| <= i {
        assert !MatchesAt(p, s, j);
        var k :| 0 <= k < |p| && s[j + k] != p[k];
        assert s[..i][j + k] != p[k];
      }
    }
  }

  /** An expression cannot end in a brace: the delimiter would have started there. */
  lemma CodeEnd(after: Bytes, end: nat)
    requires FindText(INTERP_CLOSE, after) == Some(end) && end > 0
    ensures after[end - 1] != '}'
  {
    FirstPlace(INTERP_CLOSE, after);
    assert !MatchesAt(INTERP_CLOSE, after, end - 1);
    assert after[end + 0] == INTERP_CLOSE[0] == '}';
    var k :| 0 <= k < |INTERP_CLOSE| && after[end - 1 + k] != INTERP_CLOSE[k];
    assert k == 0;
  }

  /** The loop computes the literals joined with the values' texts. */
  lemma {:induction false} FillIsFilled(s: Bytes, engine: Engine)
    ensures Fill(s, engine) == Filled(Split(s).0, Split(s).1, engine)
    decreases |s|
  {
    FirstPlace(INTERP_OPEN, s);
    var start := FindText(INTERP_OPEN, s);
    if start.Some? {
      var after := s[start.value + |INTERP_OPEN|..];
      var end := FindText(INTERP_CLOSE, after);
      if end.Some? {
        var rest := after[end.value + |INTERP_CLOSE|..];
        FillIsFilled(rest, engine);
        var h := Hole(s[..start.value], after[..end.value]);
        assert ([h] + Split(rest).0)[1..] == Split(rest).0;
      }
    }
  }

  /** A template of literals and expressions, outside the lone form, becomes the literals joined with the
      rendered values, or the first error in reading order. */
  lemma TemplateSplices(holes: seq<Hole>, tail: Bytes, engine: Engine)
    requires (forall h | h in holes :: IsProper(h)) && IsTail(tail)
    requires LoneCode(engine.trim(Assemble(holes, tail))).None?
    ensures Interpolate(Assemble(holes, tail), engine)
         == match Filled(holes, tail, engine)
            case Ok(text) => Ok(Value.String(text))
            case Err(error) => Err(error)
  {
    FirstPlace(INTERP_OPEN, Assemble(holes, tail));
    var s := Assemble(holes, tail);
    SplitUndoesAssemble(holes, tail);
    FillIsFilled(s, engine);
    if !Occurs(INTERP_OPEN, s) {
      assert Split(s) == ([], s);
    }
  }

  /** A string value contributes its own bytes to the text around it, any other value its compact JSON. */
  lemma ValueIsSpliced(h: Hole, tail: Bytes, v: Value, engine: Engine)
    requires IsProper(h) && !Occurs(INTERP_OPEN, tail) && engine.evaluate(engine.trim(h.code)) == Ok(v)
    ensures Fill(h.before + "${{" + h.code + "}}" + tail, engine)
         == Ok(h.before + (match v case String(s) => s case _ => Render(v)) + tail)
  {
    var s := Join(h, tail);
    assert h.before + "${{" + h.code + "}}" + tail == s;
    FillIsFilled(s, engine);
    FirstPlace(INTERP_OPEN, tail);
    SplitUndoesAssemble([h], tail);
    assert [h][1..] == [];
    assert Filled([], tail, engine) == Ok(tail);
  }

  /** `expr_unterminated` is reported exactly when every complete expression has a value and an opening
      delimiter is left over. */
  lemma {:induction false} UnterminatedIff(holes: seq<Hole>, tail: Bytes, engine: Engine)
    ensures Filled(holes, tail, engine) == Err(Unterminated)
       <==> (Occurs(INTERP_OPEN, tail) && forall i | 0 <= i < |holes| :: EvaluateCode(holes[i].code, engine).Ok?)
  {
    if holes != [] {
      UnterminatedIff(holes[1..], tail, engine);
      if EvaluateCode(holes[0].code, engine).Ok? {
        assert forall i | 1 <= i < |holes| :: holes[i] == holes[1..][i - 1];
        if forall i | 0 <= i < |holes[1..]| :: EvaluateCode(holes[1..][i].code, engine).Ok? {
          forall i | 0 <= i < |holes|
            ensures EvaluateCode(holes[i].code, engine).Ok?
          {
            if i > 0 {
              assert holes[i] == holes[1..][i - 1];
            }
          }
        } else {
          var i :| 0 <= i < |holes[1..]| && EvaluateCode(holes[1..][i].code, engine).Err?;
          assert holes[i + 1] == holes[1..][i];
        }
      }
    }
  }

  // ---------- The lone form ----------

  /** The text is its first hole and nothing else, or runs on to a later closing delimiter. */
  predicate IsLone(holes: seq<Hole>, tail: Bytes) {
    && |holes| == 1 && holes[0].before == [] && !Occurs(INTERP_OPEN, holes[0].code)
    && EndsWith(INTERP_CLOSE + tail, INTERP_CLOSE)
  }

  /** A trimmed template (one that `trim` keeps) is taken as one expression exactly when it is a single hole without text before
      it, followed by nothing or by text that ends in a closing delimiter of its own. */
  lemma LoneFormIff(holes: seq<Hole>, tail: Bytes)
    requires (forall h | h in holes :: IsProper(h)) && IsTail(tail)
    ensures LoneCode(Assemble(holes, tail)).Some? <==> IsLone(holes, tail)
  {
    if holes == [] {
      UnclosedIsNotLone(tail);
    } else {
      assert IsProper(holes[0]);
      if holes[0].before != [] {
        LiteralFirstIsNotLone(holes[0].before, holes[0].code + (INTERP_CLOSE + Assemble(holes[1..], tail)));
      } else {
        HoleFirst(holes, tail);
      }
    }
  }

  lemma LiteralFirstIsNotLone(before: Bytes, rest: Bytes)
    requires before != [] && !Occurs(INTERP_OPEN, before)
    ensures LoneCode(before + (INTERP_OPEN + rest)).None?
  {
    FirstPlace(INTERP_OPEN, before + (INTERP_OPEN + rest));
    var s := before + (INTERP_OPEN + rest);
    OpenIsFirst(before, rest);
    assert !MatchesAt(INTERP_OPEN, s, 0);
    PrefixMatches(INTERP_OPEN, s);
  }

  lemma HoleFirst(holes: seq<Hole>, tail: Bytes)
    requires holes != [] && holes[0].before == [] && IsTail(tail)
    ensures LoneCode(Assemble(holes, tail)).Some? <==> IsLone(holes, tail)
  {
    var more := Assemble(holes[1..], tail);
    OpenHole(holes[0], more);
    if |holes| > 1 {
      SecondHoleOccurs(holes[0].code, holes[1..], tail);
    } else if EndsWith(INTERP_CLOSE + tail, INTERP_CLOSE) {
      LoneInner(holes[0].code, tail);
    }
  }

  lemma OpenHole(h: Hole, more: Bytes)
    requires h.before == []
    ensures var after := h.code + (INTERP_CLOSE + more);
            (LoneCode(Join(h, more)).Some?
             <==> EndsWith(INTERP_CLOSE + more, INTERP_CLOSE) && !Occurs(INTERP_OPEN, after[..|after| - 2]))
  {
    var after := h.code + (INTERP_CLOSE + more);
    assert Join(h, more) == INTERP_OPEN + after;
    LoneAfterOpen(after);
    CloseAtEnd(h.code, more);
  }

  lemma LoneAfterOpen(after: Bytes)
    ensures LoneCode(INTERP_OPEN + after)
         == if EndsWith(after, INTERP_CLOSE) && !Occurs(INTERP_OPEN, after[..|after| - 2])
            then Some(after[..|after| - 2]) else None
  {
    assert (INTERP_OPEN + after)[|INTERP_OPEN|..] == after;
  }

  lemma CloseAtEnd(code: Bytes, more: Bytes)
    ensures EndsWith(code + (INTERP_CLOSE + more), INTERP_CLOSE) <==> EndsWith(INTERP_CLOSE + more, INTERP_CLOSE)
  {
    var after := code + (INTERP_CLOSE + more);
    assert after[|after| - 2..] == (INTERP_CLOSE + more)[|more|..];
  }

  lemma PrefixMatches(p: Bytes, s: Bytes)
    ensures p <= s <==> MatchesAt(p, s, 0)
  {
    if MatchesAt(p, s, 0) {
      assert forall k | 0 <= k < |p| :: s[..|p|][k] == s[0 + k] == p[k];
      assert s[..|p|] == p;
    }
  }

  lemma EndMatches(p: Bytes, s: Bytes)
    requires EndsWith(s, p)
    ensures MatchesAt(p, s, |s| - |p|) && Occurs(p, s)
  {
    var at := |s| - |p|;
    var end := s[at..];
    forall k | 0 <= k < |p|
      ensures s[at + k] == p[k]
    {
      assert s[at + k] == end[k];
    }
    assert MatchesAt(p, s, at);
  }

  lemma UnclosedIsNotLone(tail: Bytes)
    requires IsTail(tail)
    ensures LoneCode(tail).None?
  {
    if INTERP_OPEN <= tail {
      PrefixMatches(INTERP_OPEN, tail);
      FoundAt(INTERP_OPEN, tail, 0);
      var rest := tail[|INTERP_OPEN|..];
      FirstPlace(INTERP_CLOSE, rest);
      if EndsWith(rest, INTERP_CLOSE) {
        EndMatches(INTERP_CLOSE, rest);
        assert false;
      }
    }
  }

  lemma SecondHoleOccurs(code: Bytes, holes: seq<Hole>, tail: Bytes)
    requires holes != []
    ensures var after := code + (INTERP_CLOSE + Assemble(holes, tail));
            |after| >= 2 && Occurs(INTERP_OPEN, after[..|after| - 2])
  {
    var h := holes[0];
    var last := h.code + (INTERP_CLOSE + Assemble(holes[1..], tail));
    var after := code + (INTERP_CLOSE + (h.before + (INTERP_OPEN + last)));
    var at := |code| + 2 + |h.before|;
    forall k | 0 <= k < |INTERP_OPEN|
      ensures after[..|after| - 2][at + k] == INTERP_OPEN[k]
    {
    }
    assert MatchesAt(INTERP_OPEN, after[..|after| - 2], at);
  }

  /** A tail that ends in a closing delimiter opens nothing. */
  lemma ClosedTailOpensNothing(tail: Bytes)
    requires IsTail(tail) && EndsWith(INTERP_CLOSE + tail, INTERP_CLOSE)
    ensures !Occurs(INTERP_OPEN, tail)
  {
    FirstPlace(INTERP_OPEN, tail);
    var start := FindText(INTERP_OPEN, tail);
    if start.Some? {
      var i, n := start.value, |tail|;
      OpenHasNoBrace(tail, i);
      LastBraces(tail);
      var rest := tail[i + 3..];
      assert n - 2 >= i + 3;
      assert rest[n - 2 - (i + 3)..] == INTERP_CLOSE;
      EndMatches(INTERP_CLOSE, rest);
      FirstPlace(INTERP_CLOSE, rest);
      assert false;
    }
  }

  lemma OpenHasNoBrace(tail: Bytes, i: nat)
    requires MatchesAt(INTERP_OPEN, tail, i)
    ensures tail[i] != '}' && tail[i + 1] != '}' && tail[i + 2] != '}'
  {
    assert tail[i + 0] == INTERP_OPEN[0];
    assert tail[i + 1] == INTERP_OPEN[1];
    assert tail[i + 2] == INTERP_OPEN[2];
  }

  lemma LastBraces(tail: Bytes)
    requires |tail| >= 2 && EndsWith(INTERP_CLOSE + tail, INTERP_CLOSE)
    ensures tail[|tail| - 2] == '}' && tail[|tail| - 1] == '}'
  {
    var t := INTERP_CLOSE + tail;
    assert t[|t| - 2..][0] == t[|t| - 2] && t[|t| - 2..][1] == t[|t| - 1];
  }

  /** The text between the outer delimiters opens a hole exactly when the code does. */
  lemma LoneInner(code: Bytes, tail: Bytes)
    requires IsTail(tail) && EndsWith(INTERP_CLOSE + tail, INTERP_CLOSE)
    ensures var after := code + (INTERP_CLOSE + tail);
            Occurs(INTERP_OPEN, after[..|after| - 2]) <==> Occurs(INTERP_OPEN, code)
  {
    ClosedTailOpensNothing(tail);
    var after := code + (INTERP_CLOSE + tail);
    var inner := after[..|after| - 2];
    if Occurs(INTERP_OPEN, code) {
      var i :| 0 <= i <= |code| && MatchesAt(INTERP_OPEN, code, i);
      forall k | 0 <= k < |INTERP_OPEN|
        ensures inner[i + k] == INTERP_OPEN[k]
      {
        assert code[i + k] == INTERP_OPEN[k];
      }
      assert MatchesAt(INTERP_OPEN, inner, i);
    } else {
      forall i | 0 <= i <= |inner|
        ensures !MatchesAt(INTERP_OPEN, inner, i)
      {
        if i + 3 <= |inner| {
          NoOpenAt(code, tail, i);
        }
      }
    }
  }

  lemma NoOpenAt(code: Bytes, tail: Bytes, i: nat)
    requires !Occurs(INTERP_OPEN, tail) && !Occurs(INTERP_OPEN, code) && i + 3 <= |code| + |tail|
    ensures var after := code + (INTERP_CLOSE + tail); !MatchesAt(INTERP_OPEN, after[..|after| - 2], i)
  {
    var after := code + (INTERP_CLOSE + tail);
    var inner := after[..|after| - 2];
    if i + 3 <= |code| {
      assert !MatchesAt(INTERP_OPEN, code, i);
      var k :| 0 <= k < |INTERP_OPEN| && code[i + k] != INTERP_OPEN[k];
      assert inner[i + k] != INTERP_OPEN[k];
    } else if i < |code| {
      assert inner[i + (|code| - i)] == '}' != INTERP_OPEN[|code| - i];
    } else if i < |code| + 2 {
      assert inner[i + 0] == '}' != INTERP_OPEN[0];
    } else {
      var j := i - |code| - 2;
      assert !MatchesAt(INTERP_OPEN, tail, j);
      var k :| 0 <= k < |INTERP_OPEN| && tail[j + k] != INTERP_OPEN[k];
      assert inner[i + k] != INTERP_OPEN[k];
    }
  }

  lemma LoneIsEvaluated(s: Bytes, code: Bytes, engine: Engine)
    requires Occurs(INTERP_OPEN, s) && LoneCode(engine.trim(s)) == Some(code)
    ensures Interpolate(s, engine)
         == match engine.evaluate(engine.trim(code)) case Ok(v) => Ok(v) case Err(error) => Err(Failed(error))
  {
  }

  /** A single hole keeps the type of its value; text after it that ends in a closing delimiter is read as
      part of the code. */
  lemma LoneExpressionKeepsType(code: Bytes, tail: Bytes, engine: Engine)
    requires !Occurs(INTERP_OPEN, code) && IsTail(tail) && EndsWith(INTERP_CLOSE + tail, INTERP_CLOSE)
    requires var s := INTERP_OPEN + (code + (INTERP_CLOSE + tail)); engine.trim(s) == s
    ensures var after := code + (INTERP_CLOSE + tail);
            && Interpolate(INTERP_OPEN + after, engine)
            == (match engine.evaluate(engine.trim(after[..|after| - 2]))
                case Ok(v) => Ok(v)
                case Err(error) => Err(Failed(error)))
            && (tail == [] ==> after[..|after| - 2] == code)
  {
    var after := code + (INTERP_CLOSE + tail);
    LoneAfterOpen(after);
    CloseAtEnd(code, tail);
    LoneInner(code, tail);
    OccursHere(INTERP_OPEN, INTERP_OPEN + after);
    LoneIsEvaluated(INTERP_OPEN + after, after[..|after| - 2], engine);
  }

  // ---------- JSON values ----------

  function InterpolateValue(v: Value, engine: Engine): (r: Result<Value, TemplateError>)
    decreases v, 0
  {
    match v
    case String(s) => Interpolate(s, engine)
    case Array(items) =>
      var xs :- InterpolateItems(items, engine);
      Ok(Array(xs))
    case Object(entries) =>
      var es :- InterpolateEntries(entries, engine);
      Ok(Object(es))
    case _ => Ok(v)
  }

  function InterpolateItems(items: seq<Value>, engine: Engine): (r: Result<seq<Value>, TemplateError>)
    decreases items, 1
  {
    if items == [] then Ok([])
    else
      var x :- InterpolateValue(items[0], engine);
      var rest :- InterpolateItems(items[1..], engine);
      Ok([x] + rest)
  }

  function InterpolateEntry(e: Entry, engine: Engine): (r: Result<Entry, TemplateError>)
    decreases e, 1
  {
    var x :- InterpolateValue(e.value, engine);
    Ok(Entry(e.key, x))
  }

  function InterpolateEntries(entries: seq<Entry>, engine: Engine): (r: Result<seq<Entry>, TemplateError>)
    decreases entries, 1
  {
    if entries == [] then Ok([])
    else
      var e :- InterpolateEntry(entries[0], engine);
      var rest :- InterpolateEntries(entries[1..], engine);
      Ok([e] + rest)
  }

  lemma OntoItem(out: seq<Value>, items: seq<Value>, i: nat, engine: Engine)
    requires i < |items|
    ensures Onto(out, InterpolateItems(items[i..], engine))
         == match InterpolateValue(items[i], engine)
            case Ok(x) => Onto(out + [x], InterpolateItems(items[i + 1..], engine))
            case Err(error) => Err(error)
  {
    assert items[i..][0] == items[i] && items[i..][1..] == items[i + 1..];
    var x, rest := InterpolateValue(items[i], engine), InterpolateItems(items[i + 1..], engine);
    if x.Ok? && rest.Ok? {
      assert out + ([x.value] + rest.value) == (out + [x.value]) + rest.value;
    }
  }

  lemma OntoEntry(out: seq<Entry>, entries: seq<Entry>, i: nat, engine: Engine)
    requires i < |entries|
    ensures Onto(out, InterpolateEntries(entries[i..], engine))
         == match InterpolateValue(entries[i].value, engine)
            case Ok(x) => Onto(out + [Entry(entries[i].key, x)], InterpolateEntries(entries[i + 1..], engine))
            case Err(error) => Err(error)
  {
    assert entries[i..][0] == entries[i] && entries[i..][1..] == entries[i + 1..];
    var x, rest := InterpolateValue(entries[i].value, engine), InterpolateEntries(entries[i + 1..], engine);
    if x.Ok? && rest.Ok? {
      var e := Entry(entries[i].key, x.value);
      assert out + ([e] + rest.value) == (out + [e]) + rest.value;
    }
  }

  /** `interp_value`; the object arm fills a fresh map key by key. */
  method InterpValue(v: Value, engine: Engine) returns (r: Result<Value, TemplateError>)
    requires WellFormed(v)
    ensures r == InterpolateValue(v, engine)
    decreases v, 1
  {
    match v
    case String(s) =>
      r := InterpTemplate(s, engine);
    case Array(items) =>
      var xs := InterpItems(items, engine);
      r := if xs.Ok? then Ok(Array(xs.value)) else Err(xs.error);
    case Object(entries) =>
      var es := InterpEntries(entries, engine);
      r := if es.Ok? then Ok(Object(es.value)) else Err(es.error);
    case _ =>
      r := Ok(v);
  }

  method InterpItems(items: seq<Value>, engine: Engine) returns (r: Result<seq<Value>, TemplateError>)
    requires forall x | x in items :: WellFormed(x)
    ensures r == InterpolateItems(items, engine)
    decreases items, 2
  {
    var out: seq<Value> := [];
    assert items[0..] == items;
    OntoEnds(InterpolateItems(items, engine), []);
    for i := 0 to |items|
      invariant InterpolateItems(items, engine) == Onto(out, InterpolateItems(items[i..], engine))
    {
      OntoItem(out, items, i, engine);
      var x := InterpValue(items[i], engine);
      if x.Err? {
        return Err(x.error);
      }
      out := out + [x.value];
    }
    OntoEnds(Ok([]), out);
    return Ok(out);
  }

  method InterpEntries(entries: seq<Entry>, engine: Engine) returns (r: Result<seq<Entry>, TemplateError>)
    requires DistinctKeys(entries) && forall e | e in entries :: WellFormed(e.value)
    ensures r == InterpolateEntries(entries, engine)
    decreases entries, 2
  {
    var out: seq<Entry> := [];
    assert entries[0..] == entries;
    OntoEnds(InterpolateEntries(entries, engine), []);
    for i := 0 to |entries|
      invariant |out| == i && forall k | 0 <= k < i :: out[k].key == entries[k].key
      invariant InterpolateEntries(entries, engine) == Onto(out, InterpolateEntries(entries[i..], engine))
    {
      OntoEntry(out, entries, i, engine);
      var e := entries[i];
      assert e in entries;
      var x := InterpValue(e.value, engine);
      if x.Err? {
        return Err(x.error);
      }
      assert Json.Find(out, e.key) == |out|;
      out := Insert(out, e.key, x.value);
    }
    OntoEnds(Ok([]), out);
    return Ok(out);
  }

  /** Item `k` is the first that fails, with `e`. */
  predicate FailsFirst(items: seq<Value>, k: nat, e: TemplateError, engine: Engine) {
    && k < |items| && InterpolateValue(items[k], engine) == Err(e)
    && forall i | 0 <= i < k :: InterpolateValue(items[i], engine).Ok?
  }

  ghost predicate SomeFailsFirst(items: seq<Value>, e: TemplateError, engine: Engine) {
    exists k: nat :: FailsFirst(items, k, e, engine)
  }

  /** Item `i` of an array's result is the interpolation of its item `i`; the first failing item decides an
      error. */
  lemma {:induction false} ItemsAreInterpolated(items: seq<Value>, engine: Engine)
    ensures match InterpolateItems(items, engine)
            case Ok(xs) => |xs| == |items| && forall i | 0 <= i < |items| :: InterpolateValue(items[i], engine) == Ok(xs[i])
            case Err(e) => SomeFailsFirst(items, e, engine)
    decreases |items|
  {
    if items != [] {
      var tail, r := items[1..], InterpolateItems(items, engine);
      ItemsAreInterpolated(tail, engine);
      if InterpolateValue(items[0], engine).Err? {
        var k: nat := 0;
        assert FailsFirst(items, k, r.error, engine);
      } else if r.Err? {
        var k: nat :| FailsFirst(tail, k, r.error, engine);
        forall i | 0 <= i < k + 1
          ensures InterpolateValue(items[i], engine).Ok?
        {
          assert i > 0 ==> items[i] == tail[i - 1];
        }
        assert FailsFirst(items, k + 1, r.error, engine);
      } else {
        var xs := InterpolateItems(tail, engine).value;
        forall i | 1 <= i < |items|
          ensures InterpolateValue(items[i], engine) == Ok(r.value[i])
        {
          assert items[i] == tail[i - 1] && r.value[i] == xs[i - 1];
        }
      }
    }
  }

  function ValuesOf(entries: seq<Entry>): (items: seq<Value>)
    ensures |items| == |entries| && forall i | 0 <= i < |entries| :: items[i] == entries[i].value
  {
    if entries == [] then [] else [entries[0].value] + ValuesOf(entries[1..])
  }

  /** An object is interpolated as the array of its values is, under the same keys in the same order. */
  lemma {:induction false} EntriesAreInterpolated(entries: seq<Entry>, engine: Engine)
    ensures match InterpolateEntries(entries, engine)
            case Ok(es) =>
              && InterpolateItems(ValuesOf(entries), engine) == Ok(ValuesOf(es))
              && |es| == |entries| && forall i | 0 <= i < |entries| :: es[i].key == entries[i].key
            case Err(e) => InterpolateItems(ValuesOf(entries), engine) == Err(e)
    decreases |entries|
  {
    KeysAreKept(entries, engine);
    if entries != [] {
      EntriesAreInterpolated(entries[1..], engine);
      assert ValuesOf(entries)[1..] == ValuesOf(entries[1..]);
      var r := InterpolateEntries(entries, engine);
      if r.Ok? {
        assert r.value[1..] == InterpolateEntries(entries[1..], engine).value;
      }
    }
  }

  /** No string leaf opens an expression. */
  predicate HasNoTemplate(v: Value) {
    match v
    case String(s) => !Occurs(INTERP_OPEN, s)
    case Array(items) => forall x | x in items :: HasNoTemplate(x)
    case Object(entries) => forall e | e in entries :: HasNoTemplate(e.value)
    case _ => true
  }

  /** A value without templates is its own interpolation, whatever the scope. */
  lemma {:induction false} PlainValuesAreKept(v: Value, engine: Engine)
    requires HasNoTemplate(v)
    ensures InterpolateValue(v, engine) == Ok(v)
    decreases v, 0
  {
    match v
    case Array(items) => PlainItemsAreKept(items, engine);
    case Object(entries) => PlainEntriesAreKept(entries, engine);
    case _ =>
  }

  lemma {:induction false} PlainItemsAreKept(items: seq<Value>, engine: Engine)
    requires forall x | x in items :: HasNoTemplate(x)
    ensures InterpolateItems(items, engine) == Ok(items)
    decreases items, 1
  {
    if items != [] {
      PlainValuesAreKept(items[0], engine);
      PlainItemsAreKept(items[1..], engine);
      assert items == [items[0]] + items[1..];
    }
  }

  lemma {:induction false} PlainEntryIsKept(e: Entry, engine: Engine)
    requires HasNoTemplate(e.value)
    ensures InterpolateEntry(e, engine) == Ok(e)
    decreases e, 1
  {
    PlainValuesAreKept(e.value, engine);
  }

  lemma {:induction false} PlainEntriesAreKept(entries: seq<Entry>, engine: Engine)
    requires forall e | e in entries :: HasNoTemplate(e.value)
    ensures InterpolateEntries(entries, engine) == Ok(entries)
    decreases entries, 1
  {
    if entries != [] {
      PlainEntryIsKept(entries[0], engine);
      PlainEntriesAreKept(entries[1..], engine);
      assert entries == [entries[0]] + entries[1..];
    }
  }

  /** Interpolation keeps every key, in order. */
  lemma {:induction false} KeysAreKept(entries: seq<Entry>, engine: Engine)
    ensures var r := InterpolateEntries(entries, engine);
            r.Ok? ==> |r.value| == |entries| && forall i | 0 <= i < |entries| :: r.value[i].key == entries[i].key
    decreases |entries|
  {
    if entries != [] {
      KeysAreKept(entries[1..], engine);
      var r := InterpolateEntries(entries, engine);
      if r.Ok? {
        var rest := InterpolateEntries(entries[1..], engine).value;
        assert forall i | 1 <= i < |entries| :: r.value[i] == rest[i - 1] && entries[i] == entries[1..][i - 1];
      }
    }
  }
}
