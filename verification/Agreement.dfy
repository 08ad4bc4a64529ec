/** The lint scanner against the parser: for every text the parser accepts, the scanner lists exactly the
    reads of the parsed expression, unless a line break stands inside one of those reads. */
module Agreement {
  import opened Wrappers
  import opened Limits
  import opened Utf8
  import opened Lexer
  import opened Syntax
  import opened Parser
  import opened Grammar
  import opened Lint

  // ---------- The reads of a parsed expression ----------

  /** The name of the dotted step number `k`. */
  function FieldAt(steps: seq<Step>, k: nat): (name: Option<Bytes>) {
    if k < |steps| && steps[k].Field? then Some(steps[k].name) else None
  }

  /** The read a root makes when the dotted names after it are `first` and `second`. */
  function ReadOf(root: Bytes, first: Option<Bytes>, second: Option<Bytes>): (r: Option<Ref>) {
    if !IsCheckedRoot(root) || first.None? then None
    else if root == "inputs" then Some(Input(first.value))
    else if root == "secrets" then Some(Secret(first.value))
    else Some(Task(first.value, second))
  }

  /** The checked reads of an expression, in source order, those inside bracketed indices included. */
  function Reads(e: Expr): (refs: seq<Ref>)
    decreases e, 0
  {
    match e
    case Literal(_) => []
    case Path(root, steps) => Listed(ReadOf(root, FieldAt(steps, 0), FieldAt(steps, 1))) + ReadsInSteps(steps)
    case Not(operand) => Reads(operand)
    case Binary(_, l, r) => Reads(l) + Reads(r)
  }

  function ReadsInSteps(steps: seq<Step>): (refs: seq<Ref>)
    decreases steps, 1
  {
    if steps == [] then [] else ReadsInStep(steps[0]) + ReadsInSteps(steps[1..])
  }

  function ReadsInStep(s: Step): (refs: seq<Ref>)
    decreases s, 1
  {
    match s
    case Field(_) => []
    case Index(key) => Reads(key)
  }

  // ---------- The reads of a token stream ----------

  /** The name in `.name` at `k`. */
  function NameAt(t: seq<Token>, k: nat): (name: Option<Bytes>) {
    if k + 1 < |t| && t[k] == Dot && t[k + 1].Ident? then Some(t[k + 1].name) else None
  }

  function HeadRead(t: seq<Token>): (r: Option<Ref>)
    requires t != [] && t[0].Ident?
  {
    ReadOf(t[0].name, NameAt(t, 1), NameAt(t, 3))
  }

  function TokenReads(t: seq<Token>, afterDot: bool): (refs: seq<Ref>) {
    if t == [] then []
    else (if t[0].Ident? && !afterDot then Listed(HeadRead(t)) else []) + TokenReads(t[1..], t[0] == Dot)
  }

  /** Only a root identifier reads anything. */
  lemma SkipToken(x: Token, rest: seq<Token>, afterDot: bool)
    requires x.Ident? ==> afterDot || !IsCheckedRoot(x.name)
    ensures TokenReads([x] + rest, afterDot) == TokenReads(rest, x == Dot)
  {
    assert ([x] + rest)[1..] == rest;
  }

  /** The tokens of a derivation read what its expression reads, whatever follows. */
  lemma {:induction false} TreeReads(tree: Tree, rest: seq<Token>)
    requires InLayer(tree, 0) && (rest != [] ==> rest[0] != Dot)
    ensures TokenReads(Yield(tree) + rest, false) == Reads(Abstract(tree)) + TokenReads(rest, false)
    decreases tree, 1
  {
    match tree
    case TLiteral(token) =>
      SkipToken(token, rest, false);
    case TPath(root, steps) =>
      PathReads(root, steps, rest);
    case TNot(e) =>
      LooserLayer(e, 0, 3);
      TreeReads(e, rest);
      SkipToken(Bang, Yield(e) + rest, false);
      assert Yield(tree) + rest == [Bang] + (Yield(e) + rest);
    case TParen(e) =>
      BracketedReads(LParen, e, RParen, rest);
    case TBinary(op, l, r) =>
      LooserLayer(l, 0, Layer(op));
      LooserLayer(r, 0, Layer(op) + 1);
      BinaryReads(op, l, r, rest);
  }

  lemma {:induction false} BracketedReads(open: Token, e: Tree, close: Token, rest: seq<Token>)
    requires InLayer(e, 0) && !open.Ident? && !close.Ident? && open != Dot && close != Dot
    ensures TokenReads([open] + Yield(e) + [close] + rest, false) == Reads(Abstract(e)) + TokenReads(rest, false)
    decreases e, 2
  {
    var tail := [close] + rest;
    assert [open] + Yield(e) + [close] + rest == [open] + (Yield(e) + tail);
    SkipToken(open, Yield(e) + tail, false);
    TreeReads(e, tail);
    SkipToken(close, rest, false);
  }

  lemma {:induction false} BinaryReads(op: BinOp, l: Tree, r: Tree, rest: seq<Token>)
    requires InLayer(l, 0) && InLayer(r, 0) && (rest != [] ==> rest[0] != Dot)
    ensures TokenReads(Yield(l) + [OpToken(op)] + Yield(r) + rest, false)
         == Reads(Abstract(l)) + Reads(Abstract(r)) + TokenReads(rest, false)
    decreases TBinary(op, l, r), 0
  {
    TreeReads(l, [OpToken(op)] + (Yield(r) + rest));
    SkipToken(OpToken(op), Yield(r) + rest, false);
    TreeReads(r, rest);
    Regroup(Yield(l), OpToken(op), Yield(r), rest);
    Associates(Reads(Abstract(l)), Reads(Abstract(r)), TokenReads(rest, false));
  }

  lemma Associates(a: seq<Ref>, b: seq<Ref>, c: seq<Ref>)
    ensures a + (b + c) == a + b + c
  {
  }

  lemma Regroup(a: seq<Token>, x: Token, b: seq<Token>, c: seq<Token>)
    ensures a + [x] + b + c == a + ([x] + (b + c))
  {
  }

  lemma {:induction false} PathReads(root: Bytes, steps: seq<TStep>, rest: seq<Token>)
    requires InLayer(TPath(root, steps), 0) && (rest != [] ==> rest[0] != Dot)
    ensures TokenReads(Yield(TPath(root, steps)) + rest, false)
         == Reads(Abstract(TPath(root, steps))) + TokenReads(rest, false)
    decreases steps, 3
  {
    var t := [Ident(root)] + (YieldSteps(steps) + rest);
    assert Yield(TPath(root, steps)) + rest == t;
    StepsReads(steps, rest);
    PathHeadRead(root, steps, rest);
    assert t[1..] == YieldSteps(steps) + rest;
    Associates(Listed(HeadRead(t)), ReadsInSteps(AbstractSteps(steps)), TokenReads(rest, false));
  }

  /** The read of a path's root is that of its first dotted steps. */
  lemma PathHeadRead(root: Bytes, steps: seq<TStep>, rest: seq<Token>)
    requires rest != [] ==> rest[0] != Dot
    ensures HeadRead([Ident(root)] + (YieldSteps(steps) + rest))
         == ReadOf(root, FieldAt(AbstractSteps(steps), 0), FieldAt(AbstractSteps(steps), 1))
  {
    var tail := YieldSteps(steps) + rest;
    var t := [Ident(root)] + tail;
    NamesOfSteps(steps, rest);
    assert NameAt(t, 1) == NameAt(tail, 0) && NameAt(t, 3) == NameAt(tail, 2);
  }

  /** The dotted names that the tokens show after a root are the first dotted steps of the path. */
  lemma NamesOfSteps(steps: seq<TStep>, rest: seq<Token>)
    requires rest != [] ==> rest[0] != Dot
    ensures var t := YieldSteps(steps) + rest; var s := AbstractSteps(steps);
            && NameAt(t, 0) == FieldAt(s, 0)
            && (FieldAt(s, 0).Some? ==> NameAt(t, 2) == FieldAt(s, 1))
  {
    NameOfSteps(steps, rest);
    if steps != [] && steps[0].TField? {
      NameOfSteps(steps[1..], rest);
      var t := YieldSteps(steps) + rest;
      assert t[2..] == YieldSteps(steps[1..]) + rest;
      assert NameAt(t, 2) == NameAt(t[2..], 0);
    }
  }

  lemma NameOfSteps(steps: seq<TStep>, rest: seq<Token>)
    requires rest != [] ==> rest[0] != Dot
    ensures NameAt(YieldSteps(steps) + rest, 0) == FieldAt(AbstractSteps(steps), 0)
  {
    var t := YieldSteps(steps) + rest;
    if steps == [] {
      assert t == rest;
    } else {
      assert t[0] == YieldStep(steps[0])[0];
      assert t[1] == YieldStep(steps[0])[1];
    }
  }

  lemma {:induction false} StepsReads(steps: seq<TStep>, rest: seq<Token>)
    requires forall s | s in steps :: s.TIndex? ==> InLayer(s.key, 0)
    ensures TokenReads(YieldSteps(steps) + rest, false)
         == ReadsInSteps(AbstractSteps(steps)) + TokenReads(rest, false)
    decreases steps, 2
  {
    if steps == [] {
      assert YieldSteps(steps) + rest == rest;
    } else {
      var tail := YieldSteps(steps[1..]) + rest;
      assert YieldSteps(steps) + rest == YieldStep(steps[0]) + tail;
      StepReads(steps[0], tail);
      StepsReads(steps[1..], rest);
    }
  }

  lemma {:induction false} StepReads(s: TStep, rest: seq<Token>)
    requires s.TIndex? ==> InLayer(s.key, 0)
    ensures TokenReads(YieldStep(s) + rest, false) == ReadsInStep(AbstractStep(s)) + TokenReads(rest, false)
    decreases s, 1
  {
    match s
    case TField(name) =>
      SkipToken(Dot, [Ident(name)] + rest, false);
      SkipToken(Ident(name), rest, true);
      assert YieldStep(s) + rest == [Dot] + ([Ident(name)] + rest);
    case TIndex(key) =>
      BracketedReads(LBracket, key, RBracket, rest);
  }

  // ---------- Line breaks inside a read ----------

  /** The name in `.name` at `k`, if no line break comes before the dot or the name. */
  function PlainNameAt(ls: seq<Lexeme>, k: nat): (name: Option<Bytes>) {
    if k + 1 < |ls| && (ls[k].broken || ls[k + 1].broken) then None else NameAt(TokensOf(ls), k)
  }

  function PlainHeadRead(ls: seq<Lexeme>): (r: Option<Ref>)
    requires ls != [] && ls[0].token.Ident?
  {
    ReadOf(ls[0].token.name, PlainNameAt(ls, 1), PlainNameAt(ls, 3))
  }

  /** The reads a scanner finds that gives up on a read at a line break. */
  function PlainReads(ls: seq<Lexeme>, afterDot: bool): (refs: seq<Ref>) {
    if ls == [] then []
    else (if ls[0].token.Ident? && !afterDot then Listed(PlainHeadRead(ls)) else [])
         + PlainReads(ls[1..], ls[0].token == Dot)
  }

  /** A line break stands before the dot or the name of the step at `k`. */
  predicate BrokenAt(ls: seq<Lexeme>, k: nat) {
    NameAt(TokensOf(ls), k).Some? && (ls[k].broken || ls[k + 1].broken)
  }

  /** A line break stands inside the read that the first token roots. */
  predicate BrokenHead(ls: seq<Lexeme>)
    requires ls != [] && ls[0].token.Ident?
  {
    && IsCheckedRoot(ls[0].token.name)
    && NameAt(TokensOf(ls), 1).Some?
    && (BrokenAt(ls, 1) || (ls[0].token.name == "tasks" && BrokenAt(ls, 3)))
  }

  /** No line break stands inside a read of a checked namespace. */
  predicate ReadsOnOneLine(ls: seq<Lexeme>, afterDot: bool) {
    ls == [] || ((ls[0].token.Ident? && !afterDot ==> !BrokenHead(ls)) && ReadsOnOneLine(ls[1..], ls[0].token == Dot))
  }

  lemma TokensOfTail(ls: seq<Lexeme>)
    requires ls != []
    ensures TokensOf(ls)[1..] == TokensOf(ls[1..])
  {
  }

  lemma {:induction false} FewerPlainReads(ls: seq<Lexeme>, afterDot: bool)
    ensures |PlainReads(ls, afterDot)| <= |TokenReads(TokensOf(ls), afterDot)|
  {
    if ls != [] {
      TokensOfTail(ls);
      FewerPlainReads(ls[1..], ls[0].token == Dot);
    }
  }

  /** The plain reads are all the reads exactly when no read is broken. */
  lemma {:induction false} PlainReadsAreAllReads(ls: seq<Lexeme>, afterDot: bool)
    ensures PlainReads(ls, afterDot) == TokenReads(TokensOf(ls), afterDot) <==> ReadsOnOneLine(ls, afterDot)
  {
    if ls != [] {
      var t, tail, dot := TokensOf(ls), ls[1..], ls[0].token == Dot;
      TokensOfTail(ls);
      PlainReadsAreAllReads(tail, dot);
      FewerPlainReads(tail, dot);
      if ls[0].token.Ident? && !afterDot {
        var plain, full := Listed(PlainHeadRead(ls)), Listed(HeadRead(t));
        assert plain == full <==> !BrokenHead(ls);
        HeadsThenTails(plain, PlainReads(tail, dot), full, TokenReads(t[1..], dot));
      } else {
        HeadsThenTails([], PlainReads(tail, dot), [], TokenReads(t[1..], dot));
      }
    }
  }

  lemma HeadsThenTails(a: seq<Ref>, a': seq<Ref>, b: seq<Ref>, b': seq<Ref>)
    requires |a| <= |b| && |a'| <= |b'|
    ensures a + a' == b + b' <==> a == b && a' == b'
  {
    if a + a' == b + b' {
      assert |a| == |b|;
      assert a == (a + a')[..|a|] && b == (b + b')[..|a|];
      assert a' == (a + a')[|a|..] && b' == (b + b')[|a|..];
    }
  }

  // ---------- The scanner reads plainly ----------

  /** No number is followed by an identifier; true of every derivation. */
  predicate Separated(t: seq<Token>) {
    forall i | 0 <= i < |t| - 1 :: t[i].Number? ==> !t[i + 1].Ident?
  }

  lemma SeparatedAppend(a: seq<Token>, b: seq<Token>)
    requires Separated(a) && Separated(b)
    requires a != [] && b != [] ==> !(a[|a| - 1].Number? && b[0].Ident?)
    ensures Separated(a + b)
  {
  }

  lemma {:induction false} DerivationsAreSeparated(tree: Tree)
    ensures Separated(Yield(tree))
    decreases tree, 0
  {
    match tree
    case TLiteral(token) =>
    case TPath(root, steps) =>
      StepsAreSeparated(steps);
      SeparatedAppend([Ident(root)], YieldSteps(steps));
    case TNot(e) =>
      DerivationsAreSeparated(e);
      SeparatedAppend([Bang], Yield(e));
    case TParen(e) =>
      DerivationsAreSeparated(e);
      SeparatedAppend([LParen], Yield(e));
      SeparatedAppend([LParen] + Yield(e), [RParen]);
    case TBinary(op, l, r) =>
      DerivationsAreSeparated(l);
      DerivationsAreSeparated(r);
      SeparatedAppend(Yield(l), [OpToken(op)]);
      SeparatedAppend(Yield(l) + [OpToken(op)], Yield(r));
  }

  lemma {:induction false} StepsAreSeparated(steps: seq<TStep>)
    ensures Separated(YieldSteps(steps))
    ensures steps != [] ==> !YieldSteps(steps)[0].Ident?
    decreases steps, 1
  {
    if steps != [] {
      StepsAreSeparated(steps[1..]);
      StepIsSeparated(steps[0]);
      SeparatedAppend(YieldStep(steps[0]), YieldSteps(steps[1..]));
    }
  }

  lemma {:induction false} StepIsSeparated(s: TStep)
    ensures Separated(YieldStep(s)) && !YieldStep(s)[0].Ident? && !YieldStep(s)[|YieldStep(s)| - 1].Number?
    decreases s, 1
  {
    if s.TIndex? {
      DerivationsAreSeparated(s.key);
      SeparatedAppend([LBracket], Yield(s.key));
      SeparatedAppend([LBracket] + Yield(s.key), [RBracket]);
    }
  }

  /** Lexing resumes at `i` and succeeds with `ls`. */
  predicate LexesTo(s: Bytes, i: nat, num: NumberReader, broken: bool, ls: seq<Lexeme>) {
    i <= |s| && ValidFrom(s, i) && Lexemes(s, i, num, broken) == Ok(ls)
  }

  lemma {:induction false} BreakIsKept(s: Bytes, i: nat, num: NumberReader, ls: seq<Lexeme>)
    requires LexesTo(s, i, num, true, ls)
    ensures ls != [] ==> ls[0].broken
    decreases |s| - i
  {
    if i < |s| && IsSpace(s[i]) {
      BreakIsKept(s, i + 1, num, ls);
    }
  }

  /** Skipping blanks and tabs reaches the next token, or a line break that marks it broken. */
  lemma {:induction false} BlanksThenToken(s: Bytes, i: nat, num: NumberReader, ls: seq<Lexeme>)
    requires LexesTo(s, i, num, false, ls)
    ensures var k := BlankEnd(s, i);
            && k <= |s|
            && LexesTo(s, k, num, false, ls)
            && (k < |s| && IsLineBreak(s[k]) ==> ls != [] ==> ls[0].broken)
            && (k < |s| && !IsLineBreak(s[k]) ==> !IsSpace(s[k]) && ls != [] && !ls[0].broken)
            && (k == |s| ==> ls == [])
    decreases |s| - i
  {
    if i < |s| && IsBlank(s[i]) {
      BlanksThenToken(s, i + 1, num, ls);
    } else if i < |s| && IsLineBreak(s[i]) {
      BreakIsKept(s, i + 1, num, ls);
    }
  }

  /** One token, then what the rest lexes to. */
  lemma TokenThenRest(s: Bytes, i: nat, num: NumberReader, broken: bool, ls: seq<Lexeme>)
    requires LexesTo(s, i, num, broken, ls) && i < |s| && !IsSpace(s[i])
    ensures LexOne(s, i, num).Ok? && ls != []
    ensures var (token, next) := LexOne(s, i, num).value;
            ls[0] == Lexeme(token, broken) && LexesTo(s, next, num, false, ls[1..])
  {
    var (token, next) := LexOne(s, i, num).value;
    assert ls == [Lexeme(token, broken)] + Lexemes(s, next, num, false).value;
  }

  /** The scanner's field peek is the plain name at the head of the lexemes. */
  lemma FieldFromIsPlain(s: Bytes, pos: nat, num: NumberReader, ls: seq<Lexeme>)
    requires LexesTo(s, pos, num, false, ls)
    ensures FieldFrom(s, pos).0 == PlainNameAt(ls, 0)
    ensures FieldFrom(s, pos).0.Some? ==> |ls| >= 2 && LexesTo(s, FieldFrom(s, pos).1, num, false, ls[2..])
  {
    var i := BlankEnd(s, pos);
    BlanksThenToken(s, pos, num, ls);
    if ByteAt(s, i, '.') {
      TokenThenRest(s, i, num, false, ls);
      NameAfterDot(s, i + 1, num, ls);
    } else if i < |s| && !IsLineBreak(s[i]) {
      TokenThenRest(s, i, num, false, ls);
      assert ls[0].token != Dot;
    }
  }

  lemma NameAfterDot(s: Bytes, pos: nat, num: NumberReader, ls: seq<Lexeme>)
    requires ls != [] && ls[0] == Lexeme(Dot, false) && LexesTo(s, pos, num, false, ls[1..])
    ensures var k := BlankEnd(s, pos);
            if k == |s| || !IsIdentStart(s[k]) then PlainNameAt(ls, 0) == None
            else
              && PlainNameAt(ls, 0) == Some(s[k..IdentEnd(s, k)])
              && LexesTo(s, IdentEnd(s, k), num, false, ls[2..])
  {
    var k := BlankEnd(s, pos);
    BlanksThenToken(s, pos, num, ls[1..]);
    if k < |s| && !IsLineBreak(s[k]) {
      TokenThenRest(s, k, num, false, ls[1..]);
      assert ls[1..][1..] == ls[2..];
    }
  }

  /** The scanner's root reading is the plain read of the lexemes that start with that root. */
  lemma RootFromIsPlain(ident: Bytes, s: Bytes, after: nat, num: NumberReader, broken: bool, rest: seq<Lexeme>)
    requires LexesTo(s, after, num, false, rest)
    ensures RootFrom(ident, s, after) == PlainHeadRead([Lexeme(Ident(ident), broken)] + rest)
  {
    var ls := [Lexeme(Ident(ident), broken)] + rest;
    FieldFromIsPlain(s, after, num, rest);
    PlainNameShift(ls, 0);
    PlainNameShift(ls, 2);
    assert ls[1..] == rest;
    if PlainNameAt(rest, 0).Some? {
      FieldFromIsPlain(s, FieldFrom(s, after).1, num, rest[2..]);
      PlainNameShift(rest, 1);
      PlainNameShift(rest[1..], 0);
      assert rest[1..][1..] == rest[2..];
    }
  }

  lemma PlainNameShift(ls: seq<Lexeme>, k: nat)
    requires ls != []
    ensures PlainNameAt(ls, k + 1) == PlainNameAt(ls[1..], k)
  {
  }

  lemma {:induction false} StringEndsAgree(s: Bytes, i: nat, quote: char)
    requires i <= |s| && ValidFrom(s, i) && IsQuote(quote) && StringFrom(s, i, quote).Ok?
    ensures StringEnd(s, i, quote) == StringFrom(s, i, quote).value.1
    decreases |s| - i
  {
    if s[i] == quote {
    } else if s[i] == '\\' {
      assert ValidFrom(s, i + 1);
      StringEndsAgree(s, i + 2, quote);
    } else {
      var w := Width(s[i]);
      StringEndsAgree(s, i + w, quote);
      SkipContinuations(s, i + 1, i + w, quote);
    }
  }

  /** The scanner steps over a multibyte character one byte at a time. */
  lemma {:induction false} SkipContinuations(s: Bytes, i: nat, j: nat, quote: char)
    requires i <= j <= |s| && IsQuote(quote) && forall k | i <= k < j :: IsContinuation(s[k])
    ensures StringEnd(s, i, quote) == StringEnd(s, j, quote)
    decreases j - i
  {
    if i < j {
      SkipContinuations(s, i + 1, j, quote);
    }
  }

  /** The scanner finds nothing in a run of digits and number punctuation. */
  lemma {:induction false} ScanSkipsRun(s: Bytes, i: nat, j: nat, prev: char) returns (prev': char)
    requires i <= j <= |s|
    requires forall k | i <= k < j :: IsDigit(s[k]) || s[k] == '.' || s[k] == '-' || s[k] == '+'
    ensures Scan(s, i, prev) == Scan(s, j, prev')
    decreases j - i
  {
    prev' := prev;
    if i < j {
      prev' := ScanSkipsRun(s, i + 1, j, s[i]);
    }
  }

  /** The scanner finds nothing in a number, provided no identifier byte follows it. */
  lemma ScanSkipsNumber(s: Bytes, i: nat, prev: char) returns (prev': char)
    requires i < |s|
    requires NumberEnd(s, i) < |s| ==> !IsIdentContinue(s[NumberEnd(s, i)])
    ensures Scan(s, i, prev) == Scan(s, NumberEnd(s, i), prev')
  {
    var j := MantissaEnd(s, i);
    prev' := ScanSkipsRun(s, i, j, prev);
    if ExponentAt(s, j) {
      prev' := ScanSkipsExponent(s, j, prev');
    }
  }

  /** The end of a number's sign, digits and fraction. */
  lemma MantissaEnd(s: Bytes, i: nat) returns (j: nat)
    requires i < |s|
    ensures i <= j <= |s| && ExponentEnd(s, j) == NumberEnd(s, i)
    ensures forall k | i <= k < j :: IsDigit(s[k]) || s[k] == '.' || s[k] == '-' || s[k] == '+'
  {
    j := DigitsAndFraction(s, SignEnd(s, i));
  }

  /** An exponent marker starts an identifier for the scanner, which names no checked root. */
  lemma ScanSkipsExponent(s: Bytes, j: nat, prev: char) returns (prev': char)
    requires ExponentAt(s, j) && (ExponentEnd(s, j) < |s| ==> !IsIdentContinue(s[ExponentEnd(s, j)]))
    ensures Scan(s, j, prev) == Scan(s, ExponentEnd(s, j), prev')
  {
    var m, end := MarkerEnd(s, j), ExponentEnd(s, j);
    assert end == DigitEnd(s, m);
    if m == j + 1 {
      IdentEndIs(s, j, end);
      ScanSkipsWord(s, j, end, prev);
      prev' := 'a';
    } else {
      IdentEndIs(s, j, j + 1);
      ScanSkipsWord(s, j, j + 1, prev);
      prev' := ScanSkipsRun(s, j + 1, end, 'a');
    }
  }

  lemma ScanSkipsWord(s: Bytes, j: nat, end: nat, prev: char)
    requires ExponentAt(s, j) && IdentEnd(s, j) == end && j < end
    ensures Scan(s, j, prev) == Scan(s, end, 'a')
  {
    var word := s[j..end];
    assert word[0] == s[j];
    assert !IsCheckedRoot(word);
    assert RootFrom(word, s, end) == None;
  }

  lemma {:induction false} IdentEndIs(s: Bytes, i: nat, j: nat)
    requires i <= j <= |s| && forall k | i <= k < j :: IsIdentContinue(s[k])
    requires j < |s| ==> !IsIdentContinue(s[j])
    ensures IdentEnd(s, i) == j
    decreases j - i
  {
    if i < j {
      IdentEndIs(s, i + 1, j);
    }
  }

  /** Only an identifier cares whether a dot came before it. */
  lemma DotMatters(ls: seq<Lexeme>)
    requires ls != [] ==> !ls[0].token.Ident?
    ensures PlainReads(ls, true) == PlainReads(ls, false)
  {
  }

  /** The scanner over the bytes finds the plain reads of the lexemes. */
  lemma {:induction false} ScanIsPlain(s: Bytes, i: nat, num: NumberReader, broken: bool, ls: seq<Lexeme>, prev: char)
    requires LexesTo(s, i, num, broken, ls) && Separated(TokensOf(ls))
    ensures Scan(s, i, prev) == PlainReads(ls, prev == '.')
    decreases |s| - i
  {
    if i == |s| {
    } else if IsSpace(s[i]) {
      ScanIsPlain(s, i + 1, num, broken || IsLineBreak(s[i]), ls, prev);
    } else {
      TokenThenRest(s, i, num, broken, ls);
      TokensOfTail(ls);
      var next := LexOne(s, i, num).value.1;
      var prev' := ScanOne(s, i, num, broken, ls, prev);
      ScanIsPlain(s, next, num, false, ls[1..], prev');
      if ls[0].token.Number? {
        DotMatters(ls[1..]);
      }
    }
  }

  /** One token of the scan: what it reads, and the byte it leaves behind. */
  lemma ScanOne(s: Bytes, i: nat, num: NumberReader, broken: bool, ls: seq<Lexeme>, prev: char) returns (prev': char)
    requires LexesTo(s, i, num, broken, ls) && Separated(TokensOf(ls)) && i < |s| && !IsSpace(s[i])
    requires LexOne(s, i, num).Ok? && ls != []
    requires ls[0] == Lexeme(LexOne(s, i, num).value.0, broken)
    requires LexesTo(s, LexOne(s, i, num).value.1, num, false, ls[1..])
    ensures Scan(s, i, prev)
         == (if ls[0].token.Ident? && prev != '.' then Listed(PlainHeadRead(ls)) else [])
            + Scan(s, LexOne(s, i, num).value.1, prev')
    ensures !ls[0].token.Number? ==> (prev' == '.' <==> ls[0].token == Dot)
    ensures ls[0].token.Number? && ls[1..] != [] ==> !ls[1].token.Ident?
  {
    var (token, next) := LexOne(s, i, num).value;
    if Punctuation(s, i).Some? {
      ScanSkipsPunctuation(s, i, num, prev);
      prev' := s[next - 1];
    } else if IsQuote(s[i]) {
      StringEndsAgree(s, i + 1, s[i]);
      prev' := s[i];
    } else if IsIdentStart(s[i]) {
      RootFromIsPlain(token.name, s, next, num, broken, ls[1..]);
      assert ls == [ls[0]] + ls[1..];
      prev' := 'a';
    } else {
      NumberThenNoIdent(s, next, num, ls);
      prev' := ScanSkipsNumber(s, i, prev);
    }
  }

  /** A separated number is followed by neither an identifier token nor an identifier byte. */
  lemma NumberThenNoIdent(s: Bytes, next: nat, num: NumberReader, ls: seq<Lexeme>)
    requires ls != [] && ls[0].token.Number? && Separated(TokensOf(ls))
    requires LexesTo(s, next, num, false, ls[1..])
    requires next < |s| ==> !IsDigit(s[next])
    ensures ls[1..] != [] ==> !ls[1].token.Ident?
    ensures next < |s| ==> !IsIdentContinue(s[next])
  {
    assert |ls| > 1 ==> TokensOf(ls)[0].Number? && TokensOf(ls)[1] == ls[1].token;
    if next < |s| && IsIdentStart(s[next]) {
      TokenThenRest(s, next, num, false, ls[1..]);
      assert false;
    }
  }

  lemma ScanSkipsPunctuation(s: Bytes, i: nat, num: NumberReader, prev: char)
    requires i < |s| && Punctuation(s, i).Some?
    ensures var next := i + Punctuation(s, i).value.1; Scan(s, i, prev) == Scan(s, next, s[next - 1])
    ensures var next := i + Punctuation(s, i).value.1; s[next - 1] == '.' <==> Punctuation(s, i).value.0 == Dot
  {
    if Punctuation(s, i).value.1 == 3 {
      assert Scan(s, i + 1, s[i]) == Scan(s, i + 2, '=') == Scan(s, i + 3, '=');
    }
  }

  // ---------- Main result ----------

  /** The lexemes of an accepted text. */
  ghost function LexemesOf(src: Bytes, num: NumberReader): (ls: seq<Lexeme>)
    requires Valid(src) && Parse(src, num).Ok?
  {
    Lexemes(src, 0, num, false).value
  }

  /** On every text the parser accepts, the lint scanner returns exactly the reads of the parsed
      expression, in source order, if and only if no line break stands inside a checked read. */
  lemma ScannerAgreesWithParser(src: Bytes, num: NumberReader)
    requires Valid(src) && Parse(src, num).Ok?
    ensures Scan(src, 0, 0 as char) == Reads(Parse(src, num).value)
       <==> ReadsOnOneLine(LexemesOf(src, num), false)
  {
    var ls := LexemesOf(src, num);
    var tokens := TokensOf(ls);
    var tree := ParseTree(tokens, EXPR_DEPTH_MAX).value;
    ParserMatchesGrammar(tokens, EXPR_DEPTH_MAX, tree);
    DerivationsAreSeparated(tree);
    ScanIsPlain(src, 0, num, false, ls, 0 as char);
    PlainReadsAreAllReads(ls, false);
    TreeReads(tree, []);
    assert Yield(tree) + [] == tokens;
  }

  /** A text without line breaks is scanned exactly. */
  lemma OneLineTextsAgree(src: Bytes, num: NumberReader)
    requires Valid(src) && Parse(src, num).Ok?
    requires forall b | b in src :: !IsLineBreak(b)
    ensures Scan(src, 0, 0 as char) == Reads(Parse(src, num).value)
  {
    ScannerAgreesWithParser(src, num);
    NoBreakNoBroken(src, 0, num);
    WholeReads(LexemesOf(src, num), false);
  }

  lemma {:induction false} NoBreakNoBroken(s: Bytes, i: nat, num: NumberReader)
    requires i <= |s| && ValidFrom(s, i) && Lexemes(s, i, num, false).Ok?
    requires forall b | b in s :: !IsLineBreak(b)
    ensures forall l | l in Lexemes(s, i, num, false).value :: !l.broken
    decreases |s| - i
  {
    if i < |s| {
      assert s[i] in s;
      if IsSpace(s[i]) {
        NoBreakNoBroken(s, i + 1, num);
      } else {
        NoBreakNoBroken(s, LexOne(s, i, num).value.1, num);
      }
    }
  }

  lemma {:induction false} WholeReads(ls: seq<Lexeme>, afterDot: bool)
    requires forall l | l in ls :: !l.broken
    ensures ReadsOnOneLine(ls, afterDot)
  {
    if ls != [] {
      WholeReads(ls[1..], ls[0].token == Dot);
    }
  }

  /** A line break between a root and its field hides the read from the scanner. */
  lemma LineBreakHidesRead(src: Bytes, num: NumberReader)
    requires src == "inputs\n.x"
    ensures Valid(src) && Parse(src, num) == Ok(Path("inputs", [Field("x")]))
    ensures Scan(src, 0, 0 as char) == []
    ensures Reads(Path("inputs", [Field("x")])) == [Input("x")]
  {
    AsciiIsValid(src, 0);
    IdentEndIs(src, 0, 6);
    IdentEndIs(src, 8, 9);
    LexBrokenRead(src, num);
    var t := [Ident("inputs"), Dot, Ident("x")];
    assert TokensOf(Lexemes(src, 0, num, false).value) == t;
    ParseFieldRead(t);
    ScanBrokenRead(src);
    ReadsOfField(Path("inputs", [Field("x")]));
  }

  lemma ReadsOfField(e: Expr)
    requires e == Path("inputs", [Field("x")])
    ensures Reads(e) == [Input("x")]
  {
    assert ReadsInSteps(e.steps) == ReadsInStep(e.steps[0]) + ReadsInSteps(e.steps[1..]);
  }

  lemma ParseFieldRead(t: seq<Token>)
    requires t == [Ident("inputs"), Dot, Ident("x")]
    ensures ParseTree(t, EXPR_DEPTH_MAX).Ok?
    ensures Abstract(ParseTree(t, EXPR_DEPTH_MAX).value) == Path("inputs", [Field("x")])
  {
    var tree := TPath("inputs", [TField("x")]);
    assert tree.steps[1..] == [];
    assert Yield(tree) == t;
    assert AbstractSteps(tree.steps) == [Field("x")];
    ParserMatchesGrammar(t, EXPR_DEPTH_MAX, tree);
  }

  lemma ScanBrokenRead(src: Bytes)
    requires src == "inputs\n.x" && IdentEnd(src, 0) == 6 && IdentEnd(src, 8) == 9
    ensures Scan(src, 0, 0 as char) == []
  {
    assert src[0..6] == "inputs";
    assert Scan(src, 9, 'a') == [];
    assert Scan(src, 8, '.') == [];
    assert Scan(src, 7, 'a') == [];
    assert Scan(src, 6, 'a') == [];
    assert FieldFrom(src, 6).0 == None;
  }

  lemma LexBrokenRead(src: Bytes, num: NumberReader)
    requires src == "inputs\n.x" && Valid(src) && ValidFrom(src, 8)
    requires IdentEnd(src, 0) == 6 && IdentEnd(src, 8) == 9
    ensures Lexemes(src, 0, num, false)
         == Ok([Lexeme(Ident("inputs"), false), Lexeme(Dot, true), Lexeme(Ident("x"), false)])
  {
    var last: seq<Lexeme> := [Lexeme(Ident("x"), false)];
    assert src[0..6] == "inputs" && src[8..9] == "x";
    assert ValidFrom(src, 7) && ValidFrom(src, 6);
    assert last + [] == last;
    assert LexOne(src, 8, num) == Ok((Ident("x"), 9));
    assert Lexemes(src, 8, num, false) == Ok(last);
    assert LexOne(src, 7, num) == Ok((Dot, 8));
    assert Lexemes(src, 7, num, true) == Ok([Lexeme(Dot, true)] + last);
    assert Lexemes(src, 6, num, false) == Lexemes(src, 7, num, true);
    assert LexOne(src, 0, num) == Ok((Ident("inputs"), 6));
    assert [Lexeme(Ident("inputs"), false)] + ([Lexeme(Dot, true)] + last)
        == [Lexeme(Ident("inputs"), false), Lexeme(Dot, true), Lexeme(Ident("x"), false)];
  }

  lemma {:induction false} AsciiIsValid(s: Bytes, i: nat)
    requires i <= |s| && forall k | 0 <= k < |s| :: IsAscii(s[k])
    ensures ValidFrom(s, i)
    decreases |s| - i
  {
    if i < |s| {
      AsciiIsValid(s, i + 1);
    }
  }
}
