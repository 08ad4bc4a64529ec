/** A printer for expressions, brackets placed by binding power, and its round trip through the lexer and
    the parser.  The program has no printer: this one is the inverse that the parser is measured by. */
module Printer {
  import opened Wrappers
  import opened Limits
  import opened Utf8
  import opened Alphabets
  import opened Lexer
  import opened Syntax
  import opened Parser
  import opened Grammar

  // ---------- Printing ----------

  function LiteralToken(v: Scalar): (t: Token) {
    match v
    case Null => Ident("null")
    case Bool(b) => if b then Ident("true") else Ident("false")
    case Num(lexeme) => Number(lexeme)
    case Text(text) => Str(text)
  }

  /** The derivation of `e` with a bracket exactly where an operand is looser than its place. */
  function Embed(e: Expr): (t: Tree)
    decreases e, 0
  {
    match e
    case Literal(v) => TLiteral(LiteralToken(v))
    case Path(root, steps) => TPath(root, EmbedSteps(steps))
    case Not(operand) => TNot(Bracketed(operand, 3))
    case Binary(op, l, r) => TBinary(op, Bracketed(l, Layer(op)), Bracketed(r, Layer(op) + 1))
  }

  function Bracketed(e: Expr, layer: nat): (t: Tree)
    decreases e, 1
  {
    if e.Binary? && Layer(e.op) < layer then TParen(Embed(e)) else Embed(e)
  }

  function EmbedSteps(steps: seq<Step>): (t: seq<TStep>)
    ensures |t| == |steps|
    decreases steps, 1
  {
    if steps == [] then [] else [EmbedStep(steps[0])] + EmbedSteps(steps[1..])
  }

  function EmbedStep(s: Step): (t: TStep)
    decreases s, 1
  {
    match s
    case Field(name) => TField(name)
    case Index(key) => TIndex(Embed(key))
  }

  /** How a string is written: its quote, and whether only what cannot stand raw is escaped. */
  datatype Style = Style(quote: char, spare: bool)

  const SHOWN := Style('"', false)

  predicate NeedsEscape(b: char, style: Style) {
    || b == style.quote || b == '\\'
    || (!style.spare && (b == '"' || b == '\'' || b == '/' || b == '\n' || b == '\t' || b == '\r'))
  }

  /** The letter behind the backslash. */
  function EscapeLetter(b: char): (letter: char) {
    if b == '\n' then 'n' else if b == '\t' then 't' else if b == '\r' then 'r' else b
  }

  function EscapeByte(b: char, style: Style): (s: Bytes) {
    if NeedsEscape(b, style) then ['\\', EscapeLetter(b)] else [b]
  }

  function Escape(text: Bytes, style: Style): (s: Bytes) {
    if text == [] then [] else EscapeByte(text[0], style) + Escape(text[1..], style)
  }

  function Quoted(text: Bytes, style: Style): (s: Bytes) {
    [style.quote] + Escape(text, style) + [style.quote]
  }

  function ShowToken(t: Token): (s: Bytes) {
    match t
    case LParen => "("
    case RParen => ")"
    case LBracket => "["
    case RBracket => "]"
    case Dot => "."
    case Bang => "!"
    case EqEqEq => "==="
    case BangEqEq => "!=="
    case AmpAmp => "&&"
    case PipePipe => "||"
    case Ident(name) => name
    case Number(lexeme) => lexeme
    case Str(text) => Quoted(text, SHOWN)
  }

  /** The tokens, each followed by a blank. */
  function Show(ts: seq<Token>): (s: Bytes) {
    if ts == [] then [] else ShowToken(ts[0]) + [' '] + Show(ts[1..])
  }

  function Print(e: Expr): (s: Bytes) {
    Show(Yield(Embed(e)))
  }

  // ---------- What can be printed ----------

  /** A lexeme the lexer reads whole as a number. */
  predicate IsNumberLexeme(l: Bytes, num: NumberReader) {
    && l != []
    && (l[0] == '-' || IsDigit(l[0]))
    && NumberEnd(l, 0) == |l|
    && |l| != SignEnd(l, 0)
    && num(l)
  }

  predicate IsLexable(t: Token, num: NumberReader) {
    match t
    case Ident(name) => IsIdent(name)
    case Number(lexeme) => IsNumberLexeme(lexeme, num)
    case Str(text) => Valid(text)
    case _ => true
  }

  /** Names are identifiers, no root is a keyword, numbers are lexemes, and strings are UTF-8. */
  predicate IsPrintable(e: Expr, num: NumberReader) {
    match e
    case Literal(v) => IsLexable(LiteralToken(v), num)
    case Path(root, steps) =>
      && IsIdent(root)
      && !IsKeyword(root)
      && (forall s | s in steps :: IsPrintableStep(s, num))
    case Not(operand) => IsPrintable(operand, num)
    case Binary(_, l, r) => IsPrintable(l, num) && IsPrintable(r, num)
  }

  predicate IsPrintableStep(s: Step, num: NumberReader) {
    match s
    case Field(name) => IsIdent(name)
    case Index(key) => IsPrintable(key, num)
  }

  // ---------- The derivation printed is one of the grammar and stands for the expression ----------

  lemma {:induction false} EmbedIsDerivation(e: Expr, num: NumberReader)
    requires IsPrintable(e, num)
    ensures InLayer(Embed(e), if e.Binary? then Layer(e.op) else 3)
    ensures Abstract(Embed(e)) == e
    ensures forall t | t in Yield(Embed(e)) :: IsLexable(t, num)
    decreases e, 0
  {
    match e
    case Literal(v) =>
    case Path(root, steps) =>
      EmbedStepsAreDerivations(steps, num);
    case Not(operand) =>
      BracketedIsDerivation(operand, 3, num);
    case Binary(op, l, r) =>
      BracketedIsDerivation(l, Layer(op), num);
      BracketedIsDerivation(r, Layer(op) + 1, num);
  }

  lemma {:induction false} BracketedIsDerivation(e: Expr, layer: nat, num: NumberReader)
    requires IsPrintable(e, num) && layer <= 3
    ensures InLayer(Bracketed(e, layer), layer)
    ensures Abstract(Bracketed(e, layer)) == e
    ensures forall t | t in Yield(Bracketed(e, layer)) :: IsLexable(t, num)
    decreases e, 1
  {
    EmbedIsDerivation(e, num);
    LooserLayer(Embed(e), 0, if e.Binary? then Layer(e.op) else 3);
    if !(e.Binary? && Layer(e.op) < layer) {
      LooserLayer(Embed(e), layer, if e.Binary? then Layer(e.op) else 3);
    }
  }

  lemma {:induction false} EmbedStepsAreDerivations(steps: seq<Step>, num: NumberReader)
    requires forall s | s in steps :: IsPrintableStep(s, num)
    ensures forall s | s in EmbedSteps(steps) :: s.TIndex? ==> InLayer(s.key, 0)
    ensures AbstractSteps(EmbedSteps(steps)) == steps
    ensures forall t | t in YieldSteps(EmbedSteps(steps)) :: IsLexable(t, num)
    decreases steps, 1
  {
    if steps != [] {
      assert steps[0] in steps && EmbedSteps(steps)[1..] == EmbedSteps(steps[1..]);
      EmbedStepIsDerivation(steps[0], num);
      EmbedStepsAreDerivations(steps[1..], num);
    }
  }

  lemma {:induction false} EmbedStepIsDerivation(s: Step, num: NumberReader)
    requires IsPrintableStep(s, num)
    ensures EmbedStep(s).TIndex? ==> InLayer(EmbedStep(s).key, 0)
    ensures AbstractStep(EmbedStep(s)) == s
    ensures forall t | t in YieldStep(EmbedStep(s)) :: IsLexable(t, num)
    decreases s, 1
  {
    if s.Index? {
      EmbedIsDerivation(s.key, num);
      LooserLayer(Embed(s.key), 0, if s.key.Binary? then Layer(s.key.op) else 3);
    }
  }

  // ---------- Printed tokens lex back ----------

  /** `text` stands in `s` at `i`. */
  predicate StandsAt(s: Bytes, i: nat, text: Bytes): (b: bool)
    ensures b ==> i + |text| <= |s|
    decreases |text|
  {
    if text == [] then i <= |s| else ByteAt(s, i, text[0]) && StandsAt(s, i + 1, text[1..])
  }

  lemma {:induction false} StandsWhole(s: Bytes, i: nat)
    requires i <= |s|
    ensures StandsAt(s, i, s[i..])
    decreases |s| - i
  {
    if i < |s| {
      StandsWhole(s, i + 1);
      assert s[i..][1..] == s[i + 1..];
    }
  }

  lemma {:induction false} StandsPointwise(s: Bytes, i: nat, text: Bytes)
    requires StandsAt(s, i, text)
    ensures forall k | 0 <= k < |text| :: s[i + k] == text[k]
    decreases |text|
  {
    if text != [] {
      StandsPointwise(s, i + 1, text[1..]);
      forall k | 0 <= k < |text|
        ensures s[i + k] == text[k]
      {
        if k > 0 {
          assert text[1..][k - 1] == text[k];
          assert s[i + 1 + (k - 1)] == text[1..][k - 1];
        }
      }
    }
  }

  lemma {:induction false} StandsAtSplit(s: Bytes, i: nat, a: Bytes, b: Bytes)
    requires StandsAt(s, i, a + b)
    ensures StandsAt(s, i, a) && StandsAt(s, i + |a|, b)
    decreases |a|
  {
    if a == [] {
      assert a + b == b;
    } else {
      assert (a + b)[1..] == a[1..] + b;
      StandsAtSplit(s, i + 1, a[1..], b);
    }
  }

  /** One character stands at `i`. */
  lemma StandsOne(s: Bytes, i: nat, c: char)
    requires StandsAt(s, i, [c])
    ensures ByteAt(s, i, c)
  {
  }

  lemma Separator(s: Bytes, i: nat, a: Bytes, c: char, b: Bytes)
    requires StandsAt(s, i, a + [c] + b)
    ensures StandsAt(s, i, a) && ByteAt(s, i + |a|, c) && StandsAt(s, i + |a| + 1, b)
  {
    StandsAtSplit(s, i, a + [c], b);
    StandsAtSplit(s, i, a, [c]);
    StandsOne(s, i + |a|, c);
  }

  lemma Enclosed(s: Bytes, i: nat, c: char, a: Bytes)
    requires StandsAt(s, i, [c] + a + [c])
    ensures ByteAt(s, i, c) && StandsAt(s, i + 1, a) && ByteAt(s, i + 1 + |a|, c)
  {
    StandsAtSplit(s, i, [c] + a, [c]);
    StandsAtSplit(s, i, [c], a);
    StandsOne(s, i, c);
    StandsOne(s, i + 1 + |a|, c);
  }

  lemma {:induction false} DigitEndLocal(s: Bytes, i: nat, l: Bytes, k: nat)
    requires StandsAt(s, i, l) && k <= |l|
    requires i + |l| < |s| ==> !IsDigit(s[i + |l|])
    ensures DigitEnd(s, i + k) == i + DigitEnd(l, k)
    decreases |l| - k
  {
    StandsPointwise(s, i, l);
    if k < |l| && IsDigit(l[k]) {
      DigitEndLocal(s, i, l, k + 1);
    }
  }

  /** A number followed by a blank ends where it ends on its own. */
  lemma NumberEndLocal(s: Bytes, i: nat, l: Bytes)
    requires StandsAt(s, i, l) && l != [] && i + |l| < |s| && s[i + |l|] == ' '
    ensures SignEnd(s, i) == i + SignEnd(l, 0) && NumberEnd(s, i) == i + NumberEnd(l, 0)
  {
    SignLocal(s, i, l);
    MantissaLocal(s, i, l);
    ExponentLocal(s, i, l, DigitsAndFraction(l, SignEnd(l, 0)));
  }

  lemma MantissaLocal(s: Bytes, i: nat, l: Bytes)
    requires StandsAt(s, i, l) && l != [] && i + |l| < |s| && s[i + |l|] == ' '
    ensures DigitsAndFraction(s, SignEnd(s, i)) == i + DigitsAndFraction(l, SignEnd(l, 0))
  {
    SignLocal(s, i, l);
    FractionLocal(s, i, l, SignEnd(l, 0));
  }

  lemma SignLocal(s: Bytes, i: nat, l: Bytes)
    requires StandsAt(s, i, l) && l != []
    ensures SignEnd(s, i) == i + SignEnd(l, 0) && SignEnd(l, 0) <= |l|
  {
  }

  lemma FractionLocal(s: Bytes, i: nat, l: Bytes, k: nat)
    requires StandsAt(s, i, l) && k <= |l| && i + |l| < |s| && s[i + |l|] == ' '
    ensures DigitsAndFraction(s, i + k) == i + DigitsAndFraction(l, k)
  {
    StandsPointwise(s, i, l);
    DigitEndLocal(s, i, l, k);
    var j := DigitEnd(l, k);
    if ByteAt(l, j, '.') {
      DigitEndLocal(s, i, l, j + 1);
    }
  }

  lemma ExponentLocal(s: Bytes, i: nat, l: Bytes, k: nat)
    requires StandsAt(s, i, l) && k <= |l| && i + |l| < |s| && s[i + |l|] == ' '
    ensures ExponentEnd(s, i + k) == i + ExponentEnd(l, k)
  {
    StandsPointwise(s, i, l);
    if ExponentAt(l, k) {
      DigitEndLocal(s, i, l, MarkerEnd(l, k));
    }
  }

  lemma {:induction false} IdentEndLocal(s: Bytes, i: nat, j: nat)
    requires i <= j < |s| && forall k | i <= k < j :: IsIdentContinue(s[k])
    requires !IsIdentContinue(s[j])
    ensures IdentEnd(s, i) == j
    decreases j - i
  {
    if i < j {
      IdentEndLocal(s, i + 1, j);
    }
  }

  lemma {:induction false} EscapeCharacter(text: Bytes, w: nat, style: Style)
    requires 1 <= w <= |text| && IsQuote(style.quote) && forall k | 1 <= k < w :: IsContinuation(text[k])
    ensures Escape(text, style) == EscapeByte(text[0], style) + text[1..w] + Escape(text[w..], style)
    decreases w
  {
    if w == 1 {
      assert text[1..1] == [];
    } else {
      EscapeCharacter(text, w - 1, style);
      var rest := text[w - 1..];
      assert rest[1..] == text[w..];
      assert Escape(rest, style) == [text[w - 1]] + Escape(text[w..], style);
      assert text[1..w] == text[1..w - 1] + [text[w - 1]];
    }
  }

  /** The literal read from `i` on is the text from `k` on. */
  predicate ReadsText(s: Bytes, i: nat, text: Bytes, k: nat, quote: char, next: nat)
    requires k <= |text|
  {
    && i <= |s| && ValidFrom(s, i) && IsQuote(quote)
    && StringFrom(s, i, quote) == Ok((text[k..], next))
  }

  lemma RawCharacter(s: Bytes, i: nat, text: Bytes, k: nat, quote: char, next: nat)
    requires k < |text| && WholeAt(text, k) && text[k] != quote && text[k] != '\\'
    requires StandsAt(s, i, text[k..k + Width(text[k])])
    requires ReadsText(s, i + Width(text[k]), text, k + Width(text[k]), quote, next)
    ensures ReadsText(s, i, text, k, quote, next)
  {
    StandsPointwise(s, i, text[k..k + Width(text[k])]);
    var w := Width(text[k]);
    var head := text[k..k + w];
    assert s[i + 0] == head[0];
    forall m | i < m < i + w
      ensures IsContinuation(s[m])
    {
      assert s[i + (m - i)] == head[m - i];
    }
    assert s[i..i + w] == head;
    assert text[k..] == head + text[k + w..];
  }

  lemma EscapedCharacter(s: Bytes, i: nat, text: Bytes, k: nat, style: Style, next: nat)
    requires k < |text| && IsQuote(style.quote) && NeedsEscape(text[k], style)
    requires StandsAt(s, i, ['\\', EscapeLetter(text[k])])
    requires ReadsText(s, i + 2, text, k + 1, style.quote, next)
    ensures ReadsText(s, i, text, k, style.quote, next)
  {
    var head := ['\\', EscapeLetter(text[k])];
    StandsPointwise(s, i, head);
    assert s[i + 0] == head[0] && s[i + 1] == head[1];
    EscapeLetterIsRead(text[k], style);
    assert ValidFrom(s, i + 1);
    assert text[k..] == [text[k]] + text[k + 1..];
  }

  lemma EscapeLetterIsRead(b: char, style: Style)
    requires IsQuote(style.quote) && NeedsEscape(b, style)
    ensures Unescape(EscapeLetter(b)) == Some(b) && IsAscii(EscapeLetter(b))
  {
  }

  /** What the character at `k` is printed as. */
  function ShownCharacter(text: Bytes, k: nat, style: Style): (s: Bytes)
    requires k < |text| && WholeAt(text, k)
  {
    if NeedsEscape(text[k], style) then ['\\', EscapeLetter(text[k])] else text[k..k + Width(text[k])]
  }

  lemma EscapeStep(text: Bytes, k: nat, style: Style)
    requires k < |text| && WholeAt(text, k) && IsQuote(style.quote)
    ensures Escape(text[k..], style)
         == ShownCharacter(text, k, style) + Escape(text[k + Width(text[k])..], style)
  {
    var rest, w := text[k..], Width(text[k]);
    EscapeCharacter(rest, w, style);
    assert rest[w..] == text[k + w..];
    assert ShownCharacter(text, k, style) == EscapeByte(rest[0], style) + rest[1..w];
  }

  /** The text from `k` on stands at `i`, escaped, with its closing quote before `next`. */
  predicate TextStands(s: Bytes, i: nat, text: Bytes, k: nat, style: Style, next: nat)
    requires k <= |text|
  {
    && StandsAt(s, i, Escape(text[k..], style)) && next == i + |Escape(text[k..], style)| + 1
    && IsQuote(style.quote) && ByteAt(s, next - 1, style.quote) && ValidFrom(s, next)
  }

  lemma CharacterStands(s: Bytes, i: nat, text: Bytes, k: nat, style: Style, next: nat)
    requires k < |text| && WholeAt(text, k) && TextStands(s, i, text, k, style, next)
    ensures StandsAt(s, i, ShownCharacter(text, k, style))
    ensures TextStands(s, i + |ShownCharacter(text, k, style)|, text, k + Width(text[k]), style, next)
  {
    EscapeStep(text, k, style);
    StandsAtSplit(s, i, ShownCharacter(text, k, style), Escape(text[k + Width(text[k])..], style));
  }

  lemma QuoteEndsText(s: Bytes, i: nat, text: Bytes, style: Style, next: nat)
    requires TextStands(s, i, text, |text|, style, next)
    ensures ReadsText(s, i, text, |text|, style.quote, next)
  {
    assert Escape(text[|text|..], style) == [];
  }

  lemma OneCharacter(s: Bytes, i: nat, text: Bytes, k: nat, style: Style, next: nat)
    requires k < |text| && WholeAt(text, k) && StandsAt(s, i, ShownCharacter(text, k, style))
    requires ReadsText(s, i + |ShownCharacter(text, k, style)|, text, k + Width(text[k]), style.quote, next)
    ensures ReadsText(s, i, text, k, style.quote, next)
  {
    if NeedsEscape(text[k], style) {
      EscapedCharacter(s, i, text, k, style, next);
    } else {
      RawCharacter(s, i, text, k, style.quote, next);
    }
  }

  /** An escaped text and a closing quote decode to the text. */
  lemma {:induction false} StringLexesBack(s: Bytes, i: nat, text: Bytes, k: nat, style: Style, next: nat)
    requires k <= |text| && ValidFrom(text, k) && TextStands(s, i, text, k, style, next)
    ensures ReadsText(s, i, text, k, style.quote, next)
    decreases |text| - k
  {
    if k < |text| {
      CharacterStands(s, i, text, k, style, next);
      StringLexesBack(s, i + |ShownCharacter(text, k, style)|, text, k + Width(text[k]), style, next);
      OneCharacter(s, i, text, k, style, next);
    } else {
      QuoteEndsText(s, i, text, style, next);
    }
  }

  /** `LexOne` at `i` reads `t`, which ends at `j`. */
  predicate Lexes(s: Bytes, i: nat, j: nat, t: Token, num: NumberReader) {
    i < |s| && !IsSpace(s[i]) && ValidFrom(s, i) && LexOne(s, i, num) == Ok((t, j))
  }

  lemma IdentLexesBack(s: Bytes, i: nat, name: Bytes, num: NumberReader)
    requires IsIdent(name) && StandsAt(s, i, name) && ByteAt(s, i + |name|, ' ') && ValidFrom(s, i + |name|)
    ensures Lexes(s, i, i + |name|, Ident(name), num)
  {
    StandsPointwise(s, i, name);
    var j := i + |name|;
    assert s[i + 0] == name[0];
    forall k | i <= k < j
      ensures IsIdentContinue(s[k])
    {
      assert s[i + (k - i)] == name[k - i];
    }
    IdentEndLocal(s, i, j);
    AsciiValid(s, i, j);
    assert s[i..j] == name;
  }

  lemma NumberLexesBack(s: Bytes, i: nat, lexeme: Bytes, num: NumberReader)
    requires IsNumberLexeme(lexeme, num) && StandsAt(s, i, lexeme)
    requires ByteAt(s, i + |lexeme|, ' ') && ValidFrom(s, i + |lexeme|)
    ensures Lexes(s, i, i + |lexeme|, Number(lexeme), num)
  {
    NumberEndLocal(s, i, lexeme);
    NumberStands(s, i, lexeme);
  }

  lemma NumberStands(s: Bytes, i: nat, lexeme: Bytes)
    requires lexeme != [] && NumberEnd(lexeme, 0) == |lexeme| && StandsAt(s, i, lexeme)
    requires ValidFrom(s, i + |lexeme|)
    ensures s[i] == lexeme[0] && s[i..i + |lexeme|] == lexeme && ValidFrom(s, i)
  {
    StandsPointwise(s, i, lexeme);
    assert s[i + 0] == lexeme[0];
    forall k | i <= k < i + |lexeme|
      ensures s[k] == lexeme[k - i] && IsAscii(s[k])
    {
      assert s[i + (k - i)] == lexeme[k - i];
    }
    AsciiValid(s, i, i + |lexeme|);
  }

  lemma TextLexesBack(s: Bytes, i: nat, text: Bytes, style: Style, num: NumberReader)
    requires Valid(text) && IsQuote(style.quote)
    requires StandsAt(s, i, Quoted(text, style)) && ValidFrom(s, i + |Quoted(text, style)|)
    ensures Lexes(s, i, i + |Quoted(text, style)|, Str(text), num)
  {
    QuotedStands(s, i, text, style);
    assert text[0..] == text;
    StringLexesBack(s, i + 1, text, 0, style, i + |Escape(text, style)| + 2);
  }

  /** A quoted string is a quote, the escaped text, and a quote. */
  lemma QuotedStands(s: Bytes, i: nat, text: Bytes, style: Style)
    requires StandsAt(s, i, Quoted(text, style))
    ensures |Quoted(text, style)| == |Escape(text, style)| + 2
    ensures ByteAt(s, i, style.quote) && StandsAt(s, i + 1, Escape(text, style))
    ensures ByteAt(s, i + 1 + |Escape(text, style)|, style.quote)
  {
    Enclosed(s, i, style.quote, Escape(text, style));
  }

  /** A literal in either kind of quotes, with its escapes, or with everything raw that may be, is one token
      that holds the text. */
  lemma QuotedTextIsRead(text: Bytes, style: Style, num: NumberReader)
    requires Valid(text) && IsQuote(style.quote)
    ensures var s := Quoted(text, style); Lexes(s, 0, |s|, Str(text), num)
  {
    var s := Quoted(text, style);
    StandsWhole(s, 0);
    assert s[0..] == s;
    TextLexesBack(s, 0, text, style, num);
  }

  /** A shown token followed by a blank lexes back to the token. */
  lemma TokenLexesBack(s: Bytes, i: nat, t: Token, num: NumberReader)
    requires IsLexable(t, num) && StandsAt(s, i, ShowToken(t))
    requires ByteAt(s, i + |ShowToken(t)|, ' ') && ValidFrom(s, i + |ShowToken(t)|)
    ensures Lexes(s, i, i + |ShowToken(t)|, t, num)
  {
    match t
    case Ident(name) => IdentLexesBack(s, i, name, num);
    case Number(lexeme) => NumberLexesBack(s, i, lexeme, num);
    case Str(text) => TextLexesBack(s, i, text, SHOWN, num);
    case _ => PunctuationLexesBack(s, i, t, num);
  }

  lemma PunctuationLexesBack(s: Bytes, i: nat, t: Token, num: NumberReader)
    requires !t.Ident? && !t.Number? && !t.Str?
    requires StandsAt(s, i, ShowToken(t)) && ByteAt(s, i + |ShowToken(t)|, ' ') && ValidFrom(s, i + |ShowToken(t)|)
    ensures Lexes(s, i, i + |ShowToken(t)|, t, num)
  {
    PunctuationStands(s, i, t);
    AsciiValid(s, i, i + |ShowToken(t)|);
  }

  lemma PunctuationStands(s: Bytes, i: nat, t: Token)
    requires !t.Ident? && !t.Number? && !t.Str?
    requires StandsAt(s, i, ShowToken(t)) && ByteAt(s, i + |ShowToken(t)|, ' ')
    ensures Punctuation(s, i) == Some((t, |ShowToken(t)|)) && !IsSpace(s[i])
  {
    StandsPointwise(s, i, ShowToken(t));
    StandsPointwise(s, i, ShowToken(t));
    var text := ShowToken(t);
    assert s[i + 0] == text[0];
    if |text| > 1 {
      assert s[i + 1] == text[1];
    }
    if |text| > 2 {
      assert s[i + 2] == text[2];
    }
  }

  lemma {:induction false} AsciiValid(s: Bytes, i: nat, j: nat)
    requires i <= j <= |s| && ValidFrom(s, j) && forall k | i <= k < j :: IsAscii(s[k])
    ensures ValidFrom(s, i)
    decreases j - i
  {
    if i < j {
      AsciiValid(s, i + 1, j);
    }
  }

  /** From `i` on, `s` lexes to the tokens `ts`. */
  predicate LexesBack(s: Bytes, i: nat, ts: seq<Token>, num: NumberReader) {
    && i <= |s| && ValidFrom(s, i)
    && Lexemes(s, i, num, false).Ok?
    && TokensOf(Lexemes(s, i, num, false).value) == ts
  }

  lemma TokenThenBlank(s: Bytes, i: nat, j: nat, t: Token, rest: seq<Token>, num: NumberReader)
    requires Lexes(s, i, j, t, num) && ByteAt(s, j, ' ') && LexesBack(s, j + 1, rest, num)
    ensures LexesBack(s, i, [t] + rest, num)
  {
    assert Lexemes(s, j, num, false) == Lexemes(s, j + 1, num, false);
    var lexemes := Lexemes(s, j, num, false).value;
    assert TokensOf([Lexeme(t, false)] + lexemes) == [t] + TokensOf(lexemes);
  }

  lemma {:induction false} ShownLexesBack(s: Bytes, i: nat, ts: seq<Token>, num: NumberReader)
    requires StandsAt(s, i, Show(ts)) && i + |Show(ts)| == |s|
    requires forall t | t in ts :: IsLexable(t, num)
    ensures LexesBack(s, i, ts, num)
    decreases |ts|
  {
    if ts != [] {
      var j := i + |ShowToken(ts[0])|;
      FirstShown(s, i, ts);
      ShownLexesBack(s, j + 1, ts[1..], num);
      ConsLexesBack(s, i, j, ts[0], ts[1..], num);
      FirstAndRest(ts);
    } else {
      NothingLexesBack(s, i, num);
    }
  }

  lemma FirstAndRest(ts: seq<Token>)
    requires ts != []
    ensures ts == [ts[0]] + ts[1..]
  {
  }

  lemma NothingLexesBack(s: Bytes, i: nat, num: NumberReader)
    requires i == |s|
    ensures LexesBack(s, i, [], num)
  {
  }

  lemma ConsLexesBack(s: Bytes, i: nat, j: nat, t: Token, rest: seq<Token>, num: NumberReader)
    requires IsLexable(t, num) && StandsAt(s, i, ShowToken(t)) && j == i + |ShowToken(t)|
    requires ByteAt(s, j, ' ') && LexesBack(s, j + 1, rest, num)
    ensures LexesBack(s, i, [t] + rest, num)
  {
    AsciiValid(s, j, j + 1);
    TokenLexesBack(s, i, t, num);
    TokenThenBlank(s, i, j, t, rest, num);
  }

  lemma ShowUnfolds(ts: seq<Token>)
    requires ts != []
    ensures Show(ts) == ShowToken(ts[0]) + [' '] + Show(ts[1..])
  {
  }

  /** The first token, a blank, then the other tokens. */
  lemma FirstShown(s: Bytes, i: nat, ts: seq<Token>)
    requires ts != [] && StandsAt(s, i, Show(ts)) && i + |Show(ts)| == |s|
    ensures var j := i + |ShowToken(ts[0])|;
            && StandsAt(s, i, ShowToken(ts[0])) && ByteAt(s, j, ' ')
            && StandsAt(s, j + 1, Show(ts[1..])) && j + 1 + |Show(ts[1..])| == |s|
  {
    ShowUnfolds(ts);
    var a, b := ShowToken(ts[0]), Show(ts[1..]);
    assert StandsAt(s, i, a + [' '] + b);
    Separator(s, i, a, ' ', b);
  }

  // ---------- What the lexer takes ----------

  /** Every token but a string is its own text. */
  lemma TokenIsItsText(s: Bytes, i: nat, num: NumberReader)
    requires i < |s| && ValidFrom(s, i) && LexOne(s, i, num).Ok?
    ensures var (t, j) := LexOne(s, i, num).value; t.Str? || s[i..j] == ShowToken(t)
  {
    var (t, j) := LexOne(s, i, num).value;
    if Punctuation(s, i).Some? {
      assert s[i..j][0] == s[i];
      assert j - i > 1 ==> s[i..j][1] == s[i + 1];
      assert j - i > 2 ==> s[i..j][2] == s[i + 2];
    }
  }

  /** Which letters a backslash may stand before. */
  lemma EscapesAreListed(letter: char, num: NumberReader)
    requires IsAscii(letter)
    ensures var s := ['"', '\\', letter, '"'];
            Valid(s) && (LexOne(s, 0, num).Ok? <==> letter in "\\\"'/ntr")
  {
    var s := ['"', '\\', letter, '"'];
    assert ValidFrom(s, 4) && ValidFrom(s, 3) && ValidFrom(s, 2) && ValidFrom(s, 1);
    if Unescape(letter).Some? {
      assert StringFrom(s, 3, '"') == Ok(([], 4));
    }
  }

  /** The text of a JSON number (section 6 of RFC 8259): sign, digits, fraction, exponent. */
  function NumberText(negative: bool, whole: Bytes, fraction: Option<Bytes>, exponent: Option<(char, Bytes, Bytes)>): (l: Bytes) {
    (if negative then "-" else "") + whole + FractionText(fraction) + ExponentText(exponent)
  }

  function FractionText(fraction: Option<Bytes>): (l: Bytes) {
    match fraction case Some(digits) => "." + digits case None => ""
  }

  function ExponentText(exponent: Option<(char, Bytes, Bytes)>): (l: Bytes) {
    match exponent case Some((mark, sign, digits)) => [mark] + sign + digits case None => ""
  }

  predicate AreDigits(s: Bytes) { s != [] && forall b | b in s :: b in DIGITS }

  lemma {:induction false} DigitEndIs(s: Bytes, i: nat, j: nat)
    requires i <= j <= |s| && (forall k | i <= k < j :: IsDigit(s[k])) && (j < |s| ==> !IsDigit(s[j]))
    ensures DigitEnd(s, i) == j
    decreases j - i
  {
    if i < j {
      DigitEndIs(s, i + 1, j);
    }
  }

  /** A run of digits between two texts. */
  lemma DigitsBetween(a: Bytes, digits: Bytes, b: Bytes)
    requires AreDigits(digits) && (b != [] ==> b[0] !in DIGITS)
    ensures DigitEnd(a + digits + b, |a|) == |a| + |digits|
  {
    var s, j := a + digits + b, |a| + |digits|;
    forall k | |a| <= k < j
      ensures IsDigit(s[k])
    {
      assert s[k] == digits[k - |a|] && digits[k - |a|] in digits;
      DigitIsListed(s[k]);
    }
    if b != [] {
      assert s[j] == b[0];
      DigitIsListed(b[0]);
    }
    DigitEndIs(s, |a|, j);
  }

  /** The lexer takes a JSON number whole. */
  lemma JsonNumberIsTaken(negative: bool, whole: Bytes, fraction: Option<Bytes>, exponent: Option<(char, Bytes, Bytes)>)
    requires AreDigits(whole)
    requires fraction.Some? ==> AreDigits(fraction.value)
    requires exponent.Some? ==>
               exponent.value.0 in "eE" && exponent.value.1 in ["", "+", "-"] && AreDigits(exponent.value.2)
    ensures var l := NumberText(negative, whole, fraction, exponent);
            NumberEnd(l, 0) == |l| && SignEnd(l, 0) == (if negative then 1 else 0) < |l|
  {
    var l := NumberText(negative, whole, fraction, exponent);
    var sign: Bytes := if negative then "-" else "";
    var tail := ExponentText(exponent);
    var front := sign + whole + FractionText(fraction);
    DigitIsListed('e');
    DigitIsListed('E');
    MantissaIsTaken(sign, whole, fraction, tail);
    SignIsTaken(sign, whole, FractionText(fraction) + tail);
    assert l == sign + whole + (FractionText(fraction) + tail) && l == front + tail;
    if exponent.Some? {
      ExponentIsTaken(front, exponent.value.0, exponent.value.1, exponent.value.2);
    }
  }

  lemma SignIsTaken(sign: Bytes, whole: Bytes, rest: Bytes)
    requires sign in ["", "-"] && AreDigits(whole)
    ensures SignEnd(sign + whole + rest, 0) == |sign|
  {
    var l := sign + whole + rest;
    assert whole[0] in whole && l[|sign|] == whole[0];
    DigitIsListed('-');
    assert sign != [] ==> l[0] == sign[0];
  }

  lemma MantissaIsTaken(sign: Bytes, whole: Bytes, fraction: Option<Bytes>, tail: Bytes)
    requires AreDigits(whole) && (fraction.Some? ==> AreDigits(fraction.value))
    requires tail != [] ==> tail[0] !in DIGITS && tail[0] != '.'
    ensures var front := sign + whole + FractionText(fraction); DigitsAndFraction(front + tail, |sign|) == |front|
  {
    DigitIsListed('.');
    var point := FractionText(fraction);
    var l := sign + whole + point + tail;
    DigitsBetween(sign, whole, point + tail);
    assert l == sign + whole + (point + tail);
    var at := |sign| + |whole|;
    if fraction.Some? {
      DigitsBetween(sign + whole + ".", fraction.value, tail);
      assert l == (sign + whole + ".") + fraction.value + tail && l[at] == '.';
    } else {
      assert at < |l| ==> l[at] == tail[0];
    }
  }

  lemma ExponentIsTaken(front: Bytes, mark: char, sign: Bytes, digits: Bytes)
    requires mark in "eE" && sign in ["", "+", "-"] && AreDigits(digits)
    ensures var l := front + ([mark] + sign + digits); ExponentEnd(l, |front|) == |l|
  {
    var l := front + ([mark] + sign + digits);
    var before := front + [mark] + sign;
    assert l == before + digits + [];
    assert l[|front|] == mark;
    assert digits[0] in digits && l[|before|] == digits[0];
    DigitIsListed(digits[0]);
    assert sign != [] ==> l[|front| + 1] == sign[0];
    DigitsBetween(before, digits, []);
    assert MarkerEnd(l, |front|) == |before|;
  }

  // ---------- Whatever parses can be printed ----------

  /** A run of digits that ends inside a slice ends there in the slice. */
  lemma {:induction false} DigitEndInSlice(s: Bytes, i: nat, j: nat, k: nat)
    requires i <= k <= j <= |s| && DigitEnd(s, k) <= j
    ensures DigitEnd(s[i..j], k - i) == DigitEnd(s, k) - i
    decreases j - k
  {
    if k < j && IsDigit(s[k]) {
      DigitEndInSlice(s, i, j, k + 1);
    }
  }

  lemma FractionInSlice(s: Bytes, i: nat, j: nat, k: nat)
    requires i <= k <= j <= |s| && DigitsAndFraction(s, k) <= j
    ensures DigitsAndFraction(s[i..j], k - i) == DigitsAndFraction(s, k) - i
  {
    DigitEndInSlice(s, i, j, k);
    var d := DigitEnd(s, k);
    if ByteAt(s, d, '.') {
      DigitEndInSlice(s, i, j, d + 1);
    }
  }

  lemma ExponentInSlice(s: Bytes, i: nat, j: nat, k: nat)
    requires i <= k <= j <= |s| && ExponentEnd(s, k) <= j
    ensures ExponentEnd(s[i..j], k - i) == ExponentEnd(s, k) - i
  {
    if ExponentAt(s, k) {
      DigitEndInSlice(s, i, j, MarkerEnd(s, k));
    }
  }

  lemma NumberEndInSlice(s: Bytes, i: nat)
    requires i < |s| && NumberEnd(s, i) > SignEnd(s, i)
    ensures SignEnd(s[i..NumberEnd(s, i)], 0) == SignEnd(s, i) - i
    ensures NumberEnd(s[i..NumberEnd(s, i)], 0) == NumberEnd(s, i) - i
  {
    var j, a := NumberEnd(s, i), SignEnd(s, i);
    FractionInSlice(s, i, j, a);
    ExponentInSlice(s, i, j, DigitsAndFraction(s, a));
  }

  lemma {:induction false} ValidConcat(a: Bytes, b: Bytes, k: nat)
    requires k <= |a| && ValidFrom(a, k) && Valid(b)
    ensures ValidFrom(a + b, k)
    decreases |a| - k
  {
    if k < |a| {
      ValidConcat(a, b, k + Width(a[k]));
    } else {
      ValidShift(a, b, 0);
    }
  }

  lemma {:induction false} ValidShift(a: Bytes, b: Bytes, k: nat)
    requires k <= |b| && ValidFrom(b, k)
    ensures ValidFrom(a + b, |a| + k)
    decreases |b| - k
  {
    if k < |b| {
      forall m | |a| + k < m < |a| + k + Width(b[k])
        ensures IsContinuation((a + b)[m])
      {
        assert (a + b)[m] == b[m - |a|];
      }
      ValidShift(a, b, k + Width(b[k]));
    }
  }

  lemma {:induction false} LiteralIsValid(s: Bytes, i: nat, quote: char)
    requires i <= |s| && ValidFrom(s, i) && IsAscii(quote) && StringFrom(s, i, quote).Ok?
    ensures Valid(StringFrom(s, i, quote).value.0)
    decreases |s| - i
  {
    if s[i] == quote {
    } else if s[i] == '\\' {
      assert ValidFrom(s, i + 1);
      LiteralIsValid(s, i + 2, quote);
      var head := [Unescape(s[i + 1]).value];
      assert ValidFrom(head, 1);
      ValidConcat(head, StringFrom(s, i + 2, quote).value.0, 0);
    } else {
      var w := Width(s[i]);
      LiteralIsValid(s, i + w, quote);
      var head := s[i..i + w];
      assert ValidFrom(head, w);
      ValidConcat(head, StringFrom(s, i + w, quote).value.0, 0);
    }
  }

  lemma LexedIsLexable(s: Bytes, i: nat, num: NumberReader)
    requires i < |s| && ValidFrom(s, i) && LexOne(s, i, num).Ok?
    ensures IsLexable(LexOne(s, i, num).value.0, num)
  {
    if Punctuation(s, i).Some? {
    } else if IsQuote(s[i]) {
      LiteralIsValid(s, i + 1, s[i]);
    } else if s[i] == '-' || IsDigit(s[i]) {
      assert NumberEnd(s, i) >= SignEnd(s, i);
      NumberEndInSlice(s, i);
    }
  }

  lemma {:induction false} LexemesAreLexable(s: Bytes, i: nat, num: NumberReader, broken: bool)
    requires i <= |s| && ValidFrom(s, i) && Lexemes(s, i, num, broken).Ok?
    ensures forall l | l in Lexemes(s, i, num, broken).value :: IsLexable(l.token, num)
    decreases |s| - i
  {
    if i < |s| {
      if IsSpace(s[i]) {
        LexemesAreLexable(s, i + 1, num, broken || IsLineBreak(s[i]));
      } else {
        LexedIsLexable(s, i, num);
        LexemesAreLexable(s, LexOne(s, i, num).value.1, num, false);
      }
    }
  }

  lemma {:induction false} DerivedIsPrintable(t: Tree, num: NumberReader)
    requires InLayer(t, 0) && forall x | x in Yield(t) :: IsLexable(x, num)
    ensures IsPrintable(Abstract(t), num)
    decreases t, 0
  {
    match t
    case TLiteral(token) => assert token in Yield(t);
    case TPath(root, steps) =>
      assert Ident(root) in Yield(t);
      DerivedStepsArePrintable(steps, num);
    case TNot(e) =>
      LooserLayer(e, 0, 3);
      DerivedIsPrintable(e, num);
    case TParen(e) =>
      DerivedIsPrintable(e, num);
    case TBinary(op, l, r) =>
      LooserLayer(l, 0, Layer(op));
      LooserLayer(r, 0, Layer(op) + 1);
      DerivedIsPrintable(l, num);
      DerivedIsPrintable(r, num);
  }

  lemma {:induction false} DerivedStepsArePrintable(steps: seq<TStep>, num: NumberReader)
    requires forall s | s in steps :: s.TIndex? ==> InLayer(s.key, 0)
    requires forall x | x in YieldSteps(steps) :: IsLexable(x, num)
    ensures forall s | s in AbstractSteps(steps) :: IsPrintableStep(s, num)
    decreases steps, 1
  {
    if steps != [] {
      DerivedStepIsPrintable(steps[0], num);
      DerivedStepsArePrintable(steps[1..], num);
    }
  }

  lemma {:induction false} DerivedStepIsPrintable(s: TStep, num: NumberReader)
    requires s.TIndex? ==> InLayer(s.key, 0)
    requires forall x | x in YieldStep(s) :: IsLexable(x, num)
    ensures IsPrintableStep(AbstractStep(s), num)
    decreases s, 1
  {
    match s
    case TField(name) => assert Ident(name) in YieldStep(s);
    case TIndex(key) => DerivedIsPrintable(key, num);
  }

  // ---------- Main results ----------

  /** Printing and parsing back gives the same expression. */
  lemma PrintThenParse(e: Expr, num: NumberReader)
    requires IsPrintable(e, num)
    requires |Print(e)| <= EXPR_LEN_MAX_BYTES && Nesting(Embed(e)) <= EXPR_DEPTH_MAX
    ensures Valid(Print(e)) && Parse(Print(e), num) == Ok(e)
  {
    var tree := Embed(e);
    EmbedIsDerivation(e, num);
    LooserLayer(tree, 0, if e.Binary? then Layer(e.op) else 3);
    StandsWhole(Print(e), 0);
    assert Print(e)[0..] == Print(e);
    ShownLexesBack(Print(e), 0, Yield(tree), num);
    ParserMatchesGrammar(Yield(tree), EXPR_DEPTH_MAX, tree);
  }

  /** Every parsed expression is printable, so its printed form parses to the same expression again. */
  lemma ParseThenPrint(src: Bytes, num: NumberReader)
    requires Valid(src) && Parse(src, num).Ok?
    ensures IsPrintable(Parse(src, num).value, num)
    ensures var e := Parse(src, num).value;
            |Print(e)| <= EXPR_LEN_MAX_BYTES && Nesting(Embed(e)) <= EXPR_DEPTH_MAX ==>
              Valid(Print(e)) && Parse(Print(e), num) == Ok(e)
  {
    var tokens := Tokens(src, num).value;
    var tree := ParseTree(tokens, EXPR_DEPTH_MAX).value;
    LexemesAreLexable(src, 0, num, false);
    ParserMatchesGrammar(tokens, EXPR_DEPTH_MAX, tree);
    DerivedIsPrintable(tree, num);
    var e := Parse(src, num).value;
    if |Print(e)| <= EXPR_LEN_MAX_BYTES && Nesting(Embed(e)) <= EXPR_DEPTH_MAX {
      PrintThenParse(e, num);
    }
  }
}
