/** The tokenizer of `${{ … }}` expressions (crates/tmx-core/src/interpolate.rs). */
module Lexer {
  import opened Wrappers
  import opened Utf8
  import opened Alphabets

  datatype Token =
    | LParen | RParen | LBracket | RBracket | Dot | Bang
    | EqEqEq | BangEqEq | AmpAmp | PipePipe
    | Ident(name: Bytes)
    | Number(lexeme: Bytes)
    | Str(text: Bytes)

  /** The error codes `expr_too_long`, `expr_too_deep` and `expr_parse_error`. */
  datatype ExprError = TooLong | TooDeep | Malformed

  /** Whether `serde_json` reads a lexeme as a number: a library call, hence a parameter. */
  type NumberReader = Bytes -> bool

  /** A token, and whether the white space before it contains a line break. */
  datatype Lexeme = Lexeme(token: Token, broken: bool)

  predicate IsSpace(b: char) { b == ' ' || b == '\t' || b == '\r' || b == '\n' }

  predicate IsLineBreak(b: char) { b == '\r' || b == '\n' }

  predicate IsDigit(b: char) { '0' <= b <= '9' }

  predicate IsIdentStart(b: char) { 'a' <= b <= 'z' || 'A' <= b <= 'Z' || b == '_' }

  predicate IsIdentContinue(b: char) { IsIdentStart(b) || IsDigit(b) }

  predicate IsQuote(b: char) { b == '"' || b == '\'' }

  predicate IsIdent(s: Bytes) {
    s != [] && IsIdentStart(s[0]) && forall i | 0 <= i < |s| :: IsIdentContinue(s[i])
  }

  /** The classes, listed. */
  lemma ClassesAreListed(b: char)
    ensures IsSpace(b) <==> b in " \t\r\n"
    ensures IsDigit(b) <==> b in DIGITS
    ensures IsIdentStart(b) <==> b in UPPER + LOWER + "_"
    ensures IsIdentContinue(b) <==> b in UPPER + LOWER + "_" + DIGITS
    ensures IsQuote(b) <==> b in "\"'"
  {
    UpperIsListed(b);
    LowerIsListed(b);
    DigitIsListed(b);
  }

  // ---------- The specification: what the source lexes to from an index on ----------

  predicate ByteAt(s: Bytes, i: nat, b: char) { i < |s| && s[i] == b }

  /** The end of the longest run of identifier bytes from `i`. */
  function IdentEnd(s: Bytes, i: nat): (j: nat)
    requires i <= |s|
    ensures i <= j <= |s|
    ensures forall k | i <= k < j :: IsIdentContinue(s[k])
    ensures j < |s| ==> !IsIdentContinue(s[j])
    decreases |s| - i
  {
    if i < |s| && IsIdentContinue(s[i]) then IdentEnd(s, i + 1) else i
  }

  /** The end of the longest run of digits from `i`. */
  function DigitEnd(s: Bytes, i: nat): (j: nat)
    requires i <= |s|
    ensures i <= j <= |s|
    ensures forall k | i <= k < j :: IsDigit(s[k])
    ensures j < |s| ==> !IsDigit(s[j])
    decreases |s| - i
  {
    if i < |s| && IsDigit(s[i]) then DigitEnd(s, i + 1) else i
  }

  function SignEnd(s: Bytes, i: nat): (j: nat) { if ByteAt(s, i, '-') then i + 1 else i }

  /** The end of the digits at `i` and of the fraction after them, if there is one. */
  function DigitsAndFraction(s: Bytes, i: nat): (j: nat)
    requires i <= |s|
    ensures i <= j <= |s|
    ensures forall k | i <= k < j :: IsDigit(s[k]) || s[k] == '.'
    ensures j < |s| ==> !IsDigit(s[j])
  {
    var j := DigitEnd(s, i);
    if ByteAt(s, j, '.') then DigitEnd(s, j + 1) else j
  }

  predicate ExponentAt(s: Bytes, i: nat) { ByteAt(s, i, 'e') || ByteAt(s, i, 'E') }

  /** The end of the exponent marker that stands at `i`, its sign included. */
  function MarkerEnd(s: Bytes, i: nat): (j: nat)
    requires ExponentAt(s, i)
    ensures i < j <= |s|
    ensures forall k | i <= k < j :: IsAscii(s[k])
  {
    if ByteAt(s, i + 1, '+') || ByteAt(s, i + 1, '-') then i + 2 else i + 1
  }

  /** The end of the exponent at `i`, if there is one. */
  function ExponentEnd(s: Bytes, i: nat): (j: nat)
    requires i <= |s|
    ensures i <= j <= |s|
    ensures forall k | i <= k < j :: IsAscii(s[k])
  {
    if ExponentAt(s, i) then DigitEnd(s, MarkerEnd(s, i)) else i
  }

  /** The end of the longest number-shaped run from `i`, its sign included. */
  function NumberEnd(s: Bytes, i: nat): (j: nat)
    requires i <= |s|
    ensures i <= j <= |s|
    ensures forall k | i <= k < j :: IsAscii(s[k])
  {
    ExponentEnd(s, DigitsAndFraction(s, SignEnd(s, i)))
  }

  /** The byte an escape letter stands for. */
  function Unescape(b: char): (r: Option<char>)
    ensures r.Some? ==> IsAscii(b) && IsAscii(r.value)
  {
    if b == '\\' || b == '"' || b == '\'' || b == '/' then Some(b)
    else if b == 'n' then Some('\n')
    else if b == 't' then Some('\t')
    else if b == 'r' then Some('\r')
    else None
  }

  /** The decoded contents of a string literal from `i`, past its opening quote, and the index past its
      closing quote. */
  function StringFrom(s: Bytes, i: nat, quote: char): (r: Result<(Bytes, nat), ExprError>)
    requires i <= |s| && ValidFrom(s, i) && IsAscii(quote)
    ensures r.Ok? ==> i < r.value.1 <= |s| && ValidFrom(s, r.value.1)
    decreases |s| - i
  {
    if i == |s| then Err(Malformed)
    else if s[i] == quote then Ok(([], i + 1))
    else if s[i] == '\\' then
      if i + 1 == |s| || Unescape(s[i + 1]).None? then Err(Malformed)
      else
        assert ValidFrom(s, i + 1);
        var (text, next) :- StringFrom(s, i + 2, quote);
        Ok(([Unescape(s[i + 1]).value] + text, next))
    else
      var w := Width(s[i]);
      var (text, next) :- StringFrom(s, i + w, quote);
      Ok((s[i..i + w] + text, next))
  }

  predicate EqEqAt(s: Bytes, i: nat) { ByteAt(s, i, '=') && ByteAt(s, i + 1, '=') }

  /** The punctuation token at `i`, and how many bytes it has. */
  function Punctuation(s: Bytes, i: nat): (r: Option<(Token, nat)>)
    requires i < |s|
    ensures r.Some? ==>
              && 1 <= r.value.1 && i + r.value.1 <= |s|
              && (forall k | i <= k < i + r.value.1 :: IsAscii(s[k]))
              && !r.value.0.Ident? && !r.value.0.Number? && !r.value.0.Str?
  {
    if s[i] == '(' then Some((LParen, 1))
    else if s[i] == ')' then Some((RParen, 1))
    else if s[i] == '[' then Some((LBracket, 1))
    else if s[i] == ']' then Some((RBracket, 1))
    else if s[i] == '.' then Some((Dot, 1))
    else if s[i] == '!' then if EqEqAt(s, i + 1) then Some((BangEqEq, 3)) else Some((Bang, 1))
    else if s[i] == '=' && EqEqAt(s, i + 1) then Some((EqEqEq, 3))
    else if s[i] == '&' && ByteAt(s, i + 1, '&') then Some((AmpAmp, 2))
    else if s[i] == '|' && ByteAt(s, i + 1, '|') then Some((PipePipe, 2))
    else None
  }

  /** The token at `i`, and the index past it. */
  function LexOne(s: Bytes, i: nat, num: NumberReader): (r: Result<(Token, nat), ExprError>)
    requires i < |s| && ValidFrom(s, i)
    ensures r.Ok? ==> i < r.value.1 <= |s| && ValidFrom(s, r.value.1)
  {
    if Punctuation(s, i).Some? then
      var (token, n) := Punctuation(s, i).value;
      AsciiRun(s, i, i + n);
      Ok((token, i + n))
    else if IsQuote(s[i]) then
      assert ValidFrom(s, i + 1);
      var (text, next) :- StringFrom(s, i + 1, s[i]);
      Ok((Str(text), next))
    else if s[i] == '-' || IsDigit(s[i]) then
      var j := NumberEnd(s, i);
      if j == SignEnd(s, i) || !num(s[i..j]) then Err(Malformed)
      else
        AsciiRun(s, i, j);
        Ok((Number(s[i..j]), j))
    else if IsIdentStart(s[i]) then
      var j := IdentEnd(s, i);
      AsciiRun(s, i, j);
      Ok((Ident(s[i..j]), j))
    else
      Err(Malformed)
  }

  /** All that `s` lexes to from `i`; `broken` says whether a line break was skipped just before `i`. */
  function Lexemes(s: Bytes, i: nat, num: NumberReader, broken: bool): (r: Result<seq<Lexeme>, ExprError>)
    requires i <= |s| && ValidFrom(s, i)
    decreases |s| - i
  {
    if i == |s| then Ok([])
    else if IsSpace(s[i]) then Lexemes(s, i + 1, num, broken || IsLineBreak(s[i]))
    else
      var (token, next) :- LexOne(s, i, num);
      var rest :- Lexemes(s, next, num, false);
      Ok([Lexeme(token, broken)] + rest)
  }

  function TokensOf(lexemes: seq<Lexeme>): (tokens: seq<Token>)
    ensures |tokens| == |lexemes|
    ensures forall i | 0 <= i < |tokens| :: tokens[i] == lexemes[i].token
  {
    seq(|lexemes|, i requires 0 <= i < |lexemes| => lexemes[i].token)
  }

  /** The token stream of a source text. */
  function Tokens(s: Bytes, num: NumberReader): (r: Result<seq<Token>, ExprError>)
    requires Valid(s)
  {
    var lexemes :- Lexemes(s, 0, num, false);
    Ok(TokensOf(lexemes))
  }

  // ---------- The code: index loops over the source ----------

  /** `text` put before what the rest of a literal decodes to. */
  ghost function Prepend(text: Bytes, rest: Result<(Bytes, nat), ExprError>): Result<(Bytes, nat), ExprError> {
    match rest
    case Ok((more, next)) => Ok((text + more, next))
    case Err(e) => Err(e)
  }

  /** Lex a quoted string that opens at `start`. */
  method LexString(src: Bytes, start: nat) returns (r: Result<(Bytes, nat), ExprError>)
    requires start < |src| && IsQuote(src[start]) && ValidFrom(src, start + 1)
    ensures r == StringFrom(src, start + 1, src[start])
  {
    var quote := src[start];
    var out: Bytes := [];
    var i := start + 1;
    PrependNothing(StringFrom(src, i, quote));
    while i < |src|
      invariant start + 1 <= i <= |src| && ValidFrom(src, i)
      invariant StringFrom(src, start + 1, quote) == Prepend(out, StringFrom(src, i, quote))
    {
      var b := src[i];
      if b == quote {
        assert out + [] == out;
        return Ok((out, i + 1));
      }
      if b == '\\' {
        if i + 1 >= |src| {
          return Err(Malformed);
        }
        match Unescape(src[i + 1]) {
          case None =>
            return Err(Malformed);
          case Some(decoded) =>
            assert ValidFrom(src, i + 1);
            PrependTwice(out, [decoded], StringFrom(src, i + 2, quote));
            out := out + [decoded];
            i := i + 2;
        }
      } else {
        // Copy one whole character, so multibyte content survives.
        var w := Width(b);
        PrependTwice(out, src[i..i + w], StringFrom(src, i + w, quote));
        out := out + src[i..i + w];
        i := i + w;
      }
    }
    r := Err(Malformed);
  }

  lemma PrependNothing(rest: Result<(Bytes, nat), ExprError>)
    ensures Prepend([], rest) == rest
  {
    assert rest.Ok? ==> [] + rest.value.0 == rest.value.0;
  }

  lemma PrependTwice(a: Bytes, b: Bytes, rest: Result<(Bytes, nat), ExprError>)
    ensures Prepend(a, Prepend(b, rest)) == Prepend(a + b, rest)
  {
    if rest.Ok? {
      assert a + (b + rest.value.0) == (a + b) + rest.value.0;
    }
  }

  /** Skip digits from `i`. */
  method SkipDigits(src: Bytes, i: nat) returns (j: nat)
    requires i <= |src|
    ensures j == DigitEnd(src, i)
  {
    j := i;
    while j < |src| && IsDigit(src[j])
      invariant i <= j <= |src|
      invariant DigitEnd(src, i) == DigitEnd(src, j)
    {
      j := j + 1;
    }
  }

  /** Skip digits and an optional fraction from `i`. */
  method SkipFraction(src: Bytes, i: nat) returns (j: nat)
    requires i <= |src|
    ensures j == DigitsAndFraction(src, i)
  {
    j := SkipDigits(src, i);
    if j < |src| && src[j] == '.' {
      j := SkipDigits(src, j + 1);
    }
  }

  /** Skip an optional exponent from `i`. */
  method SkipExponent(src: Bytes, i: nat) returns (j: nat)
    requires i <= |src|
    ensures j == ExponentEnd(src, i)
  {
    j := i;
    if j < |src| && (src[j] == 'e' || src[j] == 'E') {
      j := j + 1;
      if j < |src| && (src[j] == '+' || src[j] == '-') {
        j := j + 1;
      }
      j := SkipDigits(src, j);
    }
  }

  /** Lex a number that starts at `start`. */
  method LexNumber(src: Bytes, start: nat, num: NumberReader) returns (r: Result<(Bytes, nat), ExprError>)
    requires start < |src|
    ensures var j := NumberEnd(src, start);
            r == if j == SignEnd(src, start) || !num(src[start..j]) then Err(Malformed) else Ok((src[start..j], j))
  {
    var i := start;
    if src[i] == '-' {
      i := i + 1;
    }
    var digitsStart := i;
    i := SkipFraction(src, i);
    i := SkipExponent(src, i);
    if i == digitsStart {
      return Err(Malformed);
    }
    var lexeme := src[start..i];
    if !num(lexeme) {
      return Err(Malformed);
    }
    r := Ok((lexeme, i));
  }

  /** Read the token at `i`, which is not white space. */
  method LexToken(src: Bytes, i: nat, num: NumberReader) returns (r: Result<(Token, nat), ExprError>)
    requires i < |src| && ValidFrom(src, i)
    ensures r == LexOne(src, i, num)
  {
    var b := src[i];
    var eqEq := i + 2 < |src| && src[i + 1] == '=' && src[i + 2] == '=';
    if b == '(' { return Ok((LParen, i + 1)); }
    if b == ')' { return Ok((RParen, i + 1)); }
    if b == '[' { return Ok((LBracket, i + 1)); }
    if b == ']' { return Ok((RBracket, i + 1)); }
    if b == '.' { return Ok((Dot, i + 1)); }
    if b == '!' {
      return if eqEq then Ok((BangEqEq, i + 3)) else Ok((Bang, i + 1));
    }
    if b == '=' {
      return if eqEq then Ok((EqEqEq, i + 3)) else Err(Malformed);
    }
    if b == '&' {
      return if i + 1 < |src| && src[i + 1] == '&' then Ok((AmpAmp, i + 2)) else Err(Malformed);
    }
    if b == '|' {
      return if i + 1 < |src| && src[i + 1] == '|' then Ok((PipePipe, i + 2)) else Err(Malformed);
    }
    if IsQuote(b) {
      var body := LexString(src, i);
      match body {
        case Ok((text, next)) => return Ok((Str(text), next));
        case Err(e) => return Err(e);
      }
    }
    if b == '-' || IsDigit(b) {
      var body := LexNumber(src, i, num);
      match body {
        case Ok((lexeme, next)) => return Ok((Number(lexeme), next));
        case Err(e) => return Err(e);
      }
    }
    if IsIdentStart(b) {
      var j := i + 1;
      while j < |src| && IsIdentContinue(src[j])
        invariant i + 1 <= j <= |src|
        invariant IdentEnd(src, i) == IdentEnd(src, j)
      {
        j := j + 1;
      }
      return Ok((Ident(src[i..j]), j));
    }
    r := Err(Malformed);
  }

  /** `lexemes` followed by what the rest of the source lexes to. */
  ghost function Before(lexemes: seq<Lexeme>, rest: Result<seq<Lexeme>, ExprError>): Result<seq<Lexeme>, ExprError> {
    match rest
    case Ok(more) => Ok(lexemes + more)
    case Err(e) => Err(e)
  }

  lemma BeforeNothing(rest: Result<seq<Lexeme>, ExprError>)
    ensures Before([], rest) == rest
  {
    assert rest.Ok? ==> [] + rest.value == rest.value;
  }

  lemma BeforeTwice(a: seq<Lexeme>, b: seq<Lexeme>, rest: Result<seq<Lexeme>, ExprError>)
    ensures Before(a, Before(b, rest)) == Before(a + b, rest)
  {
    if rest.Ok? {
      assert a + (b + rest.value) == (a + b) + rest.value;
    }
  }

  /** Tokenise `src`. */
  method Tokenize(src: Bytes, num: NumberReader) returns (r: Result<seq<Token>, ExprError>)
    requires Valid(src)
    ensures r == Tokens(src, num)
  {
    var tokens: seq<Token> := [];
    var i := 0;
    ghost var lexemes: seq<Lexeme>, broken := [], false;
    BeforeNothing(Lexemes(src, 0, num, false));
    while i < |src|
      invariant 0 <= i <= |src| && ValidFrom(src, i)
      invariant tokens == TokensOf(lexemes)
      invariant Lexemes(src, 0, num, false) == Before(lexemes, Lexemes(src, i, num, broken))
    {
      if IsSpace(src[i]) {
        broken := broken || IsLineBreak(src[i]);
        i := i + 1;
      } else {
        var one := LexToken(src, i, num);
        match one {
          case Err(e) => return Err(e);
          case Ok((token, next)) =>
            BeforeTwice(lexemes, [Lexeme(token, broken)], Lexemes(src, next, num, false));
            lexemes, broken := lexemes + [Lexeme(token, broken)], false;
            tokens := tokens + [token];
            i := next;
        }
      }
    }
    assert lexemes + [] == lexemes;
    r := Ok(tokens);
  }
}
