/** The precedence-climbing parser (crates/tmx-core/src/interpolate.rs). */
module Parser {
  import opened Wrappers
  import opened Limits
  import opened Utf8
  import opened Lexer
  import opened Syntax

  const BANG_BP: nat := 7

  function LeftBp(op: BinOp): (bp: nat) {
    match op
    case Or => 1
    case And => 3
    case StrictEq => 5
    case StrictNe => 5
  }

  function RightBp(op: BinOp): (bp: nat) {
    match op
    case Or => 2
    case And => 4
    case StrictEq => 6
    case StrictNe => 6
  }

  /** The binary operator at `p`, if one stands there. */
  function OpAt(t: seq<Token>, p: nat): (op: Option<BinOp>)
    ensures op.Some? <==> exists o: BinOp :: p < |t| && t[p] == OpToken(o)
    ensures op.Some? ==> p < |t| && t[p] == OpToken(op.value)
  {
    if p >= |t| then None
    else match t[p]
      case PipePipe => assert t[p] == OpToken(Or); Some(Or)
      case AmpAmp => assert t[p] == OpToken(And); Some(And)
      case EqEqEq => assert t[p] == OpToken(StrictEq); Some(StrictEq)
      case BangEqEq => assert t[p] == OpToken(StrictNe); Some(StrictNe)
      case _ => None
  }

  predicate TokenAt(t: seq<Token>, p: nat, token: Token) { p < |t| && t[p] == token }

  // ---------- The specification: climbing, with brackets kept ----------

  type Parsed = Result<(Tree, nat), ExprError>

  /** Parse from `p` an expression whose operators bind at least as tightly as `minBp`. */
  function Climb(t: seq<Token>, p: nat, minBp: nat, depth: nat, limit: nat): (r: Parsed)
    requires p <= |t|
    ensures r.Ok? ==> p < r.value.1 <= |t|
    decreases |t| - p, 2
  {
    if depth > limit then Err(TooDeep)
    else
      var (lhs, q) :- Prefix(t, p, depth, limit);
      Infix(t, lhs, q, minBp, depth, limit)
  }

  /** The prefix or primary part. */
  function Prefix(t: seq<Token>, p: nat, depth: nat, limit: nat): (r: Parsed)
    requires p <= |t|
    ensures r.Ok? ==> p < r.value.1 <= |t|
    decreases |t| - p, 1
  {
    if p == |t| then Err(Malformed)
    else if t[p] == Bang then
      var (e, q) :- Climb(t, p + 1, BANG_BP, depth + 1, limit);
      Ok((TNot(e), q))
    else if t[p] == LParen then
      var (e, q) :- Climb(t, p + 1, 0, depth + 1, limit);
      if TokenAt(t, q, RParen) then Ok((TParen(e), q + 1)) else Err(Malformed)
    else if IsLiteralToken(t[p]) then Ok((TLiteral(t[p]), p + 1))
    else if t[p].Ident? then
      var (steps, q) :- Steps(t, p + 1, depth, limit);
      Ok((TPath(t[p].name, steps), q))
    else Err(Malformed)
  }

  /** The infix loop, with the left operand parsed so far. */
  function Infix(t: seq<Token>, lhs: Tree, p: nat, minBp: nat, depth: nat, limit: nat): (r: Parsed)
    requires p <= |t|
    ensures r.Ok? ==> p <= r.value.1 <= |t|
    decreases |t| - p, 0
  {
    match OpAt(t, p)
    case None => Ok((lhs, p))
    case Some(op) =>
      if LeftBp(op) < minBp then Ok((lhs, p))
      else
        var (rhs, q) :- Climb(t, p + 1, RightBp(op), depth + 1, limit);
        Infix(t, TBinary(op, lhs, rhs), q, minBp, depth, limit)
  }

  /** The `.field` or `[index]` step that opens at `p`. */
  function StepAt(t: seq<Token>, p: nat, depth: nat, limit: nat): (r: Result<(TStep, nat), ExprError>)
    requires TokenAt(t, p, Dot) || TokenAt(t, p, LBracket)
    ensures r.Ok? ==> p < r.value.1 <= |t|
    decreases |t| - p, 0
  {
    if t[p] == Dot then
      if p + 1 < |t| && t[p + 1].Ident? then Ok((TField(t[p + 1].name), p + 2)) else Err(Malformed)
    else
      var (key, q) :- Climb(t, p + 1, 0, depth + 1, limit);
      if TokenAt(t, q, RBracket) then Ok((TIndex(key), q + 1)) else Err(Malformed)
  }

  /** A run of steps. */
  function Steps(t: seq<Token>, p: nat, depth: nat, limit: nat): (r: Result<(seq<TStep>, nat), ExprError>)
    requires p <= |t|
    ensures r.Ok? ==> p <= r.value.1 <= |t|
    decreases |t| - p, 1
  {
    if TokenAt(t, p, Dot) || TokenAt(t, p, LBracket) then
      var (step, next) :- StepAt(t, p, depth, limit);
      var (rest, q) :- Steps(t, next, depth, limit);
      Ok(([step] + rest, q))
    else Ok(([], p))
  }

  /** The derivation of a whole token stream. */
  function ParseTree(t: seq<Token>, limit: nat): (r: Result<Tree, ExprError>) {
    var (tree, q) :- Climb(t, 0, 0, 1, limit);
    if q == |t| then Ok(tree) else Err(Malformed)
  }

  /** The expression a source text parses to. */
  function Parse(src: Bytes, num: NumberReader): (r: Result<Expr, ExprError>)
    requires Valid(src)
  {
    if |src| > EXPR_LEN_MAX_BYTES then Err(TooLong)
    else
      var tokens :- Tokens(src, num);
      var tree :- ParseTree(tokens, EXPR_DEPTH_MAX);
      Ok(Abstract(tree))
  }

  // ---------- The code: a parser object with a moving position ----------

  class TokenParser {
    const tokens: seq<Token>
    var pos: nat

    constructor (tokens: seq<Token>)
      ensures this.tokens == tokens && pos == 0
    {
      this.tokens := tokens;
      pos := 0;
    }

    predicate Valid()
      reads this
    {
      pos <= |tokens|
    }

    method Advance() returns (token: Option<Token>)
      requires Valid()
      modifies this
      ensures Valid()
      ensures old(pos) < |tokens| ==> token == Some(tokens[old(pos)]) && pos == old(pos) + 1
      ensures old(pos) == |tokens| ==> token == None && pos == old(pos)
    {
      token := if pos < |tokens| then Some(tokens[pos]) else None;
      if token.Some? {
        pos := pos + 1;
      }
    }

    method Expect(expected: Token) returns (ok: bool)
      requires Valid()
      modifies this
      ensures Valid()
      ensures ok == TokenAt(tokens, old(pos), expected)
      ensures ok ==> pos == old(pos) + 1
    {
      var token := Advance();
      ok := token == Some(expected);
    }

    method ParseBp(minBp: nat, depth: nat) returns (r: Result<Expr, ExprError>)
      requires Valid()
      modifies this
      ensures Valid()
      ensures match Climb(tokens, old(pos), minBp, depth, EXPR_DEPTH_MAX)
              case Ok((tree, next)) => r == Ok(Abstract(tree)) && pos == next
              case Err(e) => r == Err(e)
      decreases |tokens| - pos, 2
    {
      if depth > EXPR_DEPTH_MAX {
        return Err(TooDeep);
      }
      ghost var start := pos;
      var first := ParsePrefix(depth);
      if first.Err? {
        return first;
      }
      var lhs := first.value;
      ghost var tree := Prefix(tokens, start, depth, EXPR_DEPTH_MAX).value.0;
      ghost var whole := Climb(tokens, start, minBp, depth, EXPR_DEPTH_MAX);
      while true
        invariant start < pos <= |tokens|
        invariant lhs == Abstract(tree)
        invariant whole == Infix(tokens, tree, pos, minBp, depth, EXPR_DEPTH_MAX)
        decreases |tokens| - pos
      {
        var op := OpAt(tokens, pos);
        if op.None? || LeftBp(op.value) < minBp {
          break;
        }
        pos := pos + 1;
        ghost var q := pos;
        var rhs := ParseBp(RightBp(op.value), depth + 1);
        if rhs.Err? {
          return rhs;
        }
        lhs := Binary(op.value, lhs, rhs.value);
        tree := TBinary(op.value, tree, Climb(tokens, q, RightBp(op.value), depth + 1, EXPR_DEPTH_MAX).value.0);
      }
      r := Ok(lhs);
    }

    method ParsePrefix(depth: nat) returns (r: Result<Expr, ExprError>)
      requires Valid()
      modifies this
      ensures Valid()
      ensures match Prefix(tokens, old(pos), depth, EXPR_DEPTH_MAX)
              case Ok((tree, next)) => r == Ok(Abstract(tree)) && pos == next
              case Err(e) => r == Err(e)
      decreases |tokens| - pos, 1
    {
      var token := Advance();
      match token {
        case None => r := Err(Malformed);
        case Some(Bang) =>
          var operand := ParseBp(BANG_BP, depth + 1);
          r := if operand.Ok? then Ok(Not(operand.value)) else operand;
        case Some(LParen) =>
          r := ParseBp(0, depth + 1);
          if r.Ok? {
            var closed := Expect(RParen);
            if !closed {
              r := Err(Malformed);
            }
          }
        case Some(Number(lexeme)) => r := Ok(Literal(Num(lexeme)));
        case Some(Str(text)) => r := Ok(Literal(Text(text)));
        case Some(Ident(name)) =>
          if name == "true" {
            r := Ok(Literal(Bool(true)));
          } else if name == "false" {
            r := Ok(Literal(Bool(false)));
          } else if name == "null" {
            r := Ok(Literal(Null));
          } else {
            var steps := ParseSteps(depth);
            r := if steps.Ok? then Ok(Path(name, steps.value)) else Err(steps.error);
          }
        case _ => r := Err(Malformed);
      }
    }

    method ParseSteps(depth: nat) returns (r: Result<seq<Step>, ExprError>)
      requires Valid()
      modifies this
      ensures Valid()
      ensures match Steps(tokens, old(pos), depth, EXPR_DEPTH_MAX)
              case Ok((steps, next)) => r == Ok(AbstractSteps(steps)) && pos == next
              case Err(e) => r == Err(e)
      decreases |tokens| - pos, 1
    {
      ghost var start := pos;
      var steps: seq<Step> := [];
      ghost var trees: seq<TStep> := [];
      ghost var whole := Steps(tokens, start, depth, EXPR_DEPTH_MAX);
      StepsAfterNothing(whole);
      while TokenAt(tokens, pos, Dot) || TokenAt(tokens, pos, LBracket)
        invariant start <= pos <= |tokens|
        invariant steps == AbstractSteps(trees)
        invariant whole == StepsAfter(trees, Steps(tokens, pos, depth, EXPR_DEPTH_MAX))
        decreases |tokens| - pos
      {
        ghost var step := StepAt(tokens, pos, depth, EXPR_DEPTH_MAX);
        StepThenRest(tokens, pos, depth, EXPR_DEPTH_MAX);
        var parsed := ParseStep(depth);
        if parsed.Err? {
          return Err(parsed.error);
        }
        StepsAfterTwice(trees, step.value.0, Steps(tokens, pos, depth, EXPR_DEPTH_MAX));
        trees, steps := trees + [step.value.0], steps + [parsed.value];
      }
      assert trees + [] == trees;
      r := Ok(steps);
    }

    /** One step, at its dot or bracket. */
    method ParseStep(depth: nat) returns (r: Result<Step, ExprError>)
      requires Valid() && (TokenAt(tokens, pos, Dot) || TokenAt(tokens, pos, LBracket))
      modifies this
      ensures Valid()
      ensures match StepAt(tokens, old(pos), depth, EXPR_DEPTH_MAX)
              case Ok((step, next)) => r == Ok(AbstractStep(step)) && pos == next
              case Err(e) => r == Err(e)
      decreases |tokens| - pos, 0
    {
      var open := Advance();
      if open == Some(Dot) {
        var token := Advance();
        if token.None? || !token.value.Ident? {
          return Err(Malformed);
        }
        return Ok(Field(token.value.name));
      }
      var index := ParseBp(0, depth + 1);
      if index.Err? {
        return Err(index.error);
      }
      var closed := Expect(RBracket);
      r := if closed then Ok(Index(index.value)) else Err(Malformed);
    }
  }

  /** `before` followed by the steps parsed after it. */
  ghost function StepsAfter(before: seq<TStep>, rest: Result<(seq<TStep>, nat), ExprError>)
    : Result<(seq<TStep>, nat), ExprError>
  {
    match rest
    case Ok((more, next)) => Ok((before + more, next))
    case Err(e) => Err(e)
  }

  lemma StepThenRest(t: seq<Token>, p: nat, depth: nat, limit: nat)
    requires TokenAt(t, p, Dot) || TokenAt(t, p, LBracket)
    ensures Steps(t, p, depth, limit)
         == match StepAt(t, p, depth, limit)
            case Ok((step, next)) => StepsAfter([step], Steps(t, next, depth, limit))
            case Err(e) => Err(e)
  {
  }

  lemma StepsAfterNothing(rest: Result<(seq<TStep>, nat), ExprError>)
    ensures StepsAfter([], rest) == rest
  {
    assert rest.Ok? ==> [] + rest.value.0 == rest.value.0;
  }

  lemma StepsAfterTwice(before: seq<TStep>, s: TStep, rest: Result<(seq<TStep>, nat), ExprError>)
    ensures StepsAfter(before, StepsAfter([s], rest)) == StepsAfter(before + [s], rest)
    ensures AbstractSteps(before + [s]) == AbstractSteps(before) + [AbstractStep(s)]
  {
    if rest.Ok? {
      assert before + ([s] + rest.value.0) == (before + [s]) + rest.value.0;
    }
    AbstractStepsSnoc(before, s);
  }

  lemma {:induction false} AbstractStepsSnoc(before: seq<TStep>, s: TStep)
    ensures AbstractSteps(before + [s]) == AbstractSteps(before) + [AbstractStep(s)]
  {
    if before == [] {
      assert before + [s] == [s];
    } else {
      AbstractStepsSnoc(before[1..], s);
      assert (before + [s])[1..] == before[1..] + [s];
    }
  }

  /** Parse `src`: length guard, tokens, tree, and nothing left over. */
  method ParseSource(src: Bytes, num: NumberReader) returns (r: Result<Expr, ExprError>)
    requires Valid(src)
    ensures r == Parse(src, num)
  {
    if |src| > EXPR_LEN_MAX_BYTES {
      return Err(TooLong);
    }
    var tokens := Tokenize(src, num);
    if tokens.Err? {
      return Err(tokens.error);
    }
    var parser := new TokenParser(tokens.value);
    r := parser.ParseBp(0, 1);
    if r.Ok? && parser.pos != |parser.tokens| {
      r := Err(Malformed);
    }
  }
}
