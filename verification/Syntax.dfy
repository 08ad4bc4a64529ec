/** The expression tree, and the layered grammar of the expression language over tokens:
      layer 0   or    ::= and   | or `||` and
      layer 1   and   ::= eq    | and `&&` eq
      layer 2   eq    ::= unary | eq (`===` | `!==`) unary
      layer 3   unary ::= `!` unary | primary
    A derivation (`Tree`) keeps the brackets that the expression tree forgets. */
module Syntax {
  import opened Utf8
  import opened Lexer

  datatype BinOp = StrictEq | StrictNe | And | Or

  /** A literal scalar; a number is the lexeme `serde_json` read it from. */
  datatype Scalar = Null | Bool(b: bool) | Num(lexeme: Bytes) | Text(text: Bytes)

  datatype Expr =
    | Literal(value: Scalar)
    | Path(root: Bytes, steps: seq<Step>)
    | Not(operand: Expr)
    | Binary(op: BinOp, lhs: Expr, rhs: Expr)

  datatype Step = Field(name: Bytes) | Index(key: Expr)

  datatype Tree =
    | TLiteral(token: Token)
    | TPath(root: Bytes, steps: seq<TStep>)
    | TNot(operand: Tree)
    | TParen(inner: Tree)
    | TBinary(op: BinOp, lhs: Tree, rhs: Tree)

  datatype TStep = TField(name: Bytes) | TIndex(key: Tree)

  predicate IsKeyword(name: Bytes) { name == "true" || name == "false" || name == "null" }

  predicate IsLiteralToken(t: Token) { t.Number? || t.Str? || (t.Ident? && IsKeyword(t.name)) }

  /** The scalar a literal token denotes (`Null` for `null`, and for tokens that are no literal). */
  function ScalarOf(t: Token): (v: Scalar) {
    match t
    case Number(lexeme) => Num(lexeme)
    case Str(text) => Text(text)
    case Ident(name) => if name == "true" then Bool(true) else if name == "false" then Bool(false) else Null
    case _ => Null
  }

  function OpToken(op: BinOp): (t: Token) {
    match op
    case Or => PipePipe
    case And => AmpAmp
    case StrictEq => EqEqEq
    case StrictNe => BangEqEq
  }

  function Layer(op: BinOp): (n: nat)
    ensures n < 3
  {
    match op
    case Or => 0
    case And => 1
    case StrictEq => 2
    case StrictNe => 2
  }

  /** The derivation is one of the grammar, from layer `n` or a tighter one. */
  predicate InLayer(t: Tree, n: nat) {
    match t
    case TLiteral(token) => IsLiteralToken(token)
    case TPath(root, steps) => !IsKeyword(root) && forall s | s in steps :: s.TIndex? ==> InLayer(s.key, 0)
    case TNot(e) => InLayer(e, 3)
    case TParen(e) => InLayer(e, 0)
    case TBinary(op, l, r) => n <= Layer(op) && InLayer(l, Layer(op)) && InLayer(r, Layer(op) + 1)
  }

  lemma {:induction false} LooserLayer(t: Tree, m: nat, n: nat)
    requires InLayer(t, n) && m <= n
    ensures InLayer(t, m)
  {
  }

  /** The tokens a derivation spans. */
  function Yield(t: Tree): (ts: seq<Token>)
    ensures |ts| > 0
    decreases t, 0
  {
    match t
    case TLiteral(token) => [token]
    case TPath(root, steps) => [Ident(root)] + YieldSteps(steps)
    case TNot(e) => [Bang] + Yield(e)
    case TParen(e) => [LParen] + Yield(e) + [RParen]
    case TBinary(op, l, r) => Yield(l) + [OpToken(op)] + Yield(r)
  }

  function YieldStep(s: TStep): (ts: seq<Token>)
    ensures |ts| > 1
    decreases s, 1
  {
    match s
    case TField(name) => [Dot, Ident(name)]
    case TIndex(key) => [LBracket] + Yield(key) + [RBracket]
  }

  function YieldSteps(steps: seq<TStep>): (ts: seq<Token>)
    decreases steps, 1
  {
    if steps == [] then [] else YieldStep(steps[0]) + YieldSteps(steps[1..])
  }

  /** The expression a derivation stands for. */
  function Abstract(t: Tree): (e: Expr)
    decreases t, 0
  {
    match t
    case TLiteral(token) => Literal(ScalarOf(token))
    case TPath(root, steps) => Path(root, AbstractSteps(steps))
    case TNot(e) => Not(Abstract(e))
    case TParen(e) => Abstract(e)
    case TBinary(op, l, r) => Binary(op, Abstract(l), Abstract(r))
  }

  function AbstractSteps(steps: seq<TStep>): (r: seq<Step>)
    ensures |r| == |steps|
    decreases steps, 1
  {
    if steps == [] then [] else [AbstractStep(steps[0])] + AbstractSteps(steps[1..])
  }

  function AbstractStep(s: TStep): (r: Step)
    decreases s, 1
  {
    match s
    case TField(name) => Field(name)
    case TIndex(key) => Index(Abstract(key))
  }

  function Max(a: nat, b: nat): (m: nat) { if a < b then b else a }

  /** How deep the derivation nests: each bracket, index, operand of `!` and right operand is one level
      below its parent, while a left operand stays on its parent's level. */
  function Nesting(t: Tree): (n: nat)
    ensures n >= 1
    decreases t, 0
  {
    match t
    case TLiteral(_) => 1
    case TPath(_, steps) => Max(1, NestingSteps(steps))
    case TNot(e) => 1 + Nesting(e)
    case TParen(e) => 1 + Nesting(e)
    case TBinary(_, l, r) => Max(Nesting(l), 1 + Nesting(r))
  }

  function NestingSteps(steps: seq<TStep>): (n: nat)
    decreases steps, 1
  {
    if steps == [] then 0 else Max(NestingStep(steps[0]), NestingSteps(steps[1..]))
  }

  function NestingStep(s: TStep): (n: nat)
    decreases s, 1
  {
    match s
    case TField(_) => 0
    case TIndex(key) => 1 + Nesting(key)
  }
}
