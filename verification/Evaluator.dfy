/** The evaluator of `${{ … }}` expressions (crates/tmx-core/src/interpolate.rs), and what the lint reads
    say about it: they decide the value, and a preflight over them rules out an unlisted secret. */
module Evaluator {
  import opened Wrappers
  import opened Utf8
  import opened Lexer
  import Syntax
  import Parser
  import Lint
  import Agreement
  import Matcher
  import opened Numerals
  import opened Json

  type Expr = Syntax.Expr
  type Step = Syntax.Step

  /** The namespaces an expression reads; `item`, `case` and `output` exist only inside their construct. */
  datatype Scope = Scope(
    inputs: Value, env: Value, secrets: Value, tasks: Value, matrix: Value,
    item: Option<Value>, itemAlias: Option<Bytes>, itemIndex: Option<nat>,
    evalCase: Option<Value>, output: Option<Value>)

  /** The error codes of evaluation; `Rejected` is a text the parser refuses. */
  datatype EvalError = Rejected(error: ExprError) | UnknownNamespace | UnlistedSecret | TypeMismatch

  type Outcome = Result<Value, EvalError>

  /** The number `serde_json` reads from a lexeme: a library call, hence a parameter. */
  type NumberValue = Bytes -> Num

  // ---------- The evaluator ----------

  predicate IsTruthy(v: Value) {
    match v
    case Null => false
    case Bool(b) => b
    case Number(n) => n.value != 0.0
    case String(s) => s != []
    case _ => true
  }

  function ScalarValue(s: Syntax.Scalar, numbers: NumberValue): (v: Value) {
    match s
    case Null => Value.Null
    case Bool(b) => Value.Bool(b)
    case Num(lexeme) => Value.Number(numbers(lexeme))
    case Text(text) => Value.String(text)
  }

  function AccessKey(current: Value, key: Bytes, secretFirst: bool): (r: Outcome) {
    if !current.Object? then Err(TypeMismatch)
    else match Get(current.entries, key)
      case Some(v) => Ok(v)
      case None => Err(if secretFirst then UnlistedSecret else UnknownNamespace)
  }

  function AccessIndex(current: Value, index: nat): (r: Outcome) {
    if !current.Array? then Err(TypeMismatch)
    else if index < |current.items| then Ok(current.items[index])
    else Err(UnknownNamespace)
  }

  function Bound(v: Option<Value>): (r: Outcome) {
    if v.Some? then Ok(v.value) else Err(UnknownNamespace)
  }

  function ItemRoot(scope: Scope): (name: Bytes) {
    if scope.itemAlias.Some? then scope.itemAlias.value else "item"
  }

  /** The value a root names. The fixed names come first: an alias cannot shadow one. */
  function Base(root: Bytes, scope: Scope): (r: Outcome) {
    if root == "inputs" then Ok(scope.inputs)
    else if root == "env" then Ok(scope.env)
    else if root == "secrets" then Ok(scope.secrets)
    else if root == "tasks" then Ok(scope.tasks)
    else if root == "matrix" then Ok(scope.matrix)
    else if root == "case" then Bound(scope.evalCase)
    else if root == "output" then Bound(scope.output)
    else if root == ItemRoot(scope) then Bound(scope.item)
    else Err(UnknownNamespace)
  }

  predicate IsFixedRoot(root: Bytes) {
    || root == "inputs" || root == "env" || root == "secrets" || root == "tasks"
    || root == "matrix" || root == "case" || root == "output"
  }

  /** A lone `.index` on an element that is no object reads the element's position. */
  predicate ReadsPosition(root: Bytes, steps: seq<Step>, scope: Scope) {
    && !IsFixedRoot(root) && root == ItemRoot(scope)
    && scope.item.Some? && !scope.item.value.Object? && scope.itemIndex.Some?
    && |steps| == 1 && steps[0] == Syntax.Field("index")
  }

  function PositionValue(index: nat): (v: Value) {
    Value.Number(PositionNumber(index))
  }

  function Eval(e: Expr, scope: Scope, numbers: NumberValue): (r: Outcome)
    decreases e, 0
  {
    match e
    case Literal(s) => Ok(ScalarValue(s, numbers))
    case Not(operand) =>
      var v :- Eval(operand, scope, numbers);
      Ok(Value.Bool(!IsTruthy(v)))
    case Binary(And, lhs, rhs) =>
      var l :- Eval(lhs, scope, numbers);
      if IsTruthy(l) then Eval(rhs, scope, numbers) else Ok(l)
    case Binary(Or, lhs, rhs) =>
      var l :- Eval(lhs, scope, numbers);
      if IsTruthy(l) then Ok(l) else Eval(rhs, scope, numbers)
    case Binary(StrictEq, lhs, rhs) =>
      var l :- Eval(lhs, scope, numbers);
      var r :- Eval(rhs, scope, numbers);
      Ok(Value.Bool(Matcher.ExprStrictEq(l, r)))
    case Binary(StrictNe, lhs, rhs) =>
      var l :- Eval(lhs, scope, numbers);
      var r :- Eval(rhs, scope, numbers);
      Ok(Value.Bool(!Matcher.ExprStrictEq(l, r)))
    case Path(root, steps) =>
      var base :- Base(root, scope);
      if ReadsPosition(root, steps, scope) then Ok(PositionValue(scope.itemIndex.value))
      else Walk(base, steps, root == "secrets", scope, numbers)
  }

  /** Follow the steps from `current`; `secretFirst` marks the first step under `secrets`. */
  function Walk(current: Value, steps: seq<Step>, secretFirst: bool, scope: Scope, numbers: NumberValue): (r: Outcome)
    decreases steps, 1
  {
    if steps == [] then Ok(current)
    else
      var next :- ApplyStep(current, steps[0], secretFirst, scope, numbers);
      Walk(next, steps[1..], false, scope, numbers)
  }

  function ApplyStep(current: Value, s: Step, secretFirst: bool, scope: Scope, numbers: NumberValue): (r: Outcome)
    decreases s, 1
  {
    match s
    case Field(name) => AccessKey(current, name, secretFirst)
    case Index(expr) =>
      var key :- Eval(expr, scope, numbers);
      if key.String? then AccessKey(current, key.s, secretFirst)
      else if !key.Number? then Err(TypeMismatch)
      else match AsIndex(key.n)
        case None => Err(TypeMismatch)
        case Some(i) => AccessIndex(current, i)
  }

  /** `evaluate`: parse, then evaluate. */
  function Evaluate(src: Bytes, scope: Scope, num: NumberReader, numbers: NumberValue): (r: Outcome)
    requires Valid(src)
  {
    match Parser.Parse(src, num)
    case Err(error) => Err(Rejected(error))
    case Ok(e) => Eval(e, scope, numbers)
  }

  /** `resolve_path`, whose loop replaces the current value step by step. */
  method ResolvePath(root: Bytes, steps: seq<Step>, scope: Scope, numbers: NumberValue) returns (r: Outcome)
    ensures r == Eval(Syntax.Path(root, steps), scope, numbers)
  {
    var base := Base(root, scope);
    if base.Err? {
      return Err(base.error);
    }
    if ReadsPosition(root, steps, scope) {
      return Ok(PositionValue(scope.itemIndex.value));
    }
    var current := base.value;
    assert steps[0..] == steps;
    for i := 0 to |steps|
      invariant Walk(base.value, steps, root == "secrets", scope, numbers)
             == Walk(current, steps[i..], root == "secrets" && i == 0, scope, numbers)
    {
      assert steps[i..][1..] == steps[i + 1..];
      var next := ApplyStep(current, steps[i], root == "secrets" && i == 0, scope, numbers);
      if next.Err? {
        return Err(next.error);
      }
      current := next.value;
    }
    return Ok(current);
  }

  /** A text evaluates to its parsed expression's value, and is rejected for the reason it does not parse. */
  lemma EvaluateParses(src: Bytes, scope: Scope, num: NumberReader, numbers: NumberValue)
    requires Valid(src)
    ensures var parsed, r := Parser.Parse(src, num), Evaluate(src, scope, num, numbers);
            && (parsed.Ok? ==> r == Eval(parsed.value, scope, numbers))
            && forall error :: r == Err(Rejected(error)) <==> parsed == Err(error)
  {
    if Parser.Parse(src, num).Ok? {
      NeverRejected(Parser.Parse(src, num).value, scope, numbers);
    }
  }

  /** Evaluation itself rejects nothing. */
  lemma {:induction false} NeverRejected(e: Expr, scope: Scope, numbers: NumberValue)
    ensures var r := Eval(e, scope, numbers); r.Err? ==> !r.error.Rejected?
    decreases e, 0
  {
    match e
    case Literal(_) =>
    case Not(operand) => NeverRejected(operand, scope, numbers);
    case Binary(_, l, r) =>
      NeverRejected(l, scope, numbers);
      NeverRejected(r, scope, numbers);
    case Path(root, steps) =>
      if Base(root, scope).Ok? {
        WalkIsNeverRejected(Base(root, scope).value, steps, root == "secrets", scope, numbers);
      }
  }

  lemma {:induction false} WalkIsNeverRejected(current: Value, steps: seq<Step>, secretFirst: bool, scope: Scope,
                                               numbers: NumberValue)
    ensures var r := Walk(current, steps, secretFirst, scope, numbers); r.Err? ==> !r.error.Rejected?
    decreases steps, 1
  {
    if steps != [] {
      StepIsNeverRejected(current, steps[0], secretFirst, scope, numbers);
      var next := ApplyStep(current, steps[0], secretFirst, scope, numbers);
      if next.Ok? {
        WalkIsNeverRejected(next.value, steps[1..], false, scope, numbers);
      }
    }
  }

  lemma {:induction false} StepIsNeverRejected(current: Value, s: Step, secretFirst: bool, scope: Scope,
                                               numbers: NumberValue)
    ensures var r := ApplyStep(current, s, secretFirst, scope, numbers); r.Err? ==> !r.error.Rejected?
    decreases s, 1
  {
    if s.Index? {
      NeverRejected(s.key, scope, numbers);
    }
  }

  // ---------- Where a path leads ----------

  lemma {:induction false} WalkOneMore(current: Value, steps: seq<Step>, s: Step, secretFirst: bool, scope: Scope,
                                       numbers: NumberValue)
    ensures Walk(current, steps + [s], secretFirst, scope, numbers)
         == match Walk(current, steps, secretFirst, scope, numbers)
            case Ok(v) => ApplyStep(v, s, secretFirst && steps == [], scope, numbers)
            case Err(error) => Err(error)
    decreases |steps|
  {
    var longer := steps + [s];
    if steps == [] {
      assert longer[0] == s && longer[1..] == [];
    } else {
      assert longer[0] == steps[0] && longer[1..] == steps[1..] + [s];
      var next := ApplyStep(current, steps[0], secretFirst, scope, numbers);
      if next.Ok? {
        WalkOneMore(next.value, steps[1..], s, false, scope, numbers);
      }
    }
  }

  /** A path with a container at its end goes on with one step into it. */
  lemma PathOneMore(root: Bytes, steps: seq<Step>, s: Step, scope: Scope, numbers: NumberValue)
    requires var r := Eval(Syntax.Path(root, steps), scope, numbers); r.Ok? && (r.value.Object? || r.value.Array?)
    requires steps == [] && Eval(Syntax.Path(root, []), scope, numbers).value.Array? ==> s != Syntax.Field("index")
    ensures Eval(Syntax.Path(root, steps + [s]), scope, numbers)
         == ApplyStep(Eval(Syntax.Path(root, steps), scope, numbers).value, s, root == "secrets" && steps == [], scope, numbers)
  {
    assert !ReadsPosition(root, steps, scope);
    assert (steps + [s])[|steps|] == s;
    WalkOneMore(Base(root, scope).value, steps, s, root == "secrets", scope, numbers);
  }

  /** The step reads the key `name`: by a dot, or by an index whose value is that string. */
  predicate NamesKey(s: Step, name: Bytes, scope: Scope, numbers: NumberValue) {
    match s
    case Field(n) => n == name
    case Index(key) => Eval(key, scope, numbers) == Ok(Value.String(name))
  }

  /** The step reads the element number `i`. */
  predicate NamesElement(s: Step, i: nat, scope: Scope, numbers: NumberValue) {
    && s.Index? && Eval(s.key, scope, numbers).Ok? && Eval(s.key, scope, numbers).value.Number?
    && AsIndex(Eval(s.key, scope, numbers).value.n) == Some(i)
  }

  /** A named key of an object leads to its value. */
  lemma KeyLeadsToValue(root: Bytes, steps: seq<Step>, s: Step, before: seq<Entry>, name: Bytes, v: Value,
                        after: seq<Entry>, scope: Scope, numbers: NumberValue)
    requires Eval(Syntax.Path(root, steps), scope, numbers) == Ok(Value.Object(before + [Entry(name, v)] + after))
    requires NamesKey(s, name, scope, numbers) && forall e | e in before :: e.key != name
    ensures Eval(Syntax.Path(root, steps + [s]), scope, numbers) == Ok(v)
  {
    PathOneMore(root, steps, s, scope, numbers);
    Matcher.GetPast(before, name, v, after);
  }

  /** A key the object lacks is unknown; right under `secrets` it is an unlisted secret. */
  lemma MissingKeyIsRefused(root: Bytes, steps: seq<Step>, s: Step, entries: seq<Entry>, name: Bytes, scope: Scope,
                            numbers: NumberValue)
    requires Eval(Syntax.Path(root, steps), scope, numbers) == Ok(Value.Object(entries))
    requires NamesKey(s, name, scope, numbers) && forall e | e in entries :: e.key != name
    ensures Eval(Syntax.Path(root, steps + [s]), scope, numbers)
         == Err(if root == "secrets" && steps == [] then UnlistedSecret else UnknownNamespace)
  {
    PathOneMore(root, steps, s, scope, numbers);
  }

  /** An index leads to the element with that many elements before it. */
  lemma IndexLeadsToElement(root: Bytes, steps: seq<Step>, s: Step, before: seq<Value>, v: Value, after: seq<Value>,
                            scope: Scope, numbers: NumberValue)
    requires Eval(Syntax.Path(root, steps), scope, numbers) == Ok(Value.Array(before + [v] + after))
    requires NamesElement(s, |before|, scope, numbers)
    ensures Eval(Syntax.Path(root, steps + [s]), scope, numbers) == Ok(v)
  {
    PathOneMore(root, steps, s, scope, numbers);
    assert (before + [v] + after)[|before|] == v;
  }

  /** An index is unknown exactly when it is at least the length. */
  lemma IndexIsUnknownIff(root: Bytes, steps: seq<Step>, s: Step, items: seq<Value>, i: nat, scope: Scope,
                          numbers: NumberValue)
    requires Eval(Syntax.Path(root, steps), scope, numbers) == Ok(Value.Array(items))
    requires NamesElement(s, i, scope, numbers)
    ensures Eval(Syntax.Path(root, steps + [s]), scope, numbers) == Err(UnknownNamespace) <==> i >= |items|
  {
    PathOneMore(root, steps, s, scope, numbers);
  }

  /** A key of an array, an element of an object, and an index that is neither a string nor a whole number are
      type mismatches; a lone `.index` on an array element of a `map` is its position. */
  lemma MismatchedStep(root: Bytes, steps: seq<Step>, s: Step, scope: Scope, numbers: NumberValue)
    requires Eval(Syntax.Path(root, steps), scope, numbers).Ok?
    requires var v := Eval(Syntax.Path(root, steps), scope, numbers).value;
             || (v.Array? && (exists name :: NamesKey(s, name, scope, numbers))
                 && !(steps == [] && s == Syntax.Field("index")))
             || (v.Object? && exists i :: NamesElement(s, i, scope, numbers))
             || ((v.Array? || v.Object?) && IsNoIndex(s, scope, numbers))
    ensures Eval(Syntax.Path(root, steps + [s]), scope, numbers) == Err(TypeMismatch)
  {
    PathOneMore(root, steps, s, scope, numbers);
  }

  /** An index that fails passes its error on. */
  lemma IndexFailurePasses(root: Bytes, steps: seq<Step>, key: Expr, scope: Scope, numbers: NumberValue)
    requires var r := Eval(Syntax.Path(root, steps), scope, numbers); r.Ok? && (r.value.Object? || r.value.Array?)
    requires Eval(key, scope, numbers).Err?
    ensures Eval(Syntax.Path(root, steps + [Syntax.Index(key)]), scope, numbers) == Eval(key, scope, numbers)
  {
    PathOneMore(root, steps, Syntax.Index(key), scope, numbers);
  }

  predicate IsNoIndex(s: Step, scope: Scope, numbers: NumberValue) {
    && s.Index? && Eval(s.key, scope, numbers).Ok?
    && !Eval(s.key, scope, numbers).value.String?
    && (Eval(s.key, scope, numbers).value.Number? ==> AsIndex(Eval(s.key, scope, numbers).value.n).None?)
  }

  /** Nothing can be read of a scalar, but for the position of a `map` element. */
  lemma ScalarsHaveNoParts(root: Bytes, steps: seq<Step>, s: Step, scope: Scope, numbers: NumberValue)
    requires Eval(Syntax.Path(root, steps), scope, numbers).Ok?
    requires var v := Eval(Syntax.Path(root, steps), scope, numbers).value; !v.Array? && !v.Object?
    requires s.Index? ==> Eval(s.key, scope, numbers).Ok?
    ensures Eval(Syntax.Path(root, steps + [s]), scope, numbers)
         == if steps == [] && s == Syntax.Field("index") && IsElementRoot(root, scope) && scope.itemIndex.Some?
            then Ok(Value.Number(PositionNumber(scope.itemIndex.value)))
            else Err(TypeMismatch)
  {
    var longer := steps + [s];
    assert longer[|steps|] == s && (steps != [] ==> longer[0] == steps[0]);
    if ReadsPosition(root, steps, scope) {
      assert Walk(Base(root, scope).value, longer, false, scope, numbers) == Err(TypeMismatch);
    } else {
      WalkOneMore(Base(root, scope).value, steps, s, root == "secrets", scope, numbers);
    }
  }

  /** The root under which a `map` element is bound: the alias, or `item`; the fixed names come first. */
  predicate IsElementRoot(root: Bytes, scope: Scope) {
    && root !in {"inputs", "env", "secrets", "tasks", "matrix", "case", "output"}
    && (match scope.itemAlias case Some(alias) => root == alias case None => root == "item")
  }

  /** A path that fails goes on failing with the same error. */
  lemma FailureStays(root: Bytes, steps: seq<Step>, s: Step, scope: Scope, numbers: NumberValue)
    requires Eval(Syntax.Path(root, steps), scope, numbers).Err?
    ensures Eval(Syntax.Path(root, steps + [s]), scope, numbers) == Eval(Syntax.Path(root, steps), scope, numbers)
  {
    var base := Base(root, scope);
    if base.Ok? {
      assert steps != [];
      assert |steps + [s]| > 1;
      WalkOneMore(base.value, steps, s, root == "secrets", scope, numbers);
    }
  }

  /** What each root names. */
  lemma RootsLead(scope: Scope, numbers: NumberValue)
    ensures Eval(Syntax.Path("inputs", []), scope, numbers) == Ok(scope.inputs)
    ensures Eval(Syntax.Path("env", []), scope, numbers) == Ok(scope.env)
    ensures Eval(Syntax.Path("secrets", []), scope, numbers) == Ok(scope.secrets)
    ensures Eval(Syntax.Path("tasks", []), scope, numbers) == Ok(scope.tasks)
    ensures Eval(Syntax.Path("matrix", []), scope, numbers) == Ok(scope.matrix)
    ensures Eval(Syntax.Path("case", []), scope, numbers)
         == match scope.evalCase case Some(v) => Ok(v) case None => Err(UnknownNamespace)
    ensures Eval(Syntax.Path("output", []), scope, numbers)
         == match scope.output case Some(v) => Ok(v) case None => Err(UnknownNamespace)
  {
  }

  lemma OtherRootsLead(root: Bytes, scope: Scope, numbers: NumberValue)
    requires root !in {"inputs", "env", "secrets", "tasks", "matrix", "case", "output"}
    ensures Eval(Syntax.Path(root, []), scope, numbers)
         == if IsElementRoot(root, scope) && scope.item.Some? then Ok(scope.item.value) else Err(UnknownNamespace)
  {
  }

  /** What each literal denotes, and which values `!` turns into `true`. */
  lemma LiteralsDenote(b: bool, lexeme: Bytes, text: Bytes, scope: Scope, numbers: NumberValue)
    ensures Eval(Syntax.Literal(Syntax.Null), scope, numbers) == Ok(Value.Null)
    ensures Eval(Syntax.Literal(Syntax.Bool(b)), scope, numbers) == Ok(Value.Bool(b))
    ensures Eval(Syntax.Literal(Syntax.Num(lexeme)), scope, numbers) == Ok(Value.Number(numbers(lexeme)))
    ensures Eval(Syntax.Literal(Syntax.Text(text)), scope, numbers) == Ok(Value.String(text))
  {
  }

  predicate IsFalsy(v: Value) {
    v in {Value.Null, Value.Bool(false), Value.String("")} || (v.Number? && v.n.value == 0.0)
  }

  lemma NegationIsFalsy(e: Expr, scope: Scope, numbers: NumberValue)
    requires Eval(e, scope, numbers).Ok?
    ensures Eval(Syntax.Not(e), scope, numbers) == Ok(Value.Bool(IsFalsy(Eval(e, scope, numbers).value)))
  {
  }

  // ---------- Logic ----------

  /** When both operands have values, `&&` and `||` return one of them, and as truth values they, `!` and
      `!==` are the connectives; a failing right operand matters only where it is reached. */
  lemma LogicFollowsTruth(l: Expr, r: Expr, scope: Scope, numbers: NumberValue)
    requires Eval(l, scope, numbers).Ok?
    ensures var left, right := Eval(l, scope, numbers), Eval(r, scope, numbers);
            var both, either := Eval(Syntax.Binary(Syntax.And, l, r), scope, numbers),
                                Eval(Syntax.Binary(Syntax.Or, l, r), scope, numbers);
            && both in {left, right} && either in {left, right}
            && (right.Ok? ==> both.Ok? && either.Ok?
                              && (IsTruthy(both.value) <==> IsTruthy(left.value) && IsTruthy(right.value))
                              && (IsTruthy(either.value) <==> IsTruthy(left.value) || IsTruthy(right.value)))
            && (both.Err? <==> IsTruthy(left.value) && right.Err?)
            && (either.Err? <==> !IsTruthy(left.value) && right.Err?)
  {
  }

  /** `===` compares the values of its operands structurally, the left one evaluated first. */
  lemma EqualityCompares(l: Expr, r: Expr, scope: Scope, numbers: NumberValue)
    ensures Eval(Syntax.Binary(Syntax.StrictEq, l, r), scope, numbers)
         == match (Eval(l, scope, numbers), Eval(r, scope, numbers))
            case (Ok(left), Ok(right)) => Ok(Value.Bool(Matcher.DeepEqual(left, right)))
            case (Err(error), _) => Err(error)
            case (Ok(_), Err(error)) => Err(error)
  {
    var left, right := Eval(l, scope, numbers), Eval(r, scope, numbers);
    if left.Ok? && right.Ok? {
      Matcher.ExprStrictEqIsDeepEqual(left.value, right.value);
    }
  }

  /** Negating a conjunction is the disjunction of the negations, errors and order of evaluation included;
      and `!==` is the negation of `===`. */
  lemma NegationLaws(l: Expr, r: Expr, scope: Scope, numbers: NumberValue)
    ensures Eval(Syntax.Not(Syntax.Binary(Syntax.And, l, r)), scope, numbers)
         == Eval(Syntax.Binary(Syntax.Or, Syntax.Not(l), Syntax.Not(r)), scope, numbers)
    ensures Eval(Syntax.Not(Syntax.Binary(Syntax.Or, l, r)), scope, numbers)
         == Eval(Syntax.Binary(Syntax.And, Syntax.Not(l), Syntax.Not(r)), scope, numbers)
    ensures Eval(Syntax.Not(Syntax.Binary(Syntax.StrictEq, l, r)), scope, numbers)
         == Eval(Syntax.Binary(Syntax.StrictNe, l, r), scope, numbers)
  {
    var left, right := Eval(l, scope, numbers), Eval(r, scope, numbers);
    var notLeft, notRight := Eval(Syntax.Not(l), scope, numbers), Eval(Syntax.Not(r), scope, numbers);
    assert left.Ok? ==> notLeft == Ok(Value.Bool(!IsTruthy(left.value)));
    assert right.Ok? ==> notRight == Ok(Value.Bool(!IsTruthy(right.value)));
  }

  // ---------- The lint reads decide the value ----------

  /** Every path from a checked root names its first field with a dot, so the lint pass sees it. */
  predicate IsExplicit(e: Expr)
    decreases e, 0
  {
    match e
    case Literal(_) => true
    case Not(operand) => IsExplicit(operand)
    case Binary(_, l, r) => IsExplicit(l) && IsExplicit(r)
    case Path(root, steps) =>
      (Lint.IsCheckedRoot(root) ==> steps != [] && steps[0].Field?) && StepsAreExplicit(steps)
  }

  predicate StepsAreExplicit(steps: seq<Step>)
    decreases steps, 1
  {
    steps == [] || (StepIsExplicit(steps[0]) && StepsAreExplicit(steps[1..]))
  }

  predicate StepIsExplicit(s: Step)
    decreases s, 1
  {
    s.Index? ==> IsExplicit(s.key)
  }

  /** What a read finds, or the error it meets. */
  function ValueOf(r: Lint.Ref, scope: Scope): (v: Outcome) {
    match r
    case Input(name) => AccessKey(scope.inputs, name, false)
    case Secret(name) => AccessKey(scope.secrets, name, true)
    case Task(name, field) =>
      var output :- AccessKey(scope.tasks, name, false);
      if field.Some? then AccessKey(output, field.value, false) else Ok(output)
  }

  predicate AgreeOn(refs: seq<Lint.Ref>, a: Scope, b: Scope) {
    forall r | r in refs :: ValueOf(r, a) == ValueOf(r, b)
  }

  /** The namespaces the lint pass does not check. */
  predicate SameElsewhere(a: Scope, b: Scope) {
    && a.env == b.env && a.matrix == b.matrix && a.evalCase == b.evalCase && a.output == b.output
    && a.item == b.item && a.itemAlias == b.itemAlias && a.itemIndex == b.itemIndex
  }

  /** Two scopes that agree on an explicit expression's lint reads, and on the namespaces lint does not
      check, give it the same value or the same error. */
  lemma {:induction false} ReadsDecideValue(e: Expr, a: Scope, b: Scope, numbers: NumberValue)
    requires IsExplicit(e) && SameElsewhere(a, b) && AgreeOn(Agreement.Reads(e), a, b)
    ensures Eval(e, a, numbers) == Eval(e, b, numbers)
    decreases e, 0
  {
    match e
    case Literal(_) =>
    case Not(operand) =>
      ReadsDecideValue(operand, a, b, numbers);
    case Binary(_, l, r) =>
      ReadsDecideValue(l, a, b, numbers);
      ReadsDecideValue(r, a, b, numbers);
    case Path(root, steps) =>
      PathIsDecided(root, steps, a, b, numbers);
  }

  lemma {:induction false} PathIsDecided(root: Bytes, steps: seq<Step>, a: Scope, b: Scope, numbers: NumberValue)
    requires IsExplicit(Syntax.Path(root, steps)) && SameElsewhere(a, b)
    requires AgreeOn(Agreement.Reads(Syntax.Path(root, steps)), a, b)
    ensures Eval(Syntax.Path(root, steps), a, numbers) == Eval(Syntax.Path(root, steps), b, numbers)
    decreases steps, 2
  {
    if !Lint.IsCheckedRoot(root) {
      var base := Base(root, a);
      if base.Ok? {
        StepsAreDecided(base.value, steps, false, a, b, numbers);
      }
    } else {
      var read := Agreement.ReadOf(root, Agreement.FieldAt(steps, 0), Agreement.FieldAt(steps, 1)).value;
      assert read in Agreement.Reads(Syntax.Path(root, steps));
      assert ValueOf(read, a) == ValueOf(read, b);
      HeadIsDecided(root, steps, read, a, b, numbers);
    }
  }

  /** After the dotted names a read covers, both scopes walk on from the same value. */
  lemma {:induction false} HeadIsDecided(root: Bytes, steps: seq<Step>, read: Lint.Ref, a: Scope, b: Scope,
                                         numbers: NumberValue)
    requires Lint.IsCheckedRoot(root) && steps != [] && steps[0].Field? && StepsAreExplicit(steps)
    requires Agreement.ReadOf(root, Agreement.FieldAt(steps, 0), Agreement.FieldAt(steps, 1)) == Some(read)
    requires SameElsewhere(a, b) && ValueOf(read, a) == ValueOf(read, b)
    requires AgreeOn(Agreement.ReadsInSteps(steps), a, b)
    ensures Walk(Base(root, a).value, steps, root == "secrets", a, numbers)
         == Walk(Base(root, b).value, steps, root == "secrets", b, numbers)
    decreases steps, 1
  {
    var first := AccessKey(Base(root, a).value, steps[0].name, root == "secrets");
    var first' := AccessKey(Base(root, b).value, steps[0].name, root == "secrets");
    var rest := steps[1..];
    assert AgreeOn(Agreement.ReadsInSteps(rest), a, b);
    if !(read.Task? && read.field.Some?) {
      assert first == first';
      if first.Ok? {
        StepsAreDecided(first.value, rest, false, a, b, numbers);
      }
    } else {
      assert AgreeOn(Agreement.ReadsInSteps(rest[1..]), a, b);
      TwoFields(read, steps, a, numbers);
      TwoFields(read, steps, b, numbers);
      var second := ValueOf(read, a);
      if second.Ok? {
        StepsAreDecided(second.value, rest[1..], false, a, b, numbers);
      }
    }
  }

  /** Under `tasks`, two dotted names lead to what the read finds. */
  lemma TwoFields(read: Lint.Ref, steps: seq<Step>, scope: Scope, numbers: NumberValue)
    requires read.Task? && read.field.Some? && |steps| >= 2
    requires steps[0] == Syntax.Field(read.name) && steps[1] == Syntax.Field(read.field.value)
    ensures Walk(scope.tasks, steps, false, scope, numbers)
         == match ValueOf(read, scope)
            case Ok(v) => Walk(v, steps[1..][1..], false, scope, numbers)
            case Err(error) => Err(error)
  {
    var first := AccessKey(scope.tasks, read.name, false);
    assert ApplyStep(scope.tasks, steps[0], false, scope, numbers) == first;
    if first.Ok? {
      assert steps[1..][0] == steps[1];
      var second := AccessKey(first.value, read.field.value, false);
      assert ApplyStep(first.value, steps[1..][0], false, scope, numbers) == second;
    }
  }

  lemma {:induction false} StepsAreDecided(current: Value, steps: seq<Step>, secretFirst: bool, a: Scope, b: Scope,
                                           numbers: NumberValue)
    requires StepsAreExplicit(steps) && SameElsewhere(a, b) && AgreeOn(Agreement.ReadsInSteps(steps), a, b)
    ensures Walk(current, steps, secretFirst, a, numbers) == Walk(current, steps, secretFirst, b, numbers)
    decreases steps, 0
  {
    if steps != [] {
      assert Agreement.ReadsInSteps(steps) == Agreement.ReadsInStep(steps[0]) + Agreement.ReadsInSteps(steps[1..]);
      StepIsDecided(current, steps[0], secretFirst, a, b, numbers);
      var next := ApplyStep(current, steps[0], secretFirst, a, numbers);
      if next.Ok? {
        StepsAreDecided(next.value, steps[1..], false, a, b, numbers);
      }
    }
  }

  lemma {:induction false} StepIsDecided(current: Value, s: Step, secretFirst: bool, a: Scope, b: Scope,
                                         numbers: NumberValue)
    requires StepIsExplicit(s) && SameElsewhere(a, b) && AgreeOn(Agreement.ReadsInStep(s), a, b)
    ensures ApplyStep(current, s, secretFirst, a, numbers) == ApplyStep(current, s, secretFirst, b, numbers)
    decreases s, 1
  {
    match s
    case Field(_) =>
    case Index(key) =>
      ReadsDecideValue(key, a, b, numbers);
  }

  /** The scanner's list, taken from the text alone, decides what the text evaluates to. */
  lemma ScannedReadsDecideValue(src: Bytes, a: Scope, b: Scope, num: NumberReader, numbers: NumberValue)
    requires Valid(src) && Parser.Parse(src, num).Ok? && IsExplicit(Parser.Parse(src, num).value)
    requires Agreement.ReadsOnOneLine(Agreement.LexemesOf(src, num), false)
    requires SameElsewhere(a, b) && AgreeOn(Lint.Scan(src, 0, 0 as char), a, b)
    ensures Evaluate(src, a, num, numbers) == Evaluate(src, b, num, numbers)
  {
    Agreement.ScannerAgreesWithParser(src, num);
    ReadsDecideValue(Parser.Parse(src, num).value, a, b, numbers);
  }

  /** A bare checked root has no lint reads, and yet its value is the whole namespace. */
  lemma BareRootIsUnseen(root: Bytes, a: Scope, b: Scope, numbers: NumberValue)
    requires Lint.IsCheckedRoot(root) && Base(root, a) != Base(root, b)
    ensures Agreement.Reads(Syntax.Path(root, [])) == [] && !IsExplicit(Syntax.Path(root, []))
    ensures Eval(Syntax.Path(root, []), a, numbers) != Eval(Syntax.Path(root, []), b, numbers)
  {
    assert Agreement.ReadsInSteps([]) == [];
  }

  // ---------- Unlisted secrets ----------

  /** The task listed every secret among the reads. */
  predicate SecretsListed(refs: seq<Lint.Ref>, scope: Scope) {
    forall r | r in refs && r.Secret? :: scope.secrets.Object? && Get(scope.secrets.entries, r.name).Some?
  }

  /** An explicit expression whose secret reads are all listed never fails with `unlisted_secret`. */
  lemma {:induction false} ListedSecretsAreFound(e: Expr, scope: Scope, numbers: NumberValue)
    requires IsExplicit(e) && SecretsListed(Agreement.Reads(e), scope)
    ensures Eval(e, scope, numbers) != Err(UnlistedSecret)
    decreases e, 0
  {
    match e
    case Literal(_) =>
    case Not(operand) =>
      ListedSecretsAreFound(operand, scope, numbers);
    case Binary(_, l, r) =>
      ListedSecretsAreFound(l, scope, numbers);
      ListedSecretsAreFound(r, scope, numbers);
    case Path(root, steps) =>
      if root == "secrets" {
        assert Lint.Secret(steps[0].name) in Agreement.Reads(e);
      }
      if Base(root, scope).Ok? {
        ListedInSteps(Base(root, scope).value, steps, root == "secrets", scope, numbers);
      }
  }

  lemma {:induction false} ListedInSteps(current: Value, steps: seq<Step>, secretFirst: bool, scope: Scope,
                                         numbers: NumberValue)
    requires StepsAreExplicit(steps) && SecretsListed(Agreement.ReadsInSteps(steps), scope)
    requires secretFirst ==> steps != [] && steps[0].Field? && AccessKey(current, steps[0].name, true).Ok?
    ensures Walk(current, steps, secretFirst, scope, numbers) != Err(UnlistedSecret)
    decreases steps, 0
  {
    if steps != [] {
      assert Agreement.ReadsInSteps(steps) == Agreement.ReadsInStep(steps[0]) + Agreement.ReadsInSteps(steps[1..]);
      ListedInStep(current, steps[0], secretFirst, scope, numbers);
      var next := ApplyStep(current, steps[0], secretFirst, scope, numbers);
      if next.Ok? {
        ListedInSteps(next.value, steps[1..], false, scope, numbers);
      }
    }
  }

  lemma {:induction false} ListedInStep(current: Value, s: Step, secretFirst: bool, scope: Scope,
                                        numbers: NumberValue)
    requires StepIsExplicit(s) && SecretsListed(Agreement.ReadsInStep(s), scope)
    requires secretFirst ==> s.Field? && AccessKey(current, s.name, true).Ok?
    ensures ApplyStep(current, s, secretFirst, scope, numbers) != Err(UnlistedSecret)
    decreases s, 1
  {
    match s
    case Field(_) =>
    case Index(key) =>
      ListedSecretsAreFound(key, scope, numbers);
  }

  /** Conversely, a lone read of a secret outside the scope's object is refused with that code. */
  lemma UnlistedSecretIsRefused(name: Bytes, scope: Scope, numbers: NumberValue)
    ensures Eval(Syntax.Path("secrets", [Syntax.Field(name)]), scope, numbers) == Err(UnlistedSecret)
       <==> scope.secrets.Object? && Get(scope.secrets.entries, name).None?
  {
    var steps := [Syntax.Field(name)];
    var found := AccessKey(scope.secrets, name, true);
    assert ApplyStep(scope.secrets, steps[0], true, scope, numbers) == found;
    assert steps[1..] == [];
    assert Walk(scope.secrets, steps, true, scope, numbers) == found;
  }

  // ---------- Values stay well formed ----------

  predicate ScopeWellFormed(scope: Scope) {
    && WellFormed(scope.inputs) && WellFormed(scope.env) && WellFormed(scope.secrets) && WellFormed(scope.tasks)
    && WellFormed(scope.matrix)
    && (scope.item.Some? ==> WellFormed(scope.item.value))
    && (scope.evalCase.Some? ==> WellFormed(scope.evalCase.value))
    && (scope.output.Some? ==> WellFormed(scope.output.value))
  }

  lemma {:induction false} ValuesAreWellFormed(e: Expr, scope: Scope, numbers: NumberValue)
    requires ScopeWellFormed(scope)
    ensures var r := Eval(e, scope, numbers); r.Ok? ==> WellFormed(r.value)
    decreases e, 0
  {
    match e
    case Literal(_) =>
    case Not(_) =>
    case Binary(_, l, r) =>
      ValuesAreWellFormed(l, scope, numbers);
      ValuesAreWellFormed(r, scope, numbers);
    case Path(root, steps) =>
      if Base(root, scope).Ok? {
        WalkIsWellFormed(Base(root, scope).value, steps, root == "secrets", scope, numbers);
      }
  }

  lemma {:induction false} WalkIsWellFormed(current: Value, steps: seq<Step>, secretFirst: bool, scope: Scope,
                                            numbers: NumberValue)
    requires WellFormed(current)
    ensures var r := Walk(current, steps, secretFirst, scope, numbers); r.Ok? ==> WellFormed(r.value)
    decreases steps, 0
  {
    if steps != [] {
      var next := ApplyStep(current, steps[0], secretFirst, scope, numbers);
      if next.Ok? {
        WalkIsWellFormed(next.value, steps[1..], false, scope, numbers);
      }
    }
  }

  /** An expression that has a value is `===` to itself, compounds included. */
  lemma EqualsItself(e: Expr, scope: Scope, numbers: NumberValue)
    requires ScopeWellFormed(scope)
    ensures Eval(Syntax.Binary(Syntax.StrictEq, e, e), scope, numbers)
         == match Eval(e, scope, numbers) case Ok(_) => Ok(Value.Bool(true)) case Err(error) => Err(error)
  {
    var r := Eval(e, scope, numbers);
    if r.Ok? {
      ValuesAreWellFormed(e, scope, numbers);
      Matcher.DeepEqualReflexive(r.value);
      Matcher.ExprStrictEqIsDeepEqual(r.value, r.value);
    }
  }
}
