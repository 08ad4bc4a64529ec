/** The climbing parser against the layered grammar: it accepts exactly the token streams that have a
    derivation nesting within the limit, and returns that derivation, which is unique. */
module Grammar {
  import opened Wrappers
  import opened Utf8
  import opened Lexer
  import opened Syntax
  import opened Parser

  // ---------- Soundness ----------

  /** No operator at `p` may take `tree` as its left operand unless the grammar lets it. */
  predicate Settled(t: seq<Token>, tree: Tree, p: nat) {
    OpAt(t, p).Some? ==> InLayer(tree, Layer(OpAt(t, p).value))
  }

  /** `tree` derives exactly the tokens from `p` to `q`, from layer `layer`, nesting within the limit. */
  predicate Derives(t: seq<Token>, p: nat, q: nat, tree: Tree, layer: nat, depth: nat, limit: nat) {
    && p < q <= |t|
    && InLayer(tree, layer)
    && t[p..q] == Yield(tree)
    && depth + Nesting(tree) <= limit + 1
  }

  lemma {:induction false} ClimbSound(t: seq<Token>, p: nat, minBp: nat, depth: nat, limit: nat)
    requires p <= |t|
    requires Climb(t, p, minBp, depth, limit).Ok?
    ensures var (tree, q) := Climb(t, p, minBp, depth, limit).value;
            && Derives(t, p, q, tree, minBp / 2, depth, limit)
            && Settled(t, tree, q)
            && (OpAt(t, q).Some? ==> LeftBp(OpAt(t, q).value) < minBp)
    decreases |t| - p, 2
  {
    var (lhs, q) := Prefix(t, p, depth, limit).value;
    PrefixSound(t, p, depth, limit);
    PrimaryLayer(lhs, 3, minBp / 2);
    if OpAt(t, q).Some? {
      PrimaryLayer(lhs, 3, Layer(OpAt(t, q).value));
    }
    InfixSound(t, p, lhs, q, minBp, depth, limit);
  }

  /** Only a binary operator belongs to a layer of its own. */
  lemma PrimaryLayer(tree: Tree, m: nat, n: nat)
    requires !tree.TBinary? && InLayer(tree, m)
    ensures InLayer(tree, n)
  {
  }

  lemma {:induction false} PrefixSound(t: seq<Token>, p: nat, depth: nat, limit: nat)
    requires p <= |t| && depth <= limit
    requires Prefix(t, p, depth, limit).Ok?
    ensures var (tree, q) := Prefix(t, p, depth, limit).value;
            !tree.TBinary? && Derives(t, p, q, tree, 3, depth, limit)
    decreases |t| - p, 1
  {
    var (tree, q) := Prefix(t, p, depth, limit).value;
    if t[p] == Bang {
      ClimbSound(t, p + 1, BANG_BP, depth + 1, limit);
      NotDerives(t, p, q, tree.operand, depth, limit);
    } else if t[p] == LParen {
      ClimbSound(t, p + 1, 0, depth + 1, limit);
      ParenDerives(t, p, q, tree.inner, depth, limit);
    } else if IsLiteralToken(t[p]) {
      assert t[p..q] == [t[p]];
    } else {
      StepsSound(t, p + 1, depth, limit);
      PathDerives(t, p, q, tree.steps, depth, limit);
    }
  }

  lemma NotDerives(t: seq<Token>, p: nat, q: nat, e: Tree, depth: nat, limit: nat)
    requires p < |t| && t[p] == Bang && Derives(t, p + 1, q, e, 3, depth + 1, limit)
    ensures Derives(t, p, q, TNot(e), 3, depth, limit)
  {
    assert t[p..q] == [t[p]] + t[p + 1..q];
  }

  lemma ParenDerives(t: seq<Token>, p: nat, q: nat, e: Tree, depth: nat, limit: nat)
    requires p + 1 < q <= |t| && t[p] == LParen && t[q - 1] == RParen
    requires Derives(t, p + 1, q - 1, e, 0, depth + 1, limit)
    ensures Derives(t, p, q, TParen(e), 3, depth, limit)
  {
    assert t[p..q] == [t[p]] + t[p + 1..q - 1] + [t[q - 1]];
  }

  lemma PathDerives(t: seq<Token>, p: nat, q: nat, steps: seq<TStep>, depth: nat, limit: nat)
    requires p < |t| && depth <= limit && t[p].Ident? && !IsKeyword(t[p].name)
    requires DerivesSteps(t, p + 1, q, steps, depth, limit)
    ensures Derives(t, p, q, TPath(t[p].name, steps), 3, depth, limit)
  {
    assert t[p..q] == [t[p]] + t[p + 1..q];
  }

  /** The operator and its operands derive the tokens from the left one to the right one. */
  lemma BinaryDerives(t: seq<Token>, s: nat, p: nat, q: nat, op: BinOp, l: Tree, r: Tree,
                      layer: nat, depth: nat, limit: nat)
    requires OpAt(t, p) == Some(op) && layer <= Layer(op)
    requires Derives(t, s, p, l, layer, depth, limit) && InLayer(l, Layer(op))
    requires Derives(t, p + 1, q, r, Layer(op) + 1, depth + 1, limit)
    ensures Derives(t, s, q, TBinary(op, l, r), layer, depth, limit)
  {
    SliceAround(t, s, p, q);
  }

  lemma SliceAround(t: seq<Token>, s: nat, p: nat, q: nat)
    requires s <= p < q <= |t|
    ensures t[s..q] == t[s..p] + [t[p]] + t[p + 1..q]
  {
  }

  lemma {:induction false} InfixSound(t: seq<Token>, s: nat, lhs: Tree, p: nat, minBp: nat, depth: nat, limit: nat)
    requires Derives(t, s, p, lhs, minBp / 2, depth, limit) && Settled(t, lhs, p)
    requires Infix(t, lhs, p, minBp, depth, limit).Ok?
    ensures var (tree, q) := Infix(t, lhs, p, minBp, depth, limit).value;
            && Derives(t, s, q, tree, minBp / 2, depth, limit)
            && Settled(t, tree, q)
            && (OpAt(t, q).Some? ==> LeftBp(OpAt(t, q).value) < minBp)
    decreases |t| - p, 0
  {
    if OpAt(t, p).Some? && LeftBp(OpAt(t, p).value) >= minBp {
      var op := OpAt(t, p).value;
      var (rhs, q) := Climb(t, p + 1, RightBp(op), depth + 1, limit).value;
      ClimbSound(t, p + 1, RightBp(op), depth + 1, limit);
      BinaryDerives(t, s, p, q, op, lhs, rhs, minBp / 2, depth, limit);
      InfixSound(t, s, TBinary(op, lhs, rhs), q, minBp, depth, limit);
    }
  }

  lemma {:induction false} StepsSound(t: seq<Token>, p: nat, depth: nat, limit: nat)
    requires p <= |t| && depth <= limit
    requires Steps(t, p, depth, limit).Ok?
    ensures StepsDerive(t, p, depth, limit)
    decreases |t| - p, 0
  {
    if TokenAt(t, p, Dot) {
      StepsSound(t, p + 2, depth, limit);
      FieldSound(t, p, depth, limit);
    } else if TokenAt(t, p, LBracket) {
      var k := Climb(t, p + 1, 0, depth + 1, limit).value.1;
      ClimbSound(t, p + 1, 0, depth + 1, limit);
      StepsSound(t, k + 1, depth, limit);
      IndexSound(t, p, k, depth, limit);
    }
  }

  /** What `Steps` returned from `p` derives the tokens it read. */
  predicate StepsDerive(t: seq<Token>, p: nat, depth: nat, limit: nat)
    requires p <= |t|
  {
    var r := Steps(t, p, depth, limit);
    r.Ok? && DerivesSteps(t, p, r.value.1, r.value.0, depth, limit)
  }

  lemma FieldSound(t: seq<Token>, p: nat, depth: nat, limit: nat)
    requires p + 2 <= |t| && depth <= limit && t[p] == Dot && t[p + 1].Ident?
    requires StepsDerive(t, p + 2, depth, limit)
    ensures StepsDerive(t, p, depth, limit)
  {
    var (rest, q) := Steps(t, p + 2, depth, limit).value;
    assert t[p..p + 2] == [t[p], t[p + 1]];
    StepThenSteps(t, p, p + 2, q, TField(t[p + 1].name), rest, depth, limit);
  }

  lemma IndexSound(t: seq<Token>, p: nat, k: nat, depth: nat, limit: nat)
    requires p < k < |t| && depth <= limit && t[p] == LBracket && t[k] == RBracket
    requires Climb(t, p + 1, 0, depth + 1, limit).Ok? && Climb(t, p + 1, 0, depth + 1, limit).value.1 == k
    requires Derives(t, p + 1, k, Climb(t, p + 1, 0, depth + 1, limit).value.0, 0, depth + 1, limit)
    requires StepsDerive(t, k + 1, depth, limit)
    ensures StepsDerive(t, p, depth, limit)
  {
    var key := Climb(t, p + 1, 0, depth + 1, limit).value.0;
    var (rest, q) := Steps(t, k + 1, depth, limit).value;
    IndexYields(t, p, k, key, depth, limit);
    StepsTake(t, p, k + 1, q, TIndex(key), rest, depth, limit);
    StepThenSteps(t, p, k + 1, q, TIndex(key), rest, depth, limit);
  }

  lemma IndexYields(t: seq<Token>, p: nat, k: nat, key: Tree, depth: nat, limit: nat)
    requires p < k < |t| && t[p] == LBracket && t[k] == RBracket
    requires Derives(t, p + 1, k, key, 0, depth + 1, limit)
    ensures t[p..k + 1] == YieldStep(TIndex(key)) && InLayer(key, 0)
    ensures depth + NestingStep(TIndex(key)) <= limit + 1
  {
    assert t[p..k + 1] == [t[p]] + t[p + 1..k] + [t[k]];
  }

  /** `steps` derives exactly the tokens from `p` to `q`, nesting within the limit. */
  predicate DerivesSteps(t: seq<Token>, p: nat, q: nat, steps: seq<TStep>, depth: nat, limit: nat) {
    && p <= q <= |t|
    && t[p..q] == YieldSteps(steps)
    && (forall s | s in steps :: s.TIndex? ==> InLayer(s.key, 0))
    && depth + NestingSteps(steps) <= limit + 1
  }

  lemma StepThenSteps(t: seq<Token>, p: nat, k: nat, q: nat, step: TStep, rest: seq<TStep>, depth: nat, limit: nat)
    requires p <= k <= q && DerivesSteps(t, k, q, rest, depth, limit)
    requires t[p..k] == YieldStep(step) && depth + NestingStep(step) <= limit + 1
    requires step.TIndex? ==> InLayer(step.key, 0)
    ensures DerivesSteps(t, p, q, [step] + rest, depth, limit)
  {
    var steps := [step] + rest;
    assert steps[1..] == rest;
    assert t[p..q] == t[p..k] + t[k..q];
  }

  // ---------- Completeness ----------

  /** What may follow an expression: no step, and no operator that would have to bind inside it. */
  predicate Follows(t: seq<Token>, tree: Tree, q: nat) {
    && !TokenAt(t, q, Dot)
    && !TokenAt(t, q, LBracket)
    && Settled(t, tree, q)
  }

  /** Parsing from `p` gets through any derivation of the tokens from `p` to `q` and stands at `q`. */
  lemma {:induction false} ClimbComplete(t: seq<Token>, p: nat, q: nat, tree: Tree, minBp: nat, depth: nat, limit: nat)
    requires minBp <= 7 && Derives(t, p, q, tree, minBp / 2, depth, limit) && Follows(t, tree, q)
    ensures Climb(t, p, minBp, depth, limit) == Infix(t, tree, q, minBp, depth, limit)
    decreases tree, 1
  {
    if tree.TBinary? {
      BinaryComplete(t, p, q, tree.op, tree.lhs, tree.rhs, minBp, depth, limit);
    } else {
      PrefixComplete(t, p, q, tree, depth, limit);
    }
  }

  lemma {:induction false} PrefixComplete(t: seq<Token>, p: nat, q: nat, tree: Tree, depth: nat, limit: nat)
    requires !tree.TBinary? && Derives(t, p, q, tree, 3, depth, limit) && Follows(t, tree, q)
    ensures Prefix(t, p, depth, limit) == Ok((tree, q))
    decreases tree, 0
  {
    match tree
    case TLiteral(token) => assert t[p] == t[p..q][0];
    case TPath(root, steps) => PathComplete(t, p, q, root, steps, depth, limit);
    case TNot(e) => NotComplete(t, p, q, e, depth, limit);
    case TParen(e) => ParenComplete(t, p, q, e, depth, limit);
  }

  lemma {:induction false} PathComplete(t: seq<Token>, p: nat, q: nat, root: Bytes, steps: seq<TStep>, depth: nat, limit: nat)
    requires Derives(t, p, q, TPath(root, steps), 3, depth, limit) && Follows(t, TPath(root, steps), q)
    ensures Prefix(t, p, depth, limit) == Ok((TPath(root, steps), q))
    decreases steps, 1
  {
    Split(t, p, q, [Ident(root)], YieldSteps(steps));
    StepsComplete(t, p + 1, q, steps, depth, limit);
  }

  lemma {:induction false} NotComplete(t: seq<Token>, p: nat, q: nat, e: Tree, depth: nat, limit: nat)
    requires Derives(t, p, q, TNot(e), 3, depth, limit) && Follows(t, TNot(e), q)
    ensures Prefix(t, p, depth, limit) == Ok((TNot(e), q))
    decreases e, 2
  {
    Split(t, p, q, [Bang], Yield(e));
    if OpAt(t, q).Some? {
      LooserLayer(e, Layer(OpAt(t, q).value), 3);
    }
    ClimbComplete(t, p + 1, q, e, BANG_BP, depth + 1, limit);
  }

  lemma {:induction false} ParenComplete(t: seq<Token>, p: nat, q: nat, e: Tree, depth: nat, limit: nat)
    requires Derives(t, p, q, TParen(e), 3, depth, limit)
    ensures Prefix(t, p, depth, limit) == Ok((TParen(e), q))
    decreases e, 2
  {
    SplitBetween(t, p, q, LParen, Yield(e), RParen);
    ClimbComplete(t, p + 1, q - 1, e, 0, depth + 1, limit);
  }

  lemma {:induction false} BinaryComplete(t: seq<Token>, p: nat, q: nat, op: BinOp, l: Tree, r: Tree,
                                          minBp: nat, depth: nat, limit: nat)
    requires minBp <= 7 && Derives(t, p, q, TBinary(op, l, r), minBp / 2, depth, limit)
    requires Follows(t, TBinary(op, l, r), q)
    ensures Climb(t, p, minBp, depth, limit) == Infix(t, TBinary(op, l, r), q, minBp, depth, limit)
    decreases TBinary(op, l, r), 0
  {
    LeftComplete(t, p, q, op, l, r, minBp, depth, limit);
    RightComplete(t, p, q, op, l, r, minBp, depth, limit);
  }

  lemma {:induction false} LeftComplete(t: seq<Token>, p: nat, q: nat, op: BinOp, l: Tree, r: Tree,
                                        minBp: nat, depth: nat, limit: nat)
    requires minBp <= 7 && Derives(t, p, q, TBinary(op, l, r), minBp / 2, depth, limit)
    ensures var k := p + |Yield(l)|;
            k < q && Climb(t, p, minBp, depth, limit) == Infix(t, l, k, minBp, depth, limit)
    decreases l, 2
  {
    var k := p + |Yield(l)|;
    LeftOperand(t, p, q, op, l, r, minBp, depth, limit);
    LeftFollows(t, k, op, l, minBp);
    ClimbComplete(t, p, k, l, minBp, depth, limit);
  }

  lemma {:induction false} RightComplete(t: seq<Token>, p: nat, q: nat, op: BinOp, l: Tree, r: Tree,
                                         minBp: nat, depth: nat, limit: nat)
    requires minBp <= 7 && Derives(t, p, q, TBinary(op, l, r), minBp / 2, depth, limit)
    requires Follows(t, TBinary(op, l, r), q)
    ensures var k := p + |Yield(l)|;
            k < q && Infix(t, l, k, minBp, depth, limit) == Infix(t, TBinary(op, l, r), q, minBp, depth, limit)
    decreases r, 3
  {
    var k := p + |Yield(l)|;
    LeftOperand(t, p, q, op, l, r, minBp, depth, limit);
    LeftFollows(t, k, op, l, minBp);
    RightClimb(t, p, q, op, l, r, minBp, depth, limit);
    InfixTakes(t, k, q, op, l, r, minBp, depth, limit);
  }

  lemma {:induction false} RightClimb(t: seq<Token>, p: nat, q: nat, op: BinOp, l: Tree, r: Tree,
                                      minBp: nat, depth: nat, limit: nat)
    requires minBp <= 7 && Derives(t, p, q, TBinary(op, l, r), minBp / 2, depth, limit)
    requires Follows(t, TBinary(op, l, r), q)
    ensures OpAt(t, q).Some? ==> LeftBp(OpAt(t, q).value) < RightBp(op)
    ensures var k := p + |Yield(l)|;
            k < q && Climb(t, k + 1, RightBp(op), depth + 1, limit) == Infix(t, r, q, RightBp(op), depth + 1, limit)
    decreases r, 2
  {
    RightOperand(t, p, q, op, l, r, minBp, depth, limit);
    RightFollows(t, q, op, l, r, minBp / 2);
    ClimbComplete(t, p + |Yield(l)| + 1, q, r, RightBp(op), depth + 1, limit);
  }

  lemma BindingPowersFollowLayers(op: BinOp)
    ensures LeftBp(op) == 2 * Layer(op) + 1 && RightBp(op) == 2 * Layer(op) + 2
  {
  }

  lemma OperandsFit(op: BinOp, l: Tree, r: Tree, layer: nat, room: int)
    requires InLayer(TBinary(op, l, r), layer) && Nesting(TBinary(op, l, r)) <= room
    ensures layer <= Layer(op) && InLayer(l, layer) && InLayer(l, Layer(op)) && InLayer(r, Layer(op) + 1)
    ensures Nesting(l) <= room && 1 + Nesting(r) <= room
  {
    LooserLayer(l, layer, Layer(op));
  }

  lemma LeftOperand(t: seq<Token>, p: nat, q: nat, op: BinOp, l: Tree, r: Tree, minBp: nat, depth: nat, limit: nat)
    requires minBp <= 7 && Derives(t, p, q, TBinary(op, l, r), minBp / 2, depth, limit)
    ensures var k := p + |Yield(l)|;
            && Derives(t, p, k, l, minBp / 2, depth, limit) && InLayer(l, Layer(op))
            && k + 1 < q && OpAt(t, k) == Some(op) && minBp / 2 <= Layer(op)
  {
    OperandSpans(t, p, q, op, l, r);
    OperandsFit(op, l, r, minBp / 2, limit + 1 - depth);
  }

  /** The operator may follow its left operand, and binds at least as tightly as the caller asks. */
  lemma LeftFollows(t: seq<Token>, k: nat, op: BinOp, l: Tree, minBp: nat)
    requires OpAt(t, k) == Some(op) && InLayer(l, Layer(op)) && minBp / 2 <= Layer(op)
    ensures Follows(t, l, k) && LeftBp(op) >= minBp
  {
    BindingPowersFollowLayers(op);
  }

  lemma RightOperand(t: seq<Token>, p: nat, q: nat, op: BinOp, l: Tree, r: Tree, minBp: nat, depth: nat, limit: nat)
    requires minBp <= 7 && Derives(t, p, q, TBinary(op, l, r), minBp / 2, depth, limit)
    requires Follows(t, TBinary(op, l, r), q)
    ensures var k := p + |Yield(l)|;
            RightBp(op) <= 7 && Derives(t, k + 1, q, r, RightBp(op) / 2, depth + 1, limit)
  {
    OperandSpans(t, p, q, op, l, r);
    OperandsFit(op, l, r, minBp / 2, limit + 1 - depth);
    BindingPowersFollowLayers(op);
  }

  /** What may follow the operator's result may follow its right operand, and is looser. */
  lemma RightFollows(t: seq<Token>, q: nat, op: BinOp, l: Tree, r: Tree, layer: nat)
    requires InLayer(TBinary(op, l, r), layer) && Follows(t, TBinary(op, l, r), q)
    ensures Follows(t, r, q) && (OpAt(t, q).Some? ==> LeftBp(OpAt(t, q).value) < RightBp(op))
  {
    if OpAt(t, q).Some? {
      var next := OpAt(t, q).value;
      LooserLayer(r, Layer(next), Layer(op) + 1);
      BindingPowersFollowLayers(next);
      BindingPowersFollowLayers(op);
    }
  }

  lemma OperandSpans(t: seq<Token>, p: nat, q: nat, op: BinOp, l: Tree, r: Tree)
    requires p < q <= |t| && t[p..q] == Yield(l) + [OpToken(op)] + Yield(r)
    ensures var k := p + |Yield(l)|;
            p < k && k + 1 < q && t[p..k] == Yield(l) && OpAt(t, k) == Some(op) && t[k + 1..q] == Yield(r)
  {
    SplitAround(t, p, q, Yield(l), OpToken(op), Yield(r));
    OpTokenAt(t, p + |Yield(l)|, op);
  }

  lemma OpTokenAt(t: seq<Token>, k: nat, op: BinOp)
    requires k < |t| && t[k] == OpToken(op)
    ensures OpAt(t, k) == Some(op)
  {
  }

  lemma SplitBetween(t: seq<Token>, p: nat, q: nat, x: Token, a: seq<Token>, y: Token)
    requires p <= q <= |t| && t[p..q] == [x] + a + [y]
    ensures p + 1 < q && t[p] == x && t[q - 1] == y && t[p + 1..q - 1] == a && q == p + |a| + 2
  {
    Split(t, p, q, [x] + a, [y]);
    Split(t, p, q - 1, [x], a);
  }

  lemma SplitAround(t: seq<Token>, p: nat, q: nat, a: seq<Token>, x: Token, b: seq<Token>)
    requires p <= q <= |t| && t[p..q] == a + [x] + b
    ensures var k := p + |a|; k < q && t[p..k] == a && t[k] == x && t[k + 1..q] == b
  {
    Split(t, p, q, a + [x], b);
    Split(t, p, p + |a| + 1, a, [x]);
  }

  /** The loop takes an operator it may bind, and its right operand ends before a looser one. */
  lemma InfixTakes(t: seq<Token>, k: nat, q: nat, op: BinOp, l: Tree, r: Tree, minBp: nat, depth: nat, limit: nat)
    requires k + 1 < q <= |t| && OpAt(t, k) == Some(op) && LeftBp(op) >= minBp
    requires OpAt(t, q).Some? ==> LeftBp(OpAt(t, q).value) < RightBp(op)
    requires Climb(t, k + 1, RightBp(op), depth + 1, limit) == Infix(t, r, q, RightBp(op), depth + 1, limit)
    ensures Infix(t, l, k, minBp, depth, limit) == Infix(t, TBinary(op, l, r), q, minBp, depth, limit)
  {
    assert Infix(t, r, q, RightBp(op), depth + 1, limit) == Ok((r, q));
  }

  lemma {:induction false} StepsComplete(t: seq<Token>, p: nat, q: nat, steps: seq<TStep>, depth: nat, limit: nat)
    requires p <= q <= |t| && t[p..q] == YieldSteps(steps)
    requires forall s | s in steps :: s.TIndex? ==> InLayer(s.key, 0)
    requires depth + NestingSteps(steps) <= limit + 1
    requires !TokenAt(t, q, Dot) && !TokenAt(t, q, LBracket)
    ensures Steps(t, p, depth, limit) == Ok((steps, q))
    decreases steps, 0
  {
    if steps != [] {
      var k := p + |YieldStep(steps[0])|;
      FirstStepSpans(t, p, q, steps);
      StepsComplete(t, k, q, steps[1..], depth, limit);
      StepComplete(t, p, k, steps[0], depth, limit);
      StepsTake(t, p, k, q, steps[0], steps[1..], depth, limit);
      assert steps == [steps[0]] + steps[1..];
    }
  }

  lemma FirstStepSpans(t: seq<Token>, p: nat, q: nat, steps: seq<TStep>)
    requires steps != [] && p <= q <= |t| && t[p..q] == YieldSteps(steps)
    ensures var k := p + |YieldStep(steps[0])|;
            p < k <= q && t[p..k] == YieldStep(steps[0]) && t[k..q] == YieldSteps(steps[1..])
    ensures NestingStep(steps[0]) <= NestingSteps(steps) && NestingSteps(steps[1..]) <= NestingSteps(steps)
  {
    Split(t, p, q, YieldStep(steps[0]), YieldSteps(steps[1..]));
  }

  /** What parsing one step leaves behind. */
  predicate StepParsed(t: seq<Token>, p: nat, k: nat, step: TStep, depth: nat, limit: nat) {
    && p < k <= |t|
    && match step
       case TField(name) => k == p + 2 && t[p] == Dot && t[p + 1] == Ident(name)
       case TIndex(key) =>
         t[p] == LBracket && t[k - 1] == RBracket && Climb(t, p + 1, 0, depth + 1, limit) == Ok((key, k - 1))
  }

  lemma StepsTake(t: seq<Token>, p: nat, k: nat, q: nat, step: TStep, rest: seq<TStep>, depth: nat, limit: nat)
    requires StepParsed(t, p, k, step, depth, limit) && Steps(t, k, depth, limit) == Ok((rest, q))
    ensures Steps(t, p, depth, limit) == Ok(([step] + rest, q))
  {
  }

  lemma {:induction false} StepComplete(t: seq<Token>, p: nat, k: nat, step: TStep, depth: nat, limit: nat)
    requires p < k <= |t| && t[p..k] == YieldStep(step)
    requires step.TIndex? ==> InLayer(step.key, 0)
    requires depth + NestingStep(step) <= limit + 1
    ensures StepParsed(t, p, k, step, depth, limit)
    decreases step, 0
  {
    match step
    case TField(name) =>
      assert t[p] == t[p..k][0] && t[p + 1] == t[p..k][1];
    case TIndex(key) =>
      SplitBetween(t, p, k, LBracket, Yield(key), RBracket);
      ClimbComplete(t, p + 1, k - 1, key, 0, depth + 1, limit);
  }

  /** A span that reads `a + b` is a span that reads `a` and then one that reads `b`. */
  lemma Split(t: seq<Token>, p: nat, q: nat, a: seq<Token>, b: seq<Token>)
    requires p <= q <= |t| && t[p..q] == a + b
    ensures p + |a| <= q
    ensures t[p..p + |a|] == a && t[p + |a|..q] == b
    ensures |a| == 1 ==> t[p] == a[0]
    ensures |b| == 1 ==> t[p + |a|] == b[0] && q == p + |a| + 1
  {
    var s, m := t[p..q], p + |a|;
    assert s[..|a|] == a && s[|a|..] == b;
    assert forall i | 0 <= i < q - p :: s[i] == t[i + p];
    forall i | 0 <= i < |a|
      ensures t[p..m][i] == a[i]
    {
      assert s[i] == a[i];
    }
    forall i | 0 <= i < |b|
      ensures t[m..q][i] == b[i]
    {
      assert s[|a| + i] == b[i];
    }
  }

  // ---------- The limit only cuts off ----------

  predicate SameOrTooDeep<T(==)>(r: Result<T, ExprError>, wide: Result<T, ExprError>) {
    r == wide || r == Err(TooDeep)
  }

  lemma {:induction false} ClimbLimit(t: seq<Token>, p: nat, minBp: nat, depth: nat, limit: nat, wide: nat)
    requires p <= |t| && limit <= wide
    ensures SameOrTooDeep(Climb(t, p, minBp, depth, limit), Climb(t, p, minBp, depth, wide))
    decreases |t| - p, 2
  {
    if depth <= limit {
      PrefixLimit(t, p, depth, limit, wide);
      if Prefix(t, p, depth, limit).Ok? {
        var (lhs, q) := Prefix(t, p, depth, limit).value;
        InfixLimit(t, lhs, q, minBp, depth, limit, wide);
      }
    }
  }

  lemma {:induction false} PrefixLimit(t: seq<Token>, p: nat, depth: nat, limit: nat, wide: nat)
    requires p <= |t| && limit <= wide
    ensures SameOrTooDeep(Prefix(t, p, depth, limit), Prefix(t, p, depth, wide))
    decreases |t| - p, 1
  {
    if p < |t| {
      ClimbLimit(t, p + 1, BANG_BP, depth + 1, limit, wide);
      ClimbLimit(t, p + 1, 0, depth + 1, limit, wide);
      StepsLimit(t, p + 1, depth, limit, wide);
    }
  }

  lemma {:induction false} InfixLimit(t: seq<Token>, lhs: Tree, p: nat, minBp: nat, depth: nat, limit: nat, wide: nat)
    requires p <= |t| && limit <= wide
    ensures SameOrTooDeep(Infix(t, lhs, p, minBp, depth, limit), Infix(t, lhs, p, minBp, depth, wide))
    decreases |t| - p, 0
  {
    if OpAt(t, p).Some? {
      var op := OpAt(t, p).value;
      ClimbLimit(t, p + 1, RightBp(op), depth + 1, limit, wide);
      var rest := Climb(t, p + 1, RightBp(op), depth + 1, limit);
      if rest.Ok? {
        InfixLimit(t, TBinary(op, lhs, rest.value.0), rest.value.1, minBp, depth, limit, wide);
      }
    }
  }

  lemma {:induction false} StepsLimit(t: seq<Token>, p: nat, depth: nat, limit: nat, wide: nat)
    requires p <= |t| && limit <= wide
    ensures SameOrTooDeep(Steps(t, p, depth, limit), Steps(t, p, depth, wide))
    decreases |t| - p, 0
  {
    if TokenAt(t, p, Dot) {
      if p + 2 <= |t| {
        StepsLimit(t, p + 2, depth, limit, wide);
      }
    } else if TokenAt(t, p, LBracket) {
      ClimbLimit(t, p + 1, 0, depth + 1, limit, wide);
      var key := Climb(t, p + 1, 0, depth + 1, limit);
      if key.Ok? && key.value.1 < |t| {
        StepsLimit(t, key.value.1 + 1, depth, limit, wide);
      }
    }
  }

  // ---------- Main results ----------

  /** `tree` derives the whole stream. */
  predicate IsDerivation(tree: Tree, t: seq<Token>) {
    InLayer(tree, 0) && Yield(tree) == t
  }

  /** The parser returns a derivation exactly when it derives the stream and nests within the limit. */
  lemma ParserMatchesGrammar(t: seq<Token>, limit: nat, tree: Tree)
    ensures ParseTree(t, limit) == Ok(tree) <==> IsDerivation(tree, t) && Nesting(tree) <= limit
  {
    assert t[0..|t|] == t;
    if ParseTree(t, limit) == Ok(tree) {
      ClimbSound(t, 0, 0, 1, limit);
    }
    if IsDerivation(tree, t) && Nesting(tree) <= limit {
      ClimbComplete(t, 0, |t|, tree, 0, 1, limit);
    }
  }

  /** Binding powers leave no choice: a token stream has at most one derivation. */
  lemma GrammarIsUnambiguous(t: seq<Token>, a: Tree, b: Tree)
    requires IsDerivation(a, t) && IsDerivation(b, t)
    ensures a == b
  {
    var limit := Max(Nesting(a), Nesting(b));
    ParserMatchesGrammar(t, limit, a);
    ParserMatchesGrammar(t, limit, b);
  }

  /** Each outcome names its cause: `TooDeep` for a stream whose derivation nests too deep, and
      `Malformed` only for a stream with no derivation. */
  lemma ErrorsNameTheirCause(t: seq<Token>, limit: nat, tree: Tree)
    requires IsDerivation(tree, t)
    ensures Nesting(tree) > limit <==> ParseTree(t, limit) == Err(TooDeep)
    ensures ParseTree(t, limit) != Err(Malformed)
  {
    ParserMatchesGrammar(t, limit, tree);
    var wide := Max(limit, Nesting(tree));
    ParserMatchesGrammar(t, wide, tree);
    ClimbLimit(t, 0, 0, 1, limit, wide);
    if ParseTree(t, limit).Ok? {
      var other := ParseTree(t, limit).value;
      ParserMatchesGrammar(t, limit, other);
      GrammarIsUnambiguous(t, tree, other);
    }
  }
}
