/** The cyclic-import guards over a flow's import graph: the resolver's walk
    (crates/tmx-adapters/src/resolve.rs) and the lint walk (crates/tmx-core/src/usecases.rs). */
module Imports {
  import opened Wrappers
  import opened Limits

  type Node = string

  /** The documents that load, each with the documents it imports, in order. */
  type Graph = map<Node, seq<Node>>

  // ---------- Walks and cycles ----------

  /** A walk follows import edges; all its nodes but the last must load, for their edges to be known. */
  predicate IsWalk(g: Graph, w: seq<Node>) {
    |w| > 0 && forall i | 0 <= i < |w| - 1 :: w[i] in g && w[i + 1] in g[w[i]]
  }

  predicate Distinct(w: seq<Node>) {
    forall i, j | 0 <= i < j < |w| :: w[i] != w[j]
  }

  /** A walk from `n`. */
  predicate WalkFrom(g: Graph, n: Node, w: seq<Node>) {
    IsWalk(g, w) && w[0] == n
  }

  /** The walk behind `chain` meets no document twice and ends at one that loads. */
  predicate IsClear(g: Graph, chain: seq<Node>, w: seq<Node>)
    requires |w| > 0
  {
    Distinct(chain + w) && w[|w| - 1] in g
  }

  /** No walk from `n` meets a document of `chain`, meets a document twice, or meets one that does not load. */
  ghost predicate Safe(g: Graph, n: Node, chain: seq<Node>) {
    forall w | WalkFrom(g, n, w) :: IsClear(g, chain, w)
  }

  lemma SubWalk(g: Graph, w: seq<Node>, i: nat, j: nat)
    requires IsWalk(g, w) && i < j <= |w|
    ensures WalkFrom(g, w[i], w[i..j])
  {
    var s := w[i..j];
    forall k | 0 <= k < |s| - 1
      ensures s[k] in g && s[k + 1] in g[s[k]]
    {
      assert s[k] == w[i + k] && s[k + 1] == w[(i + k) + 1];
    }
  }

  lemma ExtendWalk(g: Graph, n: Node, w: seq<Node>)
    requires n in g && IsWalk(g, w) && w[0] in g[n]
    ensures WalkFrom(g, n, [n] + w)
  {
    var w' := [n] + w;
    forall i | 0 <= i < |w'| - 1
      ensures w'[i] in g && w'[i + 1] in g[w'[i]]
    {
      if i > 0 {
        assert w'[i] == w[i - 1] && w'[i + 1] == w[(i - 1) + 1];
      }
    }
  }

  lemma Regroup(chain: seq<Node>, n: Node, w: seq<Node>)
    ensures chain + ([n] + w) == chain + [n] + w
  {
  }

  // ---------- The resolver's walk ----------

  datatype ImportError = Cyclic(trace: seq<Node>) | LoadFailed(node: Node)

  /** The error tells the truth: a walk that ends where it has been before, or at a document that does
      not load, behind the chain walked so far. */
  ghost predicate IsWitness(g: Graph, n: Node, chain: seq<Node>, e: ImportError) {
    exists w | WalkFrom(g, n, w) :: Shows(g, chain, w, e)
  }

  predicate Shows(g: Graph, chain: seq<Node>, w: seq<Node>, e: ImportError)
    requires |w| > 0
  {
    match e
    case Cyclic(trace) => trace == chain + w && w[|w| - 1] in chain + w[..|w| - 1]
    case LoadFailed(node) => node == w[|w| - 1] && node !in g
  }

  ghost function SetOf(s: seq<Node>): set<Node> { set x | x in s }

  /** `walk_flow_imports`: `chain` is the stack of documents from the entry to here; it is pushed and
      popped around the imports. */
  method Walk(g: Graph, n: Node, chain: seq<Node>) returns (r: Result<(), ImportError>, chain': seq<Node>)
    requires Distinct(chain) && forall x | x in chain :: x in g
    ensures r.Ok? <==> Safe(g, n, chain)
    ensures r.Err? ==> IsWitness(g, n, chain, r.error)
    ensures r.Ok? ==> chain' == chain
    decreases g.Keys - SetOf(chain), 1, 0
  {
    chain' := chain;
    ghost var here := [n];
    assert WalkFrom(g, n, here);
    if n in chain {
      assert chain + here[..0] == chain;
      assert (chain + here)[|chain|] == n;
      var i :| 0 <= i < |chain| && chain[i] == n;
      assert (chain + here)[i] == n;
      return Err(Cyclic(chain + [n])), chain';
    }
    if n !in g {
      return Err(LoadFailed(n)), chain';
    }
    chain' := chain' + [n];
    ghost var pushed := chain + [n];
    assert n in SetOf(pushed);
    assert SetOf(pushed) == SetOf(chain) + {n};
    for i := 0 to |g[n]|
      invariant chain' == pushed
      invariant forall k | 0 <= k < i :: Safe(g, g[n][k], pushed)
    {
      r, chain' := Walk(g, g[n][i], chain');
      if r.Err? {
        ChildIsUnsafe(g, n, chain, g[n][i], r.error);
        return;
      }
    }
    AllChildrenSafe(g, n, chain);
    r, chain' := Ok(()), chain'[..|chain'| - 1];
  }

  /** A fault below an import is a fault below the importing document. */
  lemma ChildIsUnsafe(g: Graph, n: Node, chain: seq<Node>, child: Node, e: ImportError)
    requires n in g && child in g[n] && IsWitness(g, child, chain + [n], e) && !Safe(g, child, chain + [n])
    ensures IsWitness(g, n, chain, e) && !Safe(g, n, chain)
  {
    var w :| WalkFrom(g, child, w) && Shows(g, chain + [n], w, e);
    ExtendWalk(g, n, w);
    Regroup(chain, n, w);
    Regroup(chain, n, w[..|w| - 1]);
    assert ([n] + w)[..|w|] == [n] + w[..|w| - 1];
    assert Shows(g, chain, [n] + w, e);
    UnsafeBelow(g, n, chain, child);
  }

  lemma UnsafeBelow(g: Graph, n: Node, chain: seq<Node>, child: Node)
    requires n in g && child in g[n] && !Safe(g, child, chain + [n])
    ensures !Safe(g, n, chain)
  {
    var u :| WalkFrom(g, child, u) && !IsClear(g, chain + [n], u);
    ExtendWalk(g, n, u);
    Regroup(chain, n, u);
    assert !IsClear(g, chain, [n] + u);
  }

  lemma AllChildrenSafe(g: Graph, n: Node, chain: seq<Node>)
    requires n in g && n !in chain && Distinct(chain)
    requires forall k | 0 <= k < |g[n]| :: Safe(g, g[n][k], chain + [n])
    ensures Safe(g, n, chain)
  {
    forall w | WalkFrom(g, n, w)
      ensures IsClear(g, chain, w)
    {
      if |w| == 1 {
        assert w == [n];
      } else {
        ClearBelow(g, n, chain, w);
      }
    }
  }

  lemma ClearBelow(g: Graph, n: Node, chain: seq<Node>, w: seq<Node>)
    requires n in g && WalkFrom(g, n, w) && |w| > 1
    requires forall k | 0 <= k < |g[n]| :: Safe(g, g[n][k], chain + [n])
    ensures IsClear(g, chain, w)
  {
    var rest := w[1..];
    assert w[0] in g && w[0 + 1] in g[w[0]];
    SubWalk(g, w, 1, |w|);
    assert w[1..|w|] == rest;
    var k :| 0 <= k < |g[n]| && g[n][k] == w[1];
    assert IsClear(g, chain + [n], rest);
    Regroup(chain, n, rest);
    assert w == [n] + rest;
  }

  /** The guard from the entry accepts exactly the graphs in which every reachable document loads and no
      walk from the entry meets a document twice; a document imported along two branches is accepted. */
  method AssertAcyclic(g: Graph, entry: Node) returns (r: Result<(), ImportError>)
    ensures r.Ok? <==> forall w | WalkFrom(g, entry, w) :: IsClear(g, [], w)
    ensures r.Err? ==> IsWitness(g, entry, [], r.error)
  {
    var chain: seq<Node>;
    r, chain := Walk(g, entry, []);
  }

  /** A walk from the entry leads to a document with a walk back to itself. */
  ghost predicate ReachesCycle(g: Graph, entry: Node) {
    exists w, c :: IsLasso(g, entry, w, c)
  }

  predicate IsLasso(g: Graph, entry: Node, w: seq<Node>, c: seq<Node>) {
    WalkFrom(g, entry, w) && WalkFrom(g, w[|w| - 1], c) && |c| > 1 && c[|c| - 1] == w[|w| - 1]
  }

  lemma JoinWalks(g: Graph, entry: Node, w: seq<Node>, c: seq<Node>)
    requires IsLasso(g, entry, w, c)
    ensures WalkFrom(g, entry, w + c[1..]) && !Distinct(w + c[1..])
  {
    var joined := w + c[1..];
    forall i | 0 <= i < |joined| - 1
      ensures joined[i] in g && joined[i + 1] in g[joined[i]]
    {
      if i >= |w| - 1 {
        var k := i - (|w| - 1);
        assert joined[i] == c[k] && joined[i + 1] == c[k + 1];
      } else {
        assert joined[i] == w[i] && joined[i + 1] == w[i + 1];
      }
    }
    assert joined[|w| - 1] == joined[|joined| - 1];
  }

  lemma CutLasso(g: Graph, entry: Node, w: seq<Node>)
    requires WalkFrom(g, entry, w) && !Distinct(w)
    ensures ReachesCycle(g, entry)
  {
    var i, j :| 0 <= i < j < |w| && w[i] == w[j];
    SubWalk(g, w, 0, i + 1);
    SubWalk(g, w, i, j + 1);
    assert IsLasso(g, entry, w[0..i + 1], w[i..j + 1]);
  }

  /** The guard's verdict in terms of cycles: accepted exactly when no cycle is reachable and every
      document that a walk from the entry reaches loads. */
  lemma ClearIsAcyclic(g: Graph, entry: Node)
    ensures (forall w | WalkFrom(g, entry, w) :: IsClear(g, [], w))
       <==> !ReachesCycle(g, entry) && forall w | WalkFrom(g, entry, w) :: w[|w| - 1] in g
  {
    if ReachesCycle(g, entry) {
      var w, c :| IsLasso(g, entry, w, c);
      JoinWalks(g, entry, w, c);
      assert [] + (w + c[1..]) == w + c[1..];
      assert !IsClear(g, [], w + c[1..]);
    } else if w :| WalkFrom(g, entry, w) && !IsClear(g, [], w) {
      assert [] + w == w;
      if w[|w| - 1] in g {
        CutLasso(g, entry, w);
      }
    } else {
      assert forall w | WalkFrom(g, entry, w) :: IsClear(g, [], w) ==> w[|w| - 1] in g;
    }
  }

  /** Every edge leads to a document that loads and ranks lower. */
  ghost predicate IsRanked(g: Graph, rank: Node -> nat) {
    forall n, c | n in g && c in g[n] :: c in g && rank(c) < rank(n)
  }

  /** Shared imports are no cycles: the guard accepts every graph whose edges go down in some ranking,
      diamonds included. */
  lemma RankedIsClear(g: Graph, rank: Node -> nat, entry: Node, w: seq<Node>)
    requires IsRanked(g, rank) && entry in g && WalkFrom(g, entry, w)
    ensures IsClear(g, [], w)
  {
    assert [] + w == w;
    RankedIsDistinct(g, rank, w);
    if |w| > 1 {
      StepRanks(g, rank, w, |w| - 2);
    }
  }

  lemma RankedIsDistinct(g: Graph, rank: Node -> nat, w: seq<Node>)
    requires IsRanked(g, rank) && IsWalk(g, w)
    ensures Distinct(w)
  {
    forall i, j | 0 <= i < j < |w|
      ensures w[i] != w[j]
    {
      RankFalls(g, rank, w, i, j);
    }
  }

  lemma StepRanks(g: Graph, rank: Node -> nat, w: seq<Node>, i: nat)
    requires IsRanked(g, rank) && IsWalk(g, w) && i < |w| - 1
    ensures w[i + 1] in g && rank(w[i + 1]) < rank(w[i])
  {
    assert w[i] in g && w[i + 1] in g[w[i]];
  }

  lemma {:induction false} RankFalls(g: Graph, rank: Node -> nat, w: seq<Node>, i: nat, j: nat)
    requires IsRanked(g, rank) && IsWalk(g, w) && i < j < |w|
    ensures rank(w[j]) < rank(w[i])
    decreases j - i
  {
    StepRanks(g, rank, w, j - 1);
    if i < j - 1 {
      RankFalls(g, rank, w, i, j - 1);
    }
  }

  // ---------- The lint walk ----------

  /** The edges lint follows: a reference that does not resolve leads nowhere (`None`). */
  type RefGraph = map<Node, seq<Option<Node>>>

  datatype Diagnostic = Unresolved | CyclicImport(target: Node)

  /** The references of a document that loads; one that does not load has none to follow. */
  function RefsOf(g: RefGraph, n: Node): (refs: seq<Option<Node>>) {
    if n in g then g[n] else []
  }

  /** What `check_imports` reports below the document at the end of `chain`. */
  function Findings(g: RefGraph, refs: seq<Option<Node>>, chain: seq<Node>, depth: nat): (ds: seq<Diagnostic>)
    decreases FLOW_DEPTH_MAX - depth, |refs|
  {
    if depth >= FLOW_DEPTH_MAX || refs == [] then []
    else FindingsAt(g, refs[0], chain, depth) + Findings(g, refs[1..], chain, depth)
  }

  function FindingsAt(g: RefGraph, r: Option<Node>, chain: seq<Node>, depth: nat): (ds: seq<Diagnostic>)
    requires depth < FLOW_DEPTH_MAX
    decreases FLOW_DEPTH_MAX - depth, 0
  {
    match r
    case None => [Unresolved]
    case Some(target) =>
      if target in chain then [CyclicImport(target)]
      else Findings(g, RefsOf(g, target), chain + [target], depth + 1)
  }

  /** `check_imports`: a loop over the references with a chain pushed and popped around the recursion. */
  method CheckImports(g: RefGraph, refs: seq<Option<Node>>, chain: seq<Node>, depth: nat, diagnostics: seq<Diagnostic>)
    returns (chain': seq<Node>, diagnostics': seq<Diagnostic>)
    ensures chain' == chain
    ensures diagnostics' == diagnostics + Findings(g, refs, chain, depth)
    decreases FLOW_DEPTH_MAX - depth
  {
    chain', diagnostics' := chain, diagnostics;
    if depth >= FLOW_DEPTH_MAX {
      return;
    }
    for i := 0 to |refs|
      invariant chain' == chain
      invariant diagnostics + Findings(g, refs, chain, depth) == diagnostics' + Findings(g, refs[i..], chain, depth)
    {
      ghost var before := diagnostics';
      assert refs[i..][0] == refs[i] && refs[i..][1..] == refs[i + 1..];
      match refs[i] {
        case None =>
          diagnostics' := diagnostics' + [Unresolved];
        case Some(target) =>
          if target in chain' {
            diagnostics' := diagnostics' + [CyclicImport(target)];
          } else if target in g {
            chain' := chain' + [target];
            chain', diagnostics' := CheckImports(g, g[target], chain', depth + 1, diagnostics');
            chain' := chain'[..|chain'| - 1];
          } else {
            assert Findings(g, RefsOf(g, target), chain + [target], depth + 1) == [];
          }
      }
      assert diagnostics' == before + FindingsAt(g, refs[i], chain, depth);
    }
  }

  /** The references of the document at the end of `chain` give rise to the finding. */
  predicate Raises(refs: seq<Option<Node>>, chain: seq<Node>, d: Diagnostic) {
    match d
    case Unresolved => None in refs
    case CyclicImport(target) => Some(target) in refs && target in chain
  }

  /** The walk `w` starts with one of `refs`, meets nothing of `chain` or of itself, stays within the depth
      bound, and ends at a document whose references raise the finding. */
  predicate LeadsTo(g: RefGraph, refs: seq<Option<Node>>, chain: seq<Node>, depth: nat, w: seq<Node>, d: Diagnostic)
    decreases |w|
  {
    && depth + |w| < FLOW_DEPTH_MAX
    && if w == [] then Raises(refs, chain, d)
       else
         && Some(w[0]) in refs && w[0] !in chain
         && LeadsTo(g, RefsOf(g, w[0]), chain + [w[0]], depth + 1, w[1..], d)
  }

  ghost predicate IsRaised(g: RefGraph, refs: seq<Option<Node>>, chain: seq<Node>, depth: nat, d: Diagnostic) {
    exists w :: LeadsTo(g, refs, chain, depth, w, d)
  }

  /** Raised by the first of `refs` itself, or below it. */
  ghost predicate IsRaisedByFirst(g: RefGraph, refs: seq<Option<Node>>, chain: seq<Node>, depth: nat, d: Diagnostic)
    requires refs != []
  {
    || (depth < FLOW_DEPTH_MAX && Raises([refs[0]], chain, d))
    || (refs[0].Some? && refs[0].value !in chain
        && IsRaised(g, RefsOf(g, refs[0].value), chain + [refs[0].value], depth + 1, d))
  }

  lemma ByFirstOrByRest(g: RefGraph, refs: seq<Option<Node>>, chain: seq<Node>, depth: nat, d: Diagnostic)
    requires refs != []
    ensures IsRaised(g, refs, chain, depth, d)
       <==> IsRaisedByFirst(g, refs, chain, depth, d) || IsRaised(g, refs[1..], chain, depth, d)
  {
    assert refs == [refs[0]] + refs[1..];
    forall w | LeadsTo(g, refs, chain, depth, w, d)
      ensures IsRaisedByFirst(g, refs, chain, depth, d) || IsRaised(g, refs[1..], chain, depth, d)
    {
      if w == [] {
        assert Raises([refs[0]], chain, d) || LeadsTo(g, refs[1..], chain, depth, w, d);
      } else if Some(w[0]) == refs[0] {
        assert LeadsTo(g, RefsOf(g, w[0]), chain + [w[0]], depth + 1, w[1..], d);
      } else {
        assert LeadsTo(g, refs[1..], chain, depth, w, d);
      }
    }
    forall w | LeadsTo(g, refs[1..], chain, depth, w, d)
      ensures IsRaised(g, refs, chain, depth, d)
    {
      assert LeadsTo(g, refs, chain, depth, w, d);
    }
    if IsRaisedByFirst(g, refs, chain, depth, d) {
      FirstRaises(g, refs, chain, depth, d);
    }
  }

  lemma FirstRaises(g: RefGraph, refs: seq<Option<Node>>, chain: seq<Node>, depth: nat, d: Diagnostic)
    requires refs != [] && IsRaisedByFirst(g, refs, chain, depth, d)
    ensures IsRaised(g, refs, chain, depth, d)
  {
    if depth < FLOW_DEPTH_MAX && Raises([refs[0]], chain, d) {
      assert LeadsTo(g, refs, chain, depth, [], d);
    } else {
      var target := refs[0].value;
      var u :| LeadsTo(g, RefsOf(g, target), chain + [target], depth + 1, u, d);
      assert ([target] + u)[1..] == u;
      assert LeadsTo(g, refs, chain, depth, [target] + u, d);
    }
  }

  /** Lint reports a finding exactly when some walk within the depth bound leads to it: a reference that does
      not resolve, or one back to a document of the walk's own chain, which the finding names. */
  lemma {:induction false} LintReportsExactly(g: RefGraph, refs: seq<Option<Node>>, chain: seq<Node>, depth: nat,
                                              d: Diagnostic)
    ensures d in Findings(g, refs, chain, depth) <==> IsRaised(g, refs, chain, depth, d)
    decreases FLOW_DEPTH_MAX - depth, |refs|
  {
    if depth < FLOW_DEPTH_MAX && refs != [] {
      var first, rest := FindingsAt(g, refs[0], chain, depth), Findings(g, refs[1..], chain, depth);
      LintReportsExactly(g, refs[1..], chain, depth, d);
      ByFirstOrByRest(g, refs, chain, depth, d);
      if refs[0].Some? && refs[0].value !in chain {
        LintReportsExactly(g, RefsOf(g, refs[0].value), chain + [refs[0].value], depth + 1, d);
      }
      assert d in first <==> IsRaisedByFirst(g, refs, chain, depth, d);
      assert d in first + rest <==> d in first || d in rest;
    }
  }

  /** A walk that ends with a reference back to its own chain. */
  ghost predicate CycleWithin(g: RefGraph, refs: seq<Option<Node>>, chain: seq<Node>, depth: nat) {
    exists target :: IsRaised(g, refs, chain, depth, CyclicImport(target))
  }

  predicate ReportsCycle(ds: seq<Diagnostic>) {
    exists d :: d in ds && d.CyclicImport?
  }

  /** So it reports some cycle exactly when some walk within the depth bound closes back on its own chain. */
  lemma LintFindsBoundedCycles(g: RefGraph, refs: seq<Option<Node>>, chain: seq<Node>, depth: nat)
    ensures ReportsCycle(Findings(g, refs, chain, depth)) <==> CycleWithin(g, refs, chain, depth)
  {
    var ds := Findings(g, refs, chain, depth);
    forall target: Node
      ensures CyclicImport(target) in ds <==> IsRaised(g, refs, chain, depth, CyclicImport(target))
    {
      LintReportsExactly(g, refs, chain, depth, CyclicImport(target));
    }
    if CycleWithin(g, refs, chain, depth) {
      var target :| IsRaised(g, refs, chain, depth, CyclicImport(target));
      assert CyclicImport(target) in ds;
    }
    if d :| d in ds && d.CyclicImport? {
      assert d == CyclicImport(d.target);
    }
  }
}
