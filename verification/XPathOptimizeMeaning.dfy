/**
 The optimizer preserves meaning: for every well-formed query, document, context and
 meaning of the library functions, the optimized query yields the same value.
 */
module XPathOptimizeMeaning {
  import opened XmlTree
  import opened XPathOrder
  import opened XPathNodeSet
  import opened XPathAxes
  import opened XPathStep
  import opened XPathFill
  import opened XPathAst
  import opened XPathEval
  import opened XPathMeaning
  import opened XPathAgree
  import opened XPathSteps
  import opened XPathRefine
  import opened XPathOptimize
  import opened XPathRewrites

  /** Two queries give the same value wherever one is asked for. */
  ghost predicate Equals(env: Env, a: Ast, b: Ast, c: Ctx) {
    && RetType(a) == RetType(b) && MeanBool(env, a, c) == MeanBool(env, b, c) && MeanText(env, a, c) == MeanText(env, b, c)
    && MeanNum(env, a, c) == MeanNum(env, b, c) && MeanOperand(env, a, c) == MeanOperand(env, b, c)
    && MeanNodes(env, a, c) == MeanNodes(env, b, c)
  }

  lemma MeanEquals(env: Env, a: Ast, b: Ast, c: Ctx)
    requires SameMean(env, a, b, c)
    ensures Equals(env, a, b, c)
  {
  }

  lemma HitEquals(env: Env, a: Ast, b: Ast, c: Ctx)
    requires Equals(env, a, b, c)
    ensures MeanHit(env, a, c) == MeanHit(env, b, c)
  {
  }

  // ------------------------------------------------------------------- congruence

  ghost predicate ChildrenEqual(env: Env, a: Ast, b: Ast, c: Ctx) {
    a.Ast? && b.Ast? && a.kind == b.kind && Equals(env, a.left, b.left, c) && Equals(env, a.right, b.right, c)
  }

  lemma LogicCongruent(env: Env, a: Ast, b: Ast, c: Ctx)
    requires ChildrenEqual(env, a, b, c) && IsLogic(a.kind)
    ensures MeanLogic(env, a, c) == MeanLogic(env, b, c)
  {
  }

  lemma EqualityCongruent(env: Env, a: Ast, b: Ast, c: Ctx)
    requires ChildrenEqual(env, a, b, c) && IsEquality(a.kind)
    ensures MeanEquality(env, a, c) == MeanEquality(env, b, c)
  {
  }

  lemma RelationCongruent(env: Env, a: Ast, b: Ast, c: Ctx)
    requires ChildrenEqual(env, a, b, c) && IsRelation(a.kind)
    ensures MeanRelation(env, a, c) == MeanRelation(env, b, c)
  {
  }

  lemma AggregateCongruent(env: Env, a: Ast, b: Ast, c: Ctx)
    requires ChildrenEqual(env, a, b, c) && IsAggregate(a.kind)
    ensures MeanAggregate(env, a, c) == MeanAggregate(env, b, c)
  {
  }

  lemma RewritingCongruent(env: Env, a: Ast, b: Ast, c: Ctx)
    requires ChildrenEqual(env, a, b, c) && IsRewriting(a.kind)
    requires a.right.Nil? <==> b.right.Nil?
    requires a.right.Ast? ==> MeanText(env, a.right.next, c) == MeanText(env, b.right.next, c)
    requires (a.left.Ast? && a.left.kind.Step?) <==> (b.left.Ast? && b.left.kind.Step?)
    requires a.left.Ast? && a.left.kind.Step? ==> a.left.kind.arg == b.left.kind.arg
    ensures MeanRewriting(env, a, c) == MeanRewriting(env, b, c)
  {
  }

  lemma CallCongruent(env: Env, a: Ast, b: Ast, c: Ctx)
    requires a.Ast? && b.Ast? && a.kind == b.kind && a.kind.Call?
    requires MeanFirstArgument(env, a.kind.fn, a.left, c) == MeanFirstArgument(env, a.kind.fn, b.left, c)
    requires MeanArguments(env, a.kind.fn, 1, a.right, c) == MeanArguments(env, a.kind.fn, 1, b.right, c)
    ensures MeanCall(env, a, c) == MeanCall(env, b, c)
  {
  }

  lemma UnionCongruent(env: Env, a: Ast, b: Ast, c: Ctx)
    requires ChildrenEqual(env, a, b, c) && a.kind.Union?
    ensures MeanUnion(env, a, c) == MeanUnion(env, b, c)
  {
  }

  lemma FilterCongruent(env: Env, a: Ast, b: Ast, c: Ctx)
    requires a.Ast? && b.Ast? && a.kind == b.kind && a.kind.FilterNode? && Equals(env, a.left, b.left, c)
    requires MeanSelect(env, a.right, MeanNodes(env, a.left, c), 0) == MeanSelect(env, b.right, MeanNodes(env, a.left, c), 0)
    ensures MeanFilter(env, a, c) == MeanFilter(env, b, c)
  {
  }

  lemma StepCongruent(env: Env, a: Ast, b: Ast, c: Ctx)
    requires a.Ast? && b.Ast? && a.kind == b.kind && a.kind.Step? && Equals(env, a.left, b.left, c)
    requires a.left.Nil? <==> b.left.Nil?
    requires MeanSteps(env, a.kind.axis, a.kind.test, a.kind.arg, a.right, Contexts(env, a.left, c), 0) ==
             MeanSteps(env, a.kind.axis, a.kind.test, a.kind.arg, b.right, Contexts(env, a.left, c), 0)
    ensures MeanStep(env, a, c) == MeanStep(env, b, c)
  {
  }

  // -------------------------------------------------------------------- predicates

  lemma {:induction false} SelectOptimized(env: Env, e: Ast, list: seq<XNode>, i: nat)
    requires EnvOk(env) && WellFormed(e) && Fresh(e) && i <= |list| && forall x | x in list :: ValidNode(env.tree, x)
    ensures MeanSelect(env, e, list, i) == MeanSelect(env, Optimize(e), list, i)
    decreases e, 4, |list| - i
  {
    if i < |list| {
      var c := Ctx(list[i], i + 1, |list|);
      assert list[i] in list;
      OptimizeMeaning(env, e, c);
      MeanEquals(env, e, Optimize(e), c);
      HitEquals(env, e, Optimize(e), c);
      SelectOptimized(env, e, list, i + 1);
    }
  }

  lemma PredicatesUnfold(env: Env, preds: Ast, list: seq<XNode>)
    requires preds.Ast?
    ensures MeanPredicates(env, preds, list) == MeanPredicates(env, preds.next, MeanSelect(env, preds.right, list, 0))
  {
  }

  /** The predicate a rewritten predicate node applies. */
  lemma RewrittenSelect(env: Env, a: Ast, list: seq<XNode>)
    requires a.Ast? && a.kind.PredicateNode?
    ensures MeanSelect(env, OptimizeSelf(a).right, list, 0) == MeanSelect(env, a.right, list, 0)
  {
    StagesKeepShape(a);
    if ComparesPosition(a.right) {
      PositionSelect(env, a.right, list, 0);
    }
  }

  lemma {:induction false} PredicatesOptimized(env: Env, preds: Ast, list: seq<XNode>)
    requires EnvOk(env) && WellFormed(preds) && Fresh(preds) && IsPredicateChain(preds)
    requires forall x | x in list :: ValidNode(env.tree, x)
    ensures MeanPredicates(env, preds, list) == MeanPredicates(env, Optimize(preds), list)
    decreases preds, 5, 0
  {
    if preds.Ast? {
      var kept := MeanSelect(env, preds.right, list, 0);
      SelectOptimized(env, preds.right, list, 0);
      SelectAll(env, preds.right, list);
      PredicatesOptimized(env, preds.next, kept);
      StagesKeepShape(Rebuilt(preds));
      RewrittenSelect(env, Rebuilt(preds), list);
      PredicatesUnfold(env, preds, list);
      PredicatesUnfold(env, Optimize(preds), list);
    }
  }

  lemma {:induction false} FromOptimized(w: Walk, x: XNode)
    requires EnvOk(w.env) && WellFormed(w.preds) && Fresh(w.preds) && IsPredicateChain(w.preds) && ValidNode(w.env.tree, x)
    ensures From(w, x) == From(w.(preds := Optimize(w.preds)), x)
    decreases w.preds, 6, 0
  {
    OwnValid(w, x);
    FromIs(w, x);
    FromIs(w.(preds := Optimize(w.preds)), x);
    PredicatesOptimized(w.env, w.preds, Own(w, x));
  }

  lemma StepsExtend(w: Walk, q: Ast, s: seq<XNode>, k: nat)
    requires k < |s| && From(w, s[k]) == From(w.(preds := q), s[k])
    requires MeanSteps(w.env, w.axis, w.test, w.arg, w.preds, s, k + 1) == MeanSteps(w.env, w.axis, w.test, w.arg, q, s, k + 1)
    ensures MeanSteps(w.env, w.axis, w.test, w.arg, w.preds, s, k) == MeanSteps(w.env, w.axis, w.test, w.arg, q, s, k)
  {
    StepsSplit(w, s, k);
    StepsSplit(w.(preds := q), s, k);
  }

  lemma {:induction false} StepsOptimized(env: Env, axis: Axis, test: Test, arg: string, preds: Ast, s: seq<XNode>, k: nat)
    requires EnvOk(env) && WellFormed(preds) && Fresh(preds) && IsPredicateChain(preds) && k <= |s|
    requires forall x | x in s :: ValidNode(env.tree, x)
    ensures MeanSteps(env, axis, test, arg, preds, s, k) == MeanSteps(env, axis, test, arg, Optimize(preds), s, k)
    decreases preds, 7, |s| - k
  {
    if k < |s| {
      var w := Walk(env, axis, test, arg, preds, WantAll);
      assert s[k] in s;
      FromOptimized(w, s[k]);
      StepsOptimized(env, axis, test, arg, preds, s, k + 1);
      StepsExtend(w, Optimize(preds), s, k);
    }
  }

  // --------------------------------------------------------------------- arguments

  lemma {:induction false} ArgumentsOptimized(env: Env, fn: Fn, i: nat, a: Ast, c: Ctx)
    requires Ready(env, a, c) && Fresh(a)
    ensures MeanArguments(env, fn, i, a, c) == MeanArguments(env, fn, i, Optimize(a), c)
    decreases a, 4, 0
  {
    if a.Ast? {
      OptimizeMeaning(env, a, c);
      MeanEquals(env, a, Optimize(a), c);
      StagesKeepShape(Rebuilt(a));
      ArgumentsOptimized(env, fn, i + 1, a.next, c);
      ArgumentsUnfold(env, fn, i, a, c);
      ArgumentsUnfold(env, fn, i, Optimize(a), c);
      ArgumentEquals(env, fn, i, a, Optimize(a), c);
    }
  }

  lemma ArgumentsUnfold(env: Env, fn: Fn, i: nat, a: Ast, c: Ctx)
    requires a.Ast?
    ensures MeanArguments(env, fn, i, a, c) == [MeanArgument(env, fn, i, a, c)] + MeanArguments(env, fn, i + 1, a.next, c)
  {
  }

  lemma ArgumentEquals(env: Env, fn: Fn, i: nat, a: Ast, b: Ast, c: Ctx)
    requires Equals(env, a, b, c)
    ensures MeanArgument(env, fn, i, a, c) == MeanArgument(env, fn, i, b, c)
  {
  }

  // ------------------------------------------------------------------ whole queries

  lemma {:induction false} CallRebuilt(env: Env, a: Ast, c: Ctx)
    requires Ready(env, a, c) && Fresh(a) && a.Ast? && a.kind.Call? && Equals(env, a.left, Optimize(a.left), c)
    ensures MeanCall(env, a, c) == MeanCall(env, Rebuilt(a), c)
    decreases a, 0, 0
  {
    var fn := a.kind.fn;
    OptimizeKeepsShape(a.left);
    ArgumentEquals(env, fn, 0, a.left, Optimize(a.left), c);
    ArgumentsOptimized(env, fn, 1, a.right, c);
    CallCongruent(env, a, Rebuilt(a), c);
  }

  lemma {:induction false} NextOptimized(env: Env, a: Ast, c: Ctx)
    requires Ready(env, a, c) && Fresh(a) && a.Ast?
    ensures Optimize(a).Ast? && MeanText(env, a.next, c) == MeanText(env, Optimize(a).next, c)
    decreases a, 0, 0
  {
    OptimizeMeaning(env, a.next, c);
    MeanEquals(env, a.next, Optimize(a.next), c);
    StagesKeepShape(Rebuilt(a));
  }

  lemma {:induction false} RewritingRebuilt(env: Env, a: Ast, c: Ctx)
    requires Ready(env, a, c) && Fresh(a) && a.Ast? && IsRewriting(a.kind) && ChildrenEqual(env, a, Rebuilt(a), c)
    ensures MeanRewriting(env, a, c) == MeanRewriting(env, Rebuilt(a), c)
    decreases a, 0, 0
  {
    OptimizeKeepsShape(a.right);
    OptimizeKeepsShape(a.left);
    if a.right.Ast? {
      NextOptimized(env, a.right, c);
    }
    if a.left.Ast? {
      StagesKeepShape(Rebuilt(a.left));
    }
    RewritingCongruent(env, a, Rebuilt(a), c);
  }

  lemma {:induction false} FilterRebuilt(env: Env, a: Ast, c: Ctx)
    requires Ready(env, a, c) && Fresh(a) && a.Ast? && a.kind.FilterNode? && Equals(env, a.left, Optimize(a.left), c)
    ensures MeanFilter(env, a, c) == MeanFilter(env, Rebuilt(a), c)
    decreases a, 0, 0
  {
    NodesRefine(env, a.left, c, WantAll);
    SelectOptimized(env, a.right, MeanNodes(env, a.left, c), 0);
    FilterCongruent(env, a, Rebuilt(a), c);
  }

  lemma {:induction false} StepRebuilt(env: Env, a: Ast, c: Ctx)
    requires Ready(env, a, c) && Fresh(a) && a.Ast? && a.kind.Step? && Equals(env, a.left, Optimize(a.left), c)
    ensures MeanStep(env, a, c) == MeanStep(env, Rebuilt(a), c)
    decreases a, 0, 0
  {
    OptimizeKeepsShape(a.left);
    ContextsValid(env, a.left, c);
    StepsOptimized(env, a.kind.axis, a.kind.test, a.kind.arg, a.right, Contexts(env, a.left, c), 0);
    StepCongruent(env, a, Rebuilt(a), c);
  }

  lemma NodesCongruent(env: Env, a: Ast, b: Ast, c: Ctx)
    requires a.Ast? && b.Ast? && a.kind == b.kind && (a.kind.Step? || a.kind.FilterNode? || a.kind.Union?)
    requires a.kind.Step? ==> MeanStep(env, a, c) == MeanStep(env, b, c)
    requires a.kind.FilterNode? ==> MeanFilter(env, a, c) == MeanFilter(env, b, c)
    requires a.kind.Union? ==> MeanUnion(env, a, c) == MeanUnion(env, b, c)
    ensures SameMean(env, a, b, c)
  {
  }

  lemma CallSameMean(env: Env, a: Ast, b: Ast, c: Ctx)
    requires a.Ast? && b.Ast? && a.kind == b.kind && a.kind.Call? && MeanCall(env, a, c) == MeanCall(env, b, c)
    ensures SameMean(env, a, b, c)
  {
  }

  /** Optimizing the children keeps the meaning. */
  lemma {:induction false} RebuiltMeaning(env: Env, a: Ast, c: Ctx)
    requires Ready(env, a, c) && Fresh(a) && a.Ast? && ChildrenEqual(env, a, Rebuilt(a), c)
    ensures SameMean(env, a, Rebuilt(a), c)
    decreases a, 1, 0
  {
    var b, k := Rebuilt(a), a.kind;
    if k.Step? || k.FilterNode? || k.Union? {
      if k.Step? {
        StepRebuilt(env, a, c);
      } else if k.FilterNode? {
        FilterRebuilt(env, a, c);
      } else {
        UnionCongruent(env, a, b, c);
      }
      NodesCongruent(env, a, b, c);
    } else if k.Call? {
      CallRebuilt(env, a, c);
      CallSameMean(env, a, b, c);
    } else {
      ScalarRebuilt(env, a, c);
    }
  }

  lemma {:induction false} ScalarRebuilt(env: Env, a: Ast, c: Ctx)
    requires Ready(env, a, c) && Fresh(a) && a.Ast? && ChildrenEqual(env, a, Rebuilt(a), c)
    requires !a.kind.Step? && !a.kind.FilterNode? && !a.kind.Union? && !a.kind.Call?
    ensures SameMean(env, a, Rebuilt(a), c)
    decreases a, 0, 1
  {
    var b, k := Rebuilt(a), a.kind;
    if IsLogic(k) {
      LogicCongruent(env, a, b, c);
    } else if IsEquality(k) {
      EqualityCongruent(env, a, b, c);
    } else if IsRelation(k) {
      RelationCongruent(env, a, b, c);
    } else if IsAggregate(k) {
      AggregateCongruent(env, a, b, c);
    } else if IsRewriting(k) {
      RewritingRebuilt(env, a, c);
    }
  }

  /** All rewritings of one node, in the order they are tried. */
  lemma OptimizeSelfKeeps(env: Env, a: Ast, c: Ctx)
    requires Ready(env, a, c) && a.Ast? && (Filters(a) ==> a.kind.cls == Default)
    ensures SameMean(env, a, OptimizeSelf(a), c)
  {
    RewriteWellFormed(a);
    RewritePositionKeeps(env, a, c);
    var b := RewritePosition(a);
    ClassifyWellFormed(b);
    ClassifyKeeps(env, b, c);
    var d := Classify(b);
    RestWellFormed(d);
    MergeStepKeeps(env, d, c);
    var m := MergeStep(d);
    UseTableKeeps(env, m, c);
    UseAttributeKeeps(env, UseTable(m), c);
  }

  /** The optimized query means what the query means. */
  lemma {:induction false} OptimizeMeaning(env: Env, a: Ast, c: Ctx)
    requires Ready(env, a, c) && Fresh(a)
    ensures SameMean(env, a, Optimize(a), c)
    decreases a, 2, 0
  {
    if a.Ast? {
      OptimizeMeaning(env, a.left, c);
      OptimizeMeaning(env, a.right, c);
      MeanEquals(env, a.left, Optimize(a.left), c);
      MeanEquals(env, a.right, Optimize(a.right), c);
      RebuiltMeaning(env, a, c);
      OptimizeWellFormed(a.left);
      OptimizeWellFormed(a.right);
      OptimizeWellFormed(a.next);
      RebuiltWellFormed(a);
      OptimizeSelfKeeps(env, Rebuilt(a), c);
    }
  }

  /**
   Evaluating the optimized query, in any mode, yields the value of the original query:
   the same boolean, number and string, and in full the same nodes.
   */
  lemma OptimizedQuery(env: Env, a: Ast, c: Ctx)
    requires Ready(env, a, c) && Fresh(a)
    ensures AsBool(env, Optimize(a), c) == AsBool(env, a, c)
    ensures AsNum(env, Optimize(a), c) == AsNum(env, a, c)
    ensures AsText(env, Optimize(a), c) == AsText(env, a, c)
    ensures SortDone(EvalNodes(env, Optimize(a), c, WantAll)).nodes == SortDone(EvalNodes(env, a, c, WantAll)).nodes
    ensures forall x :: x in EvalNodes(env, Optimize(a), c, WantAll).nodes <==> x in EvalNodes(env, a, c, WantAll).nodes
  {
    OptimizeMeaning(env, a, c);
    OptimizeWellFormed(a);
    MeanEquals(env, a, Optimize(a), c);
    AsRefines(env, a, c);
    AsRefines(env, Optimize(a), c);
    NodesRefine(env, a, c, WantAll);
    NodesRefine(env, Optimize(a), c, WantAll);
    AllAgrees(env, EvalNodes(env, a, c, WantAll), MeanNodes(env, a, c));
    AllAgrees(env, EvalNodes(env, Optimize(a), c, WantAll), MeanNodes(env, a, c));
  }
}
