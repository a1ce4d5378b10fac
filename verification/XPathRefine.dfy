/**
 Evaluation with modes, order flags, early stops and predicate classes yields what a
 query means, for every well-formed query, document, context and mode.
 */
module XPathRefine {
  import opened XmlTree
  import opened XPathOrder
  import opened XPathNodeSet
  import opened XPathAxes
  import opened XPathStep
  import opened XPathFill
  import opened XPathAst
  import opened XPathEval
  import opened XPathMeaning
  import opened XPathAgree
  import opened XPathSteps
  import opened XPathPosInv

  ghost predicate Ready(env: Env, a: Ast, c: Ctx) {
    EnvOk(env) && WellFormed(a) && ValidNode(env.tree, c.node)
  }

  // ------------------------------------------------------------------- predicates

  /** A predicate classified as constant has a value that depends on the size at most. */
  lemma ConstantMeaning(env: Env, cls: Class, e: Ast, c: Ctx, d: Ctx)
    requires Truthful(cls, e) && (cls == Constant || cls == ConstantOne) && c.size == d.size
    ensures RetType(e) == NumberType && AsNum(env, e, c) == MeanNum(env, e, d)
    ensures cls == ConstantOne ==> MeanNum(env, e, d) == Fin(1.0)
  {
  }

  /** Whether v is a position, and one behind the first i. */
  predicate Picks(v: Num, i: nat, n: nat) {
    v.Fin? && (i + 1) as real <= v.v <= n as real && v.v == v.v.Floor as real
  }

  /** A constant value at one position: it is met there or not, and then it picks one behind. */
  lemma PicksStep(v: Num, i: nat, n: nat)
    requires i < n
    ensures NumEq(v, Fin((i + 1) as real)) ==> Picks(v, i, n) && v.v.Floor == i + 1 && !Picks(v, i + 1, n)
    ensures !NumEq(v, Fin((i + 1) as real)) ==> (Picks(v, i, n) <==> Picks(v, i + 1, n))
  {
  }

  lemma SelectStep(env: Env, e: Ast, list: seq<XNode>, i: nat, v: Num)
    requires i < |list| && RetType(e) == NumberType && MeanNum(env, e, Ctx(list[i], i + 1, |list|)) == v
    ensures MeanSelect(env, e, list, i) ==
            (if NumEq(v, Fin((i + 1) as real)) then [list[i]] else []) + MeanSelect(env, e, list, i + 1)
  {
  }

  lemma {:induction false} PickIsSelect(env: Env, cls: Class, e: Ast, list: seq<XNode>, i: nat, c: Ctx)
    requires Truthful(cls, e) && (cls == Constant || cls == ConstantOne) && c.size == |list| && i <= |list|
    ensures var v := AsNum(env, e, c);
            MeanSelect(env, e, list, i) == if Picks(v, i, |list|) then [list[v.v.Floor - 1]] else []
    decreases |list| - i
  {
    if i < |list| {
      var v := AsNum(env, e, c);
      ConstantMeaning(env, cls, e, c, Ctx(list[i], i + 1, |list|));
      PickIsSelect(env, cls, e, list, i + 1, c);
      SelectStep(env, e, list, i, v);
      PicksStep(v, i, |list|);
    }
  }

  lemma CutOfAtMostOne(once: bool, s: seq<XNode>)
    requires |s| <= 1
    ensures Cut(once, s) == s
  {
  }

  /** What one predicate keeps, with early stop. */
  lemma {:induction false} ApplyRefines(env: Env, cls: Class, e: Ast, list: seq<XNode>, once: bool)
    requires EnvOk(env) && WellFormed(e) && Truthful(cls, e) && forall x | x in list :: ValidNode(env.tree, x)
    ensures Apply(env, cls, e, list, once) == Cut(once, MeanSelect(env, e, list, 0))
    decreases e, 6, 0
  {
    if list == [] {
    } else if cls == Constant || cls == ConstantOne {
      PickIsSelect(env, cls, e, list, 0, Ctx(Nothing, 1, |list|));
      CutOfAtMostOne(once, MeanSelect(env, e, list, 0));
    } else {
      SelectRefines(env, e, list, 0, once);
    }
  }

  lemma {:induction false} SelectRefines(env: Env, e: Ast, list: seq<XNode>, i: nat, once: bool)
    requires EnvOk(env) && WellFormed(e) && i <= |list| && forall x | x in list :: ValidNode(env.tree, x)
    ensures Select(env, e, list, i, once) == Cut(once, MeanSelect(env, e, list, i))
    decreases e, 5, |list| - i
  {
    if i < |list| {
      assert list[i] in list;
      AsRefines(env, e, Ctx(list[i], i + 1, |list|));
      SelectRefines(env, e, list, i + 1, once);
      var rest := MeanSelect(env, e, list, i + 1);
      assert Cut(once, [list[i]] + rest) == if once then [list[i]] else [list[i]] + rest;
    }
  }

  lemma {:induction false} ApplyAllRefines(env: Env, preds: Ast, list: seq<XNode>, lastOnce: bool)
    requires EnvOk(env) && WellFormed(preds) && IsPredicateChain(preds) && forall x | x in list :: ValidNode(env.tree, x)
    requires preds.Ast?
    ensures ApplyAll(env, preds, list, lastOnce) == Cut(lastOnce, MeanPredicates(env, preds, list))
    decreases preds, 6, 0
  {
    var stop := preds.next.Nil? && lastOnce;
    ApplyRefines(env, ClassOf(preds), preds.right, list, stop);
    var kept := MeanSelect(env, preds.right, list, 0);
    SelectAll(env, preds.right, list);
    if preds.next.Ast? {
      ApplyAllRefines(env, preds.next, kept, lastOnce);
    }
  }

  /** A step with one predicate `[1]` needs only the first node. */
  lemma ConstantOneCut(env: Env, preds: Ast, list: seq<XNode>)
    requires preds.Ast? && preds.next.Nil? && ClassOf(preds) == ConstantOne && Truthful(ConstantOne, preds.right)
    ensures MeanPredicates(env, preds, Cut(true, list)) == MeanPredicates(env, preds, list)
    ensures |MeanPredicates(env, preds, list)| <= 1
  {
    PickIsSelect(env, ConstantOne, preds.right, list, 0, Ctx(Nothing, 1, |list|));
    PickIsSelect(env, ConstantOne, preds.right, Cut(true, list), 0, Ctx(Nothing, 1, |Cut(true, list)|));
    ConstantMeaning(env, ConstantOne, preds.right, Ctx(Nothing, 1, |list|), Ctx(Nothing, 1, |list|));
    ConstantMeaning(env, ConstantOne, preds.right, Ctx(Nothing, 1, |Cut(true, list)|), Ctx(Nothing, 1, |Cut(true, list)|));
    assert Picks(Fin(1.0), 0, |list|) <==> list != [];
    assert MeanPredicates(env, preds, list) == MeanSelect(env, preds.right, list, 0);
    assert MeanPredicates(env, preds, Cut(true, list)) == MeanSelect(env, preds.right, Cut(true, list), 0);
  }

  // ------------------------------------------------------------------- location steps

  ghost function FromFn(w: Walk): Source {
    x => From(w, x)
  }

  lemma WalkSourced(w: Walk, s: seq<XNode>)
    requires forall x | x in s :: ValidNode(w.env.tree, x)
    ensures Sourced(w.axis, FromFn(w), s)
    ensures forall x, y | x in s && y in From(w, x) :: Real(w.env, y)
  {
    forall x | x in s {
      FromMeaning(w, x);
    }
  }

  lemma {:induction false} MeanStepsMeaning(w: Walk, s: seq<XNode>, k: nat)
    requires k <= |s|
    ensures forall y :: y in MeanSteps(w.env, w.axis, w.test, w.arg, w.preds, s, k) <==> FromAny(FromFn(w), s[k..], y)
    decreases |s| - k
  {
    if k < |s| {
      MeanStepsMeaning(w, s, k + 1);
      assert s[k..] == [s[k]] + s[k + 1..];
      StepsSplit(w, s, k);
      forall y ensures FromAny(FromFn(w), s[k..], y) <==> y in From(w, s[k]) || FromAny(FromFn(w), s[k + 1..], y) {
        AnyOfMore(FromFn(w), s[k], s[k + 1..], y);
      }
    }
  }

  lemma StepsSplit(w: Walk, s: seq<XNode>, k: nat)
    requires k < |s|
    ensures MeanSteps(w.env, w.axis, w.test, w.arg, w.preds, s, k) ==
            From(w, s[k]) + MeanSteps(w.env, w.axis, w.test, w.arg, w.preds, s, k + 1)
  {
  }

  lemma AnyOfMore(from: Source, x: XNode, s: seq<XNode>, y: XNode)
    ensures FromAny(from, [x] + s, y) <==> y in from(x) || FromAny(from, s, y)
  {
    assert x in [x] + s;
  }

  ghost predicate WalkReady(w: Walk) {
    EnvOk(w.env) && WellFormed(w.preds) && IsPredicateChain(w.preds) && w.axis != Namespace
  }

  function Kept(w: Walk, f: Filter, x: XNode, order: Order): seq<XNode> {
    var found := StepNodes(w.env.tree, w.axis, f, x);
    if w.preds.Nil? then found else ApplyAll(w.env, w.preds, found, EvalOnce(order, w.mode))
  }

  function Flagged(w: Walk): Filter {
    Filter(w.test, w.arg, StepOnceFlag(w.axis, w.test, w.preds, w.mode))
  }

  predicate NamesAttribute(w: Walk) {
    w.axis == AttributeAxis && w.test == TestName
  }

  /** The nodes before the predicates: what the meaning looks at, or the first of them. */
  lemma FoundIs(w: Walk, x: XNode)
    ensures var found, own := StepNodes(w.env.tree, w.axis, Flagged(w), x),
                              StepNodes(w.env.tree, w.axis, Filter(w.test, w.arg, NamesAttribute(w)), x);
            found == if Flagged(w).once then Cut(true, own) else own
  {
    StepOnce(w.env.tree, w.axis, Flagged(w), x);
    StepOnce(w.env.tree, w.axis, Filter(w.test, w.arg, NamesAttribute(w)), x);
  }

  lemma OwnValid(w: Walk, x: XNode)
    requires ValidNode(w.env.tree, x)
    ensures forall y | y in StepNodes(w.env.tree, w.axis, Filter(w.test, w.arg, NamesAttribute(w)), x) :: ValidNode(w.env.tree, y)
  {
    StepOnce(w.env.tree, w.axis, Filter(w.test, w.arg, NamesAttribute(w)), x);
    StepNodesMeaning(w.env.tree, w.axis, Filter(w.test, w.arg, false), x);
  }

  lemma EvalOnceMeans(w: Walk, order: Order, x: XNode)
    requires ValidNode(w.env.tree, x) && EvalOnce(order, w.mode)
    requires w.axis == Self || order == AxisType(w.axis) || order == Unsorted
    ensures Part(w.mode, Cut(true, From(w, x)), From(w, x))
  {
    FromMeaning(w, x);
  }

  /** The nodes a step finds from x before its predicates, as its meaning sees them. */
  function Own(w: Walk, x: XNode): seq<XNode> {
    StepNodes(w.env.tree, w.axis, Filter(w.test, w.arg, NamesAttribute(w)), x)
  }

  lemma OwnNamed(w: Walk, x: XNode)
    requires NamesAttribute(w)
    ensures Cut(true, Own(w, x)) == Own(w, x)
  {
    StepOnce(w.env.tree, w.axis, Filter(w.test, w.arg, true), x);
  }

  lemma FromIs(w: Walk, x: XNode)
    ensures From(w, x) == MeanPredicates(w.env, w.preds, Own(w, x))
  {
  }

  lemma PlainKept(w: Walk, x: XNode, order: Order)
    requires WalkReady(w) && ValidNode(w.env.tree, x) && w.preds.Nil?
    ensures Part(w.mode, Kept(w, Flagged(w), x, order), From(w, x))
  {
    FoundIs(w, x);
    FromIs(w, x);
    if NamesAttribute(w) {
      OwnNamed(w, x);
    } else if Flagged(w).once {
      EvalOnceMeans(w, AxisType(w.axis), x);
    }
  }

  lemma KeptIs(w: Walk, x: XNode, order: Order)
    requires w.preds.Ast?
    ensures Kept(w, Flagged(w), x, order) ==
            ApplyAll(w.env, w.preds, if Flagged(w).once then Cut(true, Own(w, x)) else Own(w, x), EvalOnce(order, w.mode))
  {
    FoundIs(w, x);
  }

  /** A step with one predicate `[1]` that fetched one node at most. */
  lemma {:induction false} FirstApplied(env: Env, preds: Ast, own: seq<XNode>, once: bool)
    requires EnvOk(env) && WellFormed(preds) && IsPredicateChain(preds) && forall x | x in own :: ValidNode(env.tree, x)
    requires preds.Ast? && preds.next.Nil? && ClassOf(preds) == ConstantOne
    ensures ApplyAll(env, preds, Cut(true, own), once) == MeanPredicates(env, preds, own)
    decreases preds, 7, 0
  {
    ConstantOneCut(env, preds, own);
    CutOfAtMostOne(once, MeanPredicates(env, preds, own));
    ApplyAllRefines(env, preds, Cut(true, own), once);
  }

  lemma {:induction false} FirstKept(w: Walk, x: XNode, order: Order)
    requires WalkReady(w) && ValidNode(w.env.tree, x) && w.preds.Ast? && w.preds.next.Nil? && ClassOf(w.preds) == ConstantOne
    ensures Kept(w, Flagged(w), x, order) == From(w, x)
    decreases w.preds, 7, 1
  {
    KeptIs(w, x, order);
    OwnValid(w, x);
    FromIs(w, x);
    FirstApplied(w.env, w.preds, Own(w, x), EvalOnce(order, w.mode));
  }

  lemma {:induction false} FilteredKept(w: Walk, x: XNode, order: Order)
    requires WalkReady(w) && ValidNode(w.env.tree, x) && w.preds.Ast? && !(w.preds.next.Nil? && ClassOf(w.preds) == ConstantOne)
    ensures Kept(w, Flagged(w), x, order) == Cut(EvalOnce(order, w.mode), From(w, x))
    decreases w.preds, 7, 1
  {
    KeptIs(w, x, order);
    OwnValid(w, x);
    FromIs(w, x);
    if NamesAttribute(w) {
      OwnNamed(w, x);
    }
    ApplyAllRefines(w.env, w.preds, Own(w, x), EvalOnce(order, w.mode));
  }

  /** What `step_do` keeps for one context node. */
  lemma {:induction false} KeptIsPart(w: Walk, x: XNode, order: Order)
    requires WalkReady(w) && ValidNode(w.env.tree, x)
    requires w.axis == Self || order == AxisType(w.axis) || order == Unsorted
    ensures Part(w.mode, Kept(w, Flagged(w), x, order), From(w, x))
    decreases w.preds, 8, 0
  {
    if w.preds.Nil? {
      PlainKept(w, x, order);
    } else if w.preds.next.Nil? && ClassOf(w.preds) == ConstantOne {
      FirstKept(w, x, order);
    } else {
      FilteredKept(w, x, order);
      if EvalOnce(order, w.mode) {
        EvalOnceMeans(w, order, x);
      }
    }
  }

  function NextOrder(w: Walk, acc: NodeSet): Order {
    if w.axis != Self && acc.nodes != [] then Unsorted else acc.order
  }

  function Collect(w: Walk, s: seq<XNode>, k: nat, acc: NodeSet): NodeSet
    requires k <= |s|
  {
    StepAll(w.env, w.axis, Flagged(w), w.preds, s, k, w.mode, acc)
  }

  /** The order flag and the nodes after one more context node. */
  function Extended(w: Walk, acc: NodeSet, x: XNode): NodeSet {
    NodeSet(acc.nodes + Kept(w, Flagged(w), x, NextOrder(w, acc)), NextOrder(w, acc))
  }

  lemma CollectUnfolds(w: Walk, s: seq<XNode>, k: nat, acc: NodeSet)
    requires k <= |s|
    ensures Collect(w, s, k, acc) == if k == |s| then acc else Collect(w, s, k + 1, Extended(w, acc, s[k]))
  {
  }

  /** One round of the loop of `step_do`. */
  lemma {:induction false} StepOneRefines(w: Walk, s: NodeSet, k: nat, acc: NodeSet)
    requires WalkReady(w) && OrderHolds(s) && k < |s.nodes| && ValidNode(w.env.tree, s.nodes[k])
    requires Sourced(w.axis, FromFn(w), s.nodes) && Collected(w.axis, w.mode, FromFn(w), s, k, acc)
    ensures Collected(w.axis, w.mode, FromFn(w), s, k + 1, Extended(w, acc, s.nodes[k]))
    decreases w.preds, 8, 1
  {
    var order := NextOrder(w, acc);
    KeptIsPart(w, s.nodes[k], order);
    CollectStep(w.axis, w.mode, FromFn(w), s, k, acc, Kept(w, Flagged(w), s.nodes[k], order), order);
  }

  type Round = (NodeSet, XNode) -> NodeSet

  /** The loop over the context nodes for any way of dealing with one of them. */
  function CollectBy(round: Round, s: seq<XNode>, k: nat, acc: NodeSet): NodeSet
    requires k <= |s|
    decreases |s| - k
  {
    if k == |s| then acc else CollectBy(round, s, k + 1, round(acc, s[k]))
  }

  lemma {:induction false} CollectIsBy(w: Walk, s: seq<XNode>, k: nat, acc: NodeSet)
    requires k <= |s|
    ensures Collect(w, s, k, acc) == CollectBy((so, x) => Extended(w, so, x), s, k, acc)
    decreases |s| - k
  {
    CollectUnfolds(w, s, k, acc);
    if k < |s| {
      CollectIsBy(w, s, k + 1, Extended(w, acc, s[k]));
    }
  }

  ghost predicate RoundKeeps(round: Round, axis: Axis, mode: Mode, from: Source, s: NodeSet) {
    forall k: nat, acc {:trigger Collected(axis, mode, from, s, k, acc)} | k < |s.nodes| && Collected(axis, mode, from, s, k, acc) ::
      Collected(axis, mode, from, s, k + 1, round(acc, s.nodes[k]))
  }

  lemma {:induction false} LoopKeeps(round: Round, axis: Axis, mode: Mode, from: Source, s: NodeSet, k: nat, acc: NodeSet)
    requires RoundKeeps(round, axis, mode, from, s) && Collected(axis, mode, from, s, k, acc)
    ensures Collected(axis, mode, from, s, |s.nodes|, CollectBy(round, s.nodes, k, acc))
    decreases |s.nodes| - k
  {
    if k < |s.nodes| {
      LoopKeeps(round, axis, mode, from, s, k + 1, round(acc, s.nodes[k]));
    }
  }

  /** The whole loop of `step_do`. */
  lemma {:induction false} StepAllRefines(w: Walk, s: NodeSet, acc: NodeSet)
    requires WalkReady(w) && OrderHolds(s) && forall i | 0 <= i < |s.nodes| :: ValidNode(w.env.tree, s.nodes[i])
    requires Sourced(w.axis, FromFn(w), s.nodes) && Collected(w.axis, w.mode, FromFn(w), s, 0, acc)
    ensures Collected(w.axis, w.mode, FromFn(w), s, |s.nodes|, Collect(w, s.nodes, 0, acc))
    decreases w.preds, 9, 0
  {
    var round: Round := (so, x) => Extended(w, so, x);
    forall k: nat, so | k < |s.nodes| && Collected(w.axis, w.mode, FromFn(w), s, k, so)
      ensures Collected(w.axis, w.mode, FromFn(w), s, k + 1, round(so, s.nodes[k]))
    {
      StepOneRefines(w, s, k, so);
    }
    LoopKeeps(round, w.axis, w.mode, FromFn(w), s, 0, acc);
    CollectIsBy(w, s.nodes, 0, acc);
  }

  /** A location step from given context nodes. */
  lemma {:induction false} StepFromRefines(w: Walk, s: NodeSet, list: seq<XNode>, order: Order)
    requires WalkReady(w) && OrderHolds(s) && forall x | x in s.nodes :: ValidNode(w.env.tree, x)
    requires (forall x :: x in s.nodes <==> x in list) && order == if w.axis == Self then s.order else AxisType(w.axis)
    ensures Agree(w.env, w.mode, StepUnique(w.axis, Collect(w, s.nodes, 0, NodeSet([], order))),
                  Canon(MeanSteps(w.env, w.axis, w.test, w.arg, w.preds, list, 0)))
    decreases w.preds, 10, 0
  {
    WalkSourced(w, s.nodes);
    StepAllRefines(w, s, NodeSet([], order));
    var steps := MeanSteps(w.env, w.axis, w.test, w.arg, w.preds, list, 0);
    MeanStepsMeaning(w, list, 0);
    assert list[0..] == list;
    forall y ensures y in steps <==> FromAny(FromFn(w), s.nodes, y) {
      SameSources(FromFn(w), s.nodes, list, y);
    }
    CollectEnds(w.env, w.axis, w.mode, FromFn(w), s, Collect(w, s.nodes, 0, NodeSet([], order)), steps);
  }

  lemma SameSources(from: Source, s: seq<XNode>, list: seq<XNode>, y: XNode)
    requires forall x :: x in s <==> x in list
    ensures FromAny(from, s, y) <==> FromAny(from, list, y)
  {
  }

  lemma NamespaceIsEmpty(w: Walk, list: seq<XNode>)
    requires w.axis == Namespace && forall x | x in list :: ValidNode(w.env.tree, x)
    ensures Canon(MeanSteps(w.env, w.axis, w.test, w.arg, w.preds, list, 0)) == []
  {
    var steps := MeanSteps(w.env, w.axis, w.test, w.arg, w.preds, list, 0);
    MeanStepsMeaning(w, list, 0);
    assert list[0..] == list;
    forall y ensures y !in steps {
      forall x | x in list {
        FromMeaning(w, x);
      }
    }
    CanonUnique(steps, []);
  }

  lemma EmptyNodesAgree(env: Env, mode: Mode, order: Order)
    ensures Agree(env, mode, NodeSet([], order), [])
  {
  }

  lemma {:induction false} StepRefines(env: Env, a: Ast, c: Ctx, mode: Mode)
    requires Ready(env, a, c) && a.Ast? && a.kind.Step?
    ensures Agree(env, mode, EvalStep(env, a, c, mode), MeanStep(env, a, c))
    decreases a, 0, 0
  {
    var w := Walk(env, a.kind.axis, a.kind.test, a.kind.arg, a.right, mode);
    var s, list := NodeSet([c.node], Sorted), [c.node];
    if a.left.Ast? {
      NodesRefine(env, a.left, c, WantAll);
      s, list := EvalNodes(env, a.left, c, WantAll), MeanNodes(env, a.left, c);
      AllAgrees(env, s, list);
    }
    if w.axis == Namespace {
      NamespaceIsEmpty(w, list);
      EmptyNodesAgree(env, mode, Unsorted);
    } else {
      StepFromRefines(w, s, list, if w.axis == Self then s.order else AxisType(w.axis));
    }
  }

  // ---------------------------------------------------------------------- filters

  lemma CutAgrees(env: Env, mode: Mode, full: NodeSet, list: seq<XNode>)
    requires Agree(env, WantAll, full, list)
    ensures Agree(env, mode, NodeSet(Cut(EvalOnce(full.order, mode), full.nodes), full.order), list)
  {
    AllAgrees(env, full, list);
    if full.nodes != [] {
      if full.order == Sorted {
        HeadIsLeast(full.nodes);
      }
      assert full.nodes[0] in list;
    }
    var kept := Cut(EvalOnce(full.order, mode), full.nodes);
    forall y | y in list ensures Covers(mode, kept, y) {
      assert AtOrBefore(y, y);
      assert full.nodes[0] in kept;
      assert full.order == Sorted ==> AtOrBefore(full.nodes[0], y);
    }
  }

  lemma SelectedAgrees(env: Env, e: Ast, ns: NodeSet, list: seq<XNode>)
    requires Agree(env, WantAll, ns, list) && (ns.nodes == list || (WellFormed(e) && Truthful(PosInv, e)))
    ensures Agree(env, WantAll, NodeSet(MeanSelect(env, e, ns.nodes, 0), ns.order), MeanSelect(env, e, list, 0))
  {
    AllAgrees(env, ns, list);
    SelectAll(env, e, ns.nodes);
    SelectAll(env, e, list);
    SameSelected(env, e, ns.nodes, list);
    AgreeAll(env, NodeSet(MeanSelect(env, e, ns.nodes, 0), ns.order), MeanSelect(env, e, list, 0));
  }

  lemma AgreeAll(env: Env, ns: NodeSet, list: seq<XNode>)
    requires OrderHolds(ns) && InDocOrder(list) && AllReal(env, list) && forall x :: x in ns.nodes <==> x in list
    ensures Agree(env, WantAll, ns, list)
  {
  }

  /** A predicate that ignores positions selects the same nodes from a set in any order. */
  lemma SameSelected(env: Env, e: Ast, s: seq<XNode>, t: seq<XNode>)
    requires s == t || (WellFormed(e) && Truthful(PosInv, e) && forall x :: x in s <==> x in t)
    ensures forall y :: y in MeanSelect(env, e, s, 0) <==> y in MeanSelect(env, e, t, 0)
  {
    if s != t {
      PosInvSelect(env, e, s, 0);
      PosInvSelect(env, e, t, 0);
      assert s[0..] == s && t[0..] == t;
    }
  }

  /** `(e)[1]` evaluates e up to its first node only. */
  lemma FirstFilterAgrees(env: Env, mode: Mode, e: Ast, ns: NodeSet, list: seq<XNode>)
    requires EnvOk(env) && WellFormed(e) && Agree(env, WantFirst, ns, list) && Truthful(ConstantOne, e)
    ensures Agree(env, mode, NodeSet(Apply(env, ConstantOne, e, SortDone(ns).nodes, EvalOnce(Sorted, mode)), Sorted),
                  MeanSelect(env, e, list, 0))
  {
    var s := SortDone(ns).nodes;
    ConstantMeaning(env, ConstantOne, e, Ctx(Nothing, 1, |s|), Ctx(Nothing, 1, |s|));
    ConstantMeaning(env, ConstantOne, e, Ctx(Nothing, 1, |list|), Ctx(Nothing, 1, |list|));
    PickIsSelect(env, ConstantOne, e, list, 0, Ctx(Nothing, 1, |list|));
    EmptyAgrees(env, WantFirst, ns, list);
    if list != [] {
      FirstSorted(env, WantFirst, ns, list);
      assert Picks(Fin(1.0), 0, |list|);
      assert MeanSelect(env, e, list, 0) == [list[0]];
      assert AtOrBefore(list[0], list[0]);
    } else {
      SortDoneMeaning(ns);
    }
  }

  lemma {:induction false} FilterRefines(env: Env, a: Ast, c: Ctx, mode: Mode)
    requires Ready(env, a, c) && a.Ast? && a.kind.FilterNode?
    ensures Agree(env, mode, EvalFilter(env, a, c, mode), MeanFilter(env, a, c))
    decreases a, 0, 0
  {
    var cls, e, list := a.kind.cls, a.right, MeanNodes(env, a.left, c);
    if cls == ConstantOne {
      NodesRefine(env, a.left, c, WantFirst);
      FirstFilterAgrees(env, mode, e, EvalNodes(env, a.left, c, WantFirst), list);
    } else {
      NodesRefine(env, a.left, c, WantAll);
      var all := EvalNodes(env, a.left, c, WantAll);
      AllAgrees(env, all, list);
      var sorted := if cls == PosInv then all else SortDone(all);
      AgreeSorted(env, all, list);
      SelectedAgrees(env, e, sorted, list);
      ApplyRefines(env, cls, e, sorted.nodes, EvalOnce(sorted.order, mode));
      CutAgrees(env, mode, NodeSet(MeanSelect(env, e, sorted.nodes, 0), sorted.order), MeanSelect(env, e, list, 0));
    }
  }

  lemma AgreeSorted(env: Env, ns: NodeSet, list: seq<XNode>)
    requires Agree(env, WantAll, ns, list)
    ensures Agree(env, WantAll, SortDone(ns), list) && SortDone(ns) == NodeSet(list, Sorted)
    ensures forall x | x in ns.nodes + list :: ValidNode(env.tree, x)
  {
    AllAgrees(env, ns, list);
  }

  // -------------------------------------------------------------------- node sets

  lemma VariableAgrees(env: Env, mode: Mode, ns: NodeSet)
    requires OrderHolds(ns) && forall x | x in ns.nodes :: Real(env, x)
    ensures Agree(env, mode, ns, Canon(ns.nodes))
  {
    CanonMeaning(ns.nodes);
    forall y | y in Canon(ns.nodes) ensures Covers(mode, ns.nodes, y) {
      assert AtOrBefore(y, y);
    }
  }

  lemma RootAgrees(env: Env, mode: Mode)
    ensures Agree(env, mode, NodeSet([Node([])], Sorted), [Node([])])
  {
    assert AtOrBefore(Node([]), Node([]));
  }

  lemma {:induction false} UnionRefines(env: Env, a: Ast, c: Ctx, mode: Mode)
    requires Ready(env, a, c) && a.Ast? && a.kind.Union?
    ensures Agree(env, mode, EvalUnion(env, a, c, mode), MeanUnion(env, a, c))
    decreases a, 0, 0
  {
    NodesRefine(env, a.left, c, mode);
    NodesRefine(env, a.right, c, mode);
    UnionAgrees(env, mode, EvalNodes(env, a.left, c, mode), EvalNodes(env, a.right, c, mode),
                MeanNodes(env, a.left, c), MeanNodes(env, a.right, c));
  }

  /**
   Evaluating a node-set query in any mode yields, in the order its flag promises, nodes
   of the set the query means: all of them, at least the first, or at least one.
   */
  lemma {:induction false} NodesRefine(env: Env, a: Ast, c: Ctx, mode: Mode)
    requires Ready(env, a, c)
    ensures Agree(env, mode, EvalNodes(env, a, c, mode), MeanNodes(env, a, c))
    decreases a, 1, 0
  {
    if Combines(a) {
      if a.kind.Union? {
        UnionRefines(env, a, c, mode);
      } else if a.kind.FilterNode? {
        FilterRefines(env, a, c, mode);
      } else {
        StepRefines(env, a, c, mode);
      }
      CombinedNodes(env, a, c, mode);
    } else {
      LeafNodesRefine(env, a, c, mode);
    }
  }

  predicate Combines(a: Ast) {
    a.Ast? && (a.kind.Union? || a.kind.FilterNode? || a.kind.Step?)
  }

  lemma CombinedNodes(env: Env, a: Ast, c: Ctx, mode: Mode)
    requires Combines(a)
    ensures a.kind.Union? ==> EvalNodes(env, a, c, mode) == EvalUnion(env, a, c, mode) && MeanNodes(env, a, c) == MeanUnion(env, a, c)
    ensures a.kind.FilterNode? ==> EvalNodes(env, a, c, mode) == EvalFilter(env, a, c, mode) && MeanNodes(env, a, c) == MeanFilter(env, a, c)
    ensures a.kind.Step? ==> EvalNodes(env, a, c, mode) == EvalStep(env, a, c, mode) && MeanNodes(env, a, c) == MeanStep(env, a, c)
  {
  }

  /** Node sets that no other node set is part of. */
  lemma LeafNodesRefine(env: Env, a: Ast, c: Ctx, mode: Mode)
    requires EnvOk(env) && !Combines(a)
    ensures Agree(env, mode, EvalNodes(env, a, c, mode), MeanNodes(env, a, c))
  {
    EmptyNodesAgree(env, mode, Unsorted);
    if a.Ast? {
      match a.kind {
        case StepRoot =>
          RootAgrees(env, mode);
          EmptyNodesAgree(env, mode, Sorted);
        case Variable(name, _) => VariableAgrees(env, mode, env.nodeSets(name));
        case _ =>
      }
    }
  }

  // ---------------------------------------------------------------------- scalars

  ghost predicate SameAs(env: Env, a: Ast, c: Ctx) {
    AsBool(env, a, c) == MeanBool(env, a, c) && AsText(env, a, c) == MeanText(env, a, c) && AsNum(env, a, c) == MeanNum(env, a, c)
  }

  /** In every context an expression is asked for in, evaluation and meaning give the same value. */
  lemma {:induction false} AsRefines(env: Env, a: Ast, c: Ctx)
    requires Ready(env, a, c)
    ensures SameAs(env, a, c)
    decreases a, 2, 0
  {
    if RetType(a) == NodeSetType {
      NodesRefine(env, a, c, WantAny);
      NodesRefine(env, a, c, WantFirst);
      NodesGiveValue(env, a, c);
    } else {
      ScalarRefines(env, a, c);
    }
  }

  lemma NodesGiveValue(env: Env, a: Ast, c: Ctx)
    requires RetType(a) == NodeSetType
    requires Agree(env, WantAny, EvalNodes(env, a, c, WantAny), MeanNodes(env, a, c))
    requires Agree(env, WantFirst, EvalNodes(env, a, c, WantFirst), MeanNodes(env, a, c))
    ensures SameAs(env, a, c)
  {
    var list := MeanNodes(env, a, c);
    EmptyAgrees(env, WantAny, EvalNodes(env, a, c, WantAny), list);
    EmptyAgrees(env, WantFirst, EvalNodes(env, a, c, WantFirst), list);
    if list != [] {
      FirstAgrees(env, WantFirst, EvalNodes(env, a, c, WantFirst), list);
    }
  }

  /** An operand evaluated in full has the same string values; evaluated for any node, the same emptiness. */
  ghost predicate SameOperand(env: Env, mode: Mode, x: Operand, d: Operand) {
    match (x, d)
    case (Scalar(v), Scalar(u)) => v == u
    case (Set(s), Set(t)) => (s == [] <==> t == []) && (mode == WantAll ==> Texts(env, s) == Texts(env, t))
    case _ => false
  }

  lemma {:induction false} OperandRefines(env: Env, a: Ast, c: Ctx, mode: Mode)
    requires Ready(env, a, c)
    ensures SameOperand(env, mode, OperandOf(env, a, c, mode), MeanOperand(env, a, c))
    decreases a, 2, 0
  {
    if RetType(a) == NodeSetType {
      NodesRefine(env, a, c, mode);
      EmptyAgrees(env, mode, EvalNodes(env, a, c, mode), MeanNodes(env, a, c));
      if mode == WantAll {
        AllAgrees(env, EvalNodes(env, a, c, mode), MeanNodes(env, a, c));
        SameTexts(env, EvalNodes(env, a, c, mode).nodes, MeanNodes(env, a, c));
      }
    } else {
      ScalarRefines(env, a, c);
    }
  }

  lemma BooleanValue(env: Env, a: Ast, c: Ctx)
    requires RetType(a) == BooleanType
    ensures MeanScalar(env, a, c).Bool?
  {
  }

  lemma NumsSame(env: Env, x: Operand, d: Operand)
    requires SameOperand(env, WantAll, x, d)
    ensures Nums(env, x) == Nums(env, d)
  {
  }

  lemma RelSame(env: Env, strict: bool, x: Operand, y: Operand, dx: Operand, dy: Operand)
    requires SameOperand(env, WantAll, x, dx) && SameOperand(env, WantAll, y, dy)
    ensures CompareRel(env, strict, x, y) == CompareRel(env, strict, dx, dy)
  {
    NumsSame(env, x, dx);
    NumsSame(env, y, dy);
  }

  lemma ScalarCompareSame(env: Env, eq: bool, v: Value, y: Operand, dy: Operand, mode: Mode)
    requires SameOperand(env, mode, y, dy) && (mode == WantAll || v.Bool?)
    ensures CompareScalar(env, eq, v, y) == CompareScalar(env, eq, v, dy)
  {
    if mode == WantAll {
      NumsSame(env, y, dy);
    }
  }

  lemma EqSame(env: Env, eq: bool, x: Operand, y: Operand, dx: Operand, dy: Operand, mx: Mode, my: Mode)
    requires SameOperand(env, mx, x, dx) && SameOperand(env, my, y, dy)
    requires mx == WantAll || (dy.Scalar? && dy.v.Bool?)
    requires my == WantAll || (dx.Scalar? && dx.v.Bool?)
    ensures CompareEq(env, eq, x, y) == CompareEq(env, eq, dx, dy)
  {
    if dx.Scalar? {
      ScalarCompareSame(env, eq, dx.v, y, dy, my);
    } else if dy.Scalar? {
      ScalarCompareSame(env, eq, dy.v, x, dx, mx);
    }
  }

  lemma {:induction false} ComparisonRefines(env: Env, a: Ast, c: Ctx)
    requires Ready(env, a, c) && a.Ast? && IsEquality(a.kind)
    ensures EvalEquality(env, a, c) == MeanEquality(env, a, c)
    decreases a, 0, 0
  {
    var l, r := a.left, a.right;
    var ml := if RetType(r) == BooleanType then WantAny else WantAll;
    var mr := if RetType(l) == BooleanType then WantAny else WantAll;
    OperandRefines(env, l, c, ml);
    OperandRefines(env, r, c, mr);
    if ml == WantAny {
      BooleanValue(env, r, c);
    }
    if mr == WantAny {
      BooleanValue(env, l, c);
    }
    EqSame(env, a.kind.Equal?, OperandOf(env, l, c, ml), OperandOf(env, r, c, mr),
           MeanOperand(env, l, c), MeanOperand(env, r, c), ml, mr);
  }

  lemma {:induction false} RelationRefines(env: Env, a: Ast, c: Ctx)
    requires Ready(env, a, c) && a.Ast? && IsRelation(a.kind)
    ensures EvalRelation(env, a, c) == MeanRelation(env, a, c)
    decreases a, 0, 0
  {
    OperandRefines(env, a.left, c, WantAll);
    OperandRefines(env, a.right, c, WantAll);
    var x, y := OperandOf(env, a.left, c, WantAll), OperandOf(env, a.right, c, WantAll);
    var dx, dy := MeanOperand(env, a.left, c), MeanOperand(env, a.right, c);
    var strict := a.kind.Less? || a.kind.Greater?;
    if a.kind.Less? || a.kind.LessOrEqual? {
      RelSame(env, strict, x, y, dx, dy);
    } else {
      RelSame(env, strict, y, x, dy, dx);
    }
  }

  lemma {:induction false} CountRefines(env: Env, a: Ast, c: Ctx)
    requires Ready(env, a, c) && a.Ast? && a.kind.Count?
    ensures EvalAggregate(env, a, c) == MeanAggregate(env, a, c)
    decreases a, 0, 0
  {
    NodesRefine(env, a.left, c, WantAll);
    AllAgrees(env, EvalNodes(env, a.left, c, WantAll), MeanNodes(env, a.left, c));
  }

  lemma {:induction false} SumRefines(env: Env, a: Ast, c: Ctx)
    requires Ready(env, a, c) && a.Ast? && a.kind.Sum?
    ensures EvalAggregate(env, a, c) == MeanAggregate(env, a, c)
    decreases a, 0, 0
  {
    NodesRefine(env, a.left, c, WantAll);
    SumAgrees(env, EvalNodes(env, a.left, c, WantAll), MeanNodes(env, a.left, c));
  }

  lemma {:induction false} FirstCallRefines(env: Env, a: Ast, c: Ctx)
    requires Ready(env, a, c) && a.Ast? && a.kind.FirstCall?
    ensures EvalAggregate(env, a, c) == MeanAggregate(env, a, c)
    decreases a, 0, 0
  {
    NodesRefine(env, a.left, c, WantFirst);
    var ns, list := EvalNodes(env, a.left, c, WantFirst), MeanNodes(env, a.left, c);
    EmptyAgrees(env, WantFirst, ns, list);
    if list != [] {
      FirstAgrees(env, WantFirst, ns, list);
    }
  }

  lemma {:induction false} ArgumentsRefine(env: Env, fn: Fn, i: nat, a: Ast, c: Ctx)
    requires Ready(env, a, c)
    ensures Arguments(env, fn, i, a, c) == MeanArguments(env, fn, i, a, c)
    decreases a, 3, 0
  {
    if a.Ast? {
      AsRefines(env, a, c);
      ArgumentsRefine(env, fn, i + 1, a.next, c);
    }
  }

  lemma {:induction false} CallRefines(env: Env, a: Ast, c: Ctx)
    requires Ready(env, a, c) && a.Ast? && a.kind.Call?
    ensures EvalCall(env, a, c) == MeanCall(env, a, c)
    decreases a, 0, 0
  {
    AsRefines(env, a.left, c);
    ArgumentsRefine(env, a.kind.fn, 1, a.right, c);
    assert FirstArgument(env, a.kind.fn, a.left, c) == MeanFirstArgument(env, a.kind.fn, a.left, c);
  }

  lemma {:induction false} TranslateRefines(env: Env, a: Ast, c: Ctx)
    requires Ready(env, a, c) && a.Ast? && IsRewriting(a.kind)
    ensures EvalRewriting(env, a, c) == MeanRewriting(env, a, c)
    decreases a, 0, 0
  {
    AsRefines(env, a.left, c);
    AsRefines(env, a.right, c);
    if a.right.Ast? {
      AsRefines(env, a.right.next, c);
    }
  }

  lemma {:induction false} LogicRefines(env: Env, a: Ast, c: Ctx)
    requires Ready(env, a, c) && a.Ast? && IsLogic(a.kind)
    ensures EvalLogic(env, a, c) == MeanLogic(env, a, c)
    decreases a, 0, 0
  {
    AsRefines(env, a.left, c);
    AsRefines(env, a.right, c);
  }

  lemma {:induction false} ScalarRefines(env: Env, a: Ast, c: Ctx)
    requires Ready(env, a, c)
    ensures EvalScalar(env, a, c) == MeanScalar(env, a, c)
    decreases a, 1, 0
  {
    if a.Ast? {
      var k := a.kind;
      if IsLogic(k) {
        LogicRefines(env, a, c);
      } else if IsEquality(k) {
        ComparisonRefines(env, a, c);
      } else if IsRelation(k) {
        RelationRefines(env, a, c);
      } else if k.Count? {
        CountRefines(env, a, c);
      } else if k.Sum? {
        SumRefines(env, a, c);
      } else if k.FirstCall? {
        FirstCallRefines(env, a, c);
      } else if k.Call? {
        CallRefines(env, a, c);
      } else if IsRewriting(k) {
        TranslateRefines(env, a, c);
      }
    }
  }
}
