/** Location steps over many context nodes: what the loop of `step_do` collects against what the step means. */
module XPathSteps {
  import opened XmlTree
  import opened XPathOrder
  import opened XPathNodeSet
  import opened XPathAxes
  import opened XPathStep
  import opened XPathFill
  import opened XPathAst
  import opened XPathEval
  import opened XPathMeaning
  import opened XPathAgree

  // ------------------------------------------------------------ filtered lists

  /** Filtering keeps order and distinctness. */
  lemma {:induction false} SelectMeaning(env: Env, e: Ast, list: seq<XNode>, i: nat)
    requires i <= |list|
    ensures forall y | y in MeanSelect(env, e, list, i) :: y in list[i..]
    ensures InDocOrder(list) ==> InDocOrder(MeanSelect(env, e, list, i))
    ensures InReverseOrder(list) ==> InReverseOrder(MeanSelect(env, e, list, i))
    ensures Distinct(list) ==> Distinct(MeanSelect(env, e, list, i))
    decreases |list| - i
  {
    if i < |list| {
      SelectMeaning(env, e, list, i + 1);
      assert list[i..] == [list[i]] + list[i + 1..];
      var rest := MeanSelect(env, e, list, i + 1);
      HeadBound(list, i, rest);
      HeadDistinct(list, i, rest);
    }
  }

  lemma HeadDistinct(s: seq<XNode>, k: nat, rest: seq<XNode>)
    requires k < |s| && forall y | y in rest :: y in s[k + 1..]
    ensures Distinct(s) && Distinct(rest) ==> Distinct([s[k]] + rest)
  {
    forall j | 0 <= j < |rest| ensures exists m :: k < m < |s| && s[m] == rest[j] {
      assert rest[j] in rest;
      var m :| 0 <= m < |s[k + 1..]| && s[k + 1..][m] == rest[j];
      assert s[k + 1 + m] == rest[j];
    }
  }

  lemma SelectAll(env: Env, e: Ast, list: seq<XNode>)
    ensures forall y | y in MeanSelect(env, e, list, 0) :: y in list
    ensures InDocOrder(list) ==> InDocOrder(MeanSelect(env, e, list, 0))
    ensures InReverseOrder(list) ==> InReverseOrder(MeanSelect(env, e, list, 0))
    ensures Distinct(list) ==> Distinct(MeanSelect(env, e, list, 0))
  {
    SelectMeaning(env, e, list, 0);
    assert list[0..] == list;
  }

  lemma {:induction false} PredicatesMeaning(env: Env, preds: Ast, list: seq<XNode>)
    ensures forall y | y in MeanPredicates(env, preds, list) :: y in list
    ensures InDocOrder(list) ==> InDocOrder(MeanPredicates(env, preds, list))
    ensures InReverseOrder(list) ==> InReverseOrder(MeanPredicates(env, preds, list))
    decreases preds
  {
    if preds.Ast? {
      SelectAll(env, preds.right, list);
      PredicatesMeaning(env, preds.next, MeanSelect(env, preds.right, list, 0));
    }
  }

  // --------------------------------------------------------------- one context node

  /** A step and how much of its result is wanted. */
  datatype Walk = Walk(env: Env, axis: Axis, test: Test, arg: string, preds: Ast, mode: Mode)

  function From(w: Walk, x: XNode): seq<XNode> {
    MeanStepFrom(w.env, w.axis, w.test, w.arg, w.preds, x)
  }

  lemma FromMeaning(w: Walk, x: XNode)
    requires ValidNode(w.env.tree, x)
    ensures InAxisOrder(w.axis, From(w, x))
    ensures forall y | y in From(w, x) :: Real(w.env, y) && OnAxisOf(w.axis, x, y)
  {
    var f := Filter(w.test, w.arg, w.axis == AttributeAxis && w.test == TestName);
    var g := f.(once := false);
    StepNodesMeaning(w.env.tree, w.axis, g, x);
    StepOnce(w.env.tree, w.axis, f, x);
    var list := StepNodes(w.env.tree, w.axis, f, x);
    assert forall y | y in list :: y in StepNodes(w.env.tree, w.axis, g, x);
    PredicatesMeaning(w.env, w.preds, list);
  }

  /** The nodes kept for one context node: all, or the first one where that is enough. */
  predicate Part(mode: Mode, kept: seq<XNode>, full: seq<XNode>) {
    kept == full || (kept == Cut(true, full) && (mode == WantAny || (mode == WantFirst && InDocOrder(full))))
  }

  lemma PartCovers(mode: Mode, kept: seq<XNode>, full: seq<XNode>)
    requires Part(mode, kept, full)
    ensures forall y | y in kept :: y in full
    ensures forall y | y in full :: Covers(mode, kept, y)
    ensures InDocOrder(full) ==> InDocOrder(kept)
    ensures InReverseOrder(full) ==> InReverseOrder(kept)
  {
    if full != [] && InDocOrder(full) {
      HeadIsLeast(full);
      assert full[0] in kept;
    }
    forall y | y in full ensures Covers(mode, kept, y) {
      assert AtOrBefore(y, y);
    }
  }

  // -------------------------------------------------------------- many context nodes

  /** What a step selects from each context node. */
  type Source = XNode -> seq<XNode>

  /** Every context node yields nodes on its axis, in the order of the axis. */
  ghost predicate Sourced(axis: Axis, from: Source, s: seq<XNode>) {
    forall x | x in s :: InAxisOrder(axis, from(x)) && forall y | y in from(x) :: !y.Nothing? && OnAxisOf(axis, x, y)
  }

  /** y comes from one of the first k context nodes. */
  ghost predicate FromOne(from: Source, s: seq<XNode>, k: nat, y: XNode)
    requires k <= |s|
  {
    exists j | 0 <= j < k :: y in from(s[j])
  }

  /** The context node that a child, attribute or self step comes from is determined by its result. */
  predicate Tells(axis: Axis) {
    axis == Child || axis == AttributeAxis || axis == Self
  }

  function Origin(axis: Axis, y: XNode): XNode {
    if axis == Child && y.Node? && y.path != [] then Node(y.path[..|y.path| - 1])
    else if axis == AttributeAxis && y.Attribute? then Node(y.owner)
    else y
  }

  lemma OriginMeaning(axis: Axis, x: XNode, y: XNode)
    requires Tells(axis) && OnAxisOf(axis, x, y)
    ensures Origin(axis, y) == x
  {
  }

  ghost predicate OrderKept(order: Order, s: seq<XNode>) {
    match order
    case Sorted => InDocOrder(s)
    case SortedReverse => InReverseOrder(s)
    case Unsorted => true
  }

  /** The nodes collected from the first k context nodes. */
  ghost predicate Collected(axis: Axis, mode: Mode, from: Source, s: NodeSet, k: nat, acc: NodeSet) {
    && k <= |s.nodes|
    && (forall y | y in acc.nodes :: FromOne(from, s.nodes, k, y))
    && AllCovered(mode, from, s.nodes, k, acc.nodes)
    && OrderKept(acc.order, acc.nodes)
    && (Tells(axis) ==> Distinct(acc.nodes))
    && (if axis == Self then acc.order == s.order else acc.order == AxisType(axis) || acc.order == Unsorted)
  }

  ghost predicate AllCovered(mode: Mode, from: Source, s: seq<XNode>, k: nat, nodes: seq<XNode>)
    requires k <= |s|
  {
    forall j, y | 0 <= j < k && y in from(s[j]) :: Covers(mode, nodes, y)
  }

  lemma ConcatDistinct(a: seq<XNode>, b: seq<XNode>)
    requires Distinct(a) && Distinct(b) && forall y | y in b :: y !in a
    ensures Distinct(a + b)
  {
    var s := a + b;
    forall i, j | 0 <= i < j < |s| ensures s[i] != s[j] {
      if i < |a| <= j {
        assert a[i] in a && b[j - |a|] in b;
      }
    }
  }

  /** Results of different context nodes differ where the axis tells them apart. */
  lemma TellsApart(axis: Axis, from: Source, s: seq<XNode>, k: nat, y: XNode)
    requires Sourced(axis, from, s) && Tells(axis) && Distinct(s) && k < |s| && y in from(s[k])
    ensures !FromOne(from, s, k, y)
  {
    assert s[k] in s;
    OriginMeaning(axis, s[k], y);
    if FromOne(from, s, k, y) {
      var j :| 0 <= j < k && y in from(s[j]);
      assert s[j] in s;
      OriginMeaning(axis, s[j], y);
    }
  }

  lemma ConcatOrdered(order: Order, a: seq<XNode>, b: seq<XNode>)
    requires OrderKept(order, a) && OrderKept(order, b)
    requires order == Sorted ==> forall x, y | x in a && y in b :: DocBefore(x, y)
    requires order == SortedReverse ==> forall x, y | x in a && y in b :: DocBefore(y, x)
    ensures OrderKept(order, a + b)
  {
    var s := a + b;
    forall i, j | 0 <= i < j < |s| && i < |a| <= j ensures s[i] in a && s[j] in b {
    }
  }

  /** The self axis yields at most the context node itself. */
  lemma SelfIsItself(from: Source, s: seq<XNode>, k: nat, y: XNode)
    requires Sourced(Self, from, s) && k < |s| && y in from(s[k])
    ensures y == s[k]
  {
    assert s[k] in s;
    OriginMeaning(Self, s[k], y);
  }

  lemma SelfComesBefore(from: Source, s: NodeSet, k: nat, x: XNode)
    requires Sourced(Self, from, s.nodes) && k < |s.nodes| && FromOne(from, s.nodes, k, x)
    ensures s.order == Sorted && OrderHolds(s) ==> DocBefore(x, s.nodes[k])
    ensures s.order == SortedReverse && OrderHolds(s) ==> DocBefore(s.nodes[k], x)
  {
    var j :| 0 <= j < k && x in from(s.nodes[j]);
    SelfIsItself(from, s.nodes, j, x);
  }

  /** The self axis keeps the order of the context nodes. */
  lemma SelfKeepsOrder(from: Source, s: NodeSet, k: nat, acc: NodeSet, kept: seq<XNode>)
    requires Sourced(Self, from, s.nodes) && k < |s.nodes| && OrderHolds(s)
    requires acc.order == s.order && OrderKept(acc.order, acc.nodes) && forall y | y in acc.nodes :: FromOne(from, s.nodes, k, y)
    requires InDocOrder(kept) && forall y | y in kept :: y in from(s.nodes[k])
    ensures OrderKept(acc.order, acc.nodes + kept)
  {
    forall y | y in kept ensures y == s.nodes[k] {
      SelfIsItself(from, s.nodes, k, y);
    }
    SingleOrdered(s.order, kept, s.nodes[k]);
    forall x | x in acc.nodes {
      SelfComesBefore(from, s, k, x);
    }
    ConcatOrdered(acc.order, acc.nodes, kept);
  }

  lemma SingleOrdered(order: Order, s: seq<XNode>, x: XNode)
    requires InDocOrder(s) && forall y | y in s :: y == x
    ensures OrderKept(order, s)
  {
    assert forall i | 0 <= i < |s| :: s[i] in s;
    OrderedIsDistinct(s);
  }

  lemma CollectMembers(mode: Mode, from: Source, s: seq<XNode>, k: nat, nodes: seq<XNode>, kept: seq<XNode>)
    requires k < |s| && AllCovered(mode, from, s, k, nodes) && Part(mode, kept, from(s[k]))
    requires forall y | y in nodes :: FromOne(from, s, k, y)
    ensures forall y | y in nodes + kept :: FromOne(from, s, k + 1, y)
    ensures AllCovered(mode, from, s, k + 1, nodes + kept)
  {
    var all := nodes + kept;
    PartCovers(mode, kept, from(s[k]));
    forall y | y in all ensures FromOne(from, s, k + 1, y) {
      if y in nodes {
        assert FromOne(from, s, k, y);
      }
    }
    forall j, y | 0 <= j < k + 1 && y in from(s[j]) ensures Covers(mode, all, y) {
      CoversMore(mode, if j < k then nodes else kept, all, y);
    }
  }

  lemma CollectDistinct(axis: Axis, from: Source, s: seq<XNode>, k: nat, nodes: seq<XNode>, kept: seq<XNode>)
    requires k < |s| && Sourced(axis, from, s) && Tells(axis) && Distinct(s) && Distinct(nodes) && Distinct(kept)
    requires forall y | y in nodes :: FromOne(from, s, k, y)
    requires forall y | y in kept :: y in from(s[k])
    ensures Distinct(nodes + kept)
  {
    forall y | y in kept {
      TellsApart(axis, from, s, k, y);
    }
    ConcatDistinct(nodes, kept);
  }

  /** The order flag after one round tells the truth. */
  lemma CollectOrder(axis: Axis, acc: NodeSet, kept: seq<XNode>, order: Order)
    requires axis != Self && (acc.order == AxisType(axis) || acc.order == Unsorted)
    requires order == if acc.nodes != [] then Unsorted else acc.order
    requires OrderKept(acc.order, acc.nodes) && InAxisOrder(axis, kept)
    ensures OrderKept(order, acc.nodes + kept)
  {
    if acc.nodes == [] {
      assert acc.nodes + kept == kept;
    }
  }

  /** One round of the loop. */
  lemma CollectStep(axis: Axis, mode: Mode, from: Source, s: NodeSet, k: nat, acc: NodeSet, kept: seq<XNode>, order: Order)
    requires Collected(axis, mode, from, s, k, acc) && k < |s.nodes| && OrderHolds(s) && Sourced(axis, from, s.nodes)
    requires order == if axis != Self && acc.nodes != [] then Unsorted else acc.order
    requires Part(mode, kept, from(s.nodes[k]))
    ensures Collected(axis, mode, from, s, k + 1, NodeSet(acc.nodes + kept, order))
  {
    assert s.nodes[k] in s.nodes;
    var all := acc.nodes + kept;
    assert InAxisOrder(axis, kept) && forall y | y in kept :: y in from(s.nodes[k]) by {
      PartCovers(mode, kept, from(s.nodes[k]));
    }
    assert (forall y | y in all :: FromOne(from, s.nodes, k + 1, y)) && AllCovered(mode, from, s.nodes, k + 1, all) by {
      CollectMembers(mode, from, s.nodes, k, acc.nodes, kept);
    }
    assert Tells(axis) ==> Distinct(all) by {
      if Tells(axis) {
        HoldsDistinct(s);
        OrderedIsDistinct(kept);
        CollectDistinct(axis, from, s.nodes, k, acc.nodes, kept);
      }
    }
    assert OrderKept(order, all) by {
      if axis == Self {
        SelfKeepsOrder(from, s, k, acc, kept);
      } else {
        CollectOrder(axis, acc, kept, order);
      }
    }
  }

  lemma HoldsDistinct(s: NodeSet)
    requires OrderHolds(s)
    ensures Distinct(s.nodes)
  {
    if s.order != Unsorted {
      OrderedIsDistinct(s.nodes);
    }
  }

  /** The nodes that come from any node of a list. */
  ghost predicate FromAny(from: Source, s: seq<XNode>, y: XNode) {
    exists x | x in s :: y in from(x)
  }

  lemma FromOneIsAny(from: Source, s: seq<XNode>, y: XNode)
    ensures FromOne(from, s, |s|, y) <==> FromAny(from, s, y)
  {
    if FromAny(from, s, y) {
      var x :| x in s && y in from(x);
      var j :| 0 <= j < |s| && s[j] == x;
    }
  }

  /** After the loop: duplicates are removed where they can occur. */
  lemma CollectEnds(env: Env, axis: Axis, mode: Mode, from: Source, s: NodeSet, acc: NodeSet, steps: seq<XNode>)
    requires Collected(axis, mode, from, s, |s.nodes|, acc) && AllReal(env, steps)
    requires forall y :: y in steps <==> FromAny(from, s.nodes, y)
    ensures Agree(env, mode, StepUnique(axis, acc), Canon(steps))
  {
    CanonMeaning(steps);
    forall y ensures FromOne(from, s.nodes, |s.nodes|, y) <==> y in steps {
      FromOneIsAny(from, s.nodes, y);
    }
    DeduplicatedMeaning(acc.nodes);
    var ns := StepUnique(axis, acc);
    forall y | y in Canon(steps) ensures Covers(mode, ns.nodes, y) {
      var j :| 0 <= j < |s.nodes| && y in from(s.nodes[j]);
      CoversMore(mode, acc.nodes, ns.nodes, y);
    }
  }
}
