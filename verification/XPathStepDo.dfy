/** Predicates and location steps on a growing node set in place: `apply_predicate*` and `step_do`. */
module XPathStepDo {
  import opened XmlTree
  import opened XPathOrder
  import opened XPathNodeSet
  import opened XPathRawSet
  import opened XPathAxes
  import opened XPathStep
  import opened XPathFill
  import opened XPathAst
  import opened XPathEval
  import opened XPathMeaning
  import opened XPathAgree
  import opened XPathSteps
  import opened XPathRefine
  import opened XPathRewrites
  import XPathHash

  // -------------------------------------------------------------------- predicates

  /** The elements from number i on for which the predicate holds in their context. */
  function SelectBy(list: seq<XNode>, hit: Ctx -> bool, i: nat, once: bool): seq<XNode>
    requires i <= |list|
    decreases |list| - i
  {
    if i == |list| then []
    else if !hit(Ctx(list[i], i + 1, |list|)) then SelectBy(list, hit, i + 1, once)
    else if once then [list[i]]
    else [list[i]] + SelectBy(list, hit, i + 1, once)
  }

  predicate Hits(env: Env, e: Ast, c: Ctx) {
    if RetType(e) == NumberType then NumEq(AsNum(env, e, c), Fin(c.position as real)) else AsBool(env, e, c)
  }

  lemma {:induction false} SelectIsBy(env: Env, e: Ast, list: seq<XNode>, i: nat, once: bool)
    requires i <= |list|
    ensures Select(env, e, list, i, once) == SelectBy(list, c => Hits(env, e, c), i, once)
    decreases |list| - i
  {
    if i < |list| {
      SelectIsBy(env, e, list, i + 1, once);
    }
  }

  /** Filtering cur[first..] in place: the first i elements of the list are dealt with, their hits end at last. */
  ghost predicate Keeping(cur: seq<XNode>, first: nat, list: seq<XNode>, hit: Ctx -> bool, once: bool, goal: seq<XNode>, last: nat, i: nat) {
    && i <= |list| && first <= last <= first + i && first + |list| <= |cur|
    && cur[..last] + SelectBy(list, hit, i, once) == goal
    && forall k | i <= k < |list| :: cur[first + k] == list[k]
  }

  lemma KeepStarts(cur: seq<XNode>, first: nat, list: seq<XNode>, hit: Ctx -> bool, once: bool)
    requires first + |list| <= |cur| && cur[first..first + |list|] == list
    ensures Keeping(cur, first, list, hit, once, cur[..first] + SelectBy(list, hit, 0, once), first, 0)
  {
    forall k | 0 <= k < |list| ensures cur[first + k] == list[k] {
      assert cur[first..first + |list|][k] == list[k];
    }
  }

  lemma KeepStep(cur: seq<XNode>, first: nat, list: seq<XNode>, hit: Ctx -> bool, once: bool, goal: seq<XNode>, last: nat, i: nat)
    requires Keeping(cur, first, list, hit, once, goal, last, i) && i < |list|
    ensures cur[first + i] == list[i]
    ensures var h, next := hit(Ctx(list[i], i + 1, |list|)), cur[last := list[i]];
            && (!h ==> Keeping(cur, first, list, hit, once, goal, last, i + 1))
            && (h && once ==> next[..last + 1] == goal)
            && (h && !once ==> Keeping(next, first, list, hit, once, goal, last + 1, i + 1))
  {
    var next, rest := cur[last := list[i]], SelectBy(list, hit, i + 1, once);
    assert next[..last + 1] == cur[..last] + [list[i]];
    assert cur[..last] + ([list[i]] + rest) == cur[..last] + [list[i]] + rest;
  }

  lemma KeepEnds(cur: seq<XNode>, first: nat, list: seq<XNode>, hit: Ctx -> bool, once: bool, goal: seq<XNode>, last: nat)
    requires Keeping(cur, first, list, hit, once, goal, last, |list|)
    ensures cur[..last] == goal
  {
    assert cur[..last] + [] == cur[..last];
  }

  /** The loop of `apply_predicate_boolean` and `apply_predicate_number` over data[first..end]: hits move to the front. */
  method KeepHits(data: array<XNode>, first: nat, end: nat, hit: Ctx -> bool, once: bool) returns (last: nat)
    requires first <= end <= data.Length
    modifies data
    ensures first <= last <= end
    ensures data[..last] == old(data[..first]) + SelectBy(old(data[first..end]), hit, 0, once)
  {
    ghost var list, cur := data[first..end], data[..];
    ghost var goal := data[..first] + SelectBy(list, hit, 0, once);
    var i := 0;
    last := first;
    KeepStarts(cur, first, list, hit, once);
    while i < end - first
      invariant i <= |list| && first <= last <= first + i && data[..] == cur
      invariant Keeping(cur, first, list, hit, once, goal, last, i)
    {
      KeepStep(cur, first, list, hit, once, goal, last, i);
      var x := data[first + i];
      if hit(Ctx(x, i + 1, end - first)) {
        data[last] := x;
        cur := cur[last := x];
        last := last + 1;
        if once {
          return;
        }
      }
      i := i + 1;
    }
    KeepEnds(cur, first, list, hit, once, goal, last);
  }

  /** `apply_predicate_boolean` and `apply_predicate_number`. */
  method ApplyEach(ns: RawNodeSet, first: nat, env: Env, e: Ast, once: bool)
    requires ns.Valid() && first <= ns.end
    modifies ns`end, ns.data
    ensures ns.Valid() && ns.order == old(ns.order)
    ensures ns.Contents() == old(ns.Contents()[..first]) + Select(env, e, old(ns.Contents()[first..]), 0, once)
  {
    SelectIsBy(env, e, ns.Contents()[first..], 0, once);
    assert ns.Contents()[..first] == ns.data[..first] && ns.Contents()[first..] == ns.data[first..ns.end];
    var last := KeepHits(ns.data, first, ns.end, c => Hits(env, e, c), once);
    ns.Truncate(last);
  }

  /** `apply_predicate_number_const`: at most one node is kept, chosen without looking at the nodes. */
  method ApplyConstant(ns: RawNodeSet, first: nat, er: Num)
    requires ns.Valid() && first <= ns.end
    modifies ns`end, ns.data
    ensures ns.Valid() && ns.order == old(ns.order)
    ensures ns.Contents() == old(ns.Contents()[..first]) + PickConstant(old(ns.Contents()[first..]), er)
  {
    ghost var head, list := ns.Contents()[..first], ns.Contents()[first..];
    var size, last := ns.end - first, first;
    if er.Fin? && 1.0 <= er.v <= size as real {
      var eri := er.v.Floor;
      if er.v == eri as real {
        assert ns.data[last + eri - 1] == list[eri - 1];
        ns.data[last] := ns.data[last + eri - 1];
        last := last + 1;
      }
    }
    ns.Truncate(last);
    assert ns.Contents()[..first] == head;
  }

  /** `apply_predicate`. */
  method ApplyPredicate(ns: RawNodeSet, first: nat, env: Env, cls: Class, e: Ast, once: bool)
    requires ns.Valid() && first <= ns.end
    modifies ns`end, ns.data
    ensures ns.Valid() && ns.order == old(ns.order)
    ensures ns.Contents() == old(ns.Contents()[..first]) + Apply(env, cls, e, old(ns.Contents()[first..]), once)
  {
    assert ns.Contents()[..first] + ns.Contents()[first..] == ns.Contents();
    if ns.end == first {
      return;
    }
    if cls == Constant || cls == ConstantOne {
      ApplyConstant(ns, first, AsNum(env, e, Ctx(Nothing, 1, ns.end - first)));
    } else {
      ApplyEach(ns, first, env, e, once);
    }
  }

  /** `apply_predicates`: only the last predicate may stop early. */
  method ApplyPredicates(ns: RawNodeSet, first: nat, env: Env, preds: Ast, lastOnce: bool)
    requires ns.Valid() && first <= ns.end
    modifies ns`end, ns.data
    ensures ns.Valid() && ns.order == old(ns.order)
    ensures ns.Contents() == old(ns.Contents()[..first]) + ApplyAll(env, preds, old(ns.Contents()[first..]), lastOnce)
  {
    ghost var head, list := ns.Contents()[..first], ns.Contents()[first..];
    assert head + list == ns.Contents();
    var pred := preds;
    while pred.Ast?
      invariant ns.Valid() && ns.data == old(ns.data) && ns.order == old(ns.order)
      invariant ns.Contents() == head + list
      invariant ApplyAll(env, pred, list, lastOnce) == ApplyAll(env, preds, old(ns.Contents()[first..]), lastOnce)
      decreases pred
    {
      assert (head + list)[..first] == head && (head + list)[first..] == list;
      ApplyPredicate(ns, first, env, ClassOf(pred), pred.right, pred.next.Nil? && lastOnce);
      list := Apply(env, ClassOf(pred), pred.right, list, pred.next.Nil? && lastOnce);
      pred := pred.next;
    }
  }

  // ----------------------------------------------------------------- location steps

  /** One round of the loop of `step_do`. */
  method StepRound(w: Walk, x: XNode, ns: RawNodeSet)
    requires ns.Valid() && ValidNode(w.env.tree, x)
    modifies ns, ns.data
    ensures ns.Valid() && (ns.data == old(ns.data) || fresh(ns.data))
    ensures ns.Value() == Extended(w, old(ns.Value()), x)
  {
    ghost var was := ns.Contents();
    var size := ns.end;
    // there is no order guarantee if an axis is applied to two nodes
    if w.axis != Self && size != 0 {
      ns.order := Unsorted;
    }
    var found := StepFill(w.env.tree, w.axis, Flagged(w), x);
    ns.Append(found);
    if w.preds.Ast? {
      assert (was + found)[..|was|] == was && (was + found)[|was|..] == found;
      ApplyPredicates(ns, size, w.env, w.preds, EvalOnce(ns.order, w.mode));
    }
  }

  /** The loop of `step_do`. */
  method StepLoop(w: Walk, s: seq<XNode>, ns: RawNodeSet)
    requires ns.Valid() && forall x | x in s :: ValidNode(w.env.tree, x)
    modifies ns, ns.data
    ensures ns.Valid() && (ns.data == old(ns.data) || fresh(ns.data))
    ensures ns.Value() == Collect(w, s, 0, old(ns.Value()))
  {
    var it := 0;
    while it < |s|
      invariant it <= |s| && ns.Valid() && (ns.data == old(ns.data) || fresh(ns.data))
      invariant Collect(w, s, it, ns.Value()) == Collect(w, s, 0, old(ns.Value()))
    {
      assert s[it] in s;
      CollectUnfolds(w, s, it, ns.Value());
      StepRound(w, s[it], ns);
      it := it + 1;
    }
    CollectUnfolds(w, s, |s|, ns.Value());
  }

  lemma StepIsCollect(env: Env, a: Ast, c: Ctx, mode: Mode, s: NodeSet)
    requires a.Ast? && a.kind.Step? && a.kind.axis != Namespace
    requires s == if a.left.Nil? then NodeSet([c.node], Sorted) else EvalNodes(env, a.left, c, WantAll)
    ensures var w := Walk(env, a.kind.axis, a.kind.test, a.kind.arg, a.right, mode);
            EvalStep(env, a, c, mode) ==
            StepUnique(w.axis, Collect(w, s.nodes, 0, NodeSet([], if w.axis == Self then s.order else AxisType(w.axis))))
  {
  }

  /** `step_do`: fills, filters and uniques a node set in place. */
  method StepDo(env: Env, a: Ast, c: Ctx, mode: Mode, hash: XPathHash.Hash<XNode>) returns (ns: RawNodeSet)
    requires Ready(env, a, c) && a.Ast? && a.kind.Step? && a.kind.axis != Namespace
    ensures fresh(ns) && ns.Valid() && ns.Value() == EvalStep(env, a, c, mode)
  {
    var w := Walk(env, a.kind.axis, a.kind.test, a.kind.arg, a.right, mode);
    var s := if a.left.Nil? then NodeSet([c.node], Sorted) else EvalNodes(env, a.left, c, WantAll);
    LeftValid(env, a, c, s);
    StepIsCollect(env, a, c, mode, s);
    ns := new RawNodeSet();
    // a self step over ordered nodes leaves them as they were
    ns.order := if w.axis == Self then s.order else AxisType(w.axis);
    StepLoop(w, s.nodes, ns);
    if !Tells(w.axis) && ns.order == Unsorted {
      ns.RemoveDuplicates(hash);
    }
  }

  lemma LeftValid(env: Env, a: Ast, c: Ctx, s: NodeSet)
    requires Ready(env, a, c) && a.Ast? && a.kind.Step?
    requires s == if a.left.Nil? then NodeSet([c.node], Sorted) else EvalNodes(env, a.left, c, WantAll)
    ensures forall x | x in s.nodes :: ValidNode(env.tree, x)
  {
    if a.left.Ast? {
      NodesRefine(env, a.left, c, WantAll);
    }
  }
}
