/** What `is_posinv_expr` promises: such an expression, and every node set, ignores the context position and size. */
module XPathPosInv {
  import opened XmlTree
  import opened XPathOrder
  import opened XPathNodeSet
  import opened XPathAxes
  import opened XPathStep
  import opened XPathFill
  import opened XPathAst
  import opened XPathEval
  import opened XPathMeaning

  /** No node-set expression can look at the position of its own context. */
  lemma {:induction false} NodesIgnorePosition(env: Env, a: Ast, c: Ctx, d: Ctx)
    requires WellFormed(a) && RetType(a) == NodeSetType && c.node == d.node
    ensures MeanNodes(env, a, c) == MeanNodes(env, a, d)
    decreases a
  {
    if a.Ast? {
      match a.kind {
        case Union =>
          NodesIgnorePosition(env, a.left, c, d);
          NodesIgnorePosition(env, a.right, c, d);
        case FilterNode(_) => NodesIgnorePosition(env, a.left, c, d);
        case Step(_, _, _) => NodesIgnorePosition(env, a.left, c, d);
        case _ =>
      }
    }
  }

  ghost predicate SameValue(env: Env, a: Ast, c: Ctx, d: Ctx) {
    && MeanBool(env, a, c) == MeanBool(env, a, d) && MeanText(env, a, c) == MeanText(env, a, d)
    && MeanNum(env, a, c) == MeanNum(env, a, d) && MeanOperand(env, a, c) == MeanOperand(env, a, d)
  }

  lemma NodesSame(env: Env, a: Ast, c: Ctx, d: Ctx)
    requires RetType(a) == NodeSetType && MeanNodes(env, a, c) == MeanNodes(env, a, d)
    ensures SameValue(env, a, c, d)
  {
  }

  lemma ScalarSame(env: Env, a: Ast, c: Ctx, d: Ctx)
    requires RetType(a) != NodeSetType && MeanScalar(env, a, c) == MeanScalar(env, a, d)
    ensures SameValue(env, a, c, d)
  {
  }

  lemma ComparisonSame(env: Env, a: Ast, c: Ctx, d: Ctx)
    requires a.Ast? && (IsEquality(a.kind) || IsRelation(a.kind)) && SameValue(env, a.left, c, d) && SameValue(env, a.right, c, d)
    ensures MeanScalar(env, a, c) == MeanScalar(env, a, d)
  {
  }

  lemma LogicSame(env: Env, a: Ast, c: Ctx, d: Ctx)
    requires a.Ast? && IsLogic(a.kind)
    requires SameValue(env, a.left, c, d) && SameValue(env, a.right, c, d)
    ensures MeanScalar(env, a, c) == MeanScalar(env, a, d)
  {
  }

  lemma AggregateSame(env: Env, a: Ast, c: Ctx, d: Ctx)
    requires a.Ast? && IsAggregate(a.kind)
    requires MeanNodes(env, a.left, c) == MeanNodes(env, a.left, d)
    ensures MeanScalar(env, a, c) == MeanScalar(env, a, d)
  {
  }

  lemma TranslateSame(env: Env, a: Ast, c: Ctx, d: Ctx)
    requires a.Ast? && IsRewriting(a.kind) && c.node == d.node
    requires SameValue(env, a.left, c, d) && SameValue(env, a.right, c, d)
    requires a.right.Ast? ==> SameValue(env, a.right.next, c, d)
    ensures MeanScalar(env, a, c) == MeanScalar(env, a, d)
  {
  }

  lemma {:induction false} ArgumentsSame(env: Env, fn: Fn, i: nat, a: Ast, c: Ctx, d: Ctx)
    requires WellFormed(a) && AllPosInv(a) && c.node == d.node
    ensures MeanArguments(env, fn, i, a, c) == MeanArguments(env, fn, i, a, d)
    decreases a, 3
  {
    if a.Ast? {
      PosInvMeaning(env, a, c, d);
      ArgumentsSame(env, fn, i + 1, a.next, c, d);
    }
  }

  lemma {:induction false} CallSame(env: Env, a: Ast, c: Ctx, d: Ctx)
    requires a.Ast? && a.kind.Call? && WellFormed(a) && IsPosInv(a) && c.node == d.node
    ensures MeanScalar(env, a, c) == MeanScalar(env, a, d)
    decreases a, 0
  {
    PosInvMeaning(env, a.left, c, d);
    ArgumentsSame(env, a.kind.fn, 1, a.right, c, d);
    assert MeanFirstArgument(env, a.kind.fn, a.left, c) == MeanFirstArgument(env, a.kind.fn, a.left, d);
  }

  lemma {:induction false} ScalarIgnoresPosition(env: Env, a: Ast, c: Ctx, d: Ctx)
    requires a.Ast? && WellFormed(a) && IsPosInv(a) && RetType(a) != NodeSetType && c.node == d.node
    ensures MeanScalar(env, a, c) == MeanScalar(env, a, d)
    decreases a, 1
  {
    var k := a.kind;
    if k.Call? {
      CallSame(env, a, c, d);
    } else if IsAggregate(k) {
      NodesIgnorePosition(env, a.left, c, d);
      AggregateSame(env, a, c, d);
    } else if !k.StringConstant? && !k.NumberConstant? && !k.Variable? {
      PosInvMeaning(env, a.left, c, d);
      PosInvMeaning(env, a.right, c, d);
      if IsEquality(k) || IsRelation(k) {
        ComparisonSame(env, a, c, d);
      } else if IsLogic(k) {
        LogicSame(env, a, c, d);
      } else if IsRewriting(k) {
        if a.right.Ast? {
          assert AllPosInv(a.right);
          PosInvNext(env, a.right, c, d);
        }
        TranslateSame(env, a, c, d);
      }
    }
  }

  lemma {:induction false} PosInvNext(env: Env, a: Ast, c: Ctx, d: Ctx)
    requires a.Ast? && WellFormed(a) && AllPosInv(a) && c.node == d.node
    ensures SameValue(env, a.next, c, d)
    decreases a, 0
  {
    PosInvMeaning(env, a.next, c, d);
  }

  lemma {:induction false} PosInvMeaning(env: Env, a: Ast, c: Ctx, d: Ctx)
    requires WellFormed(a) && IsPosInv(a) && c.node == d.node
    ensures SameValue(env, a, c, d)
    decreases a, 2
  {
    if RetType(a) == NodeSetType {
      NodesIgnorePosition(env, a, c, d);
      NodesSame(env, a, c, d);
    } else {
      ScalarIgnoresPosition(env, a, c, d);
      ScalarSame(env, a, c, d);
    }
  }

  /** Whether the predicate holds of y, wherever y stands. */
  predicate HoldsOf(env: Env, e: Ast, y: XNode) {
    MeanBool(env, e, Ctx(y, 1, 1))
  }

  /** A predicate that ignores positions filters a set, whatever its order. */
  lemma {:induction false} PosInvSelect(env: Env, e: Ast, list: seq<XNode>, i: nat)
    requires WellFormed(e) && Truthful(PosInv, e) && i <= |list|
    ensures forall y :: y in MeanSelect(env, e, list, i) <==> y in list[i..] && HoldsOf(env, e, y)
    decreases |list| - i
  {
    if i < |list| {
      PosInvSelect(env, e, list, i + 1);
      PosInvMeaning(env, e, Ctx(list[i], i + 1, |list|), Ctx(list[i], 1, 1));
      assert list[i..] == [list[i]] + list[i + 1..];
      var head, rest := list[i], MeanSelect(env, e, list, i + 1);
      assert MeanSelect(env, e, list, i) == (if HoldsOf(env, e, head) then [head] else []) + rest;
    }
  }

  /** All predicates of a chain hold of y. */
  predicate AllHoldOf(env: Env, preds: Ast, y: XNode)
    decreases preds
  {
    preds.Nil? || (HoldsOf(env, preds.right, y) && AllHoldOf(env, preds.next, y))
  }

  lemma {:induction false} PosInvPredicates(env: Env, preds: Ast, list: seq<XNode>)
    requires WellFormed(preds) && IsPosInvStep(preds)
    ensures forall y :: y in MeanPredicates(env, preds, list) <==> y in list && AllHoldOf(env, preds, y)
    decreases preds
  {
    if preds.Ast? {
      var kept := MeanSelect(env, preds.right, list, 0);
      PosInvSelect(env, preds.right, list, 0);
      assert list[0..] == list;
      PosInvPredicates(env, preds.next, kept);
    }
  }
}
