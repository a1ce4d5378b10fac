/** Every single rewriting of the optimizer keeps the meaning of the query node it is applied to. */
module XPathRewrites {
  import opened Wrappers
  import opened XmlTree
  import opened XPathWalk
  import opened XPathOrder
  import opened XPathNodeSet
  import opened XPathAxes
  import opened XPathStep
  import opened XPathFill
  import opened XPathAst
  import opened XPathEval
  import opened XPathMeaning
  import opened XPathAgree
  import opened XPathSteps
  import opened XPathPosInv
  import opened XPathRefine
  import opened XPathOptimize
  import XPathTranslate

  ghost predicate SameMean(env: Env, a: Ast, b: Ast, c: Ctx) {
    && RetType(a) == RetType(b) && MeanNodes(env, a, c) == MeanNodes(env, b, c)
    && MeanScalar(env, a, c) == MeanScalar(env, b, c)
  }

  // ------------------------------------------------------- [position()=e] and [e]

  lemma NumberValue(env: Env, a: Ast, c: Ctx)
    requires RetType(a) == NumberType
    ensures MeanScalar(env, a, c).Number?
  {
  }

  lemma PositionEquals(env: Env, e: Ast, c: Ctx)
    requires ComparesPosition(e)
    ensures MeanEquality(env, e, c) == NumEq(MeanNum(env, e.right, c), Fin(c.position as real))
  {
    NumberValue(env, e.right, c);
    assert MeanOperand(env, e.left, c) == Scalar(Number(Fin(c.position as real)));
  }

  /** `position() = e` holds exactly where the number e is the position. */
  lemma PositionHit(env: Env, e: Ast, c: Ctx)
    requires ComparesPosition(e)
    ensures MeanHit(env, e, c) == MeanHit(env, e.right, c)
  {
    PositionEquals(env, e, c);
    assert MeanScalar(env, e, c) == Bool(MeanEquality(env, e, c));
  }

  lemma {:induction false} PositionSelect(env: Env, e: Ast, list: seq<XNode>, i: nat)
    requires ComparesPosition(e) && i <= |list|
    ensures MeanSelect(env, e, list, i) == MeanSelect(env, e.right, list, i)
    decreases |list| - i
  {
    if i < |list| {
      PositionHit(env, e, Ctx(list[i], i + 1, |list|));
      PositionSelect(env, e, list, i + 1);
    }
  }

  lemma RewritePositionKeeps(env: Env, a: Ast, c: Ctx)
    requires a.Ast?
    ensures SameMean(env, a, RewritePosition(a), c)
  {
    if Filters(a) && ComparesPosition(a.right) {
      if a.kind.FilterNode? {
        PositionSelect(env, a.right, MeanNodes(env, a.left, c), 0);
        assert MeanFilter(env, a, c) == MeanFilter(env, RewritePosition(a), c);
      }
    }
  }

  lemma ClassifyKeeps(env: Env, a: Ast, c: Ctx)
    requires a.Ast?
    ensures SameMean(env, a, Classify(a), c)
  {
    if Filters(a) && a.kind.FilterNode? {
      assert MeanFilter(env, a, c) == MeanFilter(env, Classify(a), c);
    }
  }

  // ------------------------------------------------------------------ merging steps

  /** What a step with position-free predicates selects from x. */
  predicate Selects(w: Walk, x: XNode, y: XNode) {
    && ValidNode(w.env.tree, y) && OnAxisOf(w.axis, x, y) && HitOn(w.env.tree, w.axis, Filter(w.test, w.arg, false), y)
    && AllHoldOf(w.env, w.preds, y)
  }

  lemma FromSelects(w: Walk, x: XNode)
    requires ValidNode(w.env.tree, x) && w.axis != AttributeAxis && WellFormed(w.preds) && IsPosInvStep(w.preds)
    ensures forall y :: y in From(w, x) <==> Selects(w, x, y)
  {
    var list := StepNodes(w.env.tree, w.axis, Filter(w.test, w.arg, false), x);
    FromIs(w, x);
    StepNodesMeaning(w.env.tree, w.axis, Filter(w.test, w.arg, false), x);
    PosInvPredicates(w.env, w.preds, list);
  }

  ghost predicate SelectsAny(w: Walk, s: seq<XNode>, y: XNode) {
    exists x | x in s :: Selects(w, x, y)
  }

  /** The nodes that a step with position-free predicates selects from a list of context nodes. */
  lemma StepsSelect(w: Walk, s: seq<XNode>, y: XNode)
    requires w.axis != AttributeAxis && WellFormed(w.preds) && IsPosInvStep(w.preds)
    requires forall x | x in s :: ValidNode(w.env.tree, x)
    ensures y in MeanSteps(w.env, w.axis, w.test, w.arg, w.preds, s, 0) <==> SelectsAny(w, s, y)
  {
    MeanStepsMeaning(w, s, 0);
    assert s[0..] == s;
    forall x | x in s ensures y in From(w, x) <==> Selects(w, x, y) {
      FromSelects(w, x);
    }
    if FromAny(FromFn(w), s, y) {
      var x :| x in s && y in FromFn(w)(x);
      assert Selects(w, x, y);
    }
    if SelectsAny(w, s, y) {
      var x :| x in s && Selects(w, x, y);
      assert y in FromFn(w)(x);
    }
  }

  /** Going to all nodes at or below p and on along a downward axis is going along the merged axis. */
  lemma DownwardMerges(t: Tree, axis: Axis, p: Path, q: Path)
    requires GoesDown(axis) && Valid(t, q)
    ensures OnAxis(MergedAxis(axis), p, q) <==> exists r | Valid(t, r) :: Prefix(p, r) && OnAxis(axis, r, q)
  {
    if OnAxis(MergedAxis(axis), p, q) {
      var r := match axis
        case Child => q[..|q| - 1]
        case Self => q
        case _ => p;
      ValidPrefix(t, q, |r|);
      assert r == q[..|r|];
      assert Prefix(p, r);
    }
    if exists r | Valid(t, r) :: Prefix(p, r) && OnAxis(axis, r, q) {
      var r :| Valid(t, r) && Prefix(p, r) && OnAxis(axis, r, q);
      PrefixTransitive(p, r, q);
    }
  }

  lemma PrefixTransitive(p: Path, r: Path, q: Path)
    requires Prefix(p, r)
    ensures Prefix(r, q) ==> Prefix(p, q)
    ensures Ancestor(r, q) ==> Ancestor(p, q)
    ensures Parent(q) == Some(r) ==> Ancestor(p, q)
  {
    if Prefix(r, q) {
      assert q[..|r|][..|p|] == q[..|p|];
    }
    if Parent(q) == Some(r) {
      assert q[..|r|] == r;
      assert q[..|r|][..|p|] == q[..|p|];
    }
  }

  /** z is reached from x by `descendant-or-self::node()`. */
  predicate Below(t: Tree, arg: string, x: XNode, z: XNode) {
    ValidNode(t, z) && OnAxisOf(DescendantOrSelf, x, z) && HitOn(t, DescendantOrSelf, Filter(TestNode, arg, false), z)
  }

  /** y is on the axis of a node below x. */
  ghost predicate ViaBelow(t: Tree, arg: string, axis: Axis, x: XNode, y: XNode) {
    exists z :: Below(t, arg, x, z) && OnAxisOf(axis, z, y)
  }

  lemma NodeMerges(t: Tree, arg: string, axis: Axis, x: XNode, y: XNode)
    requires GoesDown(axis) && x.Node? && ValidNode(t, y)
    ensures OnAxisOf(MergedAxis(axis), x, y) <==> ViaBelow(t, arg, axis, x, y)
  {
    if y.Node? {
      DownwardMerges(t, axis, x.path, y.path);
      if OnAxisOf(MergedAxis(axis), x, y) {
        var r :| Valid(t, r) && Prefix(x.path, r) && OnAxis(axis, r, y.path);
        assert Below(t, arg, x, Node(r)) && OnAxisOf(axis, Node(r), y);
      }
      if ViaBelow(t, arg, axis, x, y) {
        var z :| Below(t, arg, x, z) && OnAxisOf(axis, z, y);
        assert z.Node?;
      }
    }
  }

  lemma AttributeMerges(t: Tree, arg: string, axis: Axis, f: Filter, x: XNode, y: XNode)
    requires GoesDown(axis) && !x.Node? && ValidNode(t, y) && HitOn(t, axis, f, y)
    ensures OnAxisOf(MergedAxis(axis), x, y) <==> ViaBelow(t, arg, axis, x, y)
  {
    if OnAxisOf(MergedAxis(axis), x, y) {
      assert Below(t, arg, x, y) && OnAxisOf(axis, y, y);
    }
  }

  /** A merged step selects what the two steps select. */
  lemma SelectsMerged(w: Walk, arg: string, x: XNode, y: XNode)
    requires GoesDown(w.axis)
    ensures Selects(w.(axis := MergedAxis(w.axis)), x, y) <==>
            exists z :: Below(w.env.tree, arg, x, z) && Selects(w, z, y)
  {
    var t, f := w.env.tree, Filter(w.test, w.arg, false);
    assert HitOn(t, w.axis, f, y) <==> HitOn(t, MergedAxis(w.axis), f, y);
    if ValidNode(t, y) && HitOn(t, w.axis, f, y) {
      if x.Node? {
        NodeMerges(t, arg, w.axis, x, y);
      } else {
        AttributeMerges(t, arg, w.axis, f, x, y);
      }
      if ViaBelow(t, arg, w.axis, x, y) && AllHoldOf(w.env, w.preds, y) {
        var z :| Below(t, arg, x, z) && OnAxisOf(w.axis, z, y);
        assert Selects(w, z, y);
      }
    }
  }

  ghost predicate AllBelow(t: Tree, arg: string, s: seq<XNode>, below: seq<XNode>) {
    forall z :: z in below <==> exists x :: x in s && Below(t, arg, x, z)
  }

  lemma AnyMerged(w: Walk, arg: string, s: seq<XNode>, below: seq<XNode>, y: XNode)
    requires GoesDown(w.axis) && AllBelow(w.env.tree, arg, s, below)
    ensures SelectsAny(w.(axis := MergedAxis(w.axis)), s, y) <==> SelectsAny(w, below, y)
  {
    var m := w.(axis := MergedAxis(w.axis));
    if SelectsAny(m, s, y) {
      var x :| x in s && Selects(m, x, y);
      SelectsMerged(w, arg, x, y);
      var z :| Below(w.env.tree, arg, x, z) && Selects(w, z, y);
      assert z in below;
    }
    if SelectsAny(w, below, y) {
      var z :| z in below && Selects(w, z, y);
      var x :| x in s && Below(w.env.tree, arg, x, z);
      SelectsMerged(w, arg, x, y);
    }
  }

  lemma CanonSame(s: seq<XNode>, t: seq<XNode>)
    requires forall y :: y in s <==> y in t
    ensures Canon(s) == Canon(t)
  {
    CanonMeaning(s);
    CanonMeaning(t);
    InDocOrderUnique(Canon(s), Canon(t));
  }

  /** What `descendant-or-self::node()` means from a list of context nodes. */
  lemma DoubleSlashMeaning(env: Env, arg: string, s: seq<XNode>)
    requires forall x | x in s :: ValidNode(env.tree, x)
    ensures AllBelow(env.tree, arg, s, Canon(MeanSteps(env, DescendantOrSelf, TestNode, arg, Nil, s, 0)))
  {
    var w := Walk(env, DescendantOrSelf, TestNode, arg, Nil, WantAll);
    var steps := MeanSteps(env, DescendantOrSelf, TestNode, arg, Nil, s, 0);
    CanonMeaning(steps);
    forall z ensures z in Canon(steps) <==> exists x :: x in s && Below(env.tree, arg, x, z) {
      StepsSelect(w, s, z);
      if SelectsAny(w, s, z) {
        var x :| x in s && Selects(w, x, z);
        assert Below(env.tree, arg, x, z);
      }
      if x :| x in s && Below(env.tree, arg, x, z) {
        assert Selects(w, x, z);
      }
    }
  }

  /** Two steps, the first being `descendant-or-self::node()`, against the merged step. */
  lemma MergedSteps(w: Walk, arg: string, s: seq<XNode>)
    requires GoesDown(w.axis) && WellFormed(w.preds) && IsPosInvStep(w.preds)
    requires forall x | x in s :: ValidNode(w.env.tree, x)
    ensures var below := Canon(MeanSteps(w.env, DescendantOrSelf, TestNode, arg, Nil, s, 0));
            Canon(MeanSteps(w.env, w.axis, w.test, w.arg, w.preds, below, 0)) ==
            Canon(MeanSteps(w.env, MergedAxis(w.axis), w.test, w.arg, w.preds, s, 0))
  {
    var below := Canon(MeanSteps(w.env, DescendantOrSelf, TestNode, arg, Nil, s, 0));
    DoubleSlashMeaning(w.env, arg, s);
    var two := MeanSteps(w.env, w.axis, w.test, w.arg, w.preds, below, 0);
    var one := MeanSteps(w.env, MergedAxis(w.axis), w.test, w.arg, w.preds, s, 0);
    forall y ensures y in two <==> y in one {
      StepsSelect(w, below, y);
      StepsSelect(w.(axis := MergedAxis(w.axis)), s, y);
      AnyMerged(w, arg, s, below, y);
    }
    CanonSame(two, one);
  }

  function Contexts(env: Env, a: Ast, c: Ctx): seq<XNode> {
    if a.Nil? then [c.node] else MeanNodes(env, a, c)
  }

  lemma ContextsValid(env: Env, a: Ast, c: Ctx)
    requires Ready(env, a, c)
    ensures forall x | x in Contexts(env, a, c) :: ValidNode(env.tree, x)
  {
    if a.Ast? {
      NodesRefine(env, a, c, WantAll);
    }
  }

  lemma DoubleSlashIs(env: Env, a: Ast, c: Ctx)
    requires IsDoubleSlash(a)
    ensures MeanNodes(env, a, c) ==
            Canon(MeanSteps(env, DescendantOrSelf, TestNode, a.kind.arg, Nil, Contexts(env, a.left, c), 0))
  {
    StepIs(env, a, c);
  }

  /** `//x` in one step: exact whenever no predicate of the step depends on its position. */
  lemma MergeStepKeeps(env: Env, a: Ast, c: Ctx)
    requires Ready(env, a, c) && a.Ast?
    ensures SameMean(env, a, MergeStep(a), c)
  {
    if Merges(a) {
      var s := Contexts(env, a.left.left, c);
      var w := Walk(env, a.kind.axis, a.kind.test, a.kind.arg, a.right, WantAll);
      assert WellFormed(a.left);
      ContextsValid(env, a.left.left, c);
      MergedSteps(w, a.left.kind.arg, s);
      DoubleSlashIs(env, a.left, c);
      MergedMeaning(env, a, c, s);
    }
  }

  lemma MergedMeaning(env: Env, a: Ast, c: Ctx, s: seq<XNode>)
    requires Merges(a) && s == Contexts(env, a.left.left, c)
    requires Canon(MeanSteps(env, a.kind.axis, a.kind.test, a.kind.arg, a.right, MeanNodes(env, a.left, c), 0)) ==
             Canon(MeanSteps(env, MergedAxis(a.kind.axis), a.kind.test, a.kind.arg, a.right, s, 0))
    ensures SameMean(env, a, MergeStep(a), c)
  {
    var b := MergeStep(a);
    StepIs(env, a, c);
    StepIs(env, b, c);
    assert b.left == a.left.left && b.right == a.right && b.kind == Step(MergedAxis(a.kind.axis), a.kind.test, a.kind.arg);
  }

  lemma StepIs(env: Env, a: Ast, c: Ctx)
    requires a.Ast? && a.kind.Step?
    ensures MeanNodes(env, a, c) ==
            Canon(MeanSteps(env, a.kind.axis, a.kind.test, a.kind.arg, a.right, Contexts(env, a.left, c), 0))
    ensures MeanScalar(env, a, c) == Bool(false)
  {
    assert MeanNodes(env, a, c) == MeanStep(env, a, c);
  }

  // -------------------------------------------------------------------- translate()

  lemma UseTableKeeps(env: Env, a: Ast, c: Ctx)
    requires a.Ast?
    ensures SameMean(env, a, UseTable(a), c)
  {
    if Tabulates(a) {
      var from, to := a.right.kind.s, a.right.next.kind.s;
      var text := MeanText(env, a.left, c);
      XPathTranslate.TableMeaning(text, |text|, from, to);
      TextConstant(env, a.right, c);
      TextConstant(env, a.right.next, c);
      TranslateIs(env, a, c);
      TableIs(env, UseTable(a), c);
    }
  }

  lemma TranslateIs(env: Env, a: Ast, c: Ctx)
    requires a.Ast? && a.kind.Translate? && a.right.Ast?
    ensures MeanNodes(env, a, c) == []
    ensures MeanScalar(env, a, c) ==
            Text(XPathTranslate.TranslateText(MeanText(env, a.left, c), MeanText(env, a.right, c), MeanText(env, a.right.next, c)))
  {
    assert MeanScalar(env, a, c) == MeanRewriting(env, a, c);
  }

  lemma TableIs(env: Env, a: Ast, c: Ctx)
    requires a.Ast? && a.kind.TranslateTable? && |a.kind.table| == 128
    ensures MeanNodes(env, a, c) == []
    ensures MeanScalar(env, a, c) == Text(XPathTranslate.TableText(MeanText(env, a.left, c), a.kind.table))
  {
    assert MeanScalar(env, a, c) == MeanRewriting(env, a, c);
  }

  lemma TextConstant(env: Env, a: Ast, c: Ctx)
    requires IsText(a)
    ensures MeanText(env, a, c) == a.kind.s
  {
  }

  // ------------------------------------------------------------------- @name = value

  /** The attribute walk for a name finds the first attribute of that name. */
  lemma {:induction false} NamedHits(t: Tree, p: Path, arg: string, k: nat)
    requires Valid(t, p) && k <= |Sub(t, p).attrs|
    ensures var i, n := FirstAttribute(Sub(t, p).attrs, arg, k), |Sub(t, p).attrs|;
            var hits := HitsFrom(t, AttributeAxis, Filter(TestName, arg, true), AttributesOf(t, p), k);
            Cut(true, hits) == if i < n && IsXPathAttribute(arg) then [Attribute(p, i)] else []
    decreases |Sub(t, p).attrs| - k
  {
    if k < |Sub(t, p).attrs| {
      NamedHits(t, p, arg, k + 1);
    }
  }

  lemma FirstAttributeMeaning(attrs: seq<Attr>, name: string, k: nat)
    requires k <= |attrs|
    ensures var i := FirstAttribute(attrs, name, k); i < |attrs| ==> attrs[i].name == name
    decreases |attrs| - k
  {
  }

  function NamedAttribute(env: Env, x: XNode, arg: string): seq<XNode> {
    StepNodes(env.tree, AttributeAxis, Filter(TestName, arg, true), x)
  }

  /** The node set of `@name` has one element at most. */
  lemma AttributeStepIs(env: Env, a: Ast, c: Ctx)
    requires TestsAttribute(a)
    ensures MeanNodes(env, a.left, c) == Canon(NamedAttribute(env, c.node, a.left.kind.arg))
  {
    var s := NamedAttribute(env, c.node, a.left.kind.arg);
    assert MeanSteps(env, AttributeAxis, TestName, a.left.kind.arg, Nil, [c.node], 1) == [];
    assert MeanStepFrom(env, AttributeAxis, TestName, a.left.kind.arg, Nil, c.node) == s;
    assert s + [] == s;
    assert MeanStep(env, a.left, c) == Canon(s);
  }

  lemma SingleCanon(s: seq<XNode>)
    requires |s| <= 1 && forall x | x in s :: !x.Nothing?
    ensures Canon(s) == s
  {
    CanonUnique(s, s);
  }

  lemma AttributeIsNamed(env: Env, x: XNode, arg: string, value: string)
    requires ValidNode(env.tree, x)
    ensures var s := NamedAttribute(env, x, arg);
            && |s| <= 1 && (forall y | y in s :: !y.Nothing?)
            && (AttributeIs(env, x, arg, value) <==> s != [] && env.stringValue(s[0]) == value)
  {
    if x.Node? {
      NamedHits(env.tree, x.path, arg, 0);
      FirstAttributeMeaning(Sub(env.tree, x.path).attrs, arg, 0);
    }
  }

  lemma TextsOfOne(env: Env, s: seq<XNode>, value: string)
    requires |s| <= 1
    ensures CompareEq(env, true, Set(s), Scalar(Text(value))) <==> s != [] && env.stringValue(s[0]) == value
  {
    if s != [] {
      assert s[0] in s;
      assert Texts(env, s) == {env.stringValue(s[0])};
    }
  }

  lemma TextValue(env: Env, a: Ast, c: Ctx)
    requires RetType(a) == TextType
    ensures MeanScalar(env, a, c).Text? && MeanOperand(env, a, c) == Scalar(Text(MeanText(env, a, c)))
  {
  }

  lemma UseAttributeKeeps(env: Env, a: Ast, c: Ctx)
    requires ValidNode(env.tree, c.node) && a.Ast?
    ensures SameMean(env, a, UseAttribute(a), c)
  {
    if TestsAttribute(a) {
      var s, value := NamedAttribute(env, c.node, a.left.kind.arg), MeanText(env, a.right, c);
      AttributeStepIs(env, a, c);
      AttributeIsNamed(env, c.node, a.left.kind.arg, value);
      SingleCanon(s);
      TextValue(env, a.right, c);
      TextsOfOne(env, s, value);
      assert MeanOperand(env, a.left, c) == Set(s);
      assert MeanEquality(env, a, c) == AttributeIs(env, c.node, a.left.kind.arg, value);
      assert MeanRewriting(env, UseAttribute(a), c) == Bool(AttributeIs(env, c.node, a.left.kind.arg, value));
    }
  }
}
