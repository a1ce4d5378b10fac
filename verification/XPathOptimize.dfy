/** The query optimizer: `optimize_self` as a rewriting of query trees. */
module XPathOptimize {
  import opened XmlTree
  import opened XPathOrder
  import opened XPathNodeSet
  import opened XPathAxes
  import opened XPathStep
  import opened XPathFill
  import opened XPathAst
  import XPathTranslate

  predicate Filters(a: Ast) {
    a.Ast? && (a.kind.FilterNode? || a.kind.PredicateNode?)
  }

  /** The predicate expression is `position() = e` with a number e. */
  predicate ComparesPosition(e: Ast) {
    e.Ast? && e.kind.Equal? && e.left.Ast? && e.left.kind.Position? && RetType(e.right) == NumberType
  }

  /** Rewrites `[position()=e]` to `[e]`. */
  function RewritePosition(a: Ast): Ast {
    if Filters(a) && ComparesPosition(a.right) then a.(right := a.right.right) else a
  }

  /** What can be told about a predicate expression. */
  function Classified(e: Ast, otherwise: Class): Class {
    if e.Nil? then otherwise
    else if e.kind == NumberConstant(Fin(1.0)) then ConstantOne
    else if RetType(e) == NumberType && (e.kind.NumberConstant? || e.kind.Variable? || e.kind.Last?) then Constant
    else if RetType(e) != NumberType && IsPosInv(e) then PosInv
    else otherwise
  }

  /** Classifies filters and predicates for evaluation. */
  function Classify(a: Ast): Ast {
    if !Filters(a) then a
    else if a.kind.FilterNode? then a.(kind := FilterNode(Classified(a.right, a.kind.cls)))
    else a.(kind := PredicateNode(Classified(a.right, a.kind.cls)))
  }

  /** `descendant-or-self::node()` without predicates. */
  predicate IsDoubleSlash(a: Ast) {
    a.Ast? && a.kind.Step? && a.kind.axis == DescendantOrSelf && a.kind.test == TestNode && a.right.Nil?
  }

  predicate GoesDown(axis: Axis) {
    axis == Child || axis == Self || axis == Descendant || axis == DescendantOrSelf
  }

  function MergedAxis(axis: Axis): Axis {
    if axis == Child || axis == Descendant then Descendant else DescendantOrSelf
  }

  predicate Merges(a: Ast) {
    a.Ast? && a.kind.Step? && GoesDown(a.kind.axis) && IsDoubleSlash(a.left) && IsPosInvStep(a.right)
  }

  /** Rewrites `descendant-or-self::node()/child::x` to `descendant::x` when no predicate looks at positions. */
  function MergeStep(a: Ast): Ast {
    if Merges(a) then a.(kind := a.kind.(axis := MergedAxis(a.kind.axis)), left := a.left.left) else a
  }

  predicate IsText(a: Ast) {
    a.Ast? && a.kind.StringConstant?
  }

  predicate Tabulates(a: Ast) {
    && a.Ast? && a.kind.Translate? && IsText(a.right) && IsText(a.right.next)
    && XPathTranslate.AsciiPair(a.right.kind.s, a.right.next.kind.s, |a.right.kind.s|)
  }

  /** Uses a lookup table for `translate()` with constant arguments. */
  function UseTable(a: Ast): Ast {
    if Tabulates(a) then a.(kind := TranslateTable(XPathTranslate.TableFor(a.right.kind.s, a.right.next.kind.s))) else a
  }

  /** `@name = 'value'` or `@name = $value`. */
  predicate TestsAttribute(a: Ast) {
    && a.Ast? && a.kind.Equal?
    && a.left.Ast? && a.left.kind.Step? && a.left.kind.axis == AttributeAxis && a.left.kind.test == TestName
    && a.left.left.Nil? && a.left.right.Nil?
    && a.right.Ast? && (a.right.kind.StringConstant? || (a.right.kind.Variable? && RetType(a.right) == TextType))
  }

  function UseAttribute(a: Ast): Ast {
    if TestsAttribute(a) then a.(kind := CompareAttribute) else a
  }

  /** `optimize_self`. */
  function OptimizeSelf(a: Ast): Ast {
    UseAttribute(UseTable(MergeStep(Classify(RewritePosition(a)))))
  }

  /** `optimize`: children first. */
  function Optimize(a: Ast): Ast {
    if a.Nil? then Nil else OptimizeSelf(Ast(a.kind, Optimize(a.left), Optimize(a.right), Optimize(a.next)))
  }

  // ------------------------------------------------------------------------ shape

  lemma ClassifiedTruthful(e: Ast, cls: Class)
    requires Truthful(cls, e)
    ensures Truthful(Classified(e, cls), e)
  {
  }

  /** As the parser leaves it: no predicate is classified yet. */
  predicate Fresh(a: Ast)
    decreases a
  {
    a.Nil? || ((Filters(a) ==> a.kind.cls == Default) && Fresh(a.left) && Fresh(a.right) && Fresh(a.next))
  }

  lemma StagesKeepShape(a: Ast)
    requires a.Ast?
    ensures OptimizeSelf(a).Ast? && OptimizeSelf(a).next == a.next && RetType(OptimizeSelf(a)) == RetType(a)
    ensures OptimizeSelf(a).kind.PredicateNode? <==> a.kind.PredicateNode?
    ensures OptimizeSelf(a).kind.Step? <==> a.kind.Step?
    ensures a.kind.Step? ==> OptimizeSelf(a).kind.arg == a.kind.arg
    ensures a.kind.PredicateNode? ==> OptimizeSelf(a).right == RewritePosition(a).right
  {
  }

  lemma RewriteWellFormed(a: Ast)
    requires WellFormed(a) && (Filters(a) ==> a.kind.cls == Default)
    ensures WellFormed(RewritePosition(a)) && (Filters(a) ==> RewritePosition(a).kind.cls == Default)
  {
  }

  lemma ClassifyWellFormed(a: Ast)
    requires WellFormed(a)
    ensures WellFormed(Classify(a))
  {
    if Filters(a) {
      ClassifiedTruthful(a.right, a.kind.cls);
    }
  }

  lemma RestWellFormed(a: Ast)
    requires WellFormed(a)
    ensures WellFormed(MergeStep(a)) && WellFormed(UseTable(a)) && WellFormed(UseAttribute(a))
  {
  }

  lemma OptimizeSelfWellFormed(a: Ast)
    requires WellFormed(a) && (Filters(a) ==> a.kind.cls == Default)
    ensures WellFormed(OptimizeSelf(a))
  {
    RewriteWellFormed(a);
    var b := RewritePosition(a);
    ClassifyWellFormed(b);
    RestWellFormed(Classify(b));
    RestWellFormed(MergeStep(Classify(b)));
    RestWellFormed(UseTable(MergeStep(Classify(b))));
  }

  lemma {:induction false} OptimizeKeepsShape(a: Ast)
    ensures RetType(Optimize(a)) == RetType(a)
    ensures IsPredicateChain(a) ==> IsPredicateChain(Optimize(a))
    ensures Optimize(a).Nil? <==> a.Nil?
  {
    if a.Ast? {
      StagesKeepShape(Ast(a.kind, Optimize(a.left), Optimize(a.right), Optimize(a.next)));
    }
  }

  /** A node with optimized children. */
  function Rebuilt(a: Ast): Ast
    requires a.Ast?
  {
    Ast(a.kind, Optimize(a.left), Optimize(a.right), Optimize(a.next))
  }

  lemma RebuiltWellFormed(a: Ast)
    requires a.Ast? && WellFormed(a) && Fresh(a)
    requires WellFormed(Optimize(a.left)) && WellFormed(Optimize(a.right)) && WellFormed(Optimize(a.next))
    ensures WellFormed(Rebuilt(a))
  {
    OptimizeKeepsShape(a.left);
    OptimizeKeepsShape(a.right);
    OptimizeKeepsShape(a.next);
  }

  /** A parsed query stays well-formed, with truthful classes, when it is optimized. */
  lemma {:induction false} OptimizeWellFormed(a: Ast)
    requires WellFormed(a) && Fresh(a)
    ensures WellFormed(Optimize(a))
  {
    if a.Ast? {
      OptimizeWellFormed(a.left);
      OptimizeWellFormed(a.right);
      OptimizeWellFormed(a.next);
      RebuiltWellFormed(a);
      OptimizeSelfWellFormed(Rebuilt(a));
    }
  }

  // -------------------------------------------------------------- what gets optimized

  function Constantly(k: Kind): Ast {
    Ast(k, Nil, Nil, Nil)
  }

  lemma LeafStays(k: Kind)
    requires k.NumberConstant? || k.StringConstant? || k.Variable? || k.Last? || k.Position?
    ensures Optimize(Constantly(k)) == Constantly(k)
  {
    assert Optimize(Nil) == Nil;
  }

  /** Every `//` in front of a downward step without predicates is merged into it. */
  lemma DoubleSlashMerged(axis: Axis, test: Test, arg: string, dot: string, before: Ast)
    requires axis in {Child, Descendant, DescendantOrSelf, Self}
    requires before.Ast? && !before.kind.Step?
    ensures Optimize(Ast(Step(axis, test, arg), Ast(Step(DescendantOrSelf, TestNode, dot), before, Nil, Nil), Nil, Nil))
         == Ast(Step(if axis in {Child, Descendant} then Descendant else DescendantOrSelf, test, arg), Optimize(before), Nil, Nil)
  {
    var inner := Ast(Step(DescendantOrSelf, TestNode, dot), before, Nil, Nil);
    OptimizeKeepsShape(before);
    StagesKeepShape(Ast(before.kind, Optimize(before.left), Optimize(before.right), Optimize(before.next)));
    assert Optimize(Nil) == Nil;
    assert Optimize(inner) == inner.(left := Optimize(before));
  }

  /** The classes of predicates: `[1]`, another constant or `[last()]`, and what does not look at positions. */
  lemma ClassFound(k: Kind)
    requires k.NumberConstant? || k.StringConstant? || k.Variable? || k.Last? || k.Position?
    ensures Optimize(Ast(PredicateNode(Default), Nil, Constantly(k), Nil)) ==
              Ast(PredicateNode(if k == NumberConstant(Fin(1.0)) then ConstantOne
                                else if k.NumberConstant? || k.Last? || (k.Variable? && k.ty == NumberType) then Constant
                                else if k.StringConstant? || k.Variable? then PosInv
                                else Default), Nil, Constantly(k), Nil)
  {
    LeafStays(k);
  }

  /** `[position() = n]` becomes `[n]`. */
  lemma PositionDropped(n: Num)
    ensures var e := Ast(Equal, Constantly(Position), Constantly(NumberConstant(n)), Nil);
            Optimize(Ast(PredicateNode(Default), Nil, e, Nil)) ==
              Ast(PredicateNode(if n == Fin(1.0) then ConstantOne else Constant), Nil, Constantly(NumberConstant(n)), Nil)
  {
    var e := Ast(Equal, Constantly(Position), Constantly(NumberConstant(n)), Nil);
    LeafStays(Position);
    LeafStays(NumberConstant(n));
    assert Optimize(e) == e;
  }

  /** `@name = 'value'` is compared on the attributes directly. */
  lemma AttributeTested(name: string, value: CString)
    ensures var step, v := Constantly(Step(AttributeAxis, TestName, name)), Constantly(StringConstant(value));
            Optimize(Ast(Equal, step, v, Nil)) == Ast(CompareAttribute, step, v, Nil)
  {
    LeafStays(StringConstant(value));
    assert Optimize(Constantly(Step(AttributeAxis, TestName, name))) == Constantly(Step(AttributeAxis, TestName, name));
  }

  /** `translate()` with ASCII constants gets a table. */
  lemma TableUsed(a: Ast, from: CString, to: CString)
    requires forall i | 0 <= i < |from| :: from[i] as nat < 128
    requires forall i | 0 <= i < |to| :: to[i] as nat < 128
    ensures Optimize(Ast(Translate, a, Ast(StringConstant(from), Nil, Nil, Constantly(StringConstant(to))), Nil)).kind.TranslateTable?
  {
    var second := Constantly(StringConstant(to));
    var first := Ast(StringConstant(from), Nil, Nil, second);
    LeafStays(StringConstant(to));
    assert Optimize(first) == first;
    assert Optimize(Ast(Translate, a, first, Nil)) == OptimizeSelf(Ast(Translate, Optimize(a), first, Nil));
  }
}
