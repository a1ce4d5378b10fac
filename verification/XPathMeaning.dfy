/**
 What a query means (XPath 1.0, sections 2 and 3): node sets are sets, listed here in
 document order; positions count along the axis; every predicate looks at every node.
 There are no evaluation modes, no order flags and no predicate classes.
 */
module XPathMeaning {
  import opened XmlTree
  import opened XPathOrder
  import opened XPathNodeSet
  import opened XPathAxes
  import opened XPathStep
  import opened XPathFill
  import opened XPathAst
  import opened XPathEval
  import XPathTranslate

  /** A set of nodes, listed in document order. */
  function Canon(s: seq<XNode>): seq<XNode> {
    InOrder(Dedup(s))
  }

  /** The nodes from number i on whose predicate holds: a number is compared with the position. */
  function MeanSelect(env: Env, e: Ast, list: seq<XNode>, i: nat): seq<XNode>
    requires i <= |list|
    decreases e, 5, |list| - i
  {
    if i == |list| then []
    else
      (if MeanHit(env, e, Ctx(list[i], i + 1, |list|)) then [list[i]] else []) + MeanSelect(env, e, list, i + 1)
  }

  predicate MeanHit(env: Env, e: Ast, c: Ctx)
    decreases e, 4, 0
  {
    if RetType(e) == NumberType then NumEq(MeanNum(env, e, c), Fin(c.position as real)) else MeanBool(env, e, c)
  }

  function MeanPredicates(env: Env, preds: Ast, list: seq<XNode>): seq<XNode>
    decreases preds, 7, 0
  {
    if preds.Nil? then list else MeanPredicates(env, preds.next, MeanSelect(env, preds.right, list, 0))
  }

  /** The nodes a step selects from one context node; an attribute name selects the first attribute of that name. */
  function MeanStepFrom(env: Env, axis: Axis, test: Test, arg: string, preds: Ast, x: XNode): seq<XNode>
    decreases preds, 8, 0
  {
    MeanPredicates(env, preds, StepNodes(env.tree, axis, Filter(test, arg, axis == AttributeAxis && test == TestName), x))
  }

  /** Where no attribute name is repeated, that is all attributes of that name. */
  lemma StepFromAll(env: Env, axis: Axis, test: Test, arg: string, preds: Ast, x: XNode)
    requires axis == AttributeAxis && test == TestName && x.Node? ==> Valid(env.tree, x.path) && NamedOnce(env.tree, x.path, arg)
    ensures MeanStepFrom(env, axis, test, arg, preds, x)
         == MeanPredicates(env, preds, StepNodes(env.tree, axis, Filter(test, arg, false), x))
  {
    StepOnce(env.tree, axis, Filter(test, arg, true), x);
    if axis == AttributeAxis && test == TestName && x.Node? {
      AttributeNameStep(env.tree, x.path, arg);
    }
  }

  /** The nodes a step selects from the context nodes number k and following. */
  function MeanSteps(env: Env, axis: Axis, test: Test, arg: string, preds: Ast, s: seq<XNode>, k: nat): seq<XNode>
    requires k <= |s|
    decreases preds, 9, |s| - k
  {
    if k == |s| then []
    else MeanStepFrom(env, axis, test, arg, preds, s[k]) + MeanSteps(env, axis, test, arg, preds, s, k + 1)
  }

  function MeanNodes(env: Env, a: Ast, c: Ctx): seq<XNode>
    decreases a, 1, 0
  {
    if a.Nil? then []
    else match a.kind
      case Union => MeanUnion(env, a, c)
      case FilterNode(_) => MeanFilter(env, a, c)
      case Step(_, _, _) => MeanStep(env, a, c)
      case StepRoot => if c.node.Nothing? then [] else [Node([])]
      case Variable(name, ty) => if ty == NodeSetType then Canon(env.nodeSets(name).nodes) else []
      case _ => []
  }

  function MeanUnion(env: Env, a: Ast, c: Ctx): seq<XNode>
    requires a.Ast? && a.kind.Union?
    decreases a, 0, 0
  {
    Canon(MeanNodes(env, a.left, c) + MeanNodes(env, a.right, c))
  }

  function MeanFilter(env: Env, a: Ast, c: Ctx): seq<XNode>
    requires a.Ast? && a.kind.FilterNode?
    decreases a, 0, 0
  {
    MeanSelect(env, a.right, MeanNodes(env, a.left, c), 0)
  }

  function MeanStep(env: Env, a: Ast, c: Ctx): seq<XNode>
    requires a.Ast? && a.kind.Step?
    decreases a, 0, 0
  {
    var s := if a.left.Nil? then [c.node] else MeanNodes(env, a.left, c);
    Canon(MeanSteps(env, a.kind.axis, a.kind.test, a.kind.arg, a.right, s, 0))
  }

  function MeanScalar(env: Env, a: Ast, c: Ctx): Value
    decreases a, 1, 0
  {
    if a.Nil? then Bool(false)
    else if IsLogic(a.kind) then Bool(MeanLogic(env, a, c))
    else if IsEquality(a.kind) then Bool(MeanEquality(env, a, c))
    else if IsRelation(a.kind) then Bool(MeanRelation(env, a, c))
    else if IsAggregate(a.kind) then MeanAggregate(env, a, c)
    else if a.kind.Call? then MeanCall(env, a, c)
    else if IsRewriting(a.kind) then MeanRewriting(env, a, c)
    else Leaf(env, a.kind, c)
  }

  predicate MeanLogic(env: Env, a: Ast, c: Ctx)
    requires a.Ast? && IsLogic(a.kind)
    decreases a, 0, 0
  {
    match a.kind
    case Or => MeanBool(env, a.left, c) || MeanBool(env, a.right, c)
    case And => MeanBool(env, a.left, c) && MeanBool(env, a.right, c)
    case Not => !MeanBool(env, a.left, c)
    case _ => MeanBool(env, a.left, c)
  }

  predicate MeanEquality(env: Env, a: Ast, c: Ctx)
    requires a.Ast? && IsEquality(a.kind)
    decreases a, 0, 0
  {
    CompareEq(env, a.kind.Equal?, MeanOperand(env, a.left, c), MeanOperand(env, a.right, c))
  }

  predicate MeanRelation(env: Env, a: Ast, c: Ctx)
    requires a.Ast? && IsRelation(a.kind)
    decreases a, 0, 0
  {
    var x, y := MeanOperand(env, a.left, c), MeanOperand(env, a.right, c);
    match a.kind
    case Less => CompareRel(env, true, x, y)
    case Greater => CompareRel(env, true, y, x)
    case LessOrEqual => CompareRel(env, false, x, y)
    case _ => CompareRel(env, false, y, x)
  }

  function MeanAggregate(env: Env, a: Ast, c: Ctx): Value
    requires a.Ast? && IsAggregate(a.kind)
    decreases a, 0, 0
  {
    var s := MeanNodes(env, a.left, c);
    match a.kind
    case Count => Number(CountOf(s))
    case Sum => Number(SumTo(env, s, |s|))
    case FirstCall(fn) => Cast(env, FnType(fn), env.call(fn, if s == [] then Nothing else s[0], []))
  }

  function MeanCall(env: Env, a: Ast, c: Ctx): Value
    requires a.Ast? && a.kind.Call?
    decreases a, 0, 0
  {
    var fn := a.kind.fn;
    Cast(env, FnType(fn), env.call(fn, c.node, MeanFirstArgument(env, fn, a.left, c) + MeanArguments(env, fn, 1, a.right, c)))
  }

  function MeanRewriting(env: Env, a: Ast, c: Ctx): Value
    requires a.Ast? && IsRewriting(a.kind)
    decreases a, 0, 0
  {
    match a.kind
    case Translate =>
      var to := if a.right.Nil? then "" else MeanText(env, a.right.next, c);
      Text(XPathTranslate.TranslateText(MeanText(env, a.left, c), MeanText(env, a.right, c), to))
    case TranslateTable(table) =>
      Text(if |table| == 128 then XPathTranslate.TableText(MeanText(env, a.left, c), table) else "")
    case CompareAttribute =>
      Bool(a.left.Ast? && a.left.kind.Step? && AttributeIs(env, c.node, a.left.kind.arg, MeanText(env, a.right, c)))
  }

  predicate MeanBool(env: Env, a: Ast, c: Ctx)
    decreases a, 2, 0
  {
    if RetType(a) == NodeSetType then MeanNodes(env, a, c) != [] else ToBool(MeanScalar(env, a, c))
  }

  /** A node set stands for the string value of its first node in document order. */
  function MeanText(env: Env, a: Ast, c: Ctx): string
    decreases a, 2, 0
  {
    if RetType(a) == NodeSetType then
      var s := MeanNodes(env, a, c);
      if s == [] then "" else env.stringValue(s[0])
    else TextOf(env, MeanScalar(env, a, c))
  }

  function MeanNum(env: Env, a: Ast, c: Ctx): Num
    decreases a, 3, 0
  {
    if RetType(a) == NodeSetType then env.toNumber(MeanText(env, a, c)) else NumOf(env, MeanScalar(env, a, c))
  }

  function MeanOperand(env: Env, a: Ast, c: Ctx): Operand
    decreases a, 2, 0
  {
    if RetType(a) == NodeSetType then Set(MeanNodes(env, a, c)) else Scalar(MeanScalar(env, a, c))
  }

  function MeanArgument(env: Env, fn: Fn, i: nat, a: Ast, c: Ctx): Value
    decreases a, 4, 0
  {
    if NumericArgument(fn, i) then Number(MeanNum(env, a, c)) else Text(MeanText(env, a, c))
  }

  function MeanFirstArgument(env: Env, fn: Fn, a: Ast, c: Ctx): seq<Value>
    decreases a, 5, 0
  {
    if a.Nil? then [] else [MeanArgument(env, fn, 0, a, c)]
  }

  function MeanArguments(env: Env, fn: Fn, i: nat, a: Ast, c: Ctx): seq<Value>
    decreases a, 5, 0
  {
    if a.Nil? then [] else [MeanArgument(env, fn, i, a, c)] + MeanArguments(env, fn, i + 1, a.next, c)
  }
}
