/**
 Query evaluation as pugixml does it: node sets with an order flag, evaluated in full,
 up to the first node, or up to any node, with predicates that stop early.
 */
module XPathEval {
  import opened XmlTree
  import opened XPathOrder
  import opened XPathNodeSet
  import opened XPathAxes
  import opened XPathStep
  import opened XPathFill
  import opened XPathAst
  import XPathTranslate

  /** `xpath_context`. */
  datatype Ctx = Ctx(node: XNode, position: nat, size: nat)

  /** `nodeset_eval_t`: how much of a node set the caller looks at. */
  datatype Mode = WantAll | WantAny | WantFirst

  /** `eval_once`: the first hit is enough. */
  predicate EvalOnce(order: Order, mode: Mode) {
    if order == Sorted then mode != WantAll else mode == WantAny
  }

  // ---------------------------------------------------------------- comparisons

  /** One side of a comparison. */
  datatype Operand = Scalar(v: Value) | Set(nodes: seq<XNode>)

  function Texts(env: Env, s: seq<XNode>): set<string> {
    set x | x in s :: env.stringValue(x)
  }

  /** The numbers an operand of a comparison stands for. */
  function Nums(env: Env, x: Operand): set<Num> {
    match x
    case Scalar(v) => {NumOf(env, v)}
    case Set(s) => set t | t in Texts(env, s) :: env.toNumber(t)
  }

  /** `compare_eq` when one side is no node set. */
  predicate CompareScalar(env: Env, eq: bool, v: Value, y: Operand) {
    match v
    case Bool(b) => (b == (if y.Set? then y.nodes != [] else ToBool(y.v))) == eq
    case Number(n) => if y.Scalar? && y.v.Bool? then (ToBool(v) == y.v.b) == eq
                      else exists m | m in Nums(env, y) :: NumEq(n, m) == eq
    case Text(s) => if y.Set? then exists t | t in Texts(env, y.nodes) :: (s == t) == eq
                    else if y.v.Bool? then (ToBool(v) == y.v.b) == eq
                    else if y.v.Number? then NumEq(NumOf(env, v), y.v.n) == eq
                    else (s == y.v.s) == eq
  }

  /** `compare_eq` with `equal_to` (eq) or `not_equal_to`. */
  predicate CompareEq(env: Env, eq: bool, x: Operand, y: Operand) {
    match (x, y)
    case (Set(s), Set(u)) => exists a, b | a in Texts(env, s) && b in Texts(env, u) :: (a == b) == eq
    case (Set(_), Scalar(w)) => CompareScalar(env, eq, w, x)
    case (Scalar(v), _) => CompareScalar(env, eq, v, y)
  }

  /** `compare_rel` with `less` (strict) or `less_equal`. */
  predicate CompareRel(env: Env, strict: bool, x: Operand, y: Operand) {
    exists a, b | a in Nums(env, x) && b in Nums(env, y) :: NumLess(a, b) || (!strict && NumEq(a, b))
  }

  /** `@name = value` on tree nodes without building a node set: the first attribute of that name decides. */
  predicate AttributeIs(env: Env, x: XNode, name: string, value: string) {
    && x.Node? && Valid(env.tree, x.path)
    && var i := FirstAttribute(Sub(env.tree, x.path).attrs, name, 0);
       && i < |Sub(env.tree, x.path).attrs|
       && env.stringValue(Attribute(x.path, i)) == value
       && IsXPathAttribute(Sub(env.tree, x.path).attrs[i].name)
  }

  /** The first attribute with the given name from number k on, or the end. */
  function FirstAttribute(attrs: seq<Attr>, name: string, k: nat): (i: nat)
    requires k <= |attrs|
    ensures k <= i <= |attrs|
    decreases |attrs| - k
  {
    if k == |attrs| || attrs[k].name == name then k else FirstAttribute(attrs, name, k + 1)
  }

  // ----------------------------------------------------------------- aggregates

  /** The sum of the numbers that the first n nodes stand for. */
  function SumTo(env: Env, s: seq<XNode>, n: nat): Num
    requires n <= |s|
  {
    if n == 0 then Fin(0.0) else NumAdd(SumTo(env, s, n - 1), env.toNumber(env.stringValue(s[n - 1])))
  }

  function CountOf(s: seq<XNode>): Num {
    Fin(|s| as real)
  }

  // ----------------------------------------------------------------- predicates

  /** `apply_predicate_number_const`: the value is the same for all nodes and picks at most one. */
  function PickConstant(list: seq<XNode>, er: Num): seq<XNode> {
    if er.Fin? && 1.0 <= er.v <= |list| as real && er.v == er.v.Floor as real then [list[er.v.Floor - 1]] else []
  }

  /** `apply_predicate_number` and `apply_predicate_boolean`, from element number i on. */
  function Select(env: Env, e: Ast, list: seq<XNode>, i: nat, once: bool): seq<XNode>
    requires i <= |list|
    decreases e, 5, |list| - i
  {
    if i == |list| then []
    else
      var c := Ctx(list[i], i + 1, |list|);
      var hit := if RetType(e) == NumberType then NumEq(AsNum(env, e, c), Fin((i + 1) as real)) else AsBool(env, e, c);
      if !hit then Select(env, e, list, i + 1, once)
      else if once then [list[i]]
      else [list[i]] + Select(env, e, list, i + 1, once)
  }

  /** `apply_predicate`. */
  function Apply(env: Env, cls: Class, e: Ast, list: seq<XNode>, once: bool): seq<XNode>
    decreases e, 6, 0
  {
    if list == [] then []
    else if cls == Constant || cls == ConstantOne then PickConstant(list, AsNum(env, e, Ctx(Nothing, 1, |list|)))
    else Select(env, e, list, 0, once)
  }

  /** `apply_predicates`: only the last one may stop early. */
  function ApplyAll(env: Env, preds: Ast, list: seq<XNode>, lastOnce: bool): seq<XNode>
    decreases preds, 7, 0
  {
    if preds.Nil? then list
    else
      var kept := Apply(env, ClassOf(preds), preds.right, list, preds.next.Nil? && lastOnce);
      ApplyAll(env, preds.next, kept, lastOnce)
  }

  // ------------------------------------------------------------- location steps

  /** The loop of `step_do` over the nodes of the step before, from number k on. */
  function StepAll(env: Env, axis: Axis, f: Filter, preds: Ast, s: seq<XNode>, k: nat, mode: Mode, acc: NodeSet): NodeSet
    requires k <= |s|
    decreases preds, 8, |s| - k
  {
    if k == |s| then acc
    else
      // there is no order guarantee if an axis is applied to two nodes
      var order := if axis != Self && acc.nodes != [] then Unsorted else acc.order;
      var found := StepNodes(env.tree, axis, f, s[k]);
      var kept := if preds.Nil? then found else ApplyAll(env, preds, found, EvalOnce(order, mode));
      StepAll(env, axis, f, preds, s, k + 1, mode, NodeSet(acc.nodes + kept, order))
  }

  function AxisType(axis: Axis): Order {
    if ReverseAxis(axis) then SortedReverse else Sorted
  }

  /** The `once` of `step_do`: one hit per context node is enough. */
  predicate StepOnceFlag(axis: Axis, test: Test, preds: Ast, mode: Mode) {
    || (axis == AttributeAxis && test == TestName)
    || (preds.Nil? && EvalOnce(AxisType(axis), mode))
    || (preds.Ast? && preds.next.Nil? && ClassOf(preds) == ConstantOne)
  }

  /** The end of `step_do`: child, attribute and self steps cannot produce duplicates. */
  function StepUnique(axis: Axis, ns: NodeSet): NodeSet {
    if axis != Child && axis != AttributeAxis && axis != Self && ns.order == Unsorted then Deduplicated(ns) else ns
  }

  // ----------------------------------------------------------------- evaluation

  /** `eval_node_set`. */
  function EvalNodes(env: Env, a: Ast, c: Ctx, mode: Mode): NodeSet
    decreases a, 1, 0
  {
    if a.Nil? then NodeSet([], Unsorted)
    else match a.kind
      case Union => EvalUnion(env, a, c, mode)
      case FilterNode(_) => EvalFilter(env, a, c, mode)
      case Step(_, _, _) => EvalStep(env, a, c, mode)
      case StepRoot => NodeSet(if c.node.Nothing? then [] else [Node([])], Sorted)
      case Variable(name, ty) => if ty == NodeSetType then env.nodeSets(name) else NodeSet([], Unsorted)
      case _ => NodeSet([], Unsorted)
  }

  function EvalUnion(env: Env, a: Ast, c: Ctx, mode: Mode): NodeSet
    requires a.Ast? && a.kind.Union?
    decreases a, 0, 0
  {
    Deduplicated(NodeSet(EvalNodes(env, a.left, c, mode).nodes + EvalNodes(env, a.right, c, mode).nodes, Unsorted))
  }

  function EvalFilter(env: Env, a: Ast, c: Ctx, mode: Mode): NodeSet
    requires a.Ast? && a.kind.FilterNode?
    decreases a, 0, 0
  {
    var cls := a.kind.cls;
    var all := EvalNodes(env, a.left, c, if cls == ConstantOne then WantFirst else WantAll);
    // a number, or a position inside, selects by place: the nodes must stand in document order first
    var sorted := if cls == PosInv then all else SortDone(all);
    NodeSet(Apply(env, cls, a.right, sorted.nodes, EvalOnce(sorted.order, mode)), sorted.order)
  }

  /** `step_do`. */
  function EvalStep(env: Env, a: Ast, c: Ctx, mode: Mode): NodeSet
    requires a.Ast? && a.kind.Step?
    decreases a, 0, 0
  {
    var axis := a.kind.axis;
    if axis == Namespace then NodeSet([], Unsorted)
    else
      var f := Filter(a.kind.test, a.kind.arg, StepOnceFlag(axis, a.kind.test, a.right, mode));
      if a.left.Nil? then
        StepUnique(axis, StepAll(env, axis, f, a.right, [c.node], 0, mode, NodeSet([], AxisType(axis))))
      else
        var s := EvalNodes(env, a.left, c, WantAll);
        // a self step over ordered nodes leaves them as they were
        var order := if axis == Self then s.order else AxisType(axis);
        StepUnique(axis, StepAll(env, axis, f, a.right, s.nodes, 0, mode, NodeSet([], order)))
  }

  /** `eval_boolean`, `eval_number` and `eval_string` of expressions that are no node sets, in their own type. */
  function EvalScalar(env: Env, a: Ast, c: Ctx): Value
    decreases a, 1, 0
  {
    if a.Nil? then Bool(false)
    else if IsLogic(a.kind) then Bool(EvalLogic(env, a, c))
    else if IsEquality(a.kind) then Bool(EvalEquality(env, a, c))
    else if IsRelation(a.kind) then Bool(EvalRelation(env, a, c))
    else if IsAggregate(a.kind) then EvalAggregate(env, a, c)
    else if a.kind.Call? then EvalCall(env, a, c)
    else if IsRewriting(a.kind) then EvalRewriting(env, a, c)
    else Leaf(env, a.kind, c)
  }

  /** Values that depend on no other expression. */
  function Leaf(env: Env, k: Kind, c: Ctx): Value {
    match k
    case BooleanConstant(b) => Bool(b)
    case StringConstant(s) => Text(s)
    case NumberConstant(n) => Number(n)
    case Variable(name, ty) => Cast(env, ty, env.scalars(name))
    case Last => Number(Fin(c.size as real))
    case Position => Number(Fin(c.position as real))
    case _ => Bool(false)
  }

  predicate EvalLogic(env: Env, a: Ast, c: Ctx)
    requires a.Ast? && IsLogic(a.kind)
    decreases a, 0, 0
  {
    match a.kind
    case Or => AsBool(env, a.left, c) || AsBool(env, a.right, c)
    case And => AsBool(env, a.left, c) && AsBool(env, a.right, c)
    case Not => !AsBool(env, a.left, c)
    case _ => AsBool(env, a.left, c)
  }

  predicate EvalEquality(env: Env, a: Ast, c: Ctx)
    requires a.Ast? && IsEquality(a.kind)
    decreases a, 0, 0
  {
    CompareEq(env, a.kind.Equal?, OperandFor(env, a.left, a.right, c), OperandFor(env, a.right, a.left, c))
  }

  predicate EvalRelation(env: Env, a: Ast, c: Ctx)
    requires a.Ast? && IsRelation(a.kind)
    decreases a, 0, 0
  {
    var x, y := OperandOf(env, a.left, c, WantAll), OperandOf(env, a.right, c, WantAll);
    match a.kind
    case Less => CompareRel(env, true, x, y)
    case Greater => CompareRel(env, true, y, x)
    case LessOrEqual => CompareRel(env, false, x, y)
    case _ => CompareRel(env, false, y, x)
  }

  function EvalAggregate(env: Env, a: Ast, c: Ctx): Value
    requires a.Ast? && IsAggregate(a.kind)
    decreases a, 0, 0
  {
    var ns := EvalNodes(env, a.left, c, if a.kind.FirstCall? then WantFirst else WantAll);
    match a.kind
    case Count => Number(CountOf(ns.nodes))
    case Sum => Number(SumTo(env, ns.nodes, |ns.nodes|))
    case FirstCall(fn) => Cast(env, FnType(fn), env.call(fn, First(ns), []))
  }

  function EvalCall(env: Env, a: Ast, c: Ctx): Value
    requires a.Ast? && a.kind.Call?
    decreases a, 0, 0
  {
    var fn := a.kind.fn;
    Cast(env, FnType(fn), env.call(fn, c.node, FirstArgument(env, fn, a.left, c) + Arguments(env, fn, 1, a.right, c)))
  }

  function EvalRewriting(env: Env, a: Ast, c: Ctx): Value
    requires a.Ast? && IsRewriting(a.kind)
    decreases a, 0, 0
  {
    match a.kind
    case Translate =>
      var to := if a.right.Nil? then "" else AsText(env, a.right.next, c);
      Text(XPathTranslate.TranslateText(AsText(env, a.left, c), AsText(env, a.right, c), to))
    case TranslateTable(table) =>
      Text(if |table| == 128 then XPathTranslate.TableText(AsText(env, a.left, c), table) else "")
    case CompareAttribute =>
      Bool(a.left.Ast? && a.left.kind.Step? && AttributeIs(env, c.node, a.left.kind.arg, AsText(env, a.right, c)))
  }

  predicate AsBool(env: Env, a: Ast, c: Ctx)
    decreases a, 2, 0
  {
    if RetType(a) == NodeSetType then EvalNodes(env, a, c, WantAny).nodes != [] else ToBool(EvalScalar(env, a, c))
  }

  function AsText(env: Env, a: Ast, c: Ctx): string
    decreases a, 2, 0
  {
    if RetType(a) == NodeSetType then
      var ns := EvalNodes(env, a, c, WantFirst);
      if ns.nodes == [] then "" else env.stringValue(First(ns))
    else TextOf(env, EvalScalar(env, a, c))
  }

  function AsNum(env: Env, a: Ast, c: Ctx): Num
    decreases a, 3, 0
  {
    if RetType(a) == NodeSetType then env.toNumber(AsText(env, a, c)) else NumOf(env, EvalScalar(env, a, c))
  }

  function OperandOf(env: Env, a: Ast, c: Ctx, mode: Mode): Operand
    decreases a, 2, 0
  {
    if RetType(a) == NodeSetType then Set(EvalNodes(env, a, c, mode).nodes) else Scalar(EvalScalar(env, a, c))
  }

  /** An operand of `compare_eq`: against a boolean any node will do. */
  function OperandFor(env: Env, a: Ast, other: Ast, c: Ctx): Operand
    decreases a, 3, 0
  {
    OperandOf(env, a, c, if RetType(other) == BooleanType then WantAny else WantAll)
  }

  function Argument(env: Env, fn: Fn, i: nat, a: Ast, c: Ctx): Value
    decreases a, 4, 0
  {
    if NumericArgument(fn, i) then Number(AsNum(env, a, c)) else Text(AsText(env, a, c))
  }

  function FirstArgument(env: Env, fn: Fn, a: Ast, c: Ctx): seq<Value>
    decreases a, 5, 0
  {
    if a.Nil? then [] else [Argument(env, fn, 0, a, c)]
  }

  /** The arguments behind the first one, chained by `next`. */
  function Arguments(env: Env, fn: Fn, i: nat, a: Ast, c: Ctx): seq<Value>
    decreases a, 5, 0
  {
    if a.Nil? then [] else [Argument(env, fn, i, a, c)] + Arguments(env, fn, i + 1, a.next, c)
  }
}
