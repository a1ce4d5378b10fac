/** The query tree (`xpath_ast_node`), its static types, and the values and functions queries work on. */
module XPathAst {
  import opened XmlTree
  import opened XPathOrder
  import opened XPathNodeSet
  import opened XPathAxes
  import opened XPathStep
  import XPathTranslate

  // -------------------------------------------------------------------- values

  /** A double, as far as comparisons see it: rounding is not modelled, NaN and infinities are. */
  datatype Num = NaN | Infinite(positive: bool) | Fin(v: real)

  datatype Type = NodeSetType | NumberType | TextType | BooleanType

  /** A value that is not a node set. */
  datatype Value = Bool(b: bool) | Number(n: Num) | Text(s: string)

  predicate NumEq(x: Num, y: Num) {
    x != NaN && x == y
  }

  predicate NumLess(x: Num, y: Num) {
    match (x, y)
    case (Fin(a), Fin(b)) => a < b
    case (Fin(_), Infinite(positive)) => positive
    case (Infinite(positive), Fin(_)) => !positive
    case (Infinite(p), Infinite(q)) => !p && q
    case _ => false
  }

  /** The exact sum: NaN is contagious and opposite infinities cancel to NaN. */
  function NumAdd(x: Num, y: Num): Num {
    match (x, y)
    case (Fin(a), Fin(b)) => Fin(a + b)
    case (Infinite(p), Infinite(q)) => if p == q then x else NaN
    case (Infinite(_), Fin(_)) => x
    case (Fin(_), Infinite(_)) => y
    case _ => NaN
  }

  // ------------------------------------------------------------------ functions

  /** The library functions and arithmetic operators; without arguments they work on the context node. */
  datatype Fn =
    | Add | Subtract | Multiply | Divide | Mod | Negate | ToNumber | StringLength | Floor | Ceiling | Round
    | Lang | StartsWithFn | Contains
    | ToText | Concat | SubstringBefore | SubstringAfter | Substring | NormalizeSpace
    | LocalName | QualifiedName | NamespaceUri

  function FnType(fn: Fn): Type {
    match fn
    case Lang => BooleanType
    case StartsWithFn => BooleanType
    case Contains => BooleanType
    case ToText => TextType
    case Concat => TextType
    case SubstringBefore => TextType
    case SubstringAfter => TextType
    case Substring => TextType
    case NormalizeSpace => TextType
    case LocalName => TextType
    case QualifiedName => TextType
    case NamespaceUri => TextType
    case _ => NumberType
  }

  /** Whether argument number i is evaluated as a number; else it is evaluated as a string. */
  predicate NumericArgument(fn: Fn, i: nat) {
    (FnType(fn) == NumberType && fn != StringLength) || (fn == Substring && i > 0)
  }

  /**
   What a query is evaluated with: the document, and an arbitrary meaning of the library
   functions, of conversions between strings and numbers, and of variables.
   */
  datatype Env = Env(
    tree: Tree,
    stringValue: XNode -> string,
    toNumber: string -> Num,
    toText: Num -> string,
    call: (Fn, XNode, seq<Value>) -> Value,
    scalars: string -> Value,
    nodeSets: string -> NodeSet)

  /** Node-set variables hold nodes of the document, each once, in the order they claim. */
  ghost predicate EnvOk(env: Env) {
    forall name :: OrderHolds(env.nodeSets(name)) && forall x | x in env.nodeSets(name).nodes :: Real(env, x)
  }

  predicate Real(env: Env, x: XNode) {
    !x.Nothing? && ValidNode(env.tree, x)
  }

  predicate ToBool(v: Value) {
    match v
    case Bool(b) => b
    case Number(n) => n != NaN && n != Fin(0.0)
    case Text(s) => s != ""
  }

  function TextOf(env: Env, v: Value): string {
    match v
    case Bool(b) => if b then "true" else "false"
    case Number(n) => env.toText(n)
    case Text(s) => s
  }

  function NumOf(env: Env, v: Value): Num {
    match v
    case Bool(b) => Fin(if b then 1.0 else 0.0)
    case Number(n) => n
    case Text(s) => env.toNumber(s)
  }

  /** v as a value of the given type. */
  function Cast(env: Env, ty: Type, v: Value): Value {
    match ty
    case BooleanType => Bool(ToBool(v))
    case NumberType => Number(NumOf(env, v))
    case _ => Text(TextOf(env, v))
  }

  // ----------------------------------------------------------------- query tree

  /** A constant of the query: a C string ends at its terminator. */
  type CString = s: string | XPathTranslate.NulFree(s)

  /** `predicate_t`: what optimization has found out about a predicate. */
  datatype Class = Default | PosInv | Constant | ConstantOne

  datatype Kind =
    | Or | And | Not | ToBoolean | BooleanConstant(b: bool)
    | Equal | NotEqual | Less | Greater | LessOrEqual | GreaterOrEqual
    | Last | Position | Count | Sum | Id | Union
    | StringConstant(s: CString) | NumberConstant(n: Num) | Variable(name: string, ty: Type)
    | Call(fn: Fn) | FirstCall(fn: Fn) | Translate
    | PredicateNode(cls: Class) | FilterNode(cls: Class)
    | Step(axis: Axis, test: Test, arg: string) | StepRoot
    | TranslateTable(table: seq<nat>) | CompareAttribute

  predicate IsLogic(k: Kind) {
    k.Or? || k.And? || k.Not? || k.ToBoolean?
  }

  predicate IsEquality(k: Kind) {
    k.Equal? || k.NotEqual?
  }

  predicate IsRelation(k: Kind) {
    k.Less? || k.Greater? || k.LessOrEqual? || k.GreaterOrEqual?
  }

  predicate IsAggregate(k: Kind) {
    k.Count? || k.Sum? || k.FirstCall?
  }

  predicate IsRewriting(k: Kind) {
    k.Translate? || k.TranslateTable? || k.CompareAttribute?
  }

  /** A query node with its children; further predicates and arguments hang on `next`. */
  datatype Ast = Nil | Ast(kind: Kind, left: Ast, right: Ast, next: Ast)

  /** `rettype`. */
  function RetType(a: Ast): Type {
    if a.Nil? then NodeSetType
    else match a.kind
      case Or => BooleanType
      case And => BooleanType
      case Not => BooleanType
      case ToBoolean => BooleanType
      case BooleanConstant(_) => BooleanType
      case Equal => BooleanType
      case NotEqual => BooleanType
      case Less => BooleanType
      case Greater => BooleanType
      case LessOrEqual => BooleanType
      case GreaterOrEqual => BooleanType
      case CompareAttribute => BooleanType
      case Last => NumberType
      case Position => NumberType
      case Count => NumberType
      case Sum => NumberType
      case NumberConstant(_) => NumberType
      case StringConstant(_) => TextType
      case Translate => TextType
      case TranslateTable(_) => TextType
      case Variable(_, ty) => ty
      case Call(fn) => FnType(fn)
      case FirstCall(fn) => FnType(fn)
      case _ => NodeSetType
  }

  /** `is_posinv_expr`: the value does not depend on the context position and size. */
  predicate IsPosInv(a: Ast)
    decreases a, 0
  {
    if a.Nil? then true
    else match a.kind
      case Position => false
      case Last => false
      case StringConstant(_) => true
      case NumberConstant(_) => true
      case Variable(_, _) => true
      case Step(_, _, _) => true
      case StepRoot => true
      case PredicateNode(_) => true
      case FilterNode(_) => true
      case _ => IsPosInv(a.left) && AllPosInv(a.right)
  }

  predicate AllPosInv(a: Ast)
    decreases a, 1
  {
    a.Nil? || (IsPosInv(a) && AllPosInv(a.next))
  }

  function ClassOf(pred: Ast): Class {
    if pred.Ast? && pred.kind.PredicateNode? then pred.kind.cls else Default
  }

  /** `is_posinv_step`. */
  predicate IsPosInvStep(preds: Ast)
    decreases preds
  {
    preds.Nil? || (ClassOf(preds) == PosInv && IsPosInvStep(preds.next))
  }

  /** A class tells the truth about the predicate expression. */
  predicate Truthful(cls: Class, e: Ast) {
    match cls
    case Default => true
    case ConstantOne => e.Ast? && e.kind == NumberConstant(Fin(1.0))
    case Constant => e.Ast? && RetType(e) == NumberType && (e.kind.NumberConstant? || e.kind.Variable? || e.kind.Last?)
    case PosInv => RetType(e) != NumberType && IsPosInv(e)
  }

  /** The shape the query parser produces: node sets where it demands them, predicates chained on steps. */
  predicate WellFormed(a: Ast)
    decreases a
  {
    a.Nil? ||
    (&& WellFormed(a.left) && WellFormed(a.right) && WellFormed(a.next)
     && match a.kind
        case Union => RetType(a.left) == NodeSetType && RetType(a.right) == NodeSetType
        case FilterNode(cls) => RetType(a.left) == NodeSetType && Truthful(cls, a.right)
        case PredicateNode(cls) => Truthful(cls, a.right) && IsPredicateChain(a.next)
        case Step(_, _, _) => RetType(a.left) == NodeSetType && IsPredicateChain(a.right)
        case Count => RetType(a.left) == NodeSetType
        case Sum => RetType(a.left) == NodeSetType
        case FirstCall(_) => RetType(a.left) == NodeSetType
        case _ => true)
  }

  predicate IsPredicateChain(a: Ast) {
    a.Nil? || a.kind.PredicateNode?
  }
}
