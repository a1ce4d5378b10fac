/**
 What the parts of a query mean, one by one: predicates, the constants and the context
 position and size, conversions (section 4 of XPath 1.0), operators (section 3.3 to 3.5)
 and the functions on node sets (section 4.1).
 */
module XPathLaws {
  import opened XmlTree
  import opened XPathOrder
  import opened XPathNodeSet
  import opened XPathAxes
  import opened XPathStep
  import opened XPathFill
  import opened XPathAst
  import opened XPathEval
  import opened XPathMeaning
  import opened XPathAgree
  import opened XPathSteps
  import opened XPathRefine
  import XPathTranslate

  /** A query node without operands. */
  function Plain(k: Kind): Ast {
    Ast(k, Nil, Nil, Nil)
  }

  // ------------------------------------------------- constants, position and size

  lemma LastValue(env: Env, c: Ctx)
    ensures MeanNum(env, Plain(Last), c) == Fin(c.size as real)
  {
    assert MeanScalar(env, Plain(Last), c) == Number(Fin(c.size as real));
  }

  lemma PositionValue(env: Env, c: Ctx)
    ensures MeanNum(env, Plain(Position), c) == Fin(c.position as real)
  {
    assert MeanScalar(env, Plain(Position), c) == Number(Fin(c.position as real));
  }

  /** A number constant as a number, as a boolean and as a string. */
  lemma NumberValue(env: Env, n: Num, c: Ctx)
    ensures MeanNum(env, Plain(NumberConstant(n)), c) == n
    ensures MeanBool(env, Plain(NumberConstant(n)), c) <==> n != NaN && n != Fin(0.0)
    ensures MeanText(env, Plain(NumberConstant(n)), c) == env.toText(n)
  {
    assert MeanScalar(env, Plain(NumberConstant(n)), c) == Number(n);
  }

  lemma TruthValue(env: Env, b: bool, c: Ctx)
    ensures MeanBool(env, Plain(BooleanConstant(b)), c) <==> b
    ensures MeanNum(env, Plain(BooleanConstant(b)), c) == Fin(if b then 1.0 else 0.0)
    ensures MeanText(env, Plain(BooleanConstant(b)), c) == if b then "true" else "false"
  {
    assert MeanScalar(env, Plain(BooleanConstant(b)), c) == Bool(b);
  }

  lemma StringValue(env: Env, s: CString, c: Ctx)
    ensures MeanText(env, Plain(StringConstant(s)), c) == s
    ensures MeanBool(env, Plain(StringConstant(s)), c) <==> s != ""
    ensures MeanNum(env, Plain(StringConstant(s)), c) == env.toNumber(s)
  {
    assert MeanScalar(env, Plain(StringConstant(s)), c) == Text(s);
  }

  // ------------------------------------------------- leaves as predicates

  lemma {:induction false} LastFrom(env: Env, list: seq<XNode>, i: nat)
    requires i <= |list|
    ensures MeanSelect(env, Plain(Last), list, i) == if i < |list| then [list[|list| - 1]] else []
    decreases |list| - i
  {
    if i < |list| {
      LastFrom(env, list, i + 1);
      LastValue(env, Ctx(list[i], i + 1, |list|));
    }
  }

  lemma {:induction false} PositionFrom(env: Env, list: seq<XNode>, i: nat)
    requires i <= |list|
    ensures MeanSelect(env, Plain(Position), list, i) == list[i..]
    decreases |list| - i
  {
    if i < |list| {
      PositionFrom(env, list, i + 1);
      PositionValue(env, Ctx(list[i], i + 1, |list|));
      assert list[i..] == [list[i]] + list[i + 1..];
    }
  }

  /** n is the place k. */
  predicate IsPlace(n: Num, k: nat) {
    n == Fin(k as real)
  }

  lemma NumberHit(env: Env, n: Num, x: XNode, position: nat, size: nat)
    ensures MeanHit(env, Plain(NumberConstant(n)), Ctx(x, position, size)) <==> IsPlace(n, position)
  {
    NumberValue(env, n, Ctx(x, position, size));
  }

  lemma SelectCut(env: Env, e: Ast, list: seq<XNode>, i: nat)
    requires i < |list|
    ensures MeanSelect(env, e, list, i)
         == (if MeanHit(env, e, Ctx(list[i], i + 1, |list|)) then [list[i]] else []) + MeanSelect(env, e, list, i + 1)
  {
  }

  lemma {:induction false} NumberFrom(env: Env, n: Num, list: seq<XNode>, i: nat)
    requires i <= |list|
    ensures forall k: nat | IsPlace(n, k) ::
              MeanSelect(env, Plain(NumberConstant(n)), list, i) == if i < k <= |list| then [list[k - 1]] else []
    ensures (forall k: nat :: !IsPlace(n, k)) ==> MeanSelect(env, Plain(NumberConstant(n)), list, i) == []
    decreases |list| - i
  {
    if i < |list| {
      NumberFrom(env, n, list, i + 1);
      NumberHit(env, n, list[i], i + 1, |list|);
      SelectCut(env, Plain(NumberConstant(n)), list, i);
    }
  }

  lemma {:induction false} BooleanFrom(env: Env, b: bool, list: seq<XNode>, i: nat)
    requires i <= |list|
    ensures MeanSelect(env, Plain(BooleanConstant(b)), list, i) == if b then list[i..] else []
    decreases |list| - i
  {
    if i < |list| {
      BooleanFrom(env, b, list, i + 1);
      TruthValue(env, b, Ctx(list[i], i + 1, |list|));
      assert list[i..] == [list[i]] + list[i + 1..];
    }
  }

  lemma {:induction false} StringFrom(env: Env, s: CString, list: seq<XNode>, i: nat)
    requires i <= |list|
    ensures MeanSelect(env, Plain(StringConstant(s)), list, i) == if s != "" then list[i..] else []
    decreases |list| - i
  {
    if i < |list| {
      StringFrom(env, s, list, i + 1);
      StringValue(env, s, Ctx(list[i], i + 1, |list|));
      assert list[i..] == [list[i]] + list[i + 1..];
    }
  }

  /** `[last()]` selects the last node, evaluated node by node or as a constant. */
  lemma LastSelects(env: Env, cls: Class, list: seq<XNode>, once: bool)
    requires list != [] && (cls == Default || cls == Constant)
    requires EnvOk(env) && forall x | x in list :: ValidNode(env.tree, x)
    ensures MeanSelect(env, Plain(Last), list, 0) == [list[|list| - 1]]
    ensures Apply(env, cls, Plain(Last), list, once) == [list[|list| - 1]]
  {
    LastFrom(env, list, 0);
    ApplyRefines(env, cls, Plain(Last), list, once);
  }

  /** `[position()]` selects every node: the position is the position. */
  lemma PositionSelects(env: Env, list: seq<XNode>)
    requires EnvOk(env) && forall x | x in list :: ValidNode(env.tree, x)
    ensures MeanSelect(env, Plain(Position), list, 0) == list
    ensures Apply(env, Default, Plain(Position), list, false) == list
  {
    PositionFrom(env, list, 0);
    assert list[0..] == list;
    ApplyRefines(env, Default, Plain(Position), list, false);
  }

  /** `[k]` selects the node at place k, if there is one; any other number selects none. */
  lemma NumberSelects(env: Env, cls: Class, n: Num, list: seq<XNode>)
    requires cls == Default || cls == Constant
    requires EnvOk(env) && forall x | x in list :: ValidNode(env.tree, x)
    ensures forall k: nat | IsPlace(n, k) ::
              MeanSelect(env, Plain(NumberConstant(n)), list, 0) == if 0 < k <= |list| then [list[k - 1]] else []
    ensures (forall k: nat :: !IsPlace(n, k)) ==> MeanSelect(env, Plain(NumberConstant(n)), list, 0) == []
    ensures Apply(env, cls, Plain(NumberConstant(n)), list, false) == MeanSelect(env, Plain(NumberConstant(n)), list, 0)
  {
    NumberFrom(env, n, list, 0);
    ApplyRefines(env, cls, Plain(NumberConstant(n)), list, false);
  }

  /** A boolean or string constant selects all nodes or none. */
  lemma TruthSelects(env: Env, b: bool, s: CString, list: seq<XNode>)
    ensures MeanSelect(env, Plain(BooleanConstant(b)), list, 0) == if b then list else []
    ensures MeanSelect(env, Plain(StringConstant(s)), list, 0) == if s != "" then list else []
  {
    BooleanFrom(env, b, list, 0);
    StringFrom(env, s, list, 0);
    assert list[0..] == list;
  }

  /** A variable of the type that its value has stands for that value. */
  lemma VariableValue(env: Env, name: string, c: Ctx)
    ensures env.scalars(name).Number? ==> MeanNum(env, Plain(Variable(name, NumberType)), c) == env.scalars(name).n
    ensures env.scalars(name).Text? ==> MeanText(env, Plain(Variable(name, TextType)), c) == env.scalars(name).s
    ensures env.scalars(name).Bool? ==> (MeanBool(env, Plain(Variable(name, BooleanType)), c) <==> env.scalars(name).b)
    ensures forall y :: y in MeanNodes(env, Plain(Variable(name, NodeSetType)), c) <==>
                          y in env.nodeSets(name).nodes && !y.Nothing?
  {
    var v := env.scalars(name);
    assert v.Number? ==> MeanScalar(env, Plain(Variable(name, NumberType)), c) == v;
    assert v.Text? ==> MeanScalar(env, Plain(Variable(name, TextType)), c) == v;
    assert v.Bool? ==> MeanScalar(env, Plain(Variable(name, BooleanType)), c) == v;
    CanonMeaning(env.nodeSets(name).nodes);
  }

  // ------------------------------------------------------------------ predicates

  /** The elements from number i on for which a test of their position holds. */
  function Kept(list: seq<XNode>, holds: nat -> bool, i: nat): seq<XNode>
    requires i <= |list|
    decreases |list| - i
  {
    if i == |list| then [] else (if holds(i + 1) then [list[i]] else []) + Kept(list, holds, i + 1)
  }

  const NUMBER_FUNCTIONS: set<Fn> :=
    {Add, Subtract, Multiply, Divide, Mod, Negate, ToNumber, StringLength, Floor, Ceiling, Round}

  const TEXT_FUNCTIONS: set<Fn> :=
    {ToText, Concat, SubstringBefore, SubstringAfter, Substring, NormalizeSpace, LocalName, QualifiedName, NamespaceUri}

  const BOOLEAN_FUNCTIONS: set<Fn> := {Lang, StartsWithFn, Contains}

  /** Expressions whose value is a number (sections 3.5 and 4 of XPath 1.0). */
  predicate IsNumeric(e: Ast) {
    && e.Ast?
    && match e.kind
       case Last => true
       case Position => true
       case Count => true
       case Sum => true
       case NumberConstant(_) => true
       case Variable(_, ty) => ty == NumberType
       case Call(fn) => fn in NUMBER_FUNCTIONS
       case FirstCall(fn) => fn in NUMBER_FUNCTIONS
       case _ => false
  }

  predicate IsText(e: Ast) {
    && e.Ast?
    && match e.kind
       case StringConstant(_) => true
       case Translate => true
       case TranslateTable(_) => true
       case Variable(_, ty) => ty == TextType
       case Call(fn) => fn in TEXT_FUNCTIONS
       case FirstCall(fn) => fn in TEXT_FUNCTIONS
       case _ => false
  }

  predicate IsNodeSet(e: Ast) {
    e.Nil? || match e.kind
              case Union => true
              case Id => true
              case FilterNode(_) => true
              case PredicateNode(_) => true
              case Step(_, _, _) => true
              case StepRoot => true
              case Variable(_, ty) => ty == NodeSetType
              case _ => false
  }

  /** The static type of an expression. */
  lemma Types(e: Ast)
    ensures RetType(e) == NumberType <==> IsNumeric(e)
    ensures RetType(e) == TextType <==> IsText(e)
    ensures RetType(e) == NodeSetType <==> IsNodeSet(e)
  {
  }

  /** A numeric predicate keeps the nodes at the position it computes, any other those for which it is true. */
  lemma {:induction false} PredicateSelects(env: Env, e: Ast, list: seq<XNode>, i: nat)
    requires i <= |list|
    ensures IsNumeric(e) ==>
              MeanSelect(env, e, list, i) == Kept(list, k => 1 <= k <= |list| && MeanNum(env, e, Ctx(list[k - 1], k, |list|)) == Fin(k as real), i)
    ensures !IsNumeric(e) ==>
              MeanSelect(env, e, list, i) == Kept(list, k => 1 <= k <= |list| && MeanBool(env, e, Ctx(list[k - 1], k, |list|)), i)
    decreases |list| - i
  {
    Types(e);
    if i < |list| {
      PredicateSelects(env, e, list, i + 1);
    }
  }

  // ----------------------------------------------------------- logic (section 3.4)

  lemma Logic(env: Env, a: Ast, b: Ast, next: Ast, c: Ctx)
    ensures MeanBool(env, Ast(Or, a, b, next), c) <==> MeanBool(env, a, c) || MeanBool(env, b, c)
    ensures MeanBool(env, Ast(And, a, b, next), c) <==> MeanBool(env, a, c) && MeanBool(env, b, c)
    ensures MeanBool(env, Ast(Not, a, b, next), c) <==> !MeanBool(env, a, c)
    ensures MeanBool(env, Ast(ToBoolean, a, b, next), c) <==> MeanBool(env, a, c)
  {
    assert MeanScalar(env, Ast(Or, a, b, next), c) == Bool(MeanBool(env, a, c) || MeanBool(env, b, c));
    assert MeanScalar(env, Ast(And, a, b, next), c) == Bool(MeanBool(env, a, c) && MeanBool(env, b, c));
    assert MeanScalar(env, Ast(Not, a, b, next), c) == Bool(!MeanBool(env, a, c));
    assert MeanScalar(env, Ast(ToBoolean, a, b, next), c) == Bool(MeanBool(env, a, c));
  }

  // ----------------------------------------------------- comparisons (section 3.4)

  /** `=` (eq) or `!=` of two expressions. */
  function Compared(eq: bool, a: Ast, b: Ast): Ast {
    Ast(if eq then Equal else NotEqual, a, b, Nil)
  }

  /** The kind of value an expression has is that of its static type. */
  lemma ScalarTyped(env: Env, e: Ast, c: Ctx)
    requires !IsNodeSet(e)
    ensures MeanScalar(env, e, c).Number? <==> IsNumeric(e)
    ensures MeanScalar(env, e, c).Text? <==> IsText(e)
  {
  }

  lemma ComparedScalar(env: Env, eq: bool, a: Ast, b: Ast, c: Ctx)
    ensures MeanBool(env, Compared(eq, a, b), c) == CompareEq(env, eq, MeanOperand(env, a, c), MeanOperand(env, b, c))
  {
    assert MeanScalar(env, Compared(eq, a, b), c) == Bool(MeanEquality(env, Compared(eq, a, b), c));
  }

  /** Two node sets: some pair of nodes whose string values compare so. */
  lemma ComparedSets(env: Env, eq: bool, a: Ast, b: Ast, c: Ctx)
    requires IsNodeSet(a) && IsNodeSet(b)
    ensures MeanBool(env, Compared(eq, a, b), c) <==>
              exists x, y | x in MeanNodes(env, a, c) && y in MeanNodes(env, b, c) ::
                (env.stringValue(x) == env.stringValue(y)) == eq
  {
    ComparedScalar(env, eq, a, b, c);
    var s, u := MeanNodes(env, a, c), MeanNodes(env, b, c);
    forall x, y | x in s && y in u && (env.stringValue(x) == env.stringValue(y)) == eq
      ensures CompareEq(env, eq, Set(s), Set(u))
    {
      assert env.stringValue(x) in Texts(env, s) && env.stringValue(y) in Texts(env, u);
    }
  }

  /** A node set and something else: some node compares so, or for a boolean whether there is one. */
  lemma ComparedMixed(env: Env, eq: bool, a: Ast, b: Ast, c: Ctx)
    requires IsNodeSet(a) && !IsNodeSet(b)
    ensures MeanBool(env, Compared(eq, a, b), c) == MeanBool(env, Compared(eq, b, a), c)
    ensures MeanBool(env, Compared(eq, a, b), c) <==>
              if IsNumeric(b) then
                exists x | x in MeanNodes(env, a, c) :: NumEq(env.toNumber(env.stringValue(x)), MeanNum(env, b, c)) == eq
              else if IsText(b) then
                exists x | x in MeanNodes(env, a, c) :: (env.stringValue(x) == MeanText(env, b, c)) == eq
              else ((MeanNodes(env, a, c) != []) == MeanBool(env, b, c)) == eq
  {
    ComparedScalar(env, eq, a, b, c);
    ComparedScalar(env, eq, b, a, c);
    ScalarTyped(env, b, c);
    SetAgainst(env, eq, MeanScalar(env, b, c), MeanNodes(env, a, c));
  }

  lemma SetAgainst(env: Env, eq: bool, v: Value, s: seq<XNode>)
    ensures CompareScalar(env, eq, v, Set(s)) <==>
              match v
              case Number(n) => exists x | x in s :: NumEq(env.toNumber(env.stringValue(x)), n) == eq
              case Text(w) => exists x | x in s :: (env.stringValue(x) == w) == eq
              case Bool(b) => ((s != []) == b) == eq
  {
    forall x | x in s ensures env.stringValue(x) in Texts(env, s) && env.toNumber(env.stringValue(x)) in Nums(env, Set(s)) {
    }
  }

  /** No node set: as booleans if one is a boolean, else as numbers if one is a number, else as strings. */
  lemma ComparedScalars(env: Env, eq: bool, a: Ast, b: Ast, c: Ctx)
    requires !IsNodeSet(a) && !IsNodeSet(b)
    ensures MeanBool(env, Compared(eq, a, b), c) <==>
              if !(IsNumeric(a) || IsText(a)) || !(IsNumeric(b) || IsText(b)) then
                (MeanBool(env, a, c) == MeanBool(env, b, c)) == eq
              else if IsNumeric(a) || IsNumeric(b) then NumEq(MeanNum(env, a, c), MeanNum(env, b, c)) == eq
              else (MeanText(env, a, c) == MeanText(env, b, c)) == eq
  {
    ComparedScalar(env, eq, a, b, c);
    ScalarTyped(env, a, c);
    ScalarTyped(env, b, c);
  }

  /** The numbers an expression stands for in `<` and its like: one for each node, or its own. */
  ghost predicate StandsFor(env: Env, e: Ast, c: Ctx, n: Num) {
    if IsNodeSet(e) then exists x | x in MeanNodes(env, e, c) :: n == env.toNumber(env.stringValue(x))
    else n == MeanNum(env, e, c)
  }

  predicate Related(k: Kind, x: Num, y: Num) {
    match k
    case Less => NumLess(x, y)
    case LessOrEqual => NumLess(x, y) || NumEq(x, y)
    case Greater => NumLess(y, x)
    case GreaterOrEqual => NumLess(y, x) || NumEq(x, y)
    case _ => false
  }

  lemma OperandStands(env: Env, e: Ast, c: Ctx, n: Num)
    ensures n in Nums(env, MeanOperand(env, e, c)) <==> StandsFor(env, e, c, n)
  {
    if IsNodeSet(e) {
      var s := MeanNodes(env, e, c);
      forall x | x in s ensures env.toNumber(env.stringValue(x)) in Nums(env, Set(s)) {
        assert env.stringValue(x) in Texts(env, s);
      }
    }
  }

  lemma RelatedNumbers(env: Env, k: Kind, x: Operand, y: Operand)
    requires k in {Less, LessOrEqual, Greater, GreaterOrEqual}
    ensures (exists m, n :: m in Nums(env, x) && n in Nums(env, y) && Related(k, m, n)) <==>
              match k
              case Less => CompareRel(env, true, x, y)
              case Greater => CompareRel(env, true, y, x)
              case LessOrEqual => CompareRel(env, false, x, y)
              case _ => CompareRel(env, false, y, x)
  {
  }

  /** `<`, `<=`, `>` and `>=` hold when some number of one side is so related to one of the other. */
  lemma RelatedMeans(env: Env, k: Kind, a: Ast, b: Ast, c: Ctx)
    requires k in {Less, LessOrEqual, Greater, GreaterOrEqual}
    ensures MeanBool(env, Ast(k, a, b, Nil), c) <==>
              exists x, y :: StandsFor(env, a, c, x) && StandsFor(env, b, c, y) && Related(k, x, y)
  {
    var x, y := MeanOperand(env, a, c), MeanOperand(env, b, c);
    assert MeanScalar(env, Ast(k, a, b, Nil), c) == Bool(MeanRelation(env, Ast(k, a, b, Nil), c));
    assert MeanRelation(env, Ast(k, a, b, Nil), c) <==> match k
      case Less => CompareRel(env, true, x, y)
      case Greater => CompareRel(env, true, y, x)
      case LessOrEqual => CompareRel(env, false, x, y)
      case _ => CompareRel(env, false, y, x);
    RelatedNumbers(env, k, x, y);
    forall n: Num
      ensures n in Nums(env, x) <==> StandsFor(env, a, c, n)
      ensures n in Nums(env, y) <==> StandsFor(env, b, c, n)
    {
      OperandStands(env, a, c, n);
      OperandStands(env, b, c, n);
    }
  }

  // ------------------------------------------------------------ numbers (section 3.5)

  /** All numbers but NaN are in one strict order, with the infinities at its ends; NaN compares with nothing. */
  lemma NumbersOrdered(x: Num, y: Num, z: Num, a: real, b: real)
    ensures NumLess(x, y) ==> !NumLess(y, x) && !NumEq(x, y)
    ensures x != NaN && y != NaN ==> NumLess(x, y) || NumEq(x, y) || NumLess(y, x)
    ensures NumLess(x, y) && NumLess(y, z) ==> NumLess(x, z)
    ensures x != NaN ==> NumEq(x, x)
    ensures !NumEq(NaN, x) && !NumEq(x, NaN) && !NumLess(NaN, x) && !NumLess(x, NaN)
    ensures NumEq(x, y) ==> x == y
    ensures NumLess(Fin(a), Fin(b)) <==> a < b
    ensures NumLess(Infinite(false), Fin(a)) && NumLess(Fin(a), Infinite(true))
  {
  }

  /** Sums: NaN is contagious, opposite infinities give NaN, and an infinity swallows what is finite. */
  lemma NumbersAdded(x: Num, y: Num, z: Num, a: real, b: real, p: bool)
    ensures NumAdd(x, y) == NumAdd(y, x)
    ensures NumAdd(NumAdd(x, y), z) == NumAdd(x, NumAdd(y, z))
    ensures NumAdd(Fin(0.0), x) == x
    ensures NumAdd(Fin(a), Fin(b)) == Fin(a + b)
    ensures NumAdd(Infinite(p), Fin(a)) == Infinite(p)
    ensures NumAdd(NaN, x) == NaN && NumAdd(Infinite(p), Infinite(!p)) == NaN && NumAdd(Infinite(p), Infinite(p)) == Infinite(p)
  {
  }

  // ------------------------------------------------- functions on node sets (section 4.1)

  /** A node set as a boolean, as the string of its first node, and as the number of that. */
  lemma NodeSetValue(env: Env, e: Ast, c: Ctx)
    requires IsNodeSet(e)
    ensures var s := MeanNodes(env, e, c);
            && (MeanBool(env, e, c) <==> |s| > 0)
            && MeanText(env, e, c) == (if |s| > 0 then env.stringValue(s[0]) else "")
            && MeanNum(env, e, c) == env.toNumber(MeanText(env, e, c))
  {
  }

  /** `count()` counts the nodes, `sum()` adds the numbers of their string values. */
  lemma Aggregates(env: Env, e: Ast, next: Ast, c: Ctx)
    ensures MeanNum(env, Ast(Count, e, Nil, next), c) == Fin(|MeanNodes(env, e, c)| as real)
    ensures MeanNum(env, Ast(Sum, e, Nil, next), c) == SumOf(env, MeanNodes(env, e, c))
  {
    var s := MeanNodes(env, e, c);
    assert MeanScalar(env, Ast(Count, e, Nil, next), c) == Number(Fin(|s| as real));
    assert MeanScalar(env, Ast(Sum, e, Nil, next), c) == Number(SumTo(env, s, |s|));
    SumIs(env, s, |s|);
    assert s[..|s|] == s;
  }

  /** The numbers of the nodes added from the last to the first. */
  function SumOf(env: Env, s: seq<XNode>): Num {
    if s == [] then Fin(0.0) else NumAdd(env.toNumber(env.stringValue(s[0])), SumOf(env, s[1..]))
  }

  lemma {:induction false} SumAppended(env: Env, s: seq<XNode>, x: XNode)
    ensures SumOf(env, s + [x]) == NumAdd(SumOf(env, s), env.toNumber(env.stringValue(x)))
    decreases |s|
  {
    if s == [] {
      assert [] + [x] == [x] && [x][1..] == [];
      NumbersAdded(Fin(0.0), env.toNumber(env.stringValue(x)), NaN, 0.0, 0.0, true);
    } else {
      assert (s + [x])[1..] == s[1..] + [x];
      SumAppended(env, s[1..], x);
      NumbersAdded(env.toNumber(env.stringValue(s[0])), SumOf(env, s[1..]), env.toNumber(env.stringValue(x)), 0.0, 0.0, true);
    }
  }

  lemma {:induction false} SumIs(env: Env, s: seq<XNode>, n: nat)
    requires n <= |s|
    ensures SumTo(env, s, n) == SumOf(env, s[..n])
  {
    if n > 0 {
      SumIs(env, s, n - 1);
      assert s[..n] == s[..n - 1] + [s[n - 1]];
      SumAppended(env, s[..n - 1], s[n - 1]);
    }
  }

  // ---------------------------------------------------------------------- node sets

  /** A union has the nodes of both sides, each once, in document order. */
  lemma UnionNodes(env: Env, a: Ast, b: Ast, next: Ast, c: Ctx)
    ensures var u := MeanNodes(env, Ast(Union, a, b, next), c);
            && InDocOrder(u)
            && forall x :: x in u <==> !x.Nothing? && (x in MeanNodes(env, a, c) || x in MeanNodes(env, b, c))
  {
    CanonMeaning(MeanNodes(env, a, c) + MeanNodes(env, b, c));
    assert MeanNodes(env, Ast(Union, a, b, next), c) == MeanUnion(env, Ast(Union, a, b, next), c);
  }

  /** A filter numbers the nodes of its operand in document order. */
  lemma FilterNodes(env: Env, cls: Class, a: Ast, e: Ast, next: Ast, c: Ctx)
    ensures MeanNodes(env, Ast(FilterNode(cls), a, e, next), c) == MeanSelect(env, e, MeanNodes(env, a, c), 0)
  {
    assert MeanNodes(env, Ast(FilterNode(cls), a, e, next), c) == MeanFilter(env, Ast(FilterNode(cls), a, e, next), c);
  }

  /** The nodes whose step is taken: those of the step before, else the context node. */
  function Origins(env: Env, before: Ast, c: Ctx): seq<XNode> {
    if before.Nil? then [c.node] else MeanNodes(env, before, c)
  }

  lemma StepIs(w: Walk, before: Ast, next: Ast, c: Ctx)
    ensures MeanNodes(w.env, Ast(Step(w.axis, w.test, w.arg), before, w.preds, next), c)
         == Canon(MeanSteps(w.env, w.axis, w.test, w.arg, w.preds, Origins(w.env, before, c), 0))
  {
    var a := Ast(Step(w.axis, w.test, w.arg), before, w.preds, next);
    assert MeanNodes(w.env, a, c) == MeanStep(w.env, a, c);
  }

  /** A step selects, in document order, what its axis, test and predicates leave of some node it starts from. */
  lemma StepSelects(w: Walk, before: Ast, next: Ast, c: Ctx, y: XNode)
    ensures var nodes := MeanNodes(w.env, Ast(Step(w.axis, w.test, w.arg), before, w.preds, next), c);
            && InDocOrder(nodes)
            && (y in nodes <==> !y.Nothing? && FromAny(FromFn(w), Origins(w.env, before, c), y))
  {
    var s := Origins(w.env, before, c);
    StepIs(w, before, next, c);
    SomeSelects(w, s, y);
  }

  lemma SomeSelects(w: Walk, s: seq<XNode>, y: XNode)
    ensures var nodes := Canon(MeanSteps(w.env, w.axis, w.test, w.arg, w.preds, s, 0));
            InDocOrder(nodes) && (y in nodes <==> !y.Nothing? && FromAny(FromFn(w), s, y))
  {
    CanonMeaning(MeanSteps(w.env, w.axis, w.test, w.arg, w.preds, s, 0));
    MeanStepsMeaning(w, s, 0);
    assert s[0..] == s;
  }

  /** Predicates run one after the other, each on what the one before has kept. */
  lemma PredicatesRun(env: Env, cls: Class, left: Ast, e: Ast, more: Ast, list: seq<XNode>)
    ensures MeanPredicates(env, Nil, list) == list
    ensures MeanPredicates(env, Ast(PredicateNode(cls), left, e, more), list)
         == MeanPredicates(env, more, MeanSelect(env, e, list, 0))
  {
  }

  /** The root, and the functions and axes that have no nodes here. */
  lemma RootNodes(env: Env, a: Ast, b: Ast, next: Ast, c: Ctx)
    ensures c.node.Nothing? ==> MeanNodes(env, Plain(StepRoot), c) == []
    ensures !c.node.Nothing? ==> MeanNodes(env, Plain(StepRoot), c) == [Node([])]
    ensures MeanNodes(env, Ast(Id, a, b, next), c) == []
  {
  }

  // -------------------------------------------------- calls (sections 3.2, 4.2 to 4.4)

  /** The functions whose arguments are numbers; others take strings, but for the places of `substring()`. */
  function Passed(env: Env, fn: Fn, i: nat, a: Ast, c: Ctx): Value {
    if fn in NUMBER_FUNCTIONS - {StringLength} || (fn == Substring && i > 0) then Number(MeanNum(env, a, c))
    else Text(MeanText(env, a, c))
  }

  /** A value of the type that a function returns. */
  predicate Returns(fn: Fn, v: Value) {
    if fn in NUMBER_FUNCTIONS then v.Number? else if fn in TEXT_FUNCTIONS then v.Text? else v.Bool?
  }

  lemma ReturnedValue(env: Env, fn: Fn, v: Value)
    requires Returns(fn, v)
    ensures Cast(env, FnType(fn), v) == v
  {
  }

  lemma PassedArgument(env: Env, fn: Fn, i: nat, a: Ast, c: Ctx)
    ensures MeanArgument(env, fn, i, a, c) == Passed(env, fn, i, a, c)
  {
  }

  /** The expressions chained by `next`. */
  function Chained(a: Ast): seq<Ast> {
    if a.Nil? then [] else [a] + Chained(a.next)
  }

  /** What is passed for expressions from argument number i on. */
  function PassedAll(env: Env, fn: Fn, i: nat, s: seq<Ast>, c: Ctx): (r: seq<Value>)
    ensures |r| == |s| && forall k | 0 <= k < |s| :: r[k] == Passed(env, fn, i + k, s[k], c)
  {
    seq(|s|, k requires 0 <= k < |s| => Passed(env, fn, i + k, s[k], c))
  }

  lemma {:induction false} ArgumentsPassed(env: Env, fn: Fn, i: nat, a: Ast, c: Ctx)
    ensures MeanArguments(env, fn, i, a, c) == PassedAll(env, fn, i, Chained(a), c)
    decreases a
  {
    if a.Ast? {
      PassedArgument(env, fn, i, a, c);
      ArgumentsPassed(env, fn, i + 1, a.next, c);
      ArgumentsCut(env, fn, i, a, c);
      PassedCut(env, fn, i, a, Chained(a.next), c);
    }
  }

  lemma ArgumentsCut(env: Env, fn: Fn, i: nat, a: Ast, c: Ctx)
    requires a.Ast?
    ensures MeanArguments(env, fn, i, a, c) == [MeanArgument(env, fn, i, a, c)] + MeanArguments(env, fn, i + 1, a.next, c)
  {
  }

  lemma PassedCut(env: Env, fn: Fn, i: nat, a: Ast, rest: seq<Ast>, c: Ctx)
    ensures PassedAll(env, fn, i, [a] + rest, c) == [Passed(env, fn, i, a, c)] + PassedAll(env, fn, i + 1, rest, c)
  {
  }

  /** A call passes the context node and its arguments in their order, and stands for what is returned. */
  lemma CallMeans(env: Env, fn: Fn, first: Ast, more: Ast, next: Ast, c: Ctx)
    ensures var args := PassedAll(env, fn, 0, if first.Nil? then [] else [first], c) + PassedAll(env, fn, 1, Chained(more), c);
            var v := env.call(fn, c.node, args);
            Returns(fn, v) ==> MeanScalar(env, Ast(Call(fn), first, more, next), c) == v
  {
    var a := Ast(Call(fn), first, more, next);
    var args := PassedAll(env, fn, 0, if first.Nil? then [] else [first], c) + PassedAll(env, fn, 1, Chained(more), c);
    PassedArgument(env, fn, 0, first, c);
    ArgumentsPassed(env, fn, 1, more, c);
    assert MeanFirstArgument(env, fn, first, c) == PassedAll(env, fn, 0, if first.Nil? then [] else [first], c);
    assert MeanScalar(env, a, c) == MeanCall(env, a, c);
    if Returns(fn, env.call(fn, c.node, args)) {
      ReturnedValue(env, fn, env.call(fn, c.node, args));
    }
  }

  /** A function of a node set, such as `name()`, looks at its first node in document order. */
  lemma FirstCallMeans(env: Env, fn: Fn, a: Ast, right: Ast, next: Ast, c: Ctx)
    ensures var s := MeanNodes(env, a, c);
            var v := env.call(fn, if |s| > 0 then s[0] else Nothing, []);
            Returns(fn, v) ==> MeanScalar(env, Ast(FirstCall(fn), a, right, next), c) == v
  {
    var e := Ast(FirstCall(fn), a, right, next);
    var s := MeanNodes(env, a, c);
    var v := env.call(fn, if |s| > 0 then s[0] else Nothing, []);
    assert MeanScalar(env, e, c) == MeanAggregate(env, e, c);
    if Returns(fn, v) {
      ReturnedValue(env, fn, v);
    }
  }

  /** `translate(a, from, to)` (section 4.2). */
  lemma TranslateMeans(env: Env, a: Ast, from: Ast, next: Ast, c: Ctx)
    requires from.Ast?
    ensures MeanText(env, Ast(Translate, a, from, next), c)
         == XPathTranslate.TranslateText(MeanText(env, a, c), MeanText(env, from, c), MeanText(env, from.next, c))
  {
    var e := Ast(Translate, a, from, next);
    assert MeanScalar(env, e, c) == MeanRewriting(env, e, c);
  }
}
