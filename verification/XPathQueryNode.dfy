/** The query tree as linked nodes, rewritten in place by `optimize` and `optimize_self`. */
module XPathQueryNode {
  import opened Wrappers
  import opened XPathAst
  import opened XPathAxes
  import opened XPathStep
  import XPathTranslate
  import O = XPathOptimize

  class QueryNode {
    var kind: Kind
    var left: QueryNode?
    var right: QueryNode?
    var next: QueryNode?
    ghost var Repr: set<object>
    ghost var tree: Ast

    /** A tree: the parts below different pointers do not overlap. */
    ghost predicate Valid()
      reads this, Repr
      ensures Valid() ==> this in Repr
      decreases Repr
    {
      && this in Repr
      && (left != null ==> left in Repr) && (right != null ==> right in Repr) && (next != null ==> next in Repr)
      && Owns(left) && Owns(right) && Owns(next)
      && ReprOf(left) !! ReprOf(right) && ReprOf(left) !! ReprOf(next) && ReprOf(right) !! ReprOf(next)
      && (left != null ==> left.Valid()) && (right != null ==> right.Valid()) && (next != null ==> next.Valid())
      && tree == Ast(kind, TreeOf(left), TreeOf(right), TreeOf(next))
    }

    ghost predicate Owns(n: QueryNode?)
      reads this, n
    {
      n != null ==> n.Repr <= Repr && this !in n.Repr
    }

    constructor (k: Kind, l: QueryNode?, r: QueryNode?)
      requires (l != null ==> l.Valid()) && (r != null ==> r.Valid()) && ReprOf(l) !! ReprOf(r)
      ensures Valid() && fresh(Repr - ReprOf(l) - ReprOf(r)) && tree == Ast(k, TreeOf(l), TreeOf(r), Nil)
    {
      kind, left, right, next := k, l, r, null;
      tree := Ast(k, TreeOf(l), TreeOf(r), Nil);
      Repr := {this} + ReprOf(l) + ReprOf(r);
    }
  }

  ghost function ReprOf(n: QueryNode?): set<object>
    reads n
  {
    if n == null then {} else n.Repr
  }

  ghost function TreeOf(n: QueryNode?): Ast
    reads n
  {
    if n == null then Nil else n.tree
  }

  ghost predicate ValidOrNull(n: QueryNode?)
    reads n, ReprOf(n)
  {
    n != null ==> n.Valid()
  }

  // --------------------------------------------------------------------- queries

  predicate LooksAtPosition(k: Kind) {
    k.Position? || k.Last?
  }

  predicate HidesPosition(k: Kind) {
    || k.StringConstant? || k.NumberConstant? || k.Variable? || k.Step? || k.StepRoot? || k.PredicateNode?
    || k.FilterNode?
  }

  lemma PosInvByKind(a: Ast)
    requires a.Ast?
    ensures IsPosInv(a) == if LooksAtPosition(a.kind) then false
                           else HidesPosition(a.kind) || (IsPosInv(a.left) && AllPosInv(a.right))
  {
  }

  /** `is_posinv_expr`. */
  method IsPosInvExpr(n: QueryNode) returns (b: bool)
    requires n.Valid()
    ensures b == IsPosInv(n.tree)
    decreases n.Repr, 1
  {
    PosInvByKind(n.tree);
    if LooksAtPosition(n.kind) {
      return false;
    }
    if HidesPosition(n.kind) {
      return true;
    }
    if n.left != null {
      b := IsPosInvExpr(n.left);
      if !b {
        return;
      }
    }
    b := IsPosInvChain(n.right, n.Repr);
  }

  /** The loop over an argument chain. */
  method IsPosInvChain(first: QueryNode?, ghost bound: set<object>) returns (b: bool)
    requires ValidOrNull(first) && ReprOf(first) < bound
    ensures b == AllPosInv(TreeOf(first))
    decreases bound, 0
  {
    var n := first;
    while n != null
      invariant ValidOrNull(n) && ReprOf(n) <= ReprOf(first)
      invariant AllPosInv(TreeOf(first)) == AllPosInv(TreeOf(n))
      decreases ReprOf(n)
    {
      var own := IsPosInvExpr(n);
      if !own {
        return false;
      }
      n := n.next;
    }
    b := true;
  }

  /** `is_posinv_step`. */
  method IsPosInvPredicates(first: QueryNode?) returns (b: bool)
    requires ValidOrNull(first)
    ensures b == IsPosInvStep(TreeOf(first))
  {
    var n := first;
    while n != null
      invariant ValidOrNull(n)
      invariant IsPosInvStep(TreeOf(first)) == IsPosInvStep(TreeOf(n))
      decreases ReprOf(n)
    {
      if n.kind != PredicateNode(PosInv) {
        return false;
      }
      n := n.next;
    }
    b := true;
  }

  // -------------------------------------------------------------------- rewriting

  /** Brings the ghost state of a node up to date with its pointers. */
  ghost method Refresh(n: QueryNode)
    requires ValidOrNull(n.left) && ValidOrNull(n.right) && ValidOrNull(n.next)
    requires n !in ReprOf(n.left) && n !in ReprOf(n.right) && n !in ReprOf(n.next)
    requires ReprOf(n.left) !! ReprOf(n.right) && ReprOf(n.left) !! ReprOf(n.next) && ReprOf(n.right) !! ReprOf(n.next)
    modifies n`Repr, n`tree
    ensures n.Valid() && n.Repr == {n} + ReprOf(n.left) + ReprOf(n.right) + ReprOf(n.next)
    ensures n.tree == Ast(n.kind, TreeOf(n.left), TreeOf(n.right), TreeOf(n.next))
  {
    n.Repr := {n} + ReprOf(n.left) + ReprOf(n.right) + ReprOf(n.next);
    n.tree := Ast(n.kind, TreeOf(n.left), TreeOf(n.right), TreeOf(n.next));
  }

  /** `rettype()` of a node. */
  function RetTypeOf(n: QueryNode): (ty: Type)
    requires n.Valid()
    reads n, n.Repr
    ensures ty == RetType(n.tree)
  {
    RetType(Ast(n.kind, Nil, Nil, Nil))
  }

  /** A node and its pointers seen through its tree. */
  lemma Looks(n: QueryNode)
    requires n.Valid()
    ensures n.tree.Ast? && n.kind == n.tree.kind
    ensures n.left != null <==> n.tree.left.Ast?
    ensures n.right != null <==> n.tree.right.Ast?
    ensures n.next != null <==> n.tree.next.Ast?
    ensures n.left != null ==> n.left.Valid() && n.left.tree == n.tree.left && n.left.Repr < n.Repr && n.left.kind == n.tree.left.kind
    ensures n.right != null ==> n.right.Valid() && n.right.tree == n.tree.right && n.right.Repr < n.Repr && n.right.kind == n.tree.right.kind
  {
  }

  /** Changes the type of a node. */
  method SetKind(n: QueryNode, k: Kind)
    requires n.Valid()
    modifies n
    ensures n.Valid() && n.Repr == old(n.Repr) && n.tree == old(n.tree).(kind := k)
  {
    n.kind := k;
    n.tree := n.tree.(kind := k);
  }

  /** Three trees that may hang below n. */
  ghost predicate Separate(n: QueryNode, l: QueryNode?, r: QueryNode?, next: QueryNode?)
    reads l, ReprOf(l), r, ReprOf(r), next, ReprOf(next)
  {
    && ValidOrNull(l) && ValidOrNull(r) && ValidOrNull(next) && n !in ReprOf(l) && n !in ReprOf(r) && n !in ReprOf(next)
    && ReprOf(l) !! ReprOf(r) && ReprOf(l) !! ReprOf(next) && ReprOf(r) !! ReprOf(next)
  }

  lemma BelowLeft(n: QueryNode, g: QueryNode?)
    requires n.Valid() && n.left != null && g == n.left.left
    ensures Separate(n, g, n.right, n.next) && {n} + ReprOf(g) + ReprOf(n.right) + ReprOf(n.next) <= n.Repr
    ensures n.tree.Ast? && n.tree.left.Ast? && Ast(n.kind, TreeOf(g), TreeOf(n.right), TreeOf(n.next)) == n.tree.(left := n.tree.left.left)
  {
  }

  lemma BelowRight(n: QueryNode, g: QueryNode?)
    requires n.Valid() && n.right != null && g == n.right.right
    ensures Separate(n, n.left, g, n.next) && {n} + ReprOf(n.left) + ReprOf(g) + ReprOf(n.next) <= n.Repr
    ensures n.tree.Ast? && n.tree.right.Ast? && Ast(n.kind, TreeOf(n.left), TreeOf(g), TreeOf(n.next)) == n.tree.(right := n.tree.right.right)
  {
  }

  /** Hangs trees below n. */
  method Hang(n: QueryNode, l: QueryNode?, r: QueryNode?)
    requires Separate(n, l, r, n.next)
    modifies n
    ensures n.Valid() && n.Repr == old({n} + ReprOf(l) + ReprOf(r) + ReprOf(n.next))
    ensures n.tree == old(Ast(n.kind, TreeOf(l), TreeOf(r), TreeOf(n.next)))
  {
    n.left, n.right := l, r;
    Refresh(n);
  }

  /** Hangs the right child of the right child in its place. */
  method LiftRight(n: QueryNode)
    requires n.Valid() && n.tree.Ast? && n.tree.right.Ast?
    modifies n
    ensures n.Valid() && n.Repr <= old(n.Repr) && n.tree == old(n.tree).(right := old(n.tree.right.right))
  {
    Looks(n);
    BelowRight(n, n.right.right);
    Hang(n, n.left, n.right.right);
  }

  /** Hangs the left child of the left child in its place. */
  method LiftLeft(n: QueryNode)
    requires n.Valid() && n.tree.Ast? && n.tree.left.Ast?
    modifies n
    ensures n.Valid() && n.Repr <= old(n.Repr) && n.tree == old(n.tree).(left := old(n.tree.left.left))
  {
    Looks(n);
    BelowLeft(n, n.left.left);
    Hang(n, n.left.left, n.right);
  }

  method FiltersBy(n: QueryNode) returns (b: bool)
    requires n.Valid()
    ensures b == O.Filters(n.tree)
  {
    Looks(n);
    b := n.kind.FilterNode? || n.kind.PredicateNode?;
  }

  method IsPositionTest(e: QueryNode) returns (b: bool)
    requires e.Valid()
    ensures b == O.ComparesPosition(e.tree)
  {
    Looks(e);
    b := e.kind.Equal? && e.left != null && e.left.kind.Position? && e.right != null && RetTypeOf(e.right) == NumberType;
  }

  /** `[position()=e]` becomes `[e]`. */
  method RewritePosition(n: QueryNode)
    requires n.Valid()
    modifies n
    ensures n.Valid() && n.Repr <= old(n.Repr) && n.tree == O.RewritePosition(old(n.tree))
  {
    Looks(n);
    var filter := FiltersBy(n);
    if filter && n.right != null {
      var position := IsPositionTest(n.right);
      if position {
        LiftRight(n);
      }
    }
  }

  method ClassFor(e: QueryNode, otherwise: Class) returns (cls: Class)
    requires e.Valid()
    ensures cls == O.Classified(e.tree, otherwise)
  {
    Looks(e);
    cls := otherwise;
    if e.kind == NumberConstant(Fin(1.0)) {
      cls := ConstantOne;
    } else if RetTypeOf(e) == NumberType && (e.kind.NumberConstant? || e.kind.Variable? || e.kind.Last?) {
      cls := Constant;
    } else if RetTypeOf(e) != NumberType {
      var posinv := IsPosInvExpr(e);
      if posinv {
        cls := PosInv;
      }
    }
  }

  lemma ClassifyNothing(a: Ast)
    requires a.Ast? && (!O.Filters(a) || a.right.Nil?)
    ensures O.Classify(a) == a
  {
  }

  /** Classify filter and predicate operations. */
  method Classify(n: QueryNode)
    requires n.Valid()
    modifies n
    ensures n.Valid() && n.Repr == old(n.Repr) && n.tree == O.Classify(old(n.tree))
  {
    Looks(n);
    var filter := FiltersBy(n);
    if filter && n.right != null {
      var cls := ClassFor(n.right, n.kind.cls);
      SetKind(n, if n.kind.FilterNode? then FilterNode(cls) else PredicateNode(cls));
    } else {
      ClassifyNothing(n.tree);
    }
  }

  method IsSlashSlash(n: QueryNode) returns (b: bool)
    requires n.Valid()
    ensures b == O.IsDoubleSlash(n.tree)
  {
    Looks(n);
    b := n.kind.Step? && n.kind.axis == DescendantOrSelf && n.kind.test == TestNode && n.right == null;
  }

  method CanMerge(n: QueryNode) returns (b: bool)
    requires n.Valid()
    ensures b == O.Merges(n.tree)
  {
    Looks(n);
    b := false;
    if n.kind.Step? && O.GoesDown(n.kind.axis) && n.left != null {
      b := IsSlashSlash(n.left);
      if b {
        b := IsPosInvPredicates(n.right);
      }
    }
  }

  /** A `descendant-or-self::node()` step is merged into the child, descendant or self step behind it. */
  method MergeStep(n: QueryNode)
    requires n.Valid()
    modifies n
    ensures n.Valid() && n.Repr <= old(n.Repr) && n.tree == O.MergeStep(old(n.tree))
  {
    Looks(n);
    var merges := CanMerge(n);
    if merges {
      SetKind(n, n.kind.(axis := O.MergedAxis(n.kind.axis)));
      Looks(n);
      LiftLeft(n);
    }
  }

  /** The constant arguments of `translate()`. */
  method TableOf(n: QueryNode) returns (table: Option<seq<nat>>)
    requires n.Valid()
    ensures table == if O.Tabulates(n.tree) then Some(XPathTranslate.TableFor(n.tree.right.kind.s, n.tree.right.next.kind.s)) else None
  {
    Looks(n);
    table := None;
    if n.kind.Translate? && n.right != null && n.right.kind.StringConstant? {
      var from := n.right;
      LooksNext(from);
      if from.next != null && from.next.kind.StringConstant? {
        table := XPathTranslate.TranslateTableGenerate(from.kind.s, from.next.kind.s);
      }
    }
  }

  lemma LooksNext(n: QueryNode)
    requires n.Valid()
    ensures n.kind == n.tree.kind && (n.next != null <==> n.tree.next.Ast?)
    ensures n.next != null ==> n.next.Valid() && n.next.tree == n.tree.next && n.next.kind == n.tree.next.kind
  {
  }

  /** `translate()` with constant arguments becomes a table lookup. */
  method UseTable(n: QueryNode)
    requires n.Valid()
    modifies n
    ensures n.Valid() && n.Repr == old(n.Repr) && n.tree == O.UseTable(old(n.tree))
  {
    var table := TableOf(n);
    if table.Some? {
      SetKind(n, TranslateTable(table.value));
    }
  }

  method IsPlainAttribute(n: QueryNode) returns (b: bool)
    requires n.Valid()
    ensures b == (n.tree.kind.Step? && n.tree.kind.axis == AttributeAxis && n.tree.kind.test == TestName && n.tree.left.Nil? && n.tree.right.Nil?)
  {
    Looks(n);
    b := n.kind.Step? && n.kind.axis == AttributeAxis && n.kind.test == TestName && n.left == null && n.right == null;
  }

  method IsAttributeTest(n: QueryNode) returns (b: bool)
    requires n.Valid()
    ensures b == O.TestsAttribute(n.tree)
  {
    Looks(n);
    b := false;
    if n.kind.Equal? && n.left != null && n.right != null {
      b := IsPlainAttribute(n.left);
      b := b && (n.right.kind.StringConstant? || (n.right.kind.Variable? && RetTypeOf(n.right) == TextType));
    }
  }

  /** Comparing an attribute of the context node with a constant or a variable needs no node set. */
  method UseAttribute(n: QueryNode)
    requires n.Valid()
    modifies n
    ensures n.Valid() && n.Repr == old(n.Repr) && n.tree == O.UseAttribute(old(n.tree))
  {
    var tests := IsAttributeTest(n);
    if tests {
      SetKind(n, CompareAttribute);
    }
  }

  /** `optimize_self`. */
  method OptimizeSelf(n: QueryNode)
    requires n.Valid()
    modifies n
    ensures n.Valid() && n.Repr <= old(n.Repr) && n.tree == O.OptimizeSelf(old(n.tree))
  {
    RewritePosition(n);
    Classify(n);
    MergeStep(n);
    UseTable(n);
    UseAttribute(n);
  }

  /** Optimizes one of the trees below a node; the other two stay as they are. */
  method OptimizeBelow(n: QueryNode, child: QueryNode, ghost x: QueryNode?, ghost y: QueryNode?)
    requires child.Valid() && ValidOrNull(x) && ValidOrNull(y) && n !in child.Repr
    requires child.Repr !! ReprOf(x) && child.Repr !! ReprOf(y)
    modifies child.Repr
    ensures child.Valid() && child.Repr <= old(child.Repr) && child.tree == O.Optimize(old(child.tree))
    ensures ValidOrNull(x) && ReprOf(x) == old(ReprOf(x)) && TreeOf(x) == old(TreeOf(x))
    ensures ValidOrNull(y) && ReprOf(y) == old(ReprOf(y)) && TreeOf(y) == old(TreeOf(y))
    ensures unchanged(n)
    decreases child.Repr, 3
  {
    Optimize(child);
  }

  method OptimizeLeft(n: QueryNode)
    requires n.Valid()
    modifies n.Repr
    ensures n.Valid() && n.Repr <= old(n.Repr)
    ensures n.tree == old(n.tree).(left := O.Optimize(old(n.tree.left)))
    decreases n.Repr, 1
  {
    if n.left != null {
      OptimizeBelow(n, n.left, n.right, n.next);
      Refresh(n);
    }
  }

  method OptimizeRight(n: QueryNode)
    requires n.Valid()
    modifies n.Repr
    ensures n.Valid() && n.Repr <= old(n.Repr)
    ensures n.tree == old(n.tree).(right := O.Optimize(old(n.tree.right)))
    decreases n.Repr, 1
  {
    if n.right != null {
      OptimizeBelow(n, n.right, n.left, n.next);
      Refresh(n);
    }
  }

  method OptimizeNext(n: QueryNode)
    requires n.Valid()
    modifies n.Repr
    ensures n.Valid() && n.Repr <= old(n.Repr)
    ensures n.tree == old(n.tree).(next := O.Optimize(old(n.tree.next)))
    decreases n.Repr, 1
  {
    if n.next != null {
      OptimizeBelow(n, n.next, n.left, n.right);
      Refresh(n);
    }
  }

  /** `optimize`: the trees below first, then the node itself. */
  method Optimize(n: QueryNode)
    requires n.Valid()
    modifies n.Repr
    ensures n.Valid() && n.Repr <= old(n.Repr) && n.tree == O.Optimize(old(n.tree))
    decreases n.Repr, 2
  {
    OptimizeLeft(n);
    OptimizeRight(n);
    OptimizeNext(n);
    OptimizeSelf(n);
  }
}
