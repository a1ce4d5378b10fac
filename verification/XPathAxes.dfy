/**
 The axes of section 2.2 of XPath 1.0, defined by document order, and the pointer
 walks of `step_fill` that enumerate them.
 */
module XPathAxes {
  import opened Wrappers
  import opened XmlTree
  import opened XPathWalk
  import opened XPathOrder

  datatype Axis =
    | AncestorAxis | AncestorOrSelf | AttributeAxis | Child | Descendant | DescendantOrSelf | Following
    | FollowingSibling | Namespace | ParentAxis | Preceding | PrecedingSibling | Self

  /** Tree node q is on the given axis of tree node p. */
  predicate OnAxis(axis: Axis, p: Path, q: Path) {
    match axis
    case AncestorAxis => Ancestor(q, p)
    case AncestorOrSelf => Prefix(q, p)
    case AttributeAxis => false
    case Child => Parent(q) == Some(p)
    case Descendant => Ancestor(p, q)
    case DescendantOrSelf => Prefix(p, q)
    case Following => After(p, q)
    case FollowingSibling => p != [] && Parent(q) == Parent(p) && Before(p, q)
    case Namespace => false
    case ParentAxis => Parent(p) == Some(q)
    case Preceding => After(q, p)
    case PrecedingSibling => p != [] && Parent(q) == Parent(p) && Before(q, p)
    case Self => p == q
  }

  predicate ReverseAxis(axis: Axis) {
    axis.AncestorAxis? || axis.AncestorOrSelf? || axis.Preceding? || axis.PrecedingSibling?
  }

  // ------------------------------------------------------------------ node lists

  function Keep(s: seq<Path>, f: Path -> bool): seq<Path> {
    if s == [] then [] else (if f(s[0]) then [s[0]] else []) + Keep(s[1..], f)
  }

  /** The nodes of the tree that satisfy f, in document order. */
  function Where(t: Tree, f: Path -> bool): seq<Path> {
    Keep(Preorder(t), f)
  }

  /** The tree nodes on an axis in the order of the axis. */
  function AxisNodes(t: Tree, axis: Axis, p: Path): seq<Path> {
    var nodes := Where(t, q => OnAxis(axis, p, q));
    if ReverseAxis(axis) then Reversed(nodes) else nodes
  }

  lemma {:induction false} KeepMeaning(s: seq<Path>, f: Path -> bool)
    ensures forall q :: q in Keep(s, f) <==> q in s && f(q)
    ensures Ascending(s) ==> Ascending(Keep(s, f))
  {
    if s != [] {
      KeepMeaning(s[1..], f);
      var rest := Keep(s[1..], f);
      assert forall q :: q in s <==> q == s[0] || q in s[1..];
      if Ascending(s) {
        AscendingHead(s);
        forall i | 0 <= i < |rest| ensures Before(s[0], rest[i]) {
          assert rest[i] in rest;
          var k :| 0 <= k < |s[1..]| && s[1..][k] == rest[i];
        }
      }
    }
  }

  lemma WhereMeaning(t: Tree, f: Path -> bool)
    ensures Ascending(Where(t, f))
    ensures forall q :: q in Where(t, f) <==> Valid(t, q) && f(q)
  {
    PreorderSound(t);
    KeepMeaning(Preorder(t), f);
  }

  predicate Descending(s: seq<Path>) {
    forall i, j | 0 <= i < j < |s| :: Before(s[j], s[i])
  }

  /** Forward axes come in document order, reverse axes in reverse, and each node once. */
  lemma AxisNodesMeaning(t: Tree, axis: Axis, p: Path)
    ensures forall q :: q in AxisNodes(t, axis, p) <==> Valid(t, q) && OnAxis(axis, p, q)
    ensures if ReverseAxis(axis) then Descending(AxisNodes(t, axis, p)) else Ascending(AxisNodes(t, axis, p))
  {
    var nodes := Where(t, q => OnAxis(axis, p, q));
    WhereMeaning(t, q => OnAxis(axis, p, q));
    ReversedHas(nodes);
  }

  const PARTITION: set<Axis> := {AncestorAxis, Descendant, Following, Preceding, Self}

  /** The axis of the partition on which q lies, seen from p. */
  function AxisTo(p: Path, q: Path): Axis {
    if p == q then Self
    else if Prefix(p, q) then Descendant
    else if Prefix(q, p) then AncestorAxis
    else if Before(p, q) then Following
    else Preceding
  }

  lemma OnOneAxis(p: Path, q: Path, a: Axis)
    requires a in PARTITION
    ensures OnAxis(a, p, q) <==> a == AxisTo(p, q)
  {
    BeforeTotal(p, q);
    AfterOrBelow(p, q);
    AfterOrBelow(q, p);
    if Prefix(p, q) && Prefix(q, p) {
      assert p == q;
    }
  }

  /**
   From any node the ancestor, descendant, following, preceding and self axes divide
   the whole document: every node is on exactly one of them.
   */
  lemma AxesPartition(t: Tree, p: Path, q: Path)
    requires Valid(t, p) && Valid(t, q)
    ensures AxisTo(p, q) in PARTITION
    ensures forall a | a in PARTITION :: q in AxisNodes(t, a, p) <==> a == AxisTo(p, q)
  {
    forall a | a in PARTITION ensures q in AxisNodes(t, a, p) <==> a == AxisTo(p, q) {
      AxisNodesMeaning(t, a, p);
      OnOneAxis(p, q, a);
    }
  }

  // -------------------------------------------------------------- stepping a list

  lemma NextIn(a: seq<Path>, k: nat, q: Path)
    requires Ascending(a) && k < |a| && q in a && Before(a[k], q)
    requires forall r | r in a && Before(a[k], r) :: AtOrAfter(q, r)
    ensures k + 1 < |a| && a[k + 1] == q
  {
    var j :| 0 <= j < |a| && a[j] == q;
    BeforeTotal(a[k], q);
    assert forall i | 0 <= i < |a| :: a[i] in a;
    assert forall i | 0 <= i < k :: Before(a[i], a[k]);
    assert Before(a[k], a[k + 1]);
    BeforeTotal(a[k + 1], q);
  }

  lemma LastIn(a: seq<Path>, k: nat)
    requires Ascending(a) && k < |a|
    requires forall r | r in a :: !Before(a[k], r)
    ensures k + 1 == |a|
  {
    var e := if k + 1 < |a| then a[k + 1] else a[k];
    assert e in a;
  }

  lemma FirstIn(a: seq<Path>, q: Path)
    requires Ascending(a) && q in a && forall r | r in a :: AtOrAfter(q, r)
    ensures a[0] == q
  {
    var j :| 0 <= j < |a| && a[j] == q;
    assert a[0] in a;
    BeforeTotal(a[0], q);
  }
}
