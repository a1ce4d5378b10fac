/** `step_fill` for any XPath node: which axis walk runs, and what the axes of attributes are. */
module XPathFill {
  import opened Wrappers
  import opened XmlTree
  import opened XPathWalk
  import opened XPathOrder
  import opened XPathNodeSet
  import opened XPathAxes
  import opened XPathStep
  import opened XPathTraverse

  // ------------------------------------------------------------------ the axes

  function AsNodes(s: seq<Path>): (r: seq<XNode>)
    ensures |r| == |s|
    ensures forall k | 0 <= k < |s| :: r[k] == Node(s[k])
  {
    seq(|s|, k requires 0 <= k < |s| => Node(s[k]))
  }

  /** The attributes of p in their own order. */
  function AttributesOf(t: Tree, p: Path): (r: seq<XNode>)
    requires Valid(t, p)
    ensures |r| == |Sub(t, p).attrs|
    ensures forall k | 0 <= k < |r| :: r[k] == Attribute(p, k)
  {
    seq(|Sub(t, p).attrs|, k requires 0 <= k < |Sub(t, p).attrs| => Attribute(p, k))
  }

  /** Node y is on an axis of node x (section 2.2 of XPath 1.0). */
  predicate OnAxisOf(axis: Axis, x: XNode, y: XNode) {
    match (x, y)
    case (Node(p), Node(q)) => OnAxis(axis, p, q)
    case (Node(p), Attribute(q, _)) => axis == AttributeAxis && q == p
    case (Attribute(p, _), Node(q)) =>
      (match axis
       case AncestorAxis => Prefix(q, p)
       case AncestorOrSelf => Prefix(q, p)
       case ParentAxis => q == p
       case Following => Before(p, q)
       case Preceding => After(q, p)
       case _ => false)
    case (Attribute(_, _), Attribute(_, _)) =>
      (axis == AncestorOrSelf || axis == DescendantOrSelf || axis == Self) && x == y
    case _ => false
  }

  /** The nodes of an axis in the order of the axis. */
  function AxisOf(t: Tree, axis: Axis, x: XNode): seq<XNode> {
    match x
    case Nothing => []
    case Node(p) =>
      if axis != AttributeAxis then AsNodes(AxisNodes(t, axis, p))
      else if Valid(t, p) then AttributesOf(t, p)
      else []
    case Attribute(p, _) =>
      match axis
      case AncestorAxis => AsNodes(AxisNodes(t, AncestorOrSelf, p))
      case AncestorOrSelf => [x] + AsNodes(AxisNodes(t, AncestorOrSelf, p))
      case DescendantOrSelf => [x]
      case Self => [x]
      case ParentAxis => [Node(p)]
      case Following => AsNodes(BehindOwner(t, p))
      case Preceding => AsNodes(AxisNodes(t, Preceding, p))
      case _ => []
  }

  /** Whether a node on the axis passes the node test: attributes only pass `node()` unless they are the axis. */
  predicate HitOn(t: Tree, axis: Axis, f: Filter, y: XNode) {
    && ValidNode(t, y)
    && match y
       case Nothing => false
       case Node(q) => Passes(t, f.test, f.arg, q)
       case Attribute(q, i) =>
         && PassesAttribute(f.test, f.arg, Sub(t, q).attrs[i].name)
         && (axis == AttributeAxis || f.test == TestNode)
  }

  /** The nodes from number k on that pass. */
  function HitsFrom(t: Tree, axis: Axis, f: Filter, s: seq<XNode>, k: nat): seq<XNode>
    requires k <= |s|
    decreases |s| - k
  {
    if k == |s| then []
    else (if HitOn(t, axis, f, s[k]) then [s[k]] else []) + HitsFrom(t, axis, f, s, k + 1)
  }

  function Cut(once: bool, s: seq<XNode>): seq<XNode> {
    if once && s != [] then [s[0]] else s
  }

  /** What a location step without predicates selects from x, in the order of its axis. */
  function StepNodes(t: Tree, axis: Axis, f: Filter, x: XNode): seq<XNode> {
    Cut(f.once, HitsFrom(t, axis, f, AxisOf(t, axis, x), 0))
  }

  // ------------------------------------------------------------- what it means

  lemma {:induction false} HitsMeaning(t: Tree, axis: Axis, f: Filter, s: seq<XNode>, k: nat)
    requires k <= |s|
    ensures forall y :: y in HitsFrom(t, axis, f, s, k) <==> y in s[k..] && HitOn(t, axis, f, y)
    ensures InDocOrder(s) ==> InDocOrder(HitsFrom(t, axis, f, s, k))
    ensures InReverseOrder(s) ==> InReverseOrder(HitsFrom(t, axis, f, s, k))
    decreases |s| - k
  {
    if k < |s| {
      HitsMeaning(t, axis, f, s, k + 1);
      assert s[k..] == [s[k]] + s[k + 1..];
      var rest := HitsFrom(t, axis, f, s, k + 1);
      forall y | y in rest ensures y in s[k + 1..] {
      }
      HeadBound(s, k, rest);
    }
  }

  lemma HeadBound(s: seq<XNode>, k: nat, rest: seq<XNode>)
    requires k < |s| && forall y | y in rest :: y in s[k + 1..]
    ensures InDocOrder(s) && InDocOrder(rest) ==> InDocOrder([s[k]] + rest)
    ensures InReverseOrder(s) && InReverseOrder(rest) ==> InReverseOrder([s[k]] + rest)
  {
    forall j | 0 <= j < |rest| ensures exists m :: k < m < |s| && s[m] == rest[j] {
      assert rest[j] in rest;
      var m :| 0 <= m < |s[k + 1..]| && s[k + 1..][m] == rest[j];
      assert s[k + 1 + m] == rest[j];
    }
  }

  lemma AsNodesMeaning(s: seq<Path>)
    ensures forall y: XNode :: y in AsNodes(s) <==> y.Node? && y.path in s
    ensures Ascending(s) ==> InDocOrder(AsNodes(s))
    ensures Descending(s) ==> InReverseOrder(AsNodes(s))
  {
    var r := AsNodes(s);
    forall y: XNode ensures y in r <==> y.Node? && y.path in s {
      if y.Node? && y.path in s {
        var k :| 0 <= k < |s| && s[k] == y.path;
        assert r[k] == y;
      }
    }
    forall i, j | 0 <= i < j < |s| ensures Before(s[i], s[j]) ==> DocBefore(r[i], r[j]) {
      BeforeTotal(s[i], s[j]);
    }
    forall i, j | 0 <= i < j < |s| ensures Before(s[j], s[i]) ==> DocBefore(r[j], r[i]) {
      BeforeTotal(s[i], s[j]);
    }
  }

  lemma AttributesMeaning(t: Tree, p: Path)
    requires Valid(t, p)
    ensures InDocOrder(AttributesOf(t, p))
    ensures forall y: XNode :: y in AttributesOf(t, p) <==> y.Attribute? && y.owner == p && ValidNode(t, y)
  {
    var r := AttributesOf(t, p);
    forall y: XNode | y.Attribute? && y.owner == p && ValidNode(t, y) ensures y in r {
      assert r[y.index] == y;
    }
  }

  ghost predicate InAxisOrder(axis: Axis, s: seq<XNode>) {
    if ReverseAxis(axis) then InReverseOrder(s) else InDocOrder(s)
  }

  lemma NodeAxisMeaning(t: Tree, axis: Axis, p: Path)
    requires Valid(t, p)
    ensures AxisIs(t, axis, Node(p))
  {
    if axis == AttributeAxis {
      AttributesMeaning(t, p);
    } else {
      AxisNodesMeaning(t, axis, p);
      AsNodesMeaning(AxisNodes(t, axis, p));
    }
  }

  ghost predicate AxisIs(t: Tree, axis: Axis, x: XNode) {
    && (forall y :: y in AxisOf(t, axis, x) <==> ValidNode(t, y) && OnAxisOf(axis, x, y))
    && InAxisOrder(axis, AxisOf(t, axis, x))
  }

  lemma AttributeAncestors(t: Tree, x: XNode)
    requires ValidNode(t, x) && x.Attribute?
    ensures AxisIs(t, AncestorAxis, x)
  {
    AxisNodesMeaning(t, AncestorOrSelf, x.owner);
    AsNodesMeaning(AxisNodes(t, AncestorOrSelf, x.owner));
  }

  lemma AttributeAncestorsOrSelf(t: Tree, x: XNode)
    requires ValidNode(t, x) && x.Attribute?
    ensures AxisIs(t, AncestorOrSelf, x)
  {
    var above := AsNodes(AxisNodes(t, AncestorOrSelf, x.owner));
    AxisNodesMeaning(t, AncestorOrSelf, x.owner);
    AsNodesMeaning(AxisNodes(t, AncestorOrSelf, x.owner));
    assert forall y :: y in [x] + above <==> y == x || y in above;
    forall y | y in above ensures DocBefore(y, x) {
      PrefixOrder(y.path, x.owner);
    }
    PrependReverse(x, above);
  }

  lemma PrependReverse(x: XNode, s: seq<XNode>)
    requires InReverseOrder(s) && forall y | y in s :: DocBefore(y, x)
    ensures InReverseOrder([x] + s)
  {
    assert forall k | 0 <= k < |s| :: s[k] in s;
  }

  lemma AttributeFollowing(t: Tree, x: XNode)
    requires ValidNode(t, x) && x.Attribute?
    ensures AxisIs(t, Following, x)
  {
    WhereMeaning(t, q => Before(x.owner, q));
    AsNodesMeaning(BehindOwner(t, x.owner));
  }

  lemma AttributePreceding(t: Tree, x: XNode)
    requires ValidNode(t, x) && x.Attribute?
    ensures AxisIs(t, Preceding, x)
  {
    AxisNodesMeaning(t, Preceding, x.owner);
    AsNodesMeaning(AxisNodes(t, Preceding, x.owner));
  }

  lemma AttributeAxisMeaning(t: Tree, axis: Axis, x: XNode)
    requires ValidNode(t, x) && x.Attribute?
    ensures AxisIs(t, axis, x)
  {
    match axis {
      case AncestorAxis => AttributeAncestors(t, x);
      case AncestorOrSelf => AttributeAncestorsOrSelf(t, x);
      case Following => AttributeFollowing(t, x);
      case Preceding => AttributePreceding(t, x);
      case _ =>
    }
  }

  lemma PrefixOrder(q: Path, p: Path)
    requires Prefix(q, p)
    ensures q == p || Before(q, p)
  {
    if q != p {
      AncestorBefore(q, p);
    }
  }

  lemma AxisOfMeaning(t: Tree, axis: Axis, x: XNode)
    requires ValidNode(t, x)
    ensures AxisIs(t, axis, x)
  {
    if x.Node? {
      NodeAxisMeaning(t, axis, x.path);
    } else if x.Attribute? {
      AttributeAxisMeaning(t, axis, x);
    }
  }

  /**
   A location step selects exactly the nodes of the axis that pass the test, each once,
   forward axes in document order and reverse axes in reverse.
   */
  lemma StepNodesMeaning(t: Tree, axis: Axis, f: Filter, x: XNode)
    requires ValidNode(t, x) && !f.once
    ensures InAxisOrder(axis, StepNodes(t, axis, f, x))
    ensures forall y :: y in StepNodes(t, axis, f, x) <==> ValidNode(t, y) && OnAxisOf(axis, x, y) && HitOn(t, axis, f, y)
  {
    var s := AxisOf(t, axis, x);
    AxisOfMeaning(t, axis, x);
    HitsMeaning(t, axis, f, s, 0);
    assert s[0..] == s;
  }

  /** What `step_fill` pushes for an axis when every node passes. */
  function AllOn(t: Tree, axis: Axis, p: Path): seq<XNode> {
    StepNodes(t, axis, Filter(TestNode, "", false), Node(p))
  }

  lemma AllOnMeaning(t: Tree, axis: Axis, p: Path)
    requires Valid(t, p) && axis in PARTITION
    ensures InAxisOrder(axis, AllOn(t, axis, p))
    ensures forall y :: y in AllOn(t, axis, p) <==> y.Node? && Valid(t, y.path) && AxisTo(p, y.path) == axis
  {
    StepNodesMeaning(t, axis, Filter(TestNode, "", false), Node(p));
    forall y: XNode | y.Node? ensures OnAxisOf(axis, Node(p), y) <==> AxisTo(p, y.path) == axis {
      OnOneAxis(p, y.path, axis);
    }
  }

  lemma OrderedOnce(axis: Axis, s: seq<XNode>, i: nat, j: nat)
    requires InAxisOrder(axis, s) && i < j < |s|
    ensures s[i] != s[j]
  {
    DocOrderTotal(s[i], s[j]);
  }

  /**
   From any node the lists for the ancestor, descendant, following, preceding and self axes have no
   duplicates, no node in common, and all nodes of the document between them.
   */
  lemma StepsPartition(t: Tree, p: Path)
    requires Valid(t, p)
    ensures forall a, i, j | a in PARTITION && 0 <= i < j < |AllOn(t, a, p)| :: AllOn(t, a, p)[i] != AllOn(t, a, p)[j]
    ensures forall a, b, y | a in PARTITION && b in PARTITION && y in AllOn(t, a, p) && y in AllOn(t, b, p) :: a == b
    ensures forall y :: (exists a :: a in PARTITION && y in AllOn(t, a, p)) <==> y.Node? && Valid(t, y.path)
  {
    forall a | a in PARTITION
      ensures forall y :: y in AllOn(t, a, p) <==> y.Node? && Valid(t, y.path) && AxisTo(p, y.path) == a
      ensures forall i, j | 0 <= i < j < |AllOn(t, a, p)| :: AllOn(t, a, p)[i] != AllOn(t, a, p)[j]
    {
      AllOnMeaning(t, a, p);
      forall i, j | 0 <= i < j < |AllOn(t, a, p)| ensures AllOn(t, a, p)[i] != AllOn(t, a, p)[j] {
        OrderedOnce(a, AllOn(t, a, p), i, j);
      }
    }
    forall y: XNode | y.Node? && Valid(t, y.path) ensures exists a :: a in PARTITION && y in AllOn(t, a, p) {
      AxesPartition(t, p, y.path);
      assert AxisTo(p, y.path) in PARTITION && y in AllOn(t, AxisTo(p, y.path), p);
    }
  }

  /** Asked for one node, a step selects the first of those it would select. */
  lemma StepOnce(t: Tree, axis: Axis, f: Filter, x: XNode)
    ensures StepNodes(t, axis, f, x) == Cut(f.once, StepNodes(t, axis, f.(once := false), x))
  {
    OnceDoesNotHit(t, axis, f, AxisOf(t, axis, x), 0);
  }

  lemma {:induction false} OnceDoesNotHit(t: Tree, axis: Axis, f: Filter, s: seq<XNode>, k: nat)
    requires k <= |s|
    ensures HitsFrom(t, axis, f, s, k) == HitsFrom(t, axis, f.(once := false), s, k)
    decreases |s| - k
  {
    if k < |s| {
      OnceDoesNotHit(t, axis, f, s, k + 1);
    }
  }

  /** Attribute number i of an element is one that a test for this name selects. */
  predicate IsNamed(t: Tree, p: Path, name: string, i: nat)
    requires Valid(t, p)
  {
    i < |Sub(t, p).attrs| && Sub(t, p).attrs[i].name == name && IsXPathAttribute(name)
  }

  predicate NamedOnce(t: Tree, p: Path, name: string)
    requires Valid(t, p)
  {
    forall i, j | 0 <= i < j < |Sub(t, p).attrs| :: !(IsNamed(t, p, name, i) && IsNamed(t, p, name, j))
  }

  lemma NamedSelected(t: Tree, p: Path, name: string, y: XNode)
    requires Valid(t, p)
    ensures y in StepNodes(t, AttributeAxis, Filter(TestName, name, false), Node(p)) <==>
            y.Attribute? && y.owner == p && IsNamed(t, p, name, y.index)
  {
    StepNodesMeaning(t, AttributeAxis, Filter(TestName, name, false), Node(p));
  }

  lemma TwoMembers(s: seq<XNode>, x: XNode, y: XNode)
    requires x in s && y in s && x != y
    ensures |s| > 1
  {
  }

  lemma NamedTwice(t: Tree, p: Path, name: string, s: seq<XNode>)
    requires Valid(t, p) && s == StepNodes(t, AttributeAxis, Filter(TestName, name, false), Node(p))
    ensures |s| > 1 <==> !NamedOnce(t, p, name)
  {
    StepNodesMeaning(t, AttributeAxis, Filter(TestName, name, false), Node(p));
    if |s| > 1 {
      NamedSelected(t, p, name, s[0]);
      NamedSelected(t, p, name, s[1]);
      assert s[0] in s && s[1] in s && DocBefore(s[0], s[1]);
      assert IsNamed(t, p, name, s[0].index) && IsNamed(t, p, name, s[1].index);
    }
    if !NamedOnce(t, p, name) {
      var i, j :| 0 <= i < j < |Sub(t, p).attrs| && IsNamed(t, p, name, i) && IsNamed(t, p, name, j);
      NamedSelected(t, p, name, Attribute(p, i));
      NamedSelected(t, p, name, Attribute(p, j));
      TwoMembers(s, Attribute(p, i), Attribute(p, j));
    }
  }

  /**
   The early stop of a test for an attribute name is right if and only if the element has at most
   one attribute of that name, as section 3.1 of XML 1.0 demands and the parser does not check.
   */
  lemma AttributeNameStep(t: Tree, p: Path, name: string)
    requires Valid(t, p)
    ensures var s := StepNodes(t, AttributeAxis, Filter(TestName, name, false), Node(p));
            StepNodes(t, AttributeAxis, Filter(TestName, name, true), Node(p)) == s <==> NamedOnce(t, p, name)
  {
    var s := StepNodes(t, AttributeAxis, Filter(TestName, name, false), Node(p));
    StepOnce(t, AttributeAxis, Filter(TestName, name, true), Node(p));
    NamedTwice(t, p, name, s);
  }

  // ------------------------------------------------------------------ the walks

  /** A walk over tree nodes pushes what the step selects. */
  lemma {:induction false} PickIsHits(t: Tree, axis: Axis, f: Filter, nodes: seq<Path>, k: nat)
    requires k <= |nodes|
    ensures PickFrom(t, f, nodes, k) == Cut(f.once, HitsFrom(t, axis, f, AsNodes(nodes), k))
    decreases |nodes| - k
  {
    if k < |nodes| {
      PickIsHits(t, axis, f, nodes, k + 1);
    }
  }

  lemma AttributeStep(t: Tree, f: Filter, n: Path, a: nat, ns: seq<XNode>, all: seq<XNode>)
    requires Valid(t, n) && a < |Sub(t, n).attrs|
    requires ns + HitsFrom(t, AttributeAxis, f, AttributesOf(t, n), a) == all
    ensures var hit := PassesAttribute(f.test, f.arg, Sub(t, n).attrs[a].name);
            && (!hit ==> ns + HitsFrom(t, AttributeAxis, f, AttributesOf(t, n), a + 1) == all)
            && (hit ==> (ns + [Attribute(n, a)]) + HitsFrom(t, AttributeAxis, f, AttributesOf(t, n), a + 1) == all)
  {
    var rest := HitsFrom(t, AttributeAxis, f, AttributesOf(t, n), a + 1);
    assert ns + ([Attribute(n, a)] + rest) == (ns + [Attribute(n, a)]) + rest;
  }

  /** The attribute walk of `step_fill`. */
  method FillAttribute(t: Tree, f: Filter, n: Path) returns (ns: seq<XNode>)
    requires Valid(t, n)
    ensures ns == StepNodes(t, AttributeAxis, f, Node(n))
  {
    ghost var all := HitsFrom(t, AttributeAxis, f, AttributesOf(t, n), 0);
    ns := [];
    var attrs := Sub(t, n).attrs;
    var a := 0;
    while a < |attrs|
      invariant a <= |attrs| && ns + HitsFrom(t, AttributeAxis, f, AttributesOf(t, n), a) == all
      invariant f.once ==> ns == []
    {
      AttributeStep(t, f, n, a, ns, all);
      if PassesAttribute(f.test, f.arg, attrs[a].name) {
        ns := ns + [Attribute(n, a)];
        if f.once {
          return;
        }
      }
      a := a + 1;
    }
    assert ns + [] == ns;
  }

  /** `step_fill` from a tree node. */
  method FillFromNode(t: Tree, axis: Axis, f: Filter, n: Path) returns (ns: seq<XNode>)
    requires Valid(t, n)
    ensures ns == StepNodes(t, axis, f, Node(n))
  {
    PickIsHits(t, axis, f, AxisNodes(t, axis, n), 0);
    match axis {
      case AttributeAxis => ns := FillAttribute(t, f, n);
      case Child => ns := FillChild(t, f, n);
      case Descendant => ns := FillDescendant(t, f, n);
      case DescendantOrSelf => ns := FillDescendantOrSelf(t, f, n);
      case FollowingSibling => ns := FillFollowingSibling(t, f, n);
      case PrecedingSibling => ns := FillPrecedingSibling(t, f, n);
      case Following => ns := FillFollowing(t, f, n);
      case Preceding => ns := FillPreceding(t, f, n);
      case AncestorAxis => ns := FillAncestor(t, f, n);
      case AncestorOrSelf => ns := FillAncestorOrSelf(t, f, n);
      case Self => ns := FillSelf(t, f, n);
      case ParentAxis => ns := FillParent(t, f, n);
      case Namespace => ns := FillNothing(t, f, n);
    }
  }

  method FillSelf(t: Tree, f: Filter, n: Path) returns (ns: seq<XNode>)
    requires Valid(t, n)
    ensures ns == Pick(t, f, AxisNodes(t, Self, n))
  {
    AxisNodesMeaning(t, Self, n);
    AscendingUnique(AxisNodes(t, Self, n), [n]);
    GoingStarts(t, f, [n]);
    var done;
    ns, done := PushNext(t, f, [], n, [n], 0);
    if !done {
      GoingEnds(t, f, [n], ns);
    }
  }

  method FillParent(t: Tree, f: Filter, n: Path) returns (ns: seq<XNode>)
    requires Valid(t, n)
    ensures ns == Pick(t, f, AxisNodes(t, ParentAxis, n))
  {
    AxisNodesMeaning(t, ParentAxis, n);
    var parent := Parent(n);
    ns := [];
    if parent.Some? {
      ghost var up := parent.value;
      ValidPrefix(t, n, |n| - 1);
      AscendingUnique(AxisNodes(t, ParentAxis, n), [up]);
      GoingStarts(t, f, [up]);
      var done;
      ns, done := PushNext(t, f, [], parent.value, [up], 0);
      if !done {
        GoingEnds(t, f, [up], ns);
      }
    } else {
      AscendingUnique(AxisNodes(t, ParentAxis, n), []);
    }
  }

  /** The namespace axis is not supported: nothing is selected. */
  method FillNothing(t: Tree, f: Filter, n: Path) returns (ns: seq<XNode>)
    requires Valid(t, n)
    ensures ns == Pick(t, f, AxisNodes(t, Namespace, n))
  {
    AxisNodesMeaning(t, Namespace, n);
    AscendingUnique(AxisNodes(t, Namespace, n), []);
    ns := [];
  }

  /** `step_push` for an attribute that stands for itself on one of its own axes. */
  method PushSelf(t: Tree, axis: Axis, f: Filter, x: XNode) returns (ns: seq<XNode>)
    requires x.Attribute? && ValidNode(t, x) && axis != AttributeAxis
    ensures ns == if HitOn(t, axis, f, x) then [x] else []
  {
    // an attribute is no element: only `node()` lets it pass
    ns := [];
    if f.test == TestNode {
      if PassesAttribute(f.test, f.arg, Sub(t, x.owner).attrs[x.index].name) {
        ns := [x];
      }
    }
  }

  lemma HitsOfOne(t: Tree, axis: Axis, f: Filter, x: XNode)
    ensures HitsFrom(t, axis, f, [x], 0) == if HitOn(t, axis, f, x) then [x] else []
  {
    assert HitsFrom(t, axis, f, [x], 1) == [];
  }

  /** The walks that start at the owner of an attribute. */
  method FillFromOwner(t: Tree, axis: Axis, f: Filter, x: XNode) returns (ns: seq<XNode>)
    requires x.Attribute? && ValidNode(t, x) && axis in {AncestorAxis, Following, ParentAxis, Preceding}
    ensures ns == StepNodes(t, axis, f, x)
  {
    var p := x.owner;
    if axis == AncestorAxis {
      PickIsHits(t, axis, f, AxisNodes(t, AncestorOrSelf, p), 0);
      ns := FillAncestorOrSelf(t, f, p);
    } else if axis == Following {
      PickIsHits(t, axis, f, BehindOwner(t, p), 0);
      ns := FillFollowingAttribute(t, f, p);
    } else if axis == ParentAxis {
      HitsOfOne(t, axis, f, Node(p));
      var done;
      ns, done := Push(t, f, [], p);
    } else {
      PickIsHits(t, axis, f, AxisNodes(t, Preceding, p), 0);
      ns := FillPreceding(t, f, p);
    }
  }

  /** `step_fill` from an attribute. */
  method FillFromAttribute(t: Tree, axis: Axis, f: Filter, x: XNode) returns (ns: seq<XNode>)
    requires x.Attribute? && ValidNode(t, x)
    ensures ns == StepNodes(t, axis, f, x)
  {
    match axis {
      case AncestorAxis => ns := FillFromOwner(t, axis, f, x);
      case AncestorOrSelf => ns := FillOwnAncestors(t, f, x);
      case DescendantOrSelf =>
        HitsOfOne(t, axis, f, x);
        ns := PushSelf(t, axis, f, x);
      case Self =>
        HitsOfOne(t, axis, f, x);
        ns := PushSelf(t, axis, f, x);
      case Following => ns := FillFromOwner(t, axis, f, x);
      case ParentAxis => ns := FillFromOwner(t, axis, f, x);
      case Preceding => ns := FillFromOwner(t, axis, f, x);
      case _ => ns := [];
    }
  }

  method FillOwnAncestors(t: Tree, f: Filter, x: XNode) returns (ns: seq<XNode>)
    requires x.Attribute? && ValidNode(t, x)
    ensures ns == StepNodes(t, AncestorOrSelf, f, x)
  {
    ghost var above := AsNodes(AxisNodes(t, AncestorOrSelf, x.owner));
    PickIsHits(t, AncestorOrSelf, f, AxisNodes(t, AncestorOrSelf, x.owner), 0);
    HitsOfMore(t, AncestorOrSelf, f, x, above);
    var own := PushSelf(t, AncestorOrSelf, f, x);
    if own != [] && f.once {
      return own;
    }
    var more := FillAncestorOrSelf(t, f, x.owner);
    ns := own + more;
  }

  lemma HitsOfMore(t: Tree, axis: Axis, f: Filter, x: XNode, s: seq<XNode>)
    ensures HitsFrom(t, axis, f, [x] + s, 0) == (if HitOn(t, axis, f, x) then [x] else []) + HitsFrom(t, axis, f, s, 0)
  {
    HitsShift(t, axis, f, x, s, 0);
  }

  lemma {:induction false} HitsShift(t: Tree, axis: Axis, f: Filter, x: XNode, s: seq<XNode>, k: nat)
    requires k <= |s|
    ensures HitsFrom(t, axis, f, [x] + s, k + 1) == HitsFrom(t, axis, f, s, k)
    decreases |s| - k
  {
    if k < |s| {
      HitsShift(t, axis, f, x, s, k + 1);
    }
  }

  /** `step_fill`: null and axes that attributes do not have select nothing. */
  method StepFill(t: Tree, axis: Axis, f: Filter, x: XNode) returns (ns: seq<XNode>)
    requires ValidNode(t, x)
    ensures ns == StepNodes(t, axis, f, x)
  {
    match x {
      case Node(p) => ns := FillFromNode(t, axis, f, p);
      case Attribute(_, _) => ns := FillFromAttribute(t, axis, f, x);
      case Nothing => ns := [];
    }
  }
}
