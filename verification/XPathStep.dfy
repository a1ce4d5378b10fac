/**
 `step_fill`: the walks over the document that enumerate the nodes of an axis and
 push those that pass the node test, stopping at the first one when asked to.
 */
module XPathStep {
  import opened Wrappers
  import opened XmlTree
  import opened XPathWalk
  import opened XPathOrder
  import opened XPathAxes

  // ------------------------------------------------------------------ node tests

  datatype Test =
    | TestName | TestNode | TestComment | TestPi | TestText | TestPiName | TestAll | TestNamespace

  predicate StartsWith(s: string, prefix: string) {
    prefix <= s
  }

  /** `is_xpath_attribute`: namespace declarations are no attributes for XPath. */
  predicate IsXPathAttribute(name: string) {
    !(StartsWith(name, "xmlns") && (|name| == 5 || name[5] == ':'))
  }

  /** `step_push` for a tree node; a missing name is the empty string. */
  predicate Passes(t: Tree, test: Test, arg: string, q: Path)
    requires Valid(t, q)
  {
    var n := Sub(t, q);
    match test
    case TestName => n.kind == Element && n.name != "" && n.name == arg
    case TestNode => true
    case TestComment => n.kind == Comment
    case TestText => n.kind == PcData || n.kind == CData
    case TestPi => n.kind == Pi
    case TestPiName => n.kind == Pi && n.name != "" && n.name == arg
    case TestAll => n.kind == Element
    case TestNamespace => n.kind == Element && n.name != "" && StartsWith(n.name, arg)
  }

  /** `step_push` for an attribute. */
  predicate PassesAttribute(test: Test, arg: string, name: string) {
    match test
    case TestName => name == arg && IsXPathAttribute(name)
    case TestNode => IsXPathAttribute(name)
    case TestAll => IsXPathAttribute(name)
    case TestNamespace => StartsWith(name, arg) && IsXPathAttribute(name)
    case _ => false
  }

  // ------------------------------------------------------------- what is pushed

  /** A node test with its argument, and whether one hit is enough. */
  datatype Filter = Filter(test: Test, arg: string, once: bool)

  /** Whether a walk pushes tree node q. */
  predicate Hit(t: Tree, f: Filter, q: Path) {
    Valid(t, q) && Passes(t, f.test, f.arg, q)
  }

  /** What a walk over the nodes from number k on pushes. */
  function PickFrom(t: Tree, f: Filter, nodes: seq<Path>, k: nat): seq<XNode>
    requires k <= |nodes|
    decreases |nodes| - k
  {
    if k == |nodes| then []
    else if !Hit(t, f, nodes[k]) then PickFrom(t, f, nodes, k + 1)
    else if f.once then [Node(nodes[k])]
    else [Node(nodes[k])] + PickFrom(t, f, nodes, k + 1)
  }

  /** What a walk over the given nodes pushes. */
  function Pick(t: Tree, f: Filter, nodes: seq<Path>): seq<XNode> {
    PickFrom(t, f, nodes, 0)
  }

  /** A walk that has pushed what it should for the first k nodes and may go on. */
  ghost predicate Going(t: Tree, f: Filter, nodes: seq<Path>, k: nat, ns: seq<XNode>) {
    k <= |nodes| && ns + PickFrom(t, f, nodes, k) == Pick(t, f, nodes)
  }

  lemma GoingStarts(t: Tree, f: Filter, nodes: seq<Path>)
    ensures Going(t, f, nodes, 0, [])
  {
    assert [] + Pick(t, f, nodes) == Pick(t, f, nodes);
  }

  lemma GoingEnds(t: Tree, f: Filter, nodes: seq<Path>, ns: seq<XNode>)
    requires Going(t, f, nodes, |nodes|, ns)
    ensures ns == Pick(t, f, nodes)
  {
    assert ns + [] == ns;
  }

  lemma GoingStep(t: Tree, f: Filter, nodes: seq<Path>, k: nat, ns: seq<XNode>)
    requires Going(t, f, nodes, k, ns) && k < |nodes|
    ensures var hit := Hit(t, f, nodes[k]);
            && (!hit ==> Going(t, f, nodes, k + 1, ns))
            && (hit && !f.once ==> Going(t, f, nodes, k + 1, ns + [Node(nodes[k])]))
            && (hit && f.once ==> ns + [Node(nodes[k])] == Pick(t, f, nodes))
  {
    var rest := PickFrom(t, f, nodes, k + 1);
    assert ns + ([Node(nodes[k])] + rest) == (ns + [Node(nodes[k])]) + rest;
  }

  /** `step_push` and its early return: done means the caller returns. */
  method Push(t: Tree, f: Filter, ns: seq<XNode>, q: Path) returns (ns': seq<XNode>, done: bool)
    requires Valid(t, q)
    ensures Hit(t, f, q) ==> ns' == ns + [Node(q)] && done == f.once
    ensures !Hit(t, f, q) ==> ns' == ns && !done
  {
    if Passes(t, f.test, f.arg, q) {
      return ns + [Node(q)], f.once;
    }
    return ns, false;
  }

  /** A pointer that stands at node number k of a list, null behind its end. */
  ghost predicate At(nodes: seq<Path>, k: nat, c: Option<Path>) {
    k <= |nodes| && c == if k < |nodes| then Some(nodes[k]) else None
  }

  /** `step_push` at node number k of a list, and what it means for the walk. */
  method PushNext(t: Tree, f: Filter, ns: seq<XNode>, q: Path, ghost nodes: seq<Path>, ghost k: nat)
    returns (ns': seq<XNode>, done: bool)
    requires Valid(t, q) && k < |nodes| && nodes[k] == q && Going(t, f, nodes, k, ns)
    ensures done ==> ns' == Pick(t, f, nodes)
    ensures !done ==> Going(t, f, nodes, k + 1, ns')
  {
    GoingStep(t, f, nodes, k, ns);
    ns', done := Push(t, f, ns, q);
  }

  // ------------------------------------------------------------- sibling walks

  /** The children of p from number i on. */
  function ChildrenFrom(t: Tree, p: Path, i: nat): (r: seq<Path>)
    requires Valid(t, p) && i <= |Sub(t, p).children|
    ensures |r| == |Sub(t, p).children| - i
    ensures forall k | 0 <= k < |r| :: r[k] == p + [i + k] && Valid(t, r[k])
  {
    ghost var n := |Sub(t, p).children|;
    assert forall k | i <= k < n :: Valid(t, p + [k]) by {
      forall k | i <= k < n ensures Valid(t, p + [k]) {
        ValidChild(t, p, k);
      }
    }
    seq(|Sub(t, p).children| - i, k requires 0 <= k < |Sub(t, p).children| - i => p + [i + k])
  }

  lemma ChildrenAscend(t: Tree, p: Path, i: nat)
    requires Valid(t, p) && i <= |Sub(t, p).children|
    ensures Ascending(ChildrenFrom(t, p, i))
    ensures forall q :: q in ChildrenFrom(t, p, i) <==> Valid(t, q) && Parent(q) == Some(p) && LastIndex(q) >= i
  {
    var r := ChildrenFrom(t, p, i);
    forall j, k | 0 <= j < k < |r| ensures Before(r[j], r[k]) {
      BeforeUnder(p, [i + j], [i + k]);
    }
    forall q ensures q in r <==> Valid(t, q) && Parent(q) == Some(p) && LastIndex(q) >= i {
      if q in r {
        var k :| 0 <= k < |r| && r[k] == q;
        assert (p + [i + k])[..|p|] == p;
      }
      if Valid(t, q) && Parent(q) == Some(p) && LastIndex(q) >= i {
        assert q == p + [LastIndex(q)];
        ValidChild(t, p, LastIndex(q));
        assert r[LastIndex(q) - i] == q;
      }
    }
  }

  lemma ChildAxis(t: Tree, p: Path)
    requires Valid(t, p)
    ensures AxisNodes(t, Child, p) == ChildrenFrom(t, p, 0)
  {
    AxisNodesMeaning(t, Child, p);
    ChildrenAscend(t, p, 0);
    AscendingUnique(AxisNodes(t, Child, p), ChildrenFrom(t, p, 0));
  }

  lemma FollowingSiblingAxis(t: Tree, p: Path)
    requires Valid(t, p) && p != []
    ensures Valid(t, p[..|p| - 1]) && LastIndex(p) < |Sub(t, p[..|p| - 1]).children|
    ensures AxisNodes(t, FollowingSibling, p) == ChildrenFrom(t, p[..|p| - 1], LastIndex(p) + 1)
  {
    var up := p[..|p| - 1];
    ValidPrefix(t, p, |p| - 1);
    AxisNodesMeaning(t, FollowingSibling, p);
    ChildrenAscend(t, up, LastIndex(p) + 1);
    var a, b := AxisNodes(t, FollowingSibling, p), ChildrenFrom(t, up, LastIndex(p) + 1);
    forall q ensures q in a <==> q in b {
      if q != [] && Parent(q) == Some(up) {
        SiblingsBefore(p, q);
      }
    }
    AscendingUnique(a, b);
  }

  lemma ChildPointers(t: Tree, up: Path, i: nat)
    requires Valid(t, up) && i < |Sub(t, up).children|
    ensures var c := up + [i];
            && Valid(t, c) && c != [] && c[..|c| - 1] == up && LastIndex(c) == i
            && SiblingCount(t, c) == |Sub(t, up).children|
  {
    ValidChild(t, up, i);
    assert (up + [i])[..|up|] == up;
  }

  lemma NextChild(t: Tree, up: Path, i: nat, k: nat)
    requires Valid(t, up) && i + k < |Sub(t, up).children|
    ensures var nodes := ChildrenFrom(t, up, i);
            k < |nodes| && Valid(t, nodes[k]) && At(nodes, k + 1, NextSibling(t, nodes[k]))
  {
    ChildPointers(t, up, i + k);
  }

  /** The walk along `next_sibling` from the node at the given index. */
  method FillSiblings(t: Tree, f: Filter, start: Option<Path>, ghost up: Path, ghost i: nat) returns (ns: seq<XNode>)
    requires Valid(t, up) && i <= |Sub(t, up).children| && At(ChildrenFrom(t, up, i), 0, start)
    ensures ns == Pick(t, f, ChildrenFrom(t, up, i))
  {
    ghost var nodes := ChildrenFrom(t, up, i);
    ns := [];
    var c := start;
    ghost var k := 0;
    GoingStarts(t, f, nodes);
    while c.Some?
      invariant At(nodes, k, c) && Going(t, f, nodes, k, ns)
      decreases |nodes| - k
    {
      NextChild(t, up, i, k);
      var done;
      ns, done := PushNext(t, f, ns, c.value, nodes, k);
      if done {
        return;
      }
      c := NextSibling(t, c.value);
      k := k + 1;
    }
    GoingEnds(t, f, nodes, ns);
  }

  method FillChild(t: Tree, f: Filter, n: Path) returns (ns: seq<XNode>)
    requires Valid(t, n)
    ensures ns == Pick(t, f, AxisNodes(t, Child, n))
  {
    ChildAxis(t, n);
    ns := FillSiblings(t, f, FirstChild(t, n), n, 0);
  }

  method FillFollowingSibling(t: Tree, f: Filter, n: Path) returns (ns: seq<XNode>)
    requires Valid(t, n)
    ensures ns == Pick(t, f, AxisNodes(t, FollowingSibling, n))
  {
    var c := NextSibling(t, n);
    if n == [] {
      AxisNodesMeaning(t, FollowingSibling, n);
      ns := [];
      AscendingUnique(AxisNodes(t, FollowingSibling, n), []);
    } else {
      FollowingSiblingAxis(t, n);
      ns := FillSiblings(t, f, c, n[..|n| - 1], LastIndex(n) + 1);
    }
  }

  /** A list with the right nodes in the right order is the list of the axis. */
  lemma ReverseAxisIs(t: Tree, axis: Axis, p: Path, a: seq<Path>)
    requires ReverseAxis(axis) && Descending(a)
    requires forall q :: q in a <==> Valid(t, q) && OnAxis(axis, p, q)
    ensures AxisNodes(t, axis, p) == a
  {
    var nodes := Where(t, q => OnAxis(axis, p, q));
    WhereMeaning(t, q => OnAxis(axis, p, q));
    ReversedHas(a);
    AscendingUnique(nodes, Reversed(a));
  }

  /** The children of p before number i, last one first. */
  function ChildrenBefore(t: Tree, p: Path, i: nat): (r: seq<Path>)
    requires Valid(t, p) && i <= |Sub(t, p).children|
    ensures |r| == i
    ensures forall k | 0 <= k < |r| :: r[k] == p + [i - 1 - k] && Valid(t, r[k])
  {
    Reversed(ChildrenFrom(t, p, 0)[..i])
  }

  lemma ChildrenBeforeHas(t: Tree, up: Path, p: Path, q: Path)
    requires Valid(t, up) && Valid(t, p) && Parent(p) == Some(up) && LastIndex(p) <= |Sub(t, up).children|
    ensures q in ChildrenBefore(t, up, LastIndex(p)) <==> Valid(t, q) && OnAxis(PrecedingSibling, p, q)
  {
    var i := LastIndex(p);
    var r := ChildrenBefore(t, up, i);
    if q in r {
      var k :| 0 <= k < |r| && r[k] == q;
      assert q[..|up|] == up;
      SiblingsBefore(q, p);
    }
    if Valid(t, q) && OnAxis(PrecedingSibling, p, q) {
      SiblingsBefore(q, p);
      assert q == up + [LastIndex(q)];
      assert r[i - 1 - LastIndex(q)] == q;
    }
  }

  lemma ChildrenBeforeDescend(t: Tree, up: Path, i: nat)
    requires Valid(t, up) && i <= |Sub(t, up).children|
    ensures Descending(ChildrenBefore(t, up, i))
  {
    var r := ChildrenBefore(t, up, i);
    forall j, k | 0 <= j < k < |r| ensures Before(r[k], r[j]) {
      BeforeUnder(up, [i - 1 - k], [i - 1 - j]);
    }
  }

  lemma PrecedingSiblingAxis(t: Tree, p: Path)
    requires Valid(t, p) && p != []
    ensures Valid(t, p[..|p| - 1]) && LastIndex(p) < |Sub(t, p[..|p| - 1]).children|
    ensures AxisNodes(t, PrecedingSibling, p) == ChildrenBefore(t, p[..|p| - 1], LastIndex(p))
  {
    ValidPrefix(t, p, |p| - 1);
    ChildrenBeforeDescend(t, p[..|p| - 1], LastIndex(p));
    forall q {
      ChildrenBeforeHas(t, p[..|p| - 1], p, q);
    }
    ReverseAxisIs(t, PrecedingSibling, p, ChildrenBefore(t, p[..|p| - 1], LastIndex(p)));
  }

  /** Stepping back through the circular list: the sibling before, or the tail, which has no successor. */
  lemma StepBack(t: Tree, up: Path, i: nat)
    requires Valid(t, up) && i < |Sub(t, up).children|
    ensures Valid(t, up + [i]) && Valid(t, PrevSiblingC(t, up + [i]))
    ensures NextSibling(t, PrevSiblingC(t, up + [i])).Some? <==> i > 0
    ensures i > 0 ==> PrevSiblingC(t, up + [i]) == up + [i - 1]
  {
    ChildPointers(t, up, i);
    var j := if i > 0 then i - 1 else |Sub(t, up).children| - 1;
    ChildPointers(t, up, j);
    assert PrevSiblingC(t, up + [i]) == up + [j];
  }

  /** The walk back that stands before child number i: at its predecessor, or at the tail when there is none. */
  ghost predicate BackAt(t: Tree, up: Path, i: nat, c: Path) {
    && Valid(t, up) && i < |Sub(t, up).children| && Valid(t, up + [i]) && c == PrevSiblingC(t, up + [i])
    && Valid(t, c)
  }

  lemma BackFrom(t: Tree, up: Path, i: nat, c: Path)
    requires BackAt(t, up, i, c)
    ensures NextSibling(t, c).Some? <==> i > 0
    ensures i > 0 ==> c == up + [i - 1] && BackAt(t, up, i - 1, PrevSiblingC(t, c))
  {
    StepBack(t, up, i);
    if i > 0 {
      StepBack(t, up, i - 1);
    }
  }

  /** The walk back along `prev_sibling_c` from child number i, which ends at the tail. */
  method FillBack(t: Tree, f: Filter, start: Path, ghost up: Path, ghost i: nat) returns (ns: seq<XNode>)
    requires BackAt(t, up, i, start)
    ensures ns == Pick(t, f, ChildrenBefore(t, up, i))
  {
    ghost var nodes := ChildrenBefore(t, up, i);
    ns := [];
    var c := start;
    ghost var left := i;
    GoingStarts(t, f, nodes);
    while NextSibling(t, c).Some?
      invariant 0 <= left <= i && Valid(t, c) && BackAt(t, up, left, c)
      invariant Going(t, f, nodes, i - left, ns)
      decreases left
    {
      BackFrom(t, up, left, c);
      var done;
      ns, done := PushNext(t, f, ns, c, nodes, i - left);
      if done {
        return;
      }
      left := left - 1;
      c := PrevSiblingC(t, c);
    }
    BackFrom(t, up, left, c);
    GoingEnds(t, f, nodes, ns);
  }

  method FillPrecedingSibling(t: Tree, f: Filter, n: Path) returns (ns: seq<XNode>)
    requires Valid(t, n)
    ensures ns == Pick(t, f, AxisNodes(t, PrecedingSibling, n))
  {
    var c := PrevSiblingC(t, n);
    if n == [] {
      // the root is its own predecessor and has no successor
      ns := [];
      ReverseAxisIs(t, PrecedingSibling, n, []);
    } else {
      PrecedingSiblingAxis(t, n);
      assert n == n[..|n| - 1] + [LastIndex(n)];
      StepBack(t, n[..|n| - 1], LastIndex(n));
      ns := FillBack(t, f, c, n[..|n| - 1], LastIndex(n));
    }
  }

  // --------------------------------------------------------------- ancestor walk

  /** The nodes above p, nearest first. */
  function AncestorsOf(p: Path): (r: seq<Path>)
    ensures |r| == |p|
    ensures forall k | 0 <= k < |p| :: r[k] == p[..|p| - 1 - k]
  {
    seq(|p|, k requires 0 <= k < |p| => p[..|p| - 1 - k])
  }

  lemma AncestorAxisIs(t: Tree, p: Path)
    requires Valid(t, p)
    ensures AxisNodes(t, AncestorAxis, p) == AncestorsOf(p)
    ensures AxisNodes(t, AncestorOrSelf, p) == [p] + AncestorsOf(p)
  {
    var r := AncestorsOf(p);
    forall k | 0 <= k < |r| ensures Valid(t, r[k]) && Ancestor(r[k], p) {
      ValidPrefix(t, p, |p| - 1 - k);
    }
    forall j, k | 0 <= j < k < |r| ensures Before(r[k], r[j]) {
      assert r[j][..|r[k]|] == r[k];
      AncestorBefore(r[k], r[j]);
    }
    forall q ensures q in r <==> Valid(t, q) && OnAxis(AncestorAxis, p, q) {
      if Ancestor(q, p) {
        assert r[|p| - 1 - |q|] == q;
      }
    }
    ReverseAxisIs(t, AncestorAxis, p, r);
    var s := [p] + r;
    forall k | 1 <= k < |s| ensures Before(s[k], s[0]) {
      AncestorBefore(r[k - 1], p);
    }
    ReverseAxisIs(t, AncestorOrSelf, p, s);
  }

  /** The walk along `parent`; the nodes in done0 are dealt with already. */
  method FillAbove(t: Tree, f: Filter, n: Path, first: seq<XNode>, ghost done0: seq<Path>) returns (ns: seq<XNode>)
    requires Valid(t, n) && Going(t, f, done0 + AncestorsOf(n), |done0|, first)
    ensures ns == Pick(t, f, done0 + AncestorsOf(n))
  {
    ghost var nodes, base := done0 + AncestorsOf(n), |done0|;
    ns := first;
    ghost var k := 0;
    var cur := Parent(n);
    while cur.Some?
      invariant k <= |n| && cur == if k < |n| then Some(n[..|n| - 1 - k]) else None
      invariant Going(t, f, nodes, base + k, ns)
      decreases |n| - k
    {
      assert nodes[base + k] == AncestorsOf(n)[k] == cur.value;
      ValidPrefix(t, n, |n| - 1 - k);
      var done;
      ns, done := PushNext(t, f, ns, cur.value, nodes, base + k);
      if done {
        return;
      }
      ParentOfPrefix(n, |n| - 1 - k);
      cur := Parent(cur.value);
      k := k + 1;
    }
    GoingEnds(t, f, nodes, ns);
  }

  lemma ParentOfPrefix(p: Path, n: nat)
    requires n <= |p|
    ensures Parent(p[..n]) == if n == 0 then None else Some(p[..n - 1])
  {
    if n > 0 {
      assert p[..n][..n - 1] == p[..n - 1];
    }
  }

  method FillAncestor(t: Tree, f: Filter, n: Path) returns (ns: seq<XNode>)
    requires Valid(t, n)
    ensures ns == Pick(t, f, AxisNodes(t, AncestorAxis, n))
  {
    AncestorAxisIs(t, n);
    assert [] + AncestorsOf(n) == AncestorsOf(n);
    GoingStarts(t, f, AncestorsOf(n));
    ns := FillAbove(t, f, n, [], []);
  }

  method FillAncestorOrSelf(t: Tree, f: Filter, n: Path) returns (ns: seq<XNode>)
    requires Valid(t, n)
    ensures ns == Pick(t, f, AxisNodes(t, AncestorOrSelf, n))
  {
    AncestorAxisIs(t, n);
    ghost var nodes := [n] + AncestorsOf(n);
    GoingStarts(t, f, nodes);
    var done;
    ns, done := PushNext(t, f, [], n, nodes, 0);
    if !done {
      ns := FillAbove(t, f, n, ns, [n]);
    }
  }
}
