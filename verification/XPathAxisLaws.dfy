/**
 The axes of section 2.2 of XPath 1.0 as a step with `node()` takes them, told by where
 the nodes stand in the tree: a node is the list of child indices that lead to it.
 */
module XPathAxisLaws {
  import opened XmlTree
  import opened XPathWalk
  import opened XPathOrder
  import opened XPathAxes
  import opened XPathStep
  import opened XPathFill
  import opened XPathTests

  lemma OnAxisSelected(t: Tree, axis: Axis, p: Path, q: Path)
    requires Valid(t, p) && Valid(t, q)
    ensures Selects(t, axis, TestNode, "", Node(p), Node(q)) <==> OnAxis(axis, p, q)
  {
    NodeTest(t, axis, "", Node(p), q);
  }

  // -------------------------------------------------------------------- up and down

  /** q is at the end of a way down from p, or p itself. */
  ghost predicate Below(p: Path, q: Path) {
    exists w: Path :: q == p + w
  }

  ghost predicate IsChild(p: Path, q: Path) {
    exists k: nat :: q == p + [k]
  }

  lemma BelowPrefix(p: Path, q: Path)
    ensures Below(p, q) <==> Prefix(p, q)
  {
    if Prefix(p, q) {
      assert q == p + q[|p|..];
    }
  }

  lemma ChildParent(p: Path, q: Path)
    ensures IsChild(p, q) <==> q != [] && q[..|q| - 1] == p
  {
    if q != [] && q[..|q| - 1] == p {
      assert q == p + [q[|q| - 1]];
    }
  }

  /** Children and the parent, and what is further down and up, each with and without the node itself. */
  lemma UpAndDown(t: Tree, p: Path, q: Path)
    requires Valid(t, p) && Valid(t, q)
    ensures Selects(t, Child, TestNode, "", Node(p), Node(q)) <==> IsChild(p, q)
    ensures Selects(t, ParentAxis, TestNode, "", Node(p), Node(q)) <==> IsChild(q, p)
    ensures Selects(t, DescendantOrSelf, TestNode, "", Node(p), Node(q)) <==> Below(p, q)
    ensures Selects(t, AncestorOrSelf, TestNode, "", Node(p), Node(q)) <==> Below(q, p)
    ensures Selects(t, Descendant, TestNode, "", Node(p), Node(q)) <==> Below(p, q) && p != q
    ensures Selects(t, AncestorAxis, TestNode, "", Node(p), Node(q)) <==> Below(q, p) && p != q
    ensures Selects(t, Self, TestNode, "", Node(p), Node(q)) <==> p == q
  {
    UpAndDownAxes(p, q);
    OnAxisSelected(t, Child, p, q);
    OnAxisSelected(t, ParentAxis, p, q);
    OnAxisSelected(t, DescendantOrSelf, p, q);
    OnAxisSelected(t, AncestorOrSelf, p, q);
    OnAxisSelected(t, Descendant, p, q);
    OnAxisSelected(t, AncestorAxis, p, q);
    OnAxisSelected(t, Self, p, q);
  }

  lemma UpAndDownAxes(p: Path, q: Path)
    ensures (OnAxis(Child, p, q) <==> IsChild(p, q)) && (OnAxis(ParentAxis, p, q) <==> IsChild(q, p))
    ensures (OnAxis(DescendantOrSelf, p, q) <==> Below(p, q)) && (OnAxis(AncestorOrSelf, p, q) <==> Below(q, p))
    ensures (OnAxis(Descendant, p, q) <==> Below(p, q) && p != q) && (OnAxis(AncestorAxis, p, q) <==> Below(q, p) && p != q)
    ensures OnAxis(Self, p, q) <==> p == q
  {
    ChildParent(p, q);
    ChildParent(q, p);
    BelowPrefix(p, q);
    BelowPrefix(q, p);
  }

  // ------------------------------------------------------------------ left and right

  /** p and q are children of u, p in front of q. */
  ghost predicate Sides(u: Path, p: Path, q: Path) {
    exists i: nat, j: nat :: i < j && p == u + [i] && q == u + [j]
  }

  /** The ways to p and to q part below u, that to p in front of that to q. */
  ghost predicate Parts(u: Path, p: Path, q: Path) {
    |u| < |p| && |u| < |q| && p[..|u|] == u && q[..|u|] == u && p[|u|] < q[|u|]
  }

  lemma PartsCut(u: Path, p: Path, q: Path, k: nat)
    ensures Parts([k] + u, [k] + p, [k] + q) <==> Parts(u, p, q)
  {
    if |u| < |p| && |u| < |q| {
      assert ([k] + p)[..|u| + 1] == [k] + p[..|u|];
      assert ([k] + q)[..|u| + 1] == [k] + q[..|u|];
      assert p[..|u|] == ([k] + p)[..|u| + 1][1..] && q[..|u|] == ([k] + q)[..|u| + 1][1..];
    }
  }

  lemma {:induction false} PartsAfter(u: Path, p: Path, q: Path)
    requires Parts(u, p, q)
    ensures After(p, q)
    decreases |u|
  {
    if u != [] {
      assert u == [u[0]] + u[1..] && p == [p[0]] + p[1..] && q == [q[0]] + q[1..];
      assert p[0] == p[..|u|][0] && q[0] == q[..|u|][0];
      PartsCut(u[1..], p[1..], q[1..], u[0]);
      PartsAfter(u[1..], p[1..], q[1..]);
    }
    PartsApart(u, p, q);
  }

  lemma PartsApart(u: Path, p: Path, q: Path)
    requires Parts(u, p, q)
    ensures !Prefix(p, q)
  {
    assert |p| <= |q| ==> q[|u|] == q[..|p|][|u|];
  }

  lemma PrefixTail(p: Path, q: Path)
    requires p != [] && q != [] && p[0] == q[0]
    ensures Prefix(p, q) <==> Prefix(p[1..], q[1..])
  {
    if |p| <= |q| {
      assert q[..|p|] == [q[0]] + q[1..][..|p| - 1];
      assert p == [p[0]] + p[1..];
    }
  }

  lemma {:induction false} AfterParts(p: Path, q: Path) returns (u: Path)
    requires After(p, q)
    ensures Parts(u, p, q)
    decreases |p|
  {
    if p[0] < q[0] {
      u := [];
    } else {
      assert p == [p[0]] + p[1..] && q == [q[0]] + q[1..];
      PrefixTail(p, q);
      u := AfterParts(p[1..], q[1..]);
      PartsCut(u, p[1..], q[1..], p[0]);
      u := [p[0]] + u;
    }
  }

  lemma SidesParts(u: Path, p: Path, q: Path)
    ensures Sides(u, p, q) <==> IsChild(u, p) && IsChild(u, q) && Parts(u, p, q)
  {
    if Parts(u, p, q) && IsChild(u, p) && IsChild(u, q) {
      var i: nat :| p == u + [i];
      var j: nat :| q == u + [j];
      assert p[|u|] == i && q[|u|] == j;
    }
  }

  lemma AfterExactly(p: Path, q: Path)
    ensures After(p, q) <==> exists u: Path :: Parts(u, p, q)
  {
    if After(p, q) {
      var u := AfterParts(p, q);
    }
    forall u: Path | Parts(u, p, q) ensures After(p, q) {
      PartsAfter(u, p, q);
    }
  }

  lemma SiblingsAfter(u: Path, p: Path, q: Path)
    requires IsChild(u, p)
    ensures Sides(u, p, q) <==> IsChild(u, q) && Before(p, q)
  {
    SidesParts(u, p, q);
    if Parts(u, p, q) {
      PartsAfter(u, p, q);
    }
    if IsChild(u, q) && Before(p, q) {
      var i: nat :| p == u + [i];
      var j: nat :| q == u + [j];
      SameLength(p, q);
      var v := AfterParts(p, q);
      assert forall k | 0 <= k < |u| :: p[k] == q[k];
      assert p[..|v|] == u;
    }
  }

  lemma SameLength(p: Path, q: Path)
    requires |p| == |q| && Before(p, q)
    ensures After(p, q)
  {
    BeforeTotal(p, q);
    assert q[..|p|] == q;
  }

  /** Following and preceding nodes part from the way to the node on its right or left, siblings as children of its parent. */
  lemma LeftAndRight(t: Tree, p: Path, q: Path)
    requires Valid(t, p) && Valid(t, q)
    ensures Selects(t, Following, TestNode, "", Node(p), Node(q)) <==> exists u: Path :: Parts(u, p, q)
    ensures Selects(t, Preceding, TestNode, "", Node(p), Node(q)) <==> exists u: Path :: Parts(u, q, p)
    ensures Selects(t, FollowingSibling, TestNode, "", Node(p), Node(q)) <==> exists u: Path :: Sides(u, p, q)
    ensures Selects(t, PrecedingSibling, TestNode, "", Node(p), Node(q)) <==> exists u: Path :: Sides(u, q, p)
  {
    LeftAndRightAxes(p, q);
    OnAxisSelected(t, Following, p, q);
    OnAxisSelected(t, Preceding, p, q);
    OnAxisSelected(t, FollowingSibling, p, q);
    OnAxisSelected(t, PrecedingSibling, p, q);
  }

  lemma LeftAndRightAxes(p: Path, q: Path)
    ensures OnAxis(Following, p, q) <==> exists u: Path :: Parts(u, p, q)
    ensures OnAxis(Preceding, p, q) <==> exists u: Path :: Parts(u, q, p)
    ensures OnAxis(FollowingSibling, p, q) <==> exists u: Path :: Sides(u, p, q)
    ensures OnAxis(PrecedingSibling, p, q) <==> exists u: Path :: Sides(u, q, p)
  {
    AfterExactly(p, q);
    AfterExactly(q, p);
    SiblingsExactly(p, q);
    SiblingsExactly(q, p);
  }

  lemma SiblingsExactly(p: Path, q: Path)
    ensures p != [] && Parent(q) == Parent(p) && Before(p, q) <==> exists u: Path :: Sides(u, p, q)
  {
    if p != [] && Parent(q) == Parent(p) && Before(p, q) {
      var u := p[..|p| - 1];
      ChildParent(u, p);
      ChildParent(u, q);
      SiblingsAfter(u, p, q);
      assert Sides(u, p, q);
    }
    forall u: Path | Sides(u, p, q) ensures p != [] && Parent(q) == Parent(p) && Before(p, q) {
      SidesParts(u, p, q);
      ChildParent(u, p);
      ChildParent(u, q);
      SiblingsAfter(u, p, q);
    }
  }

  // -------------------------------------------------------------------- attributes

  /**
   From an attribute of the element p: its parent is p, its ancestors are those of p and p,
   what precedes it precedes p, and what follows it follows p or is below p; on no other
   axis are there tree nodes.
   */
  lemma FromAttribute(t: Tree, axis: Axis, p: Path, i: nat, q: Path)
    requires ValidNode(t, Attribute(p, i)) && Valid(t, q)
    ensures Selects(t, axis, TestNode, "", Attribute(p, i), Node(q)) <==>
              || (axis == ParentAxis && q == p)
              || (axis in {AncestorAxis, AncestorOrSelf} && Below(q, p))
              || (axis == Preceding && exists u: Path :: Parts(u, q, p))
              || (axis == Following && ((exists u: Path :: Parts(u, p, q)) || (Below(p, q) && p != q)))
  {
    NodeTest(t, axis, "", Attribute(p, i), q);
    BelowPrefix(p, q);
    BelowPrefix(q, p);
    AfterExactly(p, q);
    AfterExactly(q, p);
    FromOwner(axis, p, i, q);
  }

  lemma FromOwner(axis: Axis, p: Path, i: nat, q: Path)
    ensures OnAxisOf(axis, Attribute(p, i), Node(q)) <==>
              || (axis == ParentAxis && q == p)
              || (axis in {AncestorAxis, AncestorOrSelf} && Prefix(q, p))
              || (axis == Preceding && After(q, p))
              || (axis == Following && (After(p, q) || (Prefix(p, q) && p != q)))
  {
    BeforeTotal(p, q);
    AfterOrBelow(p, q);
  }

  /** Attributes are on the attribute axis of their element, and on the axes of an attribute that have itself. */
  lemma ToAttribute(t: Tree, axis: Axis, test: Test, arg: string, x: XNode, y: XNode)
    requires ValidNode(t, x) && ValidNode(t, y) && y.Attribute? && Selects(t, axis, test, arg, x, y)
    ensures (axis == AttributeAxis && x == Node(y.owner)) || (axis in {Self, AncestorOrSelf, DescendantOrSelf} && x == y)
  {
    StepNodesMeaning(t, axis, Filter(test, arg, false), x);
  }

  // -------------------------------------------------------------------------- order

  /** x comes first in a walk through the document: an element, then its attributes, then what is below it. */
  ghost predicate Earlier(x: XNode, y: XNode)
    requires !x.Nothing? && !y.Nothing?
  {
    || (x.Node? && y.Attribute? && x.path == y.owner)
    || (x.Attribute? && y.Attribute? && x.owner == y.owner && x.index < y.index)
    || (Below(Owner(x), Owner(y)) && Owner(x) != Owner(y))
    || exists u: Path :: Parts(u, Owner(x), Owner(y))
  }

  lemma DocumentOrder(x: XNode, y: XNode)
    requires !x.Nothing? && !y.Nothing?
    ensures DocBefore(x, y) <==> Earlier(x, y)
  {
    var p, q := Owner(x), Owner(y);
    BelowPrefix(p, q);
    AfterExactly(p, q);
    AfterOrBelow(p, q);
    BeforeTotal(p, q);
  }

  /** The nodes of the ancestor and preceding axes come last one first, all others in document order. */
  lemma StepOrder(t: Tree, axis: Axis, test: Test, arg: string, x: XNode, i: nat, j: nat)
    requires ValidNode(t, x) && i < j < |StepNodes(t, axis, Filter(test, arg, false), x)|
    ensures var s := StepNodes(t, axis, Filter(test, arg, false), x);
            && !s[i].Nothing? && !s[j].Nothing?
            && if axis in {AncestorAxis, AncestorOrSelf, Preceding, PrecedingSibling} then Earlier(s[j], s[i]) else Earlier(s[i], s[j])
  {
    var s := StepNodes(t, axis, Filter(test, arg, false), x);
    StepNodesMeaning(t, axis, Filter(test, arg, false), x);
    assert s[i] in s && s[j] in s;
    DocumentOrder(s[i], s[j]);
    DocumentOrder(s[j], s[i]);
  }
}
