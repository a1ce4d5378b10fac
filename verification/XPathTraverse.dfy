/** The document-wide walks of `step_fill`: descendant, following and preceding. */
module XPathTraverse {
  import opened Wrappers
  import opened XmlTree
  import opened XPathWalk
  import opened XPathOrder
  import opened XPathAxes
  import opened XPathStep

  // -------------------------------------------------------------- forward walks

  /** Behind the subtree of x the next node is y (null: there is none outside `stop`). */
  ghost predicate IsBehind(t: Tree, x: Path, stop: Option<Path>, y: Option<Path>) {
    if y.Some? then
      && Valid(t, y.value) && After(x, y.value)
      && (stop.Some? ==> Ancestor(stop.value, y.value))
      && forall r | Valid(t, r) :: After(x, r) <==> AtOrAfter(y.value, r)
    else
      forall r | Valid(t, r) && After(x, r) :: stop.Some? && !Prefix(stop.value, r)
  }

  lemma SiblingBehind(t: Tree, x: Path, stop: Option<Path>)
    requires Valid(t, x) && NextSibling(t, x).Some? && (stop.Some? ==> Ancestor(stop.value, x))
    ensures IsBehind(t, x, stop, NextSibling(t, x))
  {
    var y := NextSibling(t, x).value;
    ValidPrefix(t, x, |x| - 1);
    ValidChild(t, x[..|x| - 1], LastIndex(x) + 1);
    forall r ensures After(x, r) <==> AtOrAfter(y, r) {
      SiblingIsNext(x, r);
    }
    if stop.Some? {
      assert Prefix(stop.value, x[..|x| - 1]) by {
        assert x[..|x| - 1][..|stop.value|] == x[..|stop.value|];
      }
      assert y[..|stop.value|] == x[..|x| - 1][..|stop.value|];
    }
  }

  /**
   Leaves the subtree of `from`: climbs while there is no next sibling, and gives up on
   reaching `stop` (for the descendants of a node) or on leaving the document.
   */
  method Leave(t: Tree, from: Path, stop: Option<Path>) returns (next: Option<Path>)
    requires Valid(t, from) && (stop.Some? ==> Ancestor(stop.value, from))
    ensures IsBehind(t, from, stop, next)
  {
    var cur := from;
    while NextSibling(t, cur).None?
      invariant Valid(t, cur) && (stop.Some? ==> Ancestor(stop.value, cur))
      invariant forall r | Valid(t, r) :: After(from, r) <==> After(cur, r)
      decreases |cur|
    {
      var parent := Parent(cur);
      if parent.None? {
        // the root: nothing lies behind it
        forall r ensures !After(cur, r) {
        }
        return None;
      }
      ValidPrefix(t, cur, |cur| - 1);
      forall r | Valid(t, r) ensures After(cur, r) <==> After(parent.value, r) {
        LastSiblingClimbs(t, cur, r);
      }
      if stop == Some(parent.value) {
        forall r ensures After(parent.value, r) ==> !Prefix(parent.value, r) {
        }
        return None;
      }
      if stop.Some? {
        AncestorOfParent(stop.value, cur);
      }
      cur := parent.value;
    }
    SiblingBehind(t, cur, stop);
    next := NextSibling(t, cur);
    AfterOrBelow(from, next.value);
  }

  lemma AncestorOfParent(a: Path, x: Path)
    requires Ancestor(a, x) && a != Parent(x).value
    ensures Ancestor(a, Parent(x).value)
  {
    assert x[..|x| - 1][..|a|] == x[..|a|];
  }

  /** The node that follows cur in a preorder walk (null: there is none outside `stop`). */
  ghost predicate IsNext(t: Tree, x: Path, stop: Option<Path>, y: Option<Path>) {
    if y.Some? then
      && Valid(t, y.value) && Before(x, y.value)
      && (stop.Some? ==> Ancestor(stop.value, y.value))
      && forall r | Valid(t, r) && Before(x, r) :: AtOrAfter(y.value, r)
    else
      forall r | Valid(t, r) && Before(x, r) :: stop.Some? && !Prefix(stop.value, r)
  }

  /** One step of a preorder walk: to the first child, or out of the subtree. */
  method Advance(t: Tree, cur: Path, stop: Option<Path>) returns (next: Option<Path>)
    requires Valid(t, cur) && (stop.Some? ==> Prefix(stop.value, cur))
    requires stop == Some(cur) ==> FirstChild(t, cur).Some?
    ensures IsNext(t, cur, stop, next)
  {
    next := FirstChild(t, cur);
    if next.Some? {
      ValidChild(t, cur, 0);
      forall r | Valid(t, r) && Before(cur, r) ensures AtOrAfter(next.value, r) {
        FirstChildIsNext(t, cur, r);
      }
      assert next.value[..|cur|] == cur;
      AncestorBefore(cur, next.value);
      if stop.Some? {
        assert next.value[..|stop.value|] == cur[..|stop.value|];
      }
    } else {
      next := Leave(t, cur, stop);
      forall r | Valid(t, r) && Before(cur, r) ensures After(cur, r) {
        if Prefix(cur, r) {
          LeafIsAlone(t, cur, r);
          BeforeTotal(cur, cur);
        }
      }
    }
  }

  /** Every node that passes f, in document order: what a forward walk goes through. */
  ghost predicate IsWalk(t: Tree, nodes: seq<Path>, f: Path -> bool) {
    Ascending(nodes) && forall q :: q in nodes <==> Valid(t, q) && f(q)
  }

  lemma WalkStep(t: Tree, nodes: seq<Path>, f: Path -> bool, k: nat, stop: Option<Path>, next: Option<Path>)
    requires IsWalk(t, nodes, f) && k < |nodes| && IsNext(t, nodes[k], stop, next)
    requires next.Some? ==> f(next.value)
    requires next.None? ==> forall q | Valid(t, q) && f(q) :: stop.Some? ==> Prefix(stop.value, q)
    ensures At(nodes, k + 1, next)
  {
    if next.Some? {
      NextIn(nodes, k, next.value);
    } else {
      LastIn(nodes, k);
    }
  }

  /** Walks on from `start`, the first of the nodes, pushing every one. */
  method WalkForward(t: Tree, f: Filter, start: Option<Path>, stop: Option<Path>, first: seq<XNode>,
                     ghost nodes: seq<Path>, ghost on: Path -> bool, ghost base: nat) returns (ns: seq<XNode>)
    requires IsWalk(t, nodes, on) && base <= |nodes|
    requires At(nodes, base, start)
    requires Going(t, f, nodes, base, first)
    requires forall q, y | Valid(t, q) && on(q) && IsNext(t, q, stop, Some(y)) :: on(y)
    requires stop.Some? ==> forall q | Valid(t, q) && on(q) :: Prefix(stop.value, q)
    requires stop.Some? ==> forall k | base <= k < |nodes| :: nodes[k] != stop.value
    ensures ns == Pick(t, f, nodes)
  {
    ns := first;
    var cur := start;
    ghost var k := base;
    while cur.Some?
      invariant base <= k && At(nodes, k, cur) && Going(t, f, nodes, k, ns)
      decreases |nodes| - k
    {
      assert nodes[k] in nodes;
      var done;
      ns, done := PushNext(t, f, ns, cur.value, nodes, k);
      if done {
        return;
      }
      cur := Advance(t, cur.value, stop);
      WalkStep(t, nodes, on, k, stop, cur);
      k := k + 1;
    }
    GoingEnds(t, f, nodes, ns);
  }

  lemma AxisIsWalk(t: Tree, axis: Axis, p: Path)
    requires !ReverseAxis(axis)
    ensures IsWalk(t, AxisNodes(t, axis, p), q => OnAxis(axis, p, q))
  {
    AxisNodesMeaning(t, axis, p);
  }

  lemma DescendantStart(t: Tree, n: Path)
    requires Valid(t, n)
    ensures var a, b := AxisNodes(t, Descendant, n), AxisNodes(t, DescendantOrSelf, n);
            && At(a, 0, FirstChild(t, n)) && |b| > 0 && b[0] == n && At(b, 1, FirstChild(t, n))
  {
    var a, b := AxisNodes(t, Descendant, n), AxisNodes(t, DescendantOrSelf, n);
    AxisIsWalk(t, Descendant, n);
    AxisIsWalk(t, DescendantOrSelf, n);
    forall q | q in b ensures AtOrAfter(n, q) {
      AfterOrBelow(n, q);
    }
    FirstIn(b, n);
    if FirstChild(t, n).Some? {
      var c := n + [0];
      ValidChild(t, n, 0);
      assert c[..|n|] == n;
      AncestorBefore(n, c);
      forall q | q in b && Before(n, q) ensures AtOrAfter(c, q) {
        FirstChildIsNext(t, n, q);
      }
      forall q | q in a ensures AtOrAfter(c, q) {
        AncestorBefore(n, q);
        FirstChildIsNext(t, n, q);
      }
      FirstIn(a, c);
      NextIn(b, 0, c);
    } else {
      forall q ensures q !in a {
        if Valid(t, q) && Prefix(n, q) {
          LeafIsAlone(t, n, q);
        }
      }
      AscendingUnique(a, []);
      forall q | q in b ensures !Before(n, q) {
        LeafIsAlone(t, n, q);
        BeforeTotal(n, n);
      }
      LastIn(b, 0);
    }
  }

  method FillDescendant(t: Tree, f: Filter, n: Path) returns (ns: seq<XNode>)
    requires Valid(t, n)
    ensures ns == Pick(t, f, AxisNodes(t, Descendant, n))
  {
    ghost var nodes := AxisNodes(t, Descendant, n);
    ghost var on := q => OnAxis(Descendant, n, q);
    AxisIsWalk(t, Descendant, n);
    DescendantStart(t, n);
    GoingStarts(t, f, nodes);
    ns := WalkForward(t, f, FirstChild(t, n), Some(n), [], nodes, on, 0);
  }

  method FillDescendantOrSelf(t: Tree, f: Filter, n: Path) returns (ns: seq<XNode>)
    requires Valid(t, n)
    ensures ns == Pick(t, f, AxisNodes(t, DescendantOrSelf, n))
  {
    ghost var nodes := AxisNodes(t, DescendantOrSelf, n);
    ghost var on := q => OnAxis(DescendantOrSelf, n, q);
    AxisIsWalk(t, DescendantOrSelf, n);
    DescendantStart(t, n);
    GoingStarts(t, f, nodes);
    var done;
    ns, done := PushNext(t, f, [], n, nodes, 0);
    if done {
      return;
    }
    BeforeTotal(n, n);
    assert forall k | 1 <= k < |nodes| :: Before(nodes[0], nodes[k]);
    ns := WalkForward(t, f, FirstChild(t, n), Some(n), ns, nodes, on, 1);
  }

  /** What lies behind a subtree is behind every node in it. */
  lemma {:induction false} SubtreeBefore(x: Path, y: Path, r: Path)
    requires Prefix(x, y) && After(x, r)
    ensures Before(y, r)
    decreases |x|
  {
    if x != [] {
      PrefixStep(x, y);
      PrefixStep(x, r);
      if x[0] == r[0] {
        SubtreeBefore(x[1..], y[1..], r[1..]);
      }
    }
  }

  lemma AfterGoesOn(x: Path, q: Path, y: Path)
    requires After(x, q) && Before(q, y)
    ensures After(x, y)
  {
    BeforeTransitive(x, q, y);
    if Prefix(x, y) {
      SubtreeBefore(x, y, q);
      BeforeTotal(y, q);
    }
  }

  lemma FollowingStart(t: Tree, n: Path, next: Option<Path>)
    requires Valid(t, n) && IsBehind(t, n, None, next)
    ensures var a := AxisNodes(t, Following, n); At(a, 0, next)
  {
    AxisIsWalk(t, Following, n);
    var a := AxisNodes(t, Following, n);
    if next.Some? {
      FirstIn(a, next.value);
    } else {
      AscendingUnique(a, []);
    }
  }

  method FillFollowing(t: Tree, f: Filter, n: Path) returns (ns: seq<XNode>)
    requires Valid(t, n)
    ensures ns == Pick(t, f, AxisNodes(t, Following, n))
  {
    ghost var nodes := AxisNodes(t, Following, n);
    ghost var on := q => OnAxis(Following, n, q);
    AxisIsWalk(t, Following, n);
    GoingStarts(t, f, nodes);
    // climb out first: what is below the node does not follow it
    var start := Leave(t, n, None);
    FollowingStart(t, n, start);
    forall q, y | Valid(t, q) && on(q) && IsNext(t, q, None, Some(y)) ensures on(y) {
      AfterGoesOn(n, q, y);
    }
    ns := WalkForward(t, f, start, None, [], nodes, on, 0);
  }

  /** The nodes that follow the attributes of p: everything behind p, its descendants included. */
  function BehindOwner(t: Tree, p: Path): seq<Path> {
    Where(t, q => Before(p, q))
  }

  method FillFollowingAttribute(t: Tree, f: Filter, p: Path) returns (ns: seq<XNode>)
    requires Valid(t, p)
    ensures ns == Pick(t, f, BehindOwner(t, p))
  {
    ghost var nodes := BehindOwner(t, p);
    ghost var on := q => Before(p, q);
    WhereMeaning(t, on);
    assert nodes == Where(t, on);
    GoingStarts(t, f, nodes);
    var start := Advance(t, p, None);
    if start.Some? {
      FirstIn(nodes, start.value);
    } else {
      AscendingUnique(nodes, []);
    }
    forall q, y | Valid(t, q) && on(q) && IsNext(t, q, None, Some(y)) ensures on(y) {
      BeforeTransitive(p, q, y);
    }
    ns := WalkForward(t, f, start, None, [], nodes, on, 0);
  }

  // ------------------------------------------------------------- the walk back

  /** Whether a node has a sibling before it: its circular predecessor then has a successor. */
  predicate HasPrevious(t: Tree, x: Path)
    requires Valid(t, x)
  {
    PrevValid(t, x);
    NextSibling(t, PrevSiblingC(t, x)).Some?
  }

  lemma PrevValid(t: Tree, x: Path)
    requires Valid(t, x)
    ensures Valid(t, PrevSiblingC(t, x))
  {
    if x != [] {
      ValidPrefix(t, x, |x| - 1);
      assert x == x[..|x| - 1] + [LastIndex(x)];
      StepBack(t, x[..|x| - 1], LastIndex(x));
    }
  }

  lemma PreviousMeaning(t: Tree, x: Path)
    requires Valid(t, x)
    ensures HasPrevious(t, x) <==> x != [] && LastIndex(x) > 0
    ensures HasPrevious(t, x) ==> forall r :: After(PrevSiblingC(t, x), r) <==> AtOrAfter(x, r)
    ensures x != [] && !HasPrevious(t, x) ==> Valid(t, Parent(x).value) && forall r :: AtOrAfter(x, r) <==> Before(Parent(x).value, r)
  {
    if x != [] {
      var up, i := x[..|x| - 1], LastIndex(x);
      ValidPrefix(t, x, |x| - 1);
      assert x == up + [i];
      StepBack(t, up, i);
      if i > 0 {
        var s := up + [i - 1];
        assert s[..|s| - 1] == up && LastIndex(s) + 1 == i;
        forall r ensures After(s, r) <==> AtOrAfter(x, r) {
          SiblingIsNext(s, r);
        }
      } else {
        forall r ensures AtOrAfter(x, r) <==> Before(up, r) {
          FirstSiblingClimbs(up, r);
        }
      }
    }
  }

  /** `node_is_ancestor`: walks up from a node looking for the other one. */
  method NodeIsAncestor(parent: Path, node: Path) returns (found: bool)
    ensures found <==> Prefix(parent, node)
  {
    var cur := Some(node);
    while cur.Some? && cur.value != parent
      invariant Prefix(parent, node) <==> cur.Some? && Prefix(parent, cur.value)
      decreases if cur.Some? then |cur.value| + 1 else 0
    {
      PrefixOfParent(parent, cur.value);
      cur := Parent(cur.value);
    }
    found := cur.Some?;
  }

  lemma PrefixOfParent(a: Path, x: Path)
    requires a != x
    ensures Prefix(a, x) <==> x != [] && Prefix(a, Parent(x).value)
  {
    if x != [] && |a| < |x| {
      assert x[..|x| - 1][..|a|] == x[..|a|];
    }
  }

  /** The first k nodes of the list are those behind the subtree of x. */
  ghost predicate DoneBehind(a: seq<Path>, k: nat, x: Path) {
    k <= |a| && forall j | 0 <= j < |a| :: j < k <==> After(x, a[j])
  }

  /** The first k nodes of the list are x and those behind it. */
  ghost predicate DoneFrom(a: seq<Path>, k: nat, x: Path) {
    k <= |a| && forall j | 0 <= j < |a| :: j < k <==> AtOrAfter(x, a[j])
  }

  /** The nodes before n that are no ancestors of it, last one first. */
  ghost predicate IsPreceding(t: Tree, n: Path, a: seq<Path>) {
    Descending(a) && forall q :: q in a <==> Valid(t, q) && After(q, n)
  }

  /** When all nodes behind x are done and x is in the list, x is the next one. */
  lemma NextBack(a: seq<Path>, k: nat, x: Path)
    requires Descending(a) && k <= |a| && x in a
    requires forall j | 0 <= j < |a| :: j < k <==> Before(x, a[j])
    ensures k < |a| && a[k] == x && DoneFrom(a, k + 1, x)
  {
    var j :| 0 <= j < |a| && a[j] == x;
    BeforeTotal(x, x);
    assert forall i | 0 <= i < j :: Before(x, a[i]);
    var e := if k < |a| then a[k] else x;
    assert j == k;
    forall i | 0 <= i < |a| ensures i < k + 1 <==> AtOrAfter(x, a[i]) {
      if i > j {
        assert Before(a[i], a[j]);
        BeforeTotal(a[i], x);
      }
    }
  }

  /** At a leaf, everything behind its subtree done means everything behind it done. */
  lemma LeafIsNext(t: Tree, n: Path, a: seq<Path>, k: nat, x: Path)
    requires IsPreceding(t, n, a) && DoneBehind(a, k, x)
    requires Valid(t, x) && After(x, n) && FirstChild(t, x).None?
    ensures k < |a| && a[k] == x && DoneFrom(a, k + 1, x)
  {
    forall j | 0 <= j < |a| ensures j < k <==> Before(x, a[j]) {
      assert a[j] in a;
      if Prefix(x, a[j]) {
        LeafIsAlone(t, x, a[j]);
        BeforeTotal(x, x);
      }
    }
    NextBack(a, k, x);
  }

  /** Going down to the last child leaves the same nodes behind. */
  lemma LastChildDone(t: Tree, n: Path, a: seq<Path>, k: nat, x: Path)
    requires IsPreceding(t, n, a) && DoneBehind(a, k, x)
    requires Valid(t, x) && Valid(t, n) && After(x, n) && FirstChild(t, x).Some?
    ensures Valid(t, x + [0]) && Valid(t, PrevSiblingC(t, x + [0]))
    ensures DoneBehind(a, k, PrevSiblingC(t, x + [0])) && After(PrevSiblingC(t, x + [0]), n)
    ensures Sub(t, PrevSiblingC(t, x + [0])) < Sub(t, x)
  {
    LastChildEnds(t, x, n);
    var c := PrevSiblingC(t, x + [0]);
    ValidChild(t, x, |Sub(t, x).children| - 1);
    forall j | 0 <= j < |a| ensures After(x, a[j]) <==> After(c, a[j]) {
      assert a[j] in a;
      LastChildEnds(t, x, a[j]);
    }
  }

  /** A parent that is no ancestor of n is the next node to push; an ancestor is not in the list. */
  lemma ParentIsNext(t: Tree, n: Path, a: seq<Path>, k: nat, x: Path)
    requires IsPreceding(t, n, a) && DoneFrom(a, k, x)
    requires Valid(t, x) && x != [] && !HasPrevious(t, x) && AtOrAfter(x, n)
    ensures var p := Parent(x).value;
            && Valid(t, p) && Before(p, n)
            && (!Prefix(p, n) ==> k < |a| && a[k] == p && DoneFrom(a, k + 1, p))
            && (Prefix(p, n) ==> DoneFrom(a, k, p))
  {
    var p := Parent(x).value;
    PreviousMeaning(t, x);
    assert AtOrAfter(x, n) <==> Before(p, n);
    forall j | 0 <= j < |a| ensures j < k <==> Before(p, a[j]) {
    }
    if Prefix(p, n) {
      forall j | 0 <= j < |a| ensures a[j] != p {
        assert a[j] in a;
      }
    } else {
      assert p in a;
      NextBack(a, k, p);
    }
  }

  /**
   The inner loop: after a leaf, climbs while there is no sibling before, pushing the
   parents met on the way unless they are ancestors of n; null when the root is left.
   */
  method ClimbBack(t: Tree, f: Filter, n: Path, from: Path, first: seq<XNode>, ghost a: seq<Path>, ghost k0: nat)
    returns (ns: seq<XNode>, next: Option<Path>, done: bool, ghost k: nat)
    requires Valid(t, n) && IsPreceding(t, n, a) && Valid(t, from) && AtOrAfter(from, n)
    requires DoneFrom(a, k0, from) && Going(t, f, a, k0, first)
    ensures done ==> ns == Pick(t, f, a)
    ensures !done ==> Going(t, f, a, k, ns) && k0 <= k
    ensures !done && next.None? ==> k == |a|
    ensures !done && next.Some? ==> Valid(t, next.value) && After(next.value, n) && DoneBehind(a, k, next.value)
  {
    ns, k := first, k0;
    next, done := None, false;
    var cur := from;
    while !HasPrevious(t, cur)
      invariant Valid(t, cur) && AtOrAfter(cur, n)
      invariant k0 <= k && DoneFrom(a, k, cur) && Going(t, f, a, k, ns)
      decreases |cur|
    {
      if cur == [] {
        forall j | 0 <= j < |a| ensures AtOrAfter(cur, a[j]) {
        }
        return;
      }
      ParentIsNext(t, n, a, k, cur);
      cur := Parent(cur).value;
      var above := NodeIsAncestor(cur, n);
      if !above {
        ns, done := PushNext(t, f, ns, cur, a, k);
        if done {
          return;
        }
        k := k + 1;
      }
    }
    PreviousMeaning(t, cur);
    PrevValid(t, cur);
    next := Some(PrevSiblingC(t, cur));
  }

  /** The first loop: leaves n and its ancestors for the nearest node before them, pushing nothing. */
  method LeaveBack(t: Tree, n: Path, ghost a: seq<Path>) returns (next: Option<Path>)
    requires Valid(t, n) && IsPreceding(t, n, a)
    ensures next.None? ==> a == []
    ensures next.Some? ==> Valid(t, next.value) && After(next.value, n) && DoneBehind(a, 0, next.value)
  {
    var cur := n;
    forall j | 0 <= j < |a| ensures !AtOrAfter(n, a[j]) {
      assert a[j] in a;
      BeforeTotal(a[j], n);
    }
    while !HasPrevious(t, cur)
      invariant Valid(t, cur) && Prefix(cur, n) && AtOrAfter(cur, n) && DoneFrom(a, 0, cur)
      decreases |cur|
    {
      if cur == [] {
        ghost var e := if a != [] then a[0] else n;
        assert AtOrAfter(cur, e);
        return None;
      }
      ParentIsNext(t, n, a, 0, cur);
      assert n[..|cur|][..|cur| - 1] == n[..|cur| - 1];
      cur := Parent(cur).value;
    }
    PreviousMeaning(t, cur);
    PrevValid(t, cur);
    next := Some(PrevSiblingC(t, cur));
  }

  method FillPreceding(t: Tree, f: Filter, n: Path) returns (ns: seq<XNode>)
    requires Valid(t, n)
    ensures ns == Pick(t, f, AxisNodes(t, Preceding, n))
  {
    ghost var a := AxisNodes(t, Preceding, n);
    AxisNodesMeaning(t, Preceding, n);
    GoingStarts(t, f, a);
    ns := [];
    var cur := LeaveBack(t, n, a);
    ghost var k := 0;
    while cur.Some?
      invariant k <= |a| && Going(t, f, a, k, ns)
      invariant cur.None? ==> k == |a|
      invariant cur.Some? ==> Valid(t, cur.value) && After(cur.value, n) && DoneBehind(a, k, cur.value)
      decreases |a| - k, if cur.Some? then Sub(t, cur.value) else t
    {
      var c := FirstChild(t, cur.value);
      if c.Some? {
        LastChildDone(t, n, a, k, cur.value);
        cur := Some(PrevSiblingC(t, c.value));
      } else {
        // nothing is below an attribute or null
        LeafIsNext(t, n, a, k, cur.value);
        var done;
        ns, done := PushNext(t, f, ns, cur.value, a, k);
        if done {
          return;
        }
        ns, cur, done, k := ClimbBack(t, f, n, cur.value, ns, a, k + 1);
        if done {
          return;
        }
      }
    }
    GoingEnds(t, f, a, ns);
  }
}
