/**
 Document order on XPath nodes, and the pointer walk that decides it:
 `node_is_before_sibling`, `node_is_before` and `document_order_comparator`.
 */
module XPathOrder {
  import opened Wrappers
  import opened XmlTree
  import opened XPathWalk

  /** `xpath_node`: a tree node, an attribute of one, or null. */
  datatype XNode = Nothing | Node(path: Path) | Attribute(owner: Path, index: nat)

  predicate ValidNode(t: Tree, x: XNode) {
    match x
    case Nothing => true
    case Node(p) => Valid(t, p)
    case Attribute(p, i) => Valid(t, p) && i < |Sub(t, p).attrs|
  }

  function Owner(x: XNode): Path
    requires !x.Nothing?
  {
    if x.Node? then x.path else x.owner
  }

  /** An element comes first among itself and its attributes. */
  function Rank(x: XNode): nat
    requires !x.Nothing?
  {
    if x.Node? then 0 else x.index + 1
  }

  /** Document order: null first, attributes right behind their element in their own order. */
  predicate DocBefore(x: XNode, y: XNode) {
    if y.Nothing? then false
    else if x.Nothing? then true
    else if Owner(x) == Owner(y) then Rank(x) < Rank(y)
    else Before(Owner(x), Owner(y))
  }

  /** Document order is a strict total order on all XPath nodes. */
  lemma DocOrderTotal(x: XNode, y: XNode)
    ensures DocBefore(x, y) || DocBefore(y, x) || x == y
    ensures !(DocBefore(x, y) && DocBefore(y, x))
    ensures !DocBefore(x, x)
  {
    if !x.Nothing? && !y.Nothing? {
      BeforeTotal(Owner(x), Owner(y));
    }
  }

  lemma DocOrderTransitive(x: XNode, y: XNode, z: XNode)
    requires DocBefore(x, y) && DocBefore(y, z)
    ensures DocBefore(x, z)
  {
    if !x.Nothing? {
      if Before(Owner(x), Owner(y)) && Before(Owner(y), Owner(z)) {
        BeforeTransitive(Owner(x), Owner(y), Owner(z));
        BeforeTotal(Owner(x), Owner(z));
      }
    }
  }

  // ------------------------------------------------------------- node_is_before

  /** The sibling chain of x: its n-th successor, null behind the last one. */
  predicate IsSibling(t: Tree, x: Path, n: nat, s: Option<Path>)
    requires Valid(t, x) && x != []
  {
    var i := LastIndex(x) + n;
    if i < SiblingCount(t, x) then s == Some(x[..|x| - 1] + [i]) else s.None?
  }

  lemma NextInChain(t: Tree, x: Path, n: nat)
    requires Valid(t, x) && x != [] && LastIndex(x) + n < SiblingCount(t, x)
    ensures var s := x[..|x| - 1] + [LastIndex(x) + n];
            Valid(t, s) && SiblingCount(t, s) == SiblingCount(t, x) && IsSibling(t, x, n + 1, NextSibling(t, s))
  {
    var up, i := x[..|x| - 1], LastIndex(x) + n;
    ValidPrefix(t, x, |x| - 1);
    ValidChild(t, up, i);
    assert (up + [i])[..|up|] == up;
  }

  lemma SiblingsBefore(x: Path, y: Path)
    requires x != [] && y != [] && x[..|x| - 1] == y[..|y| - 1]
    ensures Before(x, y) <==> LastIndex(x) < LastIndex(y)
    ensures LastIndex(x) == LastIndex(y) ==> x == y
  {
    var up := x[..|x| - 1];
    assert x == up + [LastIndex(x)] && y == up + [LastIndex(y)];
    BeforeUnder(up, [LastIndex(x)], [LastIndex(y)]);
  }

  /** `node_is_before_sibling`: walks both sibling chains until one meets the other node or ends. */
  method NodeIsBeforeSibling(t: Tree, ln: Path, rn: Path) returns (before: bool)
    requires Valid(t, ln) && Valid(t, rn) && ln != rn
    requires ln != [] && Parent(ln) == Parent(rn)
    ensures before == Before(ln, rn)
  {
    SiblingsBefore(ln, rn);
    ValidLast(t, ln);
    ValidLast(t, rn);
    ghost var up, a, b := ln[..|ln| - 1], LastIndex(ln), LastIndex(rn);
    assert ln == up + [a] && rn == up + [b];
    ghost var n := 0;
    var ls, rs := Some(ln), Some(rn);
    while ls.Some? && rs.Some?
      invariant a + n <= SiblingCount(t, ln) && b + n <= SiblingCount(t, ln)
      invariant IsSibling(t, ln, n, ls) && IsSibling(t, rn, n, rs)
      invariant !(a < b < a + n) && !(b < a < b + n)
      decreases SiblingCount(t, ln) - n
    {
      assert ls.value == up + [a + n] && rs.value == up + [b + n];
      assert ls.value[|up|] == a + n && rs.value[|up|] == b + n && rn[|up|] == b && ln[|up|] == a;
      if ls.value == rn {
        return true;
      }
      if rs.value == ln {
        return false;
      }
      NextInChain(t, ln, n);
      NextInChain(t, rn, n);
      ls := NextSibling(t, ls.value);
      rs := NextSibling(t, rs.value);
      n := n + 1;
    }
    return rs.None?;
  }

  /** Order is decided where two paths of the same depth part; what lies below does not matter. */
  lemma {:induction false} BelowDoesNotMatter(p: Path, q: Path, u: Path, v: Path)
    requires |p| == |q| && p != q
    ensures Before(p + u, q + v) <==> Before(p, q)
  {
    if p[0] == q[0] {
      assert p == [p[0]] + p[1..] && q == [q[0]] + q[1..];
      assert (p + u)[1..] == p[1..] + u && (q + v)[1..] == q[1..] + v;
      BelowDoesNotMatter(p[1..], q[1..], u, v);
    }
  }

  /** Climbing from two nodes of the same depth to distinct parents keeps their order. */
  lemma ClimbKeepsOrder(x: Path, y: Path)
    requires |x| == |y| && Parent(x) != Parent(y)
    ensures x != [] && Parent(x).value != Parent(y).value
    ensures Before(x, y) <==> Before(Parent(x).value, Parent(y).value)
  {
    var px, py := x[..|x| - 1], y[..|y| - 1];
    assert x == px + [LastIndex(x)] && y == py + [LastIndex(y)];
    BelowDoesNotMatter(px, py, [LastIndex(x)], [LastIndex(y)]);
  }

  lemma SameParentSameDepth(p: Path, q: Path)
    requires Parent(p) == Parent(q)
    ensures |p| == |q|
  {
    if p != [] && q != [] {
      assert |Parent(p).value| == |p| - 1 && |Parent(q).value| == |q| - 1;
    }
  }

  /** The node k levels above p, null above the root. */
  function Up(p: Path, k: nat): Option<Path> {
    if k <= |p| then Some(p[..|p| - k]) else None
  }

  lemma UpStep(p: Path, k: nat)
    requires k <= |p|
    ensures Parent(Up(p, k).value) == Up(p, k + 1)
  {
    if k < |p| {
      assert p[..|p| - k][..|p| - k - 1] == p[..|p| - k - 1];
    }
  }

  /** With the deeper node cut to the other's depth: the shallower one is an ancestor or the cut decides. */
  lemma CutDecides(l: Path, r: Path)
    requires |l| < |r|
    ensures l == r[..|l|] ==> Before(l, r) && !Before(r, l)
    ensures l != r[..|l|] ==> (Before(l, r) <==> Before(l, r[..|l|])) && (Before(r, l) <==> Before(r[..|l|], l))
  {
    var cut, rest := r[..|l|], r[|l|..];
    assert r == cut + rest && l == l + [];
    if l == cut {
      AncestorBefore(l, r);
      BeforeTotal(l, r);
    } else {
      BelowDoesNotMatter(l, cut, [], rest);
      BelowDoesNotMatter(cut, l, rest, []);
    }
  }

  /** `node_is_before`: climbs to siblings under the nearest common ancestor. */
  method NodeIsBefore(t: Tree, l: Path, r: Path) returns (before: bool)
    requires Valid(t, l) && Valid(t, r) && l != r
    ensures before == Before(l, r)
  {
    // climb side by side until the parents agree
    var lp, rp := Some(l), Some(r);
    ghost var k := 0;
    assert l[..|l|] == l && r[..|r|] == r;
    while lp.Some? && rp.Some? && Parent(lp.value) != Parent(rp.value)
      invariant lp == Up(l, k) && rp == Up(r, k) && k <= |l| + 1 && k <= |r| + 1
      invariant |l| == |r| ==> lp.Some? && rp.Some? && lp != rp && (Before(l, r) <==> Before(lp.value, rp.value))
      decreases |l| + 1 - k
    {
      UpStep(l, k);
      UpStep(r, k);
      if |l| == |r| {
        ClimbKeepsOrder(lp.value, rp.value);
      }
      lp, rp := Parent(lp.value), Parent(rp.value);
      k := k + 1;
    }
    // both are now children of one node
    if lp.Some? && rp.Some? {
      SameParentSameDepth(lp.value, rp.value);
      assert |lp.value| == |l| - k && |rp.value| == |r| - k;
      ValidPrefix(t, l, |l| - k);
      ValidPrefix(t, r, |r| - k);
      before := NodeIsBeforeSibling(t, lp.value, rp.value);
      return;
    }
    // the deeper one climbs to the level of the other
    var leftHigher := lp.None?;
    var ln, rn := l, r;
    ln := ClimbBoth(l, lp, k);
    rn := ClimbBoth(r, rp, k);
    if |l| < |r| {
      CutDecides(l, r);
    } else {
      CutDecides(r, l);
    }
    // they meet: the node that did not climb is above the other
    if ln == rn {
      return leftHigher;
    }
    // same level: climb side by side until the parents agree
    ghost var depth := |ln|;
    ValidPrefix(t, l, depth);
    ValidPrefix(t, r, depth);
    while Parent(ln) != Parent(rn)
      invariant |ln| == |rn| && ln != rn && Valid(t, ln) && Valid(t, rn)
      invariant Before(l, r) <==> Before(ln, rn)
      decreases |ln|
    {
      ClimbKeepsOrder(ln, rn);
      ValidPrefix(t, ln, |ln| - 1);
      ValidPrefix(t, rn, |rn| - 1);
      ln, rn := Parent(ln).value, Parent(rn).value;
    }
    before := NodeIsBeforeSibling(t, ln, rn);
  }

  /** The loop that lifts a node by as many levels as a pointer `up`, k levels above it, is below the root's parent. */
  method ClimbBoth(p: Path, up: Option<Path>, ghost k: nat) returns (n: Path)
    requires up == Up(p, k) && 0 < k <= |p| + 1
    ensures n == p[..k - 1]
  {
    n := p;
    var q := up;
    ghost var d := 0;
    assert p[..|p|] == p;
    while q.Some?
      invariant k + d <= |p| + 1 && q == Up(p, k + d) && Some(n) == Up(p, d)
      decreases |p| - d
    {
      UpStep(p, k + d);
      UpStep(p, d);
      q, n := Parent(q.value), Parent(n).value;
      d := d + 1;
    }
  }

  // ------------------------------------------------- document_order_comparator

  /** What the comparator answers. */
  predicate Comparator(x: XNode, y: XNode) {
    DocBefore(x, y) || (x.Attribute? && x == y)
  }

  /** The comparator is irreflexive on a node exactly when the node is no attribute. */
  lemma ComparatorIrreflexive(x: XNode)
    ensures Comparator(x, x) <==> x.Attribute?
  {
    DocOrderTotal(x, x);
  }

  /**
   `document_order_comparator`, without its shortcut over buffer pointers. On two
   different nodes it is document order; an attribute, though, is reported to be
   before itself, because the walk over its successors starts at the attribute.
   */
  method CompareDocumentOrder(t: Tree, lhs: XNode, rhs: XNode) returns (before: bool)
    requires ValidNode(t, lhs) && ValidNode(t, rhs)
    ensures before == Comparator(lhs, rhs)
  {
    var ln := if lhs.Node? then Some(lhs.path) else None;
    var rn := if rhs.Node? then Some(rhs.path) else None;
    if lhs.Attribute? && rhs.Attribute? {
      // two attributes of one element: the list decides
      if lhs.owner == rhs.owner {
        var a := lhs.index;
        while a < |Sub(t, lhs.owner).attrs|
          invariant lhs.index <= a
          invariant !(lhs.index <= rhs.index < a)
        {
          if a == rhs.index {
            return true;
          }
          a := a + 1;
        }
        return false;
      }
      ln, rn := Some(lhs.owner), Some(rhs.owner);
    } else if lhs.Attribute? {
      // an element comes before its own attributes
      if Some(lhs.owner) == rn {
        return false;
      }
      ln := Some(lhs.owner);
    } else if rhs.Attribute? {
      if Some(rhs.owner) == ln {
        return true;
      }
      rn := Some(rhs.owner);
    }
    if ln == rn {
      return false;
    }
    if ln.None? || rn.None? {
      return ln.None?;
    }
    before := NodeIsBefore(t, ln.value, rn.value);
  }
}
