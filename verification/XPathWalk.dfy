/**
 How a node's pointers relate to document order: which node follows or precedes
 another one, in terms of `first_child`, `next_sibling`, `prev_sibling_c` and `parent`.
 */
module XPathWalk {
  import opened Wrappers
  import opened XmlTree

  /** r comes behind the whole subtree of x. */
  predicate After(x: Path, r: Path) {
    Before(x, r) && !Prefix(x, r)
  }

  predicate AtOrAfter(x: Path, r: Path) {
    r == x || Before(x, r)
  }

  lemma Split(p: Path)
    requires p != []
    ensures p == [p[0]] + p[1..]
  {
  }

  lemma PrefixStep(x: Path, r: Path)
    requires x != [] && r != []
    ensures Prefix(x, r) <==> x[0] == r[0] && Prefix(x[1..], r[1..])
  {
    if |x| <= |r| {
      assert r[..|x|] == [r[0]] + r[1..][..|x| - 1];
      Split(x);
    }
  }

  /** A subtree lies between its root and what comes behind it. */
  lemma {:induction false} AfterOrBelow(x: Path, r: Path)
    ensures Prefix(x, r) && x != r ==> Before(x, r)
    ensures AtOrAfter(x, r) <==> Prefix(x, r) || After(x, r)
    ensures !Prefix(r, x) ==> (Before(r, x) <==> After(r, x))
    decreases |x|
  {
    if x != [] && r != [] {
      PrefixStep(x, r);
      Split(x);
      Split(r);
      AfterOrBelow(x[1..], r[1..]);
    }
  }

  /** The first child is the next node. */
  lemma {:induction false} FirstChildIsNext(t: Tree, p: Path, r: Path)
    requires Valid(t, p) && FirstChild(t, p).Some? && Valid(t, r) && Before(p, r)
    ensures AtOrAfter(p + [0], r)
    decreases |p|
  {
    if p == [] {
      assert p + [0] == [0] && [0][1..] == [];
      assert r[0] == 0 && r[1..] == [] ==> r == [0];
    } else if p[0] == r[0] {
      FirstChildIsNext(t.children[p[0]], p[1..], r[1..]);
      assert (p + [0])[1..] == p[1..] + [0];
      Split(r);
      Split(p + [0]);
    }
  }

  /** A node without children has an empty subtree. */
  lemma {:induction false} LeafIsAlone(t: Tree, p: Path, r: Path)
    requires Valid(t, p) && FirstChild(t, p).None? && Valid(t, r) && Prefix(p, r)
    ensures r == p
    decreases |p|
  {
    if p != [] {
      PrefixStep(p, r);
      LeafIsAlone(t.children[p[0]], p[1..], r[1..]);
      Split(p);
      Split(r);
    }
  }

  /** Behind a last sibling comes what is behind its parent. */
  lemma {:induction false} LastSiblingClimbs(t: Tree, x: Path, r: Path)
    requires Valid(t, x) && x != [] && NextSibling(t, x).None? && Valid(t, r)
    ensures After(x, r) <==> After(Parent(x).value, r)
    decreases |x|
  {
    var up := x[..|x| - 1];
    if |x| == 1 {
      assert Prefix(up, r);
      if r != [] {
        PrefixStep(x, r);
      }
    } else {
      assert SiblingCount(t, x) == SiblingCount(t.children[x[0]], x[1..]) by {
        assert x[1..][..|x| - 2] == up[1..];
      }
      assert up[1..] == x[1..][..|x| - 2];
      if r != [] {
        PrefixStep(x, r);
        PrefixStep(up, r);
        if r[0] == x[0] {
          LastSiblingClimbs(t.children[x[0]], x[1..], r[1..]);
        }
      }
    }
  }

  /** Behind the subtree of a node with a next sibling comes that sibling. */
  lemma {:induction false} SiblingIsNext(x: Path, r: Path)
    requires x != []
    ensures After(x, r) <==> AtOrAfter(x[..|x| - 1] + [LastIndex(x) + 1], r)
    decreases |x|
  {
    var y := x[..|x| - 1] + [LastIndex(x) + 1];
    if r != [] {
      PrefixStep(x, r);
      Split(r);
      Split(y);
      if |x| > 1 {
        assert y[1..] == x[1..][..|x| - 2] + [LastIndex(x[1..]) + 1];
        if r[0] == x[0] {
          SiblingIsNext(x[1..], r[1..]);
        }
      } else {
        assert y == [x[0] + 1] && x[1..] == [] && y[1..] == [];
        assert Prefix(x[1..], r[1..]);
        assert r[1..] == [] ==> r == [r[0]];
        assert Before(y[1..], r[1..]) <==> r[1..] != [];
        assert After(x, r) <==> x[0] < r[0];
        assert Before(y, r) <==> y[0] < r[0] || (y[0] == r[0] && r[1..] != []);
        assert AtOrAfter(y, r) <==> y[0] <= r[0];
      }
    }
  }

  /** Nothing lies between a first child and its parent. */
  lemma {:induction false} FirstSiblingClimbs(p: Path, r: Path)
    ensures AtOrAfter(p + [0], r) <==> Before(p, r)
    decreases |p|
  {
    if p == [] {
      assert p + [0] == [0];
      if r != [] {
        Split(r);
        assert [0][1..] == [];
      }
    } else if r != [] {
      Split(r);
      Split(p + [0]);
      assert (p + [0])[1..] == p[1..] + [0];
      if p[0] == r[0] {
        FirstSiblingClimbs(p[1..], r[1..]);
      }
    }
  }

  /** Behind a node's subtree comes what is behind its last child's subtree. */
  lemma LastChildEnds(t: Tree, p: Path, r: Path)
    requires Valid(t, p) && Valid(t, r) && FirstChild(t, p).Some?
    ensures Valid(t, p + [0])
    ensures var last := PrevSiblingC(t, p + [0]);
            Valid(t, last) && last == p + [|Sub(t, p).children| - 1]
            && (After(p, r) <==> After(last, r))
  {
    var n := |Sub(t, p).children|;
    ValidChild(t, p, 0);
    ValidChild(t, p, n - 1);
    assert (p + [0])[..|p|] == p && (p + [n - 1])[..|p|] == p;
    LastSiblingClimbs(t, p + [n - 1], r);
  }
}
