/**
 A document as a tree, its nodes as paths of child indices, and document order.

 The pointer fields of a node (`parent`, `first_child`, `next_sibling` and the
 circular `prev_sibling_c`) are functions of the path.
 */
module XmlTree {
  import opened Wrappers

  datatype NodeKind = Document | Element | PcData | CData | Comment | Pi | Declaration | Doctype

  datatype Attr = Attr(name: string, value: string)

  datatype Tree = Tree(kind: NodeKind, name: string, value: string, attrs: seq<Attr>, children: seq<Tree>)

  /** A node: the child indices that lead to it from the root. */
  type Path = seq<nat>

  predicate Valid(t: Tree, p: Path)
    decreases |p|
  {
    p == [] || (p[0] < |t.children| && Valid(t.children[p[0]], p[1..]))
  }

  function Sub(t: Tree, p: Path): Tree
    requires Valid(t, p)
    decreases |p|
  {
    if p == [] then t else Sub(t.children[p[0]], p[1..])
  }

  // ------------------------------------------------------------------- pointers

  function Parent(p: Path): Option<Path> {
    if p == [] then None else Some(p[..|p| - 1])
  }

  function FirstChild(t: Tree, p: Path): Option<Path>
    requires Valid(t, p)
  {
    if Sub(t, p).children == [] then None else Some(p + [0])
  }

  function LastIndex(p: Path): nat
    requires p != []
  {
    p[|p| - 1]
  }

  /** How many children the parent of p has. */
  function SiblingCount(t: Tree, p: Path): nat
    requires Valid(t, p) && p != []
  {
    ValidPrefix(t, p, |p| - 1);
    |Sub(t, p[..|p| - 1]).children|
  }

  function NextSibling(t: Tree, p: Path): Option<Path>
    requires Valid(t, p)
  {
    if p != [] && LastIndex(p) + 1 < SiblingCount(t, p) then Some(p[..|p| - 1] + [LastIndex(p) + 1]) else None
  }

  /** `prev_sibling_c`: circular, so that the first child leads to the last one, and the root to itself. */
  function PrevSiblingC(t: Tree, p: Path): Path
    requires Valid(t, p)
  {
    if p == [] then p
    else if LastIndex(p) > 0 then p[..|p| - 1] + [LastIndex(p) - 1]
    else ValidLast(t, p); p[..|p| - 1] + [SiblingCount(t, p) - 1]
  }

  lemma {:induction false} ValidPrefix(t: Tree, p: Path, k: nat)
    requires Valid(t, p) && k <= |p|
    ensures Valid(t, p[..k])
    ensures k < |p| ==> p[k] < |Sub(t, p[..k]).children|
    decreases |p|
  {
    if k > 0 {
      ValidPrefix(t.children[p[0]], p[1..], k - 1);
      assert p[..k][1..] == p[1..][..k - 1];
    }
  }

  lemma ValidLast(t: Tree, p: Path)
    requires Valid(t, p) && p != []
    ensures LastIndex(p) < SiblingCount(t, p)
  {
    ValidPrefix(t, p, |p| - 1);
  }

  lemma {:induction false} ValidChild(t: Tree, p: Path, i: nat)
    requires Valid(t, p)
    ensures Valid(t, p + [i]) <==> i < |Sub(t, p).children|
    ensures i < |Sub(t, p).children| ==> Sub(t, p + [i]) == Sub(t, p).children[i]
    decreases |p|
  {
    if p == [] {
      assert p + [i] == [i] && [i][1..] == [];
    } else {
      assert (p + [i])[0] == p[0] && (p + [i])[1..] == p[1..] + [i];
      ValidChild(t.children[p[0]], p[1..], i);
    }
  }

  // -------------------------------------------------------------- document order

  /** p is q or an ancestor of q. */
  predicate Prefix(p: Path, q: Path) {
    |p| <= |q| && q[..|p|] == p
  }

  predicate Ancestor(p: Path, q: Path) {
    Prefix(p, q) && p != q
  }

  /** p comes before q in document order: an ancestor first, else the smaller child index where they part. */
  predicate Before(p: Path, q: Path)
    decreases |p|
  {
    q != [] && (p == [] || p[0] < q[0] || (p[0] == q[0] && Before(p[1..], q[1..])))
  }

  lemma {:induction false} BeforeTotal(p: Path, q: Path)
    ensures Before(p, q) || Before(q, p) || p == q
    ensures !(Before(p, q) && Before(q, p))
    ensures p == q ==> !Before(p, q)
    decreases |p|
  {
    if p != [] && q != [] && p[0] == q[0] {
      BeforeTotal(p[1..], q[1..]);
      assert p == [p[0]] + p[1..] && q == [q[0]] + q[1..];
    }
  }

  lemma {:induction false} BeforeTransitive(p: Path, q: Path, r: Path)
    requires Before(p, q) && Before(q, r)
    ensures Before(p, r)
    decreases |p|
  {
    if p != [] && p[0] == q[0] == r[0] {
      BeforeTransitive(p[1..], q[1..], r[1..]);
    }
  }

  lemma {:induction false} BeforeUnder(c: Path, p: Path, q: Path)
    ensures Before(c + p, c + q) <==> Before(p, q)
    decreases |c|
  {
    if c == [] {
      assert c + p == p && c + q == q;
    } else {
      assert (c + p)[1..] == c[1..] + p && (c + q)[1..] == c[1..] + q;
      BeforeUnder(c[1..], p, q);
    }
  }

  lemma AncestorBefore(p: Path, q: Path)
    requires Ancestor(p, q)
    ensures Before(p, q)
  {
    var rest := q[|p|..];
    assert q == p + rest && p == p + [];
    BeforeUnder(p, [], rest);
  }

  // ------------------------------------------------------------------ preorder

  /** Every path of a list, one step deeper below child i. */
  function Below(i: nat, paths: seq<Path>): (r: seq<Path>)
    ensures |r| == |paths|
    ensures forall k | 0 <= k < |r| :: r[k] == [i] + paths[k]
  {
    seq(|paths|, k requires 0 <= k < |paths| => [i] + paths[k])
  }

  /** The nodes of the children from number i on, in the order a preorder walk meets them. */
  function ChildrenPreorder(t: Tree, i: nat): seq<Path>
    requires i <= |t.children|
    decreases t, |t.children| - i
  {
    if i == |t.children| then [] else Below(i, Preorder(t.children[i])) + ChildrenPreorder(t, i + 1)
  }

  /** All nodes of a tree in the order a preorder walk meets them. */
  function Preorder(t: Tree): seq<Path>
    decreases t, |t.children| + 1
  {
    [[]] + ChildrenPreorder(t, 0)
  }

  /** Every element comes before the ones behind it. */
  predicate Ascending(s: seq<Path>) {
    forall i, j | 0 <= i < j < |s| :: Before(s[i], s[j])
  }

  lemma {:induction false} ChildrenPreorderSound(t: Tree, i: nat)
    requires i <= |t.children|
    ensures Ascending(ChildrenPreorder(t, i))
    ensures forall q :: q in ChildrenPreorder(t, i) <==> (q != [] && q[0] >= i && Valid(t, q))
    decreases t, |t.children| - i
  {
    if i < |t.children| {
      var own := Preorder(t.children[i]);
      var first, rest := Below(i, own), ChildrenPreorder(t, i + 1);
      PreorderSound(t.children[i]);
      ChildrenPreorderSound(t, i + 1);
      forall j, k | 0 <= j < k < |first| ensures Before(first[j], first[k]) {
        assert first[j][1..] == own[j] && first[k][1..] == own[k];
      }
      forall q ensures q in first <==> (q != [] && q[0] == i && Valid(t, q)) {
        if q in first {
          var k :| 0 <= k < |first| && first[k] == q;
          assert q[1..] == own[k];
        }
        if q != [] && q[0] == i && Valid(t, q) {
          assert q[1..] in own;
          var k :| 0 <= k < |own| && own[k] == q[1..];
          assert first[k] == q;
        }
      }
    }
  }

  /** The preorder walk meets exactly the nodes of the tree, each once, in document order. */
  lemma {:induction false} PreorderSound(t: Tree)
    ensures Ascending(Preorder(t))
    ensures forall q :: q in Preorder(t) <==> Valid(t, q)
    decreases t, |t.children| + 1
  {
    ChildrenPreorderSound(t, 0);
    var rest := ChildrenPreorder(t, 0);
    assert Preorder(t)[0] == [];
    forall j | 0 <= j < |rest| ensures rest[j] != [] {
      assert rest[j] in rest;
    }
  }

  /** Two ascending lists with the same elements are the same list. */
  lemma {:induction false} AscendingUnique(a: seq<Path>, b: seq<Path>)
    requires Ascending(a) && Ascending(b)
    requires forall q :: q in a <==> q in b
    ensures a == b
    decreases |a|
  {
    assert forall k | 0 <= k < |a| :: a[k] in b;
    assert forall k | 0 <= k < |b| :: b[k] in a;
    if a != [] && b != [] {
      AscendingHead(a);
      AscendingHead(b);
      BeforeTotal(a[0], b[0]);
      forall q ensures q in a[1..] <==> q in b[1..] {
      }
      AscendingUnique(a[1..], b[1..]);
    }
  }

  /** The head of an ascending list comes before all others and does not occur again. */
  lemma AscendingHead(a: seq<Path>)
    requires Ascending(a) && a != []
    ensures forall q :: q in a[1..] <==> q in a && q != a[0]
    ensures forall q | q in a :: q == a[0] || Before(a[0], q)
  {
    BeforeTotal(a[0], a[0]);
    assert forall k | 1 <= k < |a| :: Before(a[0], a[k]);
  }
}
