/** Nodes of a document as linked objects: sibling lists, insertion, removal and guarded moves. */
module XmlDom {
  import opened XmlTree

  class Node {
    const kind: NodeKind
    /** The document whose pages the node lies in; a document lies in its own. */
    const owner: Node?
    var name: string
    var parent: Node?
    var firstChild: Node?
    var nextSibling: Node?
    var prevSiblingC: Node?

    constructor (kind: NodeKind, owner: Node?)
      ensures this.kind == kind && this.owner == owner && name == ""
      ensures parent == null && firstChild == null && nextSibling == null && prevSiblingC == null
    {
      this.kind, this.owner := kind, owner;
      name, parent, firstChild, nextSibling, prevSiblingC := "", null, null, null, null;
    }

    /** `root`: the document whose pages the node lies in. */
    function Root(): Node {
      if owner == null then this else owner
    }
  }

  // -------------------------------------------------------------- lists of children

  /** The children of every node. */
  type Kids = map<Node, seq<Node>>

  /** Every node is a child at most once. */
  ghost predicate Forest(kids: Kids) {
    && (forall p, i: nat | p in kids && i < |kids[p]| :: kids[p][i] in kids)
    && (forall p, i: nat, q, j: nat | p in kids && i < |kids[p]| && q in kids && j < |kids[q]| && kids[p][i] == kids[q][j] :: p == q && i == j)
  }

  ghost predicate Alone(kids: Kids, x: Node) {
    forall p {:trigger kids[p]} | p in kids :: x !in kids[p]
  }

  function Insert<T>(l: seq<T>, i: nat, x: T): seq<T>
    requires i <= |l|
  {
    l[..i] + [x] + l[i..]
  }

  lemma ForestInsert(kids: Kids, p: Node, i: nat, c: Node)
    requires Forest(kids) && p in kids && c in kids && Alone(kids, c) && i <= |kids[p]|
    ensures Forest(kids[p := Insert(kids[p], i, c)])
  {
  }

  // ---------------------------------------------------------------------- pointers

  datatype Fields = Fields(name: string, parent: Node?, first: Node?, next: Node?, prev: Node?)

  type Memory = map<Node, Fields>

  ghost function Read(x: Node): Fields
    reads x
  {
    Fields(x.name, x.parent, x.firstChild, x.nextSibling, x.prevSiblingC)
  }

  ghost function Look(nodes: set<Node>): (m: Memory)
    reads nodes
    ensures m.Keys == nodes && forall x | x in nodes :: m[x] == Read(x)
  {
    map x | x in nodes :: Read(x)
  }

  /** Who stands behind and before child number i of a list; the first one leads back to the last one. */
  function NextIn(l: seq<Node>, i: nat): Node?
    requires i < |l|
  {
    if i + 1 < |l| then l[i + 1] else null
  }

  function PrevIn(l: seq<Node>, i: nat): Node
    requires i < |l|
  {
    if i > 0 then l[i - 1] else l[|l| - 1]
  }

  /** The fields of child number i of a list. */
  ghost predicate AsChild(f: Fields, p: Node, l: seq<Node>, i: nat)
    requires i < |l|
  {
    f.parent == p && f.next == NextIn(l, i) && f.prev == PrevIn(l, i)
  }

  ghost predicate AsParent(f: Fields, l: seq<Node>) {
    f.first == if l == [] then null else l[0]
  }

  ghost predicate AsRoot(f: Fields) {
    f.parent == null && f.next == null
  }

  /** The pointers say what the lists say. */
  ghost predicate Linked(kids: Kids, m: Memory) {
    m.Keys == kids.Keys && ParentsLinked(kids, m) && ChildrenLinked(kids, m) && RootsLinked(kids, m)
  }

  ghost predicate ParentsLinked(kids: Kids, m: Memory) {
    forall p {:trigger AsParent(m[p], kids[p])} | p in kids :: p in m && AsParent(m[p], kids[p])
  }

  ghost predicate ChildrenLinked(kids: Kids, m: Memory) {
    && (forall p, i: nat | p in kids && i < |kids[p]| :: kids[p][i] in m)
    && forall p, i: nat {:trigger AsChild(m[kids[p][i]], p, kids[p], i)} | p in kids && i < |kids[p]| ::
         AsChild(m[kids[p][i]], p, kids[p], i)
  }

  ghost predicate RootsLinked(kids: Kids, m: Memory) {
    forall x {:trigger Alone(kids, x)} | x in kids && Alone(kids, x) :: x in m && AsRoot(m[x])
  }

  /** Who comes before and behind a new child number i; the first child leads back to the last one. */
  function NextOf(l: seq<Node>, i: nat): Node?
    requires i <= |l|
  {
    if i < |l| then l[i] else null
  }

  function PrevOf(l: seq<Node>, i: nat, c: Node): Node
    requires i <= |l|
  {
    if i > 0 then l[i - 1] else if l != [] then l[|l| - 1] else c
  }

  /** Whose `prev_sibling_c` leads to the new child: the node behind it, or the head if it is the new tail. */
  predicate Behind(l: seq<Node>, i: nat, x: Node)
    requires i <= |l|
  {
    l != [] && x == if i < |l| then l[i] else l[0]
  }

  /** The fields of x after c is linked into the list l of p as child number i. */
  function Relinked(f: Fields, x: Node, p: Node, l: seq<Node>, i: nat, c: Node): Fields
    requires i <= |l|
  {
    Fields(f.name, if x == c then p else f.parent,
           if i == 0 && x == p then c else f.first,
           if x == c then NextOf(l, i) else if i > 0 && x == l[i - 1] then c else f.next,
           if x == c then PrevOf(l, i, c) else if Behind(l, i, x) then c else f.prev)
  }

  ghost function Inserted(m: Memory, p: Node, l: seq<Node>, i: nat, c: Node): (r: Memory)
    requires i <= |l|
    ensures r.Keys == m.Keys && forall x | x in m :: r[x] == Relinked(m[x], x, p, l, i, c)
  {
    map x | x in m :: Relinked(m[x], x, p, l, i, c)
  }

  ghost predicate NoRepeat(l: seq<Node>, c: Node) {
    c !in l && forall j, k | 0 <= j < k < |l| :: l[j] != l[k]
  }

  lemma ListIsClean(kids: Kids, p: Node, c: Node)
    requires Forest(kids) && p in kids && Alone(kids, c)
    ensures NoRepeat(kids[p], c)
  {
  }

  /** longer is l with c as number i. */
  ghost predicate Longer<T>(l: seq<T>, longer: seq<T>, i: nat, c: T) {
    && i <= |l| && |longer| == |l| + 1
    && longer[i] == c && (forall j: nat | j < i :: longer[j] == l[j]) && (forall j: nat | i <= j < |l| :: longer[j + 1] == l[j])
  }

  lemma InsertIsLonger<T>(l: seq<T>, i: nat, c: T)
    requires i <= |l|
    ensures Longer(l, Insert(l, i, c), i, c)
  {
  }

  /** kids' and m' are kids and m with c linked in as child number i of p. */
  ghost predicate IsInserted(kids: Kids, m: Memory, p: Node, i: nat, c: Node, kids': Kids, m': Memory) {
    && p in kids && c in kids && i <= |kids[p]| && m' == Inserted(m, p, kids[p], i, c)
    && kids'.Keys == kids.Keys && Longer(kids[p], kids'[p], i, c) && forall q | q in kids && q != p :: kids'[q] == kids[q]
  }

  lemma InsertedParent(kids: Kids, m: Memory, p: Node, i: nat, c: Node, kids': Kids, m': Memory, q: Node)
    requires Linked(kids, m) && IsInserted(kids, m, p, i, c, kids', m') && q in kids
    ensures AsParent(m'[q], kids'[q])
  {
    assert AsParent(m[q], kids[q]);
  }

  /** Children in other lists are not touched. */
  lemma InsertedElsewhere(kids: Kids, m: Memory, p: Node, i: nat, c: Node, kids': Kids, m': Memory, q: Node, j: nat)
    requires Forest(kids) && Linked(kids, m) && Alone(kids, c) && IsInserted(kids, m, p, i, c, kids', m')
    requires q in kids && q != p && j < |kids[q]|
    ensures AsChild(m'[kids[q][j]], q, kids[q], j)
  {
    var x := kids[q][j];
    assert AsChild(m[kids[q][j]], q, kids[q], j);
    assert x in kids[q] && x != c;
    assert forall k: nat | k < |kids[p]| :: kids[p][k] != x;
  }

  lemma RelinkedBefore(f: Fields, p: Node, l: seq<Node>, i: nat, c: Node, j: nat)
    requires j < i <= |l| && NoRepeat(l, c) && AsChild(f, p, l, j)
    ensures var r := Relinked(f, l[j], p, l, i, c);
            && r.parent == p && r.next == (if j + 1 < i then l[j + 1] else c)
            && r.prev == (if j > 0 then l[j - 1] else if i < |l| then l[|l| - 1] else c)
  {
    assert l[j] in l;
  }

  lemma RelinkedBehind(f: Fields, p: Node, l: seq<Node>, i: nat, c: Node, j: nat)
    requires i <= j < |l| && NoRepeat(l, c) && AsChild(f, p, l, j)
    ensures var r := Relinked(f, l[j], p, l, i, c);
            r.parent == p && r.next == NextIn(l, j) && r.prev == (if j > i then l[j - 1] else c)
  {
    assert l[j] in l;
  }

  lemma LongerNext(l: seq<Node>, longer: seq<Node>, i: nat, c: Node, j: nat)
    requires Longer(l, longer, i, c) && j < |longer|
    ensures j < i ==> NextIn(longer, j) == if j + 1 < i then l[j + 1] else c
    ensures j == i ==> NextIn(longer, j) == NextOf(l, i)
    ensures j > i ==> NextIn(longer, j) == NextIn(l, j - 1)
  {
  }

  lemma LongerPrev(l: seq<Node>, longer: seq<Node>, i: nat, c: Node, j: nat)
    requires Longer(l, longer, i, c) && j < |longer|
    ensures j < i ==> PrevIn(longer, j) == if j > 0 then l[j - 1] else if i < |l| then l[|l| - 1] else c
    ensures j == i ==> PrevIn(longer, j) == PrevOf(l, i, c)
    ensures j > i ==> PrevIn(longer, j) == if j - 1 > i then l[j - 2] else c
  {
  }

  lemma RelinkedHere(m: Memory, p: Node, l: seq<Node>, i: nat, c: Node, longer: seq<Node>, j: nat)
    requires NoRepeat(l, c) && c in m && Longer(l, longer, i, c) && j < |longer|
    requires forall k: nat | k < |l| :: l[k] in m && AsChild(m[l[k]], p, l, k)
    ensures longer[j] in m && AsChild(Relinked(m[longer[j]], longer[j], p, l, i, c), p, longer, j)
  {
    LongerNext(l, longer, i, c, j);
    LongerPrev(l, longer, i, c, j);
    if j < i {
      RelinkedBefore(m[l[j]], p, l, i, c, j);
    } else if j > i {
      assert longer[j - 1 + 1] == l[j - 1];
      RelinkedBehind(m[l[j - 1]], p, l, i, c, j - 1);
    }
  }

  lemma InsertedChild(kids: Kids, m: Memory, p: Node, i: nat, c: Node, kids': Kids, m': Memory, q: Node, j: nat)
    requires Forest(kids) && Linked(kids, m) && Alone(kids, c) && IsInserted(kids, m, p, i, c, kids', m')
    requires q in kids' && j < |kids'[q]|
    ensures kids'[q][j] in m && AsChild(m'[kids'[q][j]], q, kids'[q], j)
  {
    if q == p {
      ListIsClean(kids, p, c);
      RelinkedHere(m, p, kids[p], i, c, kids'[p], j);
    } else {
      InsertedElsewhere(kids, m, p, i, c, kids', m', q, j);
    }
  }

  lemma AloneBefore(kids: Kids, p: Node, i: nat, c: Node, kids': Kids, x: Node)
    requires p in kids && kids'.Keys == kids.Keys && Longer(kids[p], kids'[p], i, c) && Alone(kids', x)
    requires forall q | q in kids && q != p :: kids'[q] == kids[q]
    ensures Alone(kids, x) && x != c
  {
    var longer := kids'[p];
    assert longer[i] == c && x !in longer;
    forall k: nat | k < |kids[p]| ensures kids[p][k] != x {
      assert k < i ==> longer[k] == kids[p][k];
      assert k >= i ==> longer[k + 1] == kids[p][k];
    }
  }

  lemma InsertedRoots(kids: Kids, m: Memory, p: Node, i: nat, c: Node, kids': Kids, m': Memory, x: Node)
    requires Linked(kids, m) && IsInserted(kids, m, p, i, c, kids', m') && x in kids && Alone(kids', x)
    ensures AsRoot(m'[x])
  {
    AloneBefore(kids, p, i, c, kids', x);
    assert i > 0 ==> kids[p][i - 1] in kids[p];
  }

  lemma InsertedParents(kids: Kids, m: Memory, p: Node, i: nat, c: Node, kids': Kids, m': Memory)
    requires Linked(kids, m) && IsInserted(kids, m, p, i, c, kids', m')
    ensures ParentsLinked(kids', m')
  {
    forall q | q in kids' ensures q in m' && AsParent(m'[q], kids'[q]) {
      InsertedParent(kids, m, p, i, c, kids', m', q);
    }
  }

  lemma InsertedChildren(kids: Kids, m: Memory, p: Node, i: nat, c: Node, kids': Kids, m': Memory)
    requires Forest(kids) && Linked(kids, m) && Alone(kids, c) && IsInserted(kids, m, p, i, c, kids', m')
    ensures ChildrenLinked(kids', m')
  {
    forall q, j: nat | q in kids' && j < |kids'[q]| ensures kids'[q][j] in m' && AsChild(m'[kids'[q][j]], q, kids'[q], j) {
      InsertedChild(kids, m, p, i, c, kids', m', q, j);
    }
  }

  lemma InsertedAllRoots(kids: Kids, m: Memory, p: Node, i: nat, c: Node, kids': Kids, m': Memory)
    requires Linked(kids, m) && IsInserted(kids, m, p, i, c, kids', m')
    ensures RootsLinked(kids', m')
  {
    forall x | x in kids' && Alone(kids', x) ensures x in m' && AsRoot(m'[x]) {
      InsertedRoots(kids, m, p, i, c, kids', m', x);
    }
  }

  /** Linking a node into a list keeps the pointers true. */
  lemma InsertedLinked(kids: Kids, m: Memory, p: Node, i: nat, c: Node, kids': Kids, m': Memory)
    requires Forest(kids) && Linked(kids, m) && Alone(kids, c) && IsInserted(kids, m, p, i, c, kids', m')
    ensures Linked(kids', m')
  {
    InsertedParents(kids, m, p, i, c, kids', m');
    InsertedChildren(kids, m, p, i, c, kids', m');
    InsertedAllRoots(kids, m, p, i, c, kids', m');
  }

  // --------------------------------------------------------------------- insertion

  /** What the pointers of one list are, as far as an operation looks at them. */
  lemma ListEnds(kids: Kids, m: Memory, p: Node)
    requires Forest(kids) && Linked(kids, m) && p in kids
    ensures p in m && (m[p].first == null <==> kids[p] == [])
    ensures var l := kids[p];
            l != [] ==> m[p].first == l[0] && l[0] in m && m[l[0]].prev == l[|l| - 1] && l[|l| - 1] in m && m[l[|l| - 1]].next == null
  {
    var l := kids[p];
    assert AsParent(m[p], l);
    if l != [] {
      assert AsChild(m[l[0]], p, l, 0);
      assert AsChild(m[l[|l| - 1]], p, l, |l| - 1);
    }
  }

  method AppendNode(child: Node, node: Node, ghost l: seq<Node>, ghost nodes: set<Node>)
    requires child in nodes && node in nodes && child !in l && forall x | x in l :: x in nodes
    requires node.firstChild == (if l == [] then null else l[0]) && (l != [] ==> l[0].prevSiblingC == l[|l| - 1])
    requires child.nextSibling == null
    modifies nodes
    ensures forall x | x in nodes :: Read(x) == Relinked(old(Read(x)), x, node, l, |l|, child)
  {
    child.parent := node;
    var head := node.firstChild;
    if head != null {
      assert l[0] in l && l[|l| - 1] in l;
      var tail := head.prevSiblingC;
      tail.nextSibling := child;
      child.prevSiblingC := tail;
      head.prevSiblingC := child;
    } else {
      node.firstChild := child;
      child.prevSiblingC := child;
    }
  }

  method PrependNode(child: Node, node: Node, ghost l: seq<Node>, ghost nodes: set<Node>)
    requires child in nodes && node in nodes && child !in l && forall x | x in l :: x in nodes
    requires node.firstChild == (if l == [] then null else l[0]) && (l != [] ==> l[0].prevSiblingC == l[|l| - 1])
    modifies nodes
    ensures forall x | x in nodes :: Read(x) == Relinked(old(Read(x)), x, node, l, 0, child)
  {
    child.parent := node;
    var head := node.firstChild;
    if head != null {
      assert l[0] in l;
      child.prevSiblingC := head.prevSiblingC;
      head.prevSiblingC := child;
    } else {
      child.prevSiblingC := child;
    }
    child.nextSibling := head;
    node.firstChild := child;
  }

  /** What the pointers around one child are, in memory. */
  lemma ListMiddle(kids: Kids, m: Memory, p: Node, i: nat)
    requires Forest(kids) && Linked(kids, m) && p in kids && i < |kids[p]|
    ensures var l := kids[p];
            && l[i] in m && m[l[i]].parent == p && m[l[i]].next == NextIn(l, i) && m[l[i]].prev == PrevIn(l, i)
            && PrevIn(l, i) in m && (m[PrevIn(l, i)].next == if i > 0 then l[i] else null)
  {
    var l := kids[p];
    assert AsChild(m[l[i]], p, l, i);
    assert AsChild(m[l[if i > 0 then i - 1 else |l| - 1]], p, l, if i > 0 then i - 1 else |l| - 1);
  }

  /** What the pointers around child number i of p are. */
  ghost predicate Around(p: Node, l: seq<Node>, i: nat)
    requires i < |l|
    reads p, l
  {
    && p.firstChild == l[0] && l[0].prevSiblingC == l[|l| - 1]
    && l[i].parent == p && l[i].nextSibling == NextIn(l, i) && l[i].prevSiblingC == PrevIn(l, i)
    && PrevIn(l, i).nextSibling == (if i > 0 then l[i] else null)
  }

  method InsertNodeAfter(child: Node, node: Node, ghost p: Node, ghost l: seq<Node>, ghost i: nat, ghost nodes: set<Node>)
    requires child in nodes && p in nodes && NoRepeat(l, child) && forall x | x in l :: x in nodes
    requires i < |l| && l[i] == node && Around(p, l, i)
    modifies nodes
    ensures forall x | x in nodes :: Read(x) == Relinked(old(Read(x)), x, p, l, i + 1, child)
  {
    assert l[i] in l && l[0] in l && (i + 1 < |l| ==> l[i + 1] in l);
    var parent := node.parent;
    child.parent := parent;
    var next := node.nextSibling;
    if next != null {
      next.prevSiblingC := child;
    } else {
      parent.firstChild.prevSiblingC := child;
    }
    child.nextSibling := next;
    child.prevSiblingC := node;
    node.nextSibling := child;
  }

  method InsertNodeBefore(child: Node, node: Node, ghost p: Node, ghost l: seq<Node>, ghost i: nat, ghost nodes: set<Node>)
    requires child in nodes && p in nodes && NoRepeat(l, child) && forall x | x in l :: x in nodes
    requires i < |l| && l[i] == node && Around(p, l, i)
    modifies nodes
    ensures forall x | x in nodes :: Read(x) == Relinked(old(Read(x)), x, p, l, i, child)
  {
    assert l[i] in l && PrevIn(l, i) in l;
    var parent := node.parent;
    child.parent := parent;
    var prev := node.prevSiblingC;
    if prev.nextSibling != null {
      prev.nextSibling := child;
    } else {
      parent.firstChild := child;
    }
    child.prevSiblingC := prev;
    child.nextSibling := node;
    node.prevSiblingC := child;
  }

  // ----------------------------------------------------------------------- removal

  /** The fields of x after child number i is taken out of the list l of p. */
  function Unlinked(f: Fields, x: Node, p: Node, l: seq<Node>, i: nat): Fields
    requires i < |l|
  {
    if x == l[i] then Fields(f.name, null, if i == 0 && x == p then NextIn(l, i) else f.first, null, null)
    else
      Fields(f.name, f.parent,
             if i == 0 && x == p then NextIn(l, i) else f.first,
             if i > 0 && x == l[i - 1] then NextIn(l, i) else f.next,
             if x == (if i + 1 < |l| then l[i + 1] else l[0]) then PrevIn(l, i) else f.prev)
  }

  method RemoveNode(node: Node, ghost p: Node, ghost l: seq<Node>, ghost i: nat, ghost nodes: set<Node>)
    requires p in nodes && (forall x | x in l :: x in nodes) && forall j, k | 0 <= j < k < |l| :: l[j] != l[k]
    requires i < |l| && l[i] == node && Around(p, l, i)
    modifies nodes
    ensures forall x | x in nodes :: Read(x) == Unlinked(old(Read(x)), x, p, l, i)
  {
    assert l[i] in l && l[0] in l && PrevIn(l, i) in l && (i + 1 < |l| ==> l[i + 1] in l);
    var parent := node.parent;
    var next := node.nextSibling;
    var prev := node.prevSiblingC;
    if next != null {
      next.prevSiblingC := prev;
    } else {
      parent.firstChild.prevSiblingC := prev;
    }
    if prev.nextSibling != null {
      prev.nextSibling := next;
    } else {
      parent.firstChild := next;
    }
    node.parent := null;
    node.prevSiblingC := null;
    node.nextSibling := null;
  }

  /** kids' and m' are kids and m with child number i of p taken out. */
  ghost predicate IsRemoved(kids: Kids, m: Memory, p: Node, i: nat, kids': Kids, m': Memory) {
    && p in kids && i < |kids[p]| && kids'.Keys == kids.Keys && Longer(kids'[p], kids[p], i, kids[p][i])
    && (forall q | q in kids && q != p :: kids'[q] == kids[q])
    && m'.Keys == m.Keys && forall x | x in m :: m'[x] == Unlinked(m[x], x, p, kids[p], i)
  }

  lemma ForestRemoved(kids: Kids, m: Memory, p: Node, i: nat, kids': Kids, m': Memory)
    requires Forest(kids) && IsRemoved(kids, m, p, i, kids', m')
    ensures Forest(kids') && Alone(kids', kids[p][i])
  {
    forall q, j: nat, r, k: nat | q in kids' && j < |kids'[q]| && r in kids' && k < |kids'[r]| && kids'[q][j] == kids'[r][k]
      ensures q == r && j == k
    {
      var a, b := if q == p && j >= i then j + 1 else j, if r == p && k >= i then k + 1 else k;
      assert kids'[q][j] == kids[q][a] && kids'[r][k] == kids[r][b];
    }
    forall q, j: nat | q in kids' && j < |kids'[q]| ensures kids'[q][j] in kids' && kids'[q][j] != kids[p][i] {
      var a := if q == p && j >= i then j + 1 else j;
      assert kids'[q][j] == kids[q][a];
    }
  }

  lemma RemovedParent(kids: Kids, m: Memory, p: Node, i: nat, kids': Kids, m': Memory, q: Node)
    requires Forest(kids) && Linked(kids, m) && IsRemoved(kids, m, p, i, kids', m') && q in kids
    ensures AsParent(m'[q], kids'[q])
  {
    assert AsParent(m[q], kids[q]);
    if q == p && i > 0 {
      assert kids'[p][0] == kids[p][0];
    }
    if q == p && i == 0 && |kids'[p]| > 0 {
      assert kids[p][0 + 1] == kids'[p][0];
    }
  }

  lemma RemovedElsewhere(kids: Kids, m: Memory, p: Node, i: nat, kids': Kids, m': Memory, q: Node, j: nat)
    requires Forest(kids) && Linked(kids, m) && IsRemoved(kids, m, p, i, kids', m') && q in kids && q != p && j < |kids[q]|
    ensures AsChild(m'[kids[q][j]], q, kids[q], j)
  {
    assert AsChild(m[kids[q][j]], q, kids[q], j);
    assert forall k: nat | k < |kids[p]| :: kids[p][k] != kids[q][j];
  }

  lemma ShorterNext(l: seq<Node>, longer: seq<Node>, i: nat, c: Node, j: nat)
    requires Longer(l, longer, i, c) && j < |l|
    ensures NextIn(l, j) == if j + 1 == i then NextIn(longer, i) else NextIn(longer, if j < i then j else j + 1)
  {
  }

  lemma ShorterPrev(l: seq<Node>, longer: seq<Node>, i: nat, c: Node, j: nat)
    requires Longer(l, longer, i, c) && j < |l|
    ensures PrevIn(l, j) ==
            if j == i || (j == 0 && i == |l|) then PrevIn(longer, i) else PrevIn(longer, if j < i then j else j + 1)
  {
  }

  lemma UnlinkedHere(m: Memory, p: Node, l: seq<Node>, longer: seq<Node>, i: nat, j: nat)
    requires i < |longer| && Longer(l, longer, i, longer[i]) && j < |l| && forall a, b | 0 <= a < b < |longer| :: longer[a] != longer[b]
    requires forall k: nat | k < |longer| :: longer[k] in m && AsChild(m[longer[k]], p, longer, k)
    ensures l[j] in m && AsChild(Unlinked(m[l[j]], l[j], p, longer, i), p, l, j)
  {
    var k := if j < i then j else j + 1;
    assert l[j] == longer[k] && k != i;
    ShorterNext(l, longer, i, longer[i], j);
    ShorterPrev(l, longer, i, longer[i], j);
  }

  lemma Distinct(kids: Kids, p: Node)
    requires Forest(kids) && p in kids
    ensures forall a, b | 0 <= a < b < |kids[p]| :: kids[p][a] != kids[p][b]
  {
  }

  lemma RemovedHere(m: Memory, p: Node, l: seq<Node>, longer: seq<Node>, i: nat, m': Memory, j: nat)
    requires i < |longer| && Longer(l, longer, i, longer[i]) && j < |l| && forall a, b | 0 <= a < b < |longer| :: longer[a] != longer[b]
    requires forall k: nat | k < |longer| :: longer[k] in m && AsChild(m[longer[k]], p, longer, k)
    requires m'.Keys == m.Keys && forall x | x in m :: m'[x] == Unlinked(m[x], x, p, longer, i)
    ensures l[j] in m' && AsChild(m'[l[j]], p, l, j)
  {
    UnlinkedHere(m, p, l, longer, i, j);
  }

  lemma RemovedOwn(kids: Kids, m: Memory, p: Node, i: nat, kids': Kids, m': Memory, j: nat)
    requires Linked(kids, m) && IsRemoved(kids, m, p, i, kids', m') && j < |kids'[p]|
    requires forall a, b | 0 <= a < b < |kids[p]| :: kids[p][a] != kids[p][b]
    ensures kids'[p][j] in m' && AsChild(m'[kids'[p][j]], p, kids'[p], j)
  {
    assert forall k: nat | k < |kids[p]| :: AsChild(m[kids[p][k]], p, kids[p], k);
    RemovedHere(m, p, kids'[p], kids[p], i, m', j);
  }

  lemma RemovedChild(kids: Kids, m: Memory, p: Node, i: nat, kids': Kids, m': Memory, q: Node, j: nat)
    requires Forest(kids) && Linked(kids, m) && IsRemoved(kids, m, p, i, kids', m') && q in kids' && j < |kids'[q]|
    ensures kids'[q][j] in m && AsChild(m'[kids'[q][j]], q, kids'[q], j)
  {
    if q == p {
      Distinct(kids, p);
      RemovedOwn(kids, m, p, i, kids', m', j);
    } else {
      RemovedElsewhere(kids, m, p, i, kids', m', q, j);
    }
  }

  lemma RemovedRoot(kids: Kids, m: Memory, p: Node, i: nat, kids': Kids, m': Memory, x: Node)
    requires Linked(kids, m) && IsRemoved(kids, m, p, i, kids', m') && x in kids && Alone(kids', x)
    ensures AsRoot(m'[x])
  {
    var l, c := kids[p], kids[p][i];
    if x != c {
      assert x !in kids'[p];
      forall k: nat | k < |l| ensures l[k] != x {
        assert k < i ==> kids'[p][k] == l[k];
        assert k > i ==> l[k - 1 + 1] == kids'[p][k - 1];
      }
      assert Alone(kids, x);
    }
  }

  /** Taking a node out of its list keeps the pointers true. */
  lemma RemovedLinked(kids: Kids, m: Memory, p: Node, i: nat, kids': Kids, m': Memory)
    requires Forest(kids) && Linked(kids, m) && IsRemoved(kids, m, p, i, kids', m')
    ensures Linked(kids', m')
  {
    assert ParentsLinked(kids', m') by {
      forall q | q in kids' ensures q in m' && AsParent(m'[q], kids'[q]) {
        RemovedParent(kids, m, p, i, kids', m', q);
      }
    }
    assert ChildrenLinked(kids', m') by {
      forall q, j: nat | q in kids' && j < |kids'[q]| ensures kids'[q][j] in m' && AsChild(m'[kids'[q][j]], q, kids'[q], j) {
        RemovedChild(kids, m, p, i, kids', m', q, j);
      }
    }
    assert RootsLinked(kids', m') by {
      forall x | x in kids' && Alone(kids', x) ensures x in m' && AsRoot(m'[x]) {
        RemovedRoot(kids, m, p, i, kids', m', x);
      }
    }
  }
}
