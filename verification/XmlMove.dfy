/** A document that is edited: new children and guarded moves keep it a tree, over any run. */
module XmlMove {
  import opened XmlTree
  import opened XmlDom

  // ------------------------------------------------------------------- no cycles

  /** Every child lies deeper than its parent. */
  ghost predicate Layered(kids: Kids, depth: map<Node, nat>) {
    depth.Keys == kids.Keys
    && forall p, i: nat | p in kids && i < |kids[p]| :: kids[p][i] in depth && depth[p] < depth[kids[p][i]]
  }

  ghost predicate Climbs(m: Memory, depth: map<Node, nat>) {
    m.Keys == depth.Keys && forall x {:trigger m[x].parent} | x in m && m[x].parent != null :: m[x].parent in m && depth[m[x].parent] < depth[x]
  }

  /** x is c or below it. */
  ghost predicate Under(m: Memory, depth: map<Node, nat>, c: Node, x: Node)
    requires Climbs(m, depth) && x in m
    decreases depth[x]
  {
    x == c || (m[x].parent != null && Under(m, depth, c, m[x].parent))
  }

  /** A node that is no root stands in the list of its parent. */
  lemma ParentHas(kids: Kids, m: Memory, x: Node)
    requires Linked(kids, m) && x in kids
    ensures m[x].parent == null <==> Alone(kids, x)
    ensures m[x].parent != null ==> m[x].parent in kids && x in kids[m[x].parent]
  {
    if !Alone(kids, x) {
      var p :| p in kids && x in kids[p];
      var i: nat :| i < |kids[p]| && kids[p][i] == x;
      assert AsChild(m[kids[p][i]], p, kids[p], i);
    }
  }

  lemma LayeredClimbs(kids: Kids, m: Memory, depth: map<Node, nat>)
    requires Linked(kids, m) && Layered(kids, depth)
    ensures Climbs(m, depth)
  {
    forall x | x in m && m[x].parent != null ensures m[x].parent in m && depth[m[x].parent] < depth[x] {
      ParentHas(kids, m, x);
      var p := m[x].parent;
      var i: nat :| i < |kids[p]| && kids[p][i] == x;
    }
  }

  /** The depths after c is moved under a node of depth d. */
  ghost function Lowered(m: Memory, depth: map<Node, nat>, c: Node, d: nat): map<Node, nat>
    requires Climbs(m, depth)
  {
    map x | x in depth :: if Under(m, depth, c, x) then depth[x] + d + 1 else depth[x]
  }

  /** Every edge of the new lists is an old one, or leads from p to c. */
  ghost predicate MovedTo(kids: Kids, kids': Kids, p: Node, c: Node) {
    kids'.Keys == kids.Keys
    && forall q, i: nat | q in kids' && i < |kids'[q]| :: if kids'[q][i] == c then q == p else kids'[q][i] in kids[q]
  }

  lemma MovedEdge(kids: Kids, m: Memory, depth: map<Node, nat>, kids': Kids, p: Node, c: Node, q: Node, i: nat)
    requires Linked(kids, m) && Layered(kids, depth) && Climbs(m, depth) && p in kids && c in kids
    requires MovedTo(kids, kids', p, c) && !Under(m, depth, c, p) && q in kids' && i < |kids'[q]|
    ensures var d, x := Lowered(m, depth, c, depth[p]), kids'[q][i]; x in d && d[q] < d[x]
  {
    var x := kids'[q][i];
    if x != c {
      var j: nat :| j < |kids[q]| && kids[q][j] == x;
      assert AsChild(m[kids[q][j]], q, kids[q], j);
      assert Under(m, depth, c, x) <==> Under(m, depth, c, q);
    }
  }

  /** A move to a node that is not below the moved one makes no cycle. */
  lemma MoveLayered(kids: Kids, m: Memory, depth: map<Node, nat>, kids': Kids, p: Node, c: Node)
    requires Linked(kids, m) && Layered(kids, depth) && Climbs(m, depth) && p in kids && c in kids
    requires MovedTo(kids, kids', p, c) && !Under(m, depth, c, p)
    ensures Layered(kids', Lowered(m, depth, c, depth[p]))
  {
    forall q, i: nat | q in kids' && i < |kids'[q]| {
      MovedEdge(kids, m, depth, kids', p, c, q, i);
    }
  }

  // ------------------------------------------------------------------------ lists

  ghost function IndexOf<T>(l: seq<T>, x: T): (i: nat)
    requires x in l
    ensures i < |l| && l[i] == x
  {
    var i: nat :| i < |l| && l[i] == x;
    i
  }

  function Without<T>(l: seq<T>, i: nat): seq<T>
    requires i < |l|
  {
    l[..i] + l[i + 1..]
  }

  /** The lists without c in that of p. */
  ghost function Taken(kids: Kids, p: Node, c: Node): Kids
    requires p in kids && c in kids[p]
  {
    kids[p := Without(kids[p], IndexOf(kids[p], c))]
  }

  /** The lists with c as child number i of p. */
  ghost function Given(kids: Kids, p: Node, i: nat, c: Node): Kids
    requires p in kids && i <= |kids[p]|
  {
    kids[p := Insert(kids[p], i, c)]
  }

  lemma TakenIsRemoved(kids: Kids, m: Memory, p: Node, c: Node, m': Memory)
    requires p in kids && c in kids[p] && m'.Keys == m.Keys
    requires forall x | x in m :: m'[x] == Unlinked(m[x], x, p, kids[p], IndexOf(kids[p], c))
    ensures IsRemoved(kids, m, p, IndexOf(kids[p], c), Taken(kids, p, c), m')
  {
  }

  lemma GivenIsInserted(kids: Kids, m: Memory, p: Node, i: nat, c: Node, m': Memory)
    requires p in kids && c in kids && i <= |kids[p]| && m'.Keys == m.Keys
    requires forall x | x in m :: m'[x] == Relinked(m[x], x, p, kids[p], i, c)
    ensures IsInserted(kids, m, p, i, c, Given(kids, p, i, c), m')
  {
    InsertIsLonger(kids[p], i, c);
    assert m' == Inserted(m, p, kids[p], i, c);
  }

  lemma TakenGivenMoves(kids: Kids, q: Node, c: Node, p: Node, i: nat)
    requires Forest(kids) && q in kids && c in kids[q] && p in kids && i <= |Taken(kids, q, c)[p]|
    requires Alone(Taken(kids, q, c), c)
    ensures MovedTo(kids, Given(Taken(kids, q, c), p, i, c), p, c)
  {
    var t := Taken(kids, q, c);
    var g := Given(t, p, i, c);
    forall r, j: nat | r in g && j < |g[r]| ensures if g[r][j] == c then r == p else g[r][j] in kids[r] {
      if r != p {
        assert g[r][j] in t[r];
      } else if g[r][j] != c {
        assert g[r][j] in t[r];
      }
    }
  }

  // ------------------------------------------------------------------ the document

  /** `allow_insert_child`, for nodes that exist. */
  predicate AllowInsertChild(parent: NodeKind, child: NodeKind) {
    && (parent == Document || parent == Element) && child != Document
    && (parent == Document || (child != Declaration && child != Doctype))
  }

  /** What may stand below what: a document holds everything but documents, an element what can stand in its content. */
  predicate Fits(parent: NodeKind, child: NodeKind) {
    match parent
    case Document => child != Document
    case Element => child == Element || child == PcData || child == CData || child == Comment || child == Pi
    case _ => false
  }

  lemma AllowedFits(parent: NodeKind, child: NodeKind)
    ensures AllowInsertChild(parent, child) <==> Fits(parent, child)
  {
  }

  ghost predicate OnlyDocumentsAlone(kids: Kids) {
    forall x {:trigger Alone(kids, x)} | x in kids && Alone(kids, x) :: x.kind == Document
  }

  /** A node lies below one that can hold it, in the pages of the document it belongs to; documents lie in their own. */
  ghost predicate AtHome(kids: Kids) {
    && (forall x | x in kids && x.kind == Document :: x.owner == null)
    && forall p, i: nat | p in kids && i < |kids[p]| :: kids[p][i].Root() == p.Root() && Fits(p.kind, kids[p][i].kind)
  }

  lemma MovedHome(kids: Kids, kids': Kids, p: Node, c: Node)
    requires AtHome(kids) && MovedTo(kids, kids', p, c) && c.Root() == p.Root() && Fits(p.kind, c.kind)
    ensures AtHome(kids')
  {
    forall q, i: nat | q in kids' && i < |kids'[q]| ensures kids'[q][i].Root() == q.Root() && Fits(q.kind, kids'[q][i].kind) {
      if kids'[q][i] != c {
        var j: nat :| j < |kids[q]| && kids[q][j] == kids'[q][i];
      }
    }
  }

  /** A node in a list stays in it, unless it is the moved one. */
  lemma StaysListed(kids: Kids, q: Node, c: Node, p: Node, i: nat, r: Node, x: Node)
    requires q in kids && c in kids[q] && p in kids && i <= |Taken(kids, q, c)[p]| && r in kids && x != c && x in kids[r]
    ensures x in Given(Taken(kids, q, c), p, i, c)[r]
  {
    StillThere(kids, q, c, r, x);
    InsertKeeps(Taken(kids, q, c)[p], i, c, x);
  }

  lemma IsListed<T>(l: seq<T>, i: nat, c: T)
    requires i <= |l|
    ensures c in Insert(l, i, c)
  {
    assert Insert(l, i, c)[i] == c;
  }

  lemma TakenKeys(kids: Kids, q: Node, c: Node, p: Node, i: nat)
    requires OnlyDocumentsAlone(kids) && q in kids && c in kids[q] && p in kids && i <= |Taken(kids, q, c)[p]|
    ensures OnlyDocumentsAlone(Given(Taken(kids, q, c), p, i, c))
  {
    var g := Given(Taken(kids, q, c), p, i, c);
    IsListed(Taken(kids, q, c)[p], i, c);
    assert c in g[p];
    forall x | x in g && Alone(g, x) ensures x.kind == Document {
      forall r | r in kids ensures x !in kids[r] {
        if x in kids[r] {
          StaysListed(kids, q, c, p, i, r, x);
        }
      }
      assert Alone(kids, x);
    }
  }

  lemma StillThere(kids: Kids, q: Node, c: Node, r: Node, x: Node)
    requires q in kids && c in kids[q] && r in kids && x != c
    ensures x in kids[r] ==> x in Taken(kids, q, c)[r]
  {
    var l, i := kids[q], IndexOf(kids[q], c);
    if r == q && x in l {
      var k: nat :| k < |l| && l[k] == x;
      assert Without(l, i)[if k < i then k else k - 1] == x;
    }
  }

  lemma InsertKeeps<T>(l: seq<T>, i: nat, c: T, x: T)
    requires i <= |l|
    ensures x in l ==> x in Insert(l, i, c)
  {
    if x in l {
      var k: nat :| k < |l| && l[k] == x;
      assert Insert(l, i, c)[if k < i then k else k + 1] == x;
    }
  }

  ghost predicate Sound(kids: Kids, m: Memory, depth: map<Node, nat>) {
    Forest(kids) && Linked(kids, m) && Layered(kids, depth) && OnlyDocumentsAlone(kids) && AtHome(kids)
  }

  /** The lists after c, a child of q, is moved to p as child number i. */
  ghost function Moved(kids: Kids, q: Node, c: Node, p: Node, i: nat): Kids
    requires q in kids && c in kids[q] && p in kids && i <= |Taken(kids, q, c)[p]|
  {
    Given(Taken(kids, q, c), p, i, c)
  }

  /** The lists after c, a child of q, has become the first or the last child of p. */
  ghost predicate IsMoved(kids: Kids, q: Node?, c: Node, p: Node, first: bool, kids': Kids) {
    && q != null && q in kids && c in kids[q] && p in kids
    && kids' == Moved(kids, q, c, p, if first then 0 else |Taken(kids, q, c)[p]|)
  }

  /** The lists after c, a child of q, has become the child of p behind or before another one. */
  ghost predicate IsMovedNext(kids: Kids, q: Node?, c: Node, p: Node, place: Node, after: bool, kids': Kids) {
    && q != null && q in kids && c in kids[q] && p in kids && place in Taken(kids, q, c)[p]
    && kids' == Moved(kids, q, c, p, IndexOf(Taken(kids, q, c)[p], place) + if after then 1 else 0)
  }

  /** Taking a node out and linking it in elsewhere, but not below itself, leaves a tree. */
  lemma MoveSound(kids: Kids, m: Memory, depth: map<Node, nat>, q: Node, c: Node, p: Node, i: nat, m1: Memory, m2: Memory)
    requires Sound(kids, m, depth) && Climbs(m, depth) && q in kids && c in kids[q] && p in kids && !Under(m, depth, c, p)
    requires c.Root() == p.Root() && Fits(p.kind, c.kind)
    requires IsRemoved(kids, m, q, IndexOf(kids[q], c), Taken(kids, q, c), m1)
    requires i <= |Taken(kids, q, c)[p]| && IsInserted(Taken(kids, q, c), m1, p, i, c, Moved(kids, q, c, p, i), m2)
    ensures Sound(Moved(kids, q, c, p, i), m2, Lowered(m, depth, c, depth[p]))
  {
    var t := Taken(kids, q, c);
    RemovedLinked(kids, m, q, IndexOf(kids[q], c), t, m1);
    ForestRemoved(kids, m, q, IndexOf(kids[q], c), t, m1);
    InsertedLinked(t, m1, p, i, c, Moved(kids, q, c, p, i), m2);
    ForestInsert(t, p, i, c);
    TakenGivenMoves(kids, q, c, p, i);
    MoveLayered(kids, m, depth, Moved(kids, q, c, p, i), p, c);
    MovedHome(kids, Moved(kids, q, c, p, i), p, c);
    TakenKeys(kids, q, c, p, i);
  }

  // --------------------------------------------------------- operations on the lists

  lemma AroundIs(kids: Kids, p: Node, i: nat)
    requires Forest(kids) && Linked(kids, Look(kids.Keys)) && p in kids && i < |kids[p]|
    ensures Around(p, kids[p], i) && forall x | x in kids[p] :: x in kids
  {
    var m := Look(kids.Keys);
    ListMiddle(kids, m, p, i);
    ListEnds(kids, m, p);
  }

  lemma MembersIn(kids: Kids, p: Node)
    requires Forest(kids) && p in kids
    ensures forall x | x in kids[p] :: x in kids
  {
  }

  /** `remove_node` on a child of q. */
  method Detach(moved: Node, ghost kids: Kids, ghost q: Node)
    requires Forest(kids) && Linked(kids, Look(kids.Keys)) && q in kids && moved in kids[q]
    modifies kids.Keys
    ensures IsRemoved(kids, old(Look(kids.Keys)), q, IndexOf(kids[q], moved), Taken(kids, q, moved), Look(kids.Keys))
  {
    ghost var i, m := IndexOf(kids[q], moved), Look(kids.Keys);
    CanTake(kids, q, i);
    RemoveNode(moved, q, kids[q], i, kids.Keys);
    TakenIsRemoved(kids, m, q, moved, Look(kids.Keys));
  }

  lemma CanTake(kids: Kids, q: Node, i: nat)
    requires Forest(kids) && Linked(kids, Look(kids.Keys)) && q in kids && i < |kids[q]|
    ensures Around(q, kids[q], i) && (forall x | x in kids[q] :: x in kids)
    ensures forall j, k | 0 <= j < k < |kids[q]| :: kids[q][j] != kids[q][k]
  {
    AroundIs(kids, q, i);
    Distinct(kids, q);
  }

  ghost predicate CanLink(kids: Kids, child: Node, p: Node)
    reads kids.Keys
  {
    Forest(kids) && Linked(kids, Look(kids.Keys)) && child in kids && p in kids && Alone(kids, child)
  }

  method AppendTo(child: Node, node: Node, ghost kids: Kids)
    requires CanLink(kids, child, node)
    modifies kids.Keys
    ensures IsInserted(kids, old(Look(kids.Keys)), node, |kids[node]|, child, Given(kids, node, |kids[node]|, child), Look(kids.Keys))
  {
    ghost var m := Look(kids.Keys);
    ListEnds(kids, m, node);
    MembersIn(kids, node);
    AppendNode(child, node, kids[node], kids.Keys);
    GivenIsInserted(kids, m, node, |kids[node]|, child, Look(kids.Keys));
  }

  method PrependTo(child: Node, node: Node, ghost kids: Kids)
    requires CanLink(kids, child, node)
    modifies kids.Keys
    ensures IsInserted(kids, old(Look(kids.Keys)), node, 0, child, Given(kids, node, 0, child), Look(kids.Keys))
  {
    ghost var m := Look(kids.Keys);
    ListEnds(kids, m, node);
    MembersIn(kids, node);
    PrependNode(child, node, kids[node], kids.Keys);
    GivenIsInserted(kids, m, node, 0, child, Look(kids.Keys));
  }

  method LinkAfter(child: Node, node: Node, ghost kids: Kids, ghost p: Node) returns (ghost at: nat)
    requires CanLink(kids, child, p) && node in kids[p]
    modifies kids.Keys
    ensures at == IndexOf(kids[p], node) + 1 && at <= |kids[p]|
    ensures IsInserted(kids, old(Look(kids.Keys)), p, at, child, Given(kids, p, at, child), Look(kids.Keys))
  {
    ghost var i, m := IndexOf(kids[p], node), Look(kids.Keys);
    AroundIs(kids, p, i);
    ListIsClean(kids, p, child);
    InsertNodeAfter(child, node, p, kids[p], i, kids.Keys);
    GivenIsInserted(kids, m, p, i + 1, child, Look(kids.Keys));
    at := i + 1;
  }

  method LinkBefore(child: Node, node: Node, ghost kids: Kids, ghost p: Node) returns (ghost i: nat)
    requires CanLink(kids, child, p) && node in kids[p]
    modifies kids.Keys
    ensures i == IndexOf(kids[p], node) && i <= |kids[p]|
    ensures IsInserted(kids, old(Look(kids.Keys)), p, i, child, Given(kids, p, i, child), Look(kids.Keys))
  {
    ghost var m;
    i, m := IndexOf(kids[p], node), Look(kids.Keys);
    AroundIs(kids, p, i);
    ListIsClean(kids, p, child);
    InsertNodeBefore(child, node, p, kids[p], i, kids.Keys);
    GivenIsInserted(kids, m, p, i, child, Look(kids.Keys));
  }

  lemma DetachedCanLink(kids: Kids, m: Memory, q: Node, moved: Node, p: Node)
    requires Forest(kids) && Linked(kids, m) && q in kids && moved in kids[q] && p in kids
    requires IsRemoved(kids, m, q, IndexOf(kids[q], moved), Taken(kids, q, moved), Look(kids.Keys))
    ensures CanLink(Taken(kids, q, moved), moved, p)
  {
    var t := Taken(kids, q, moved);
    RemovedLinked(kids, m, q, IndexOf(kids[q], moved), t, Look(kids.Keys));
    ForestRemoved(kids, m, q, IndexOf(kids[q], moved), t, Look(kids.Keys));
    assert moved in kids[q];
  }

  // ------------------------------------------------------------------------ moves

  /** What the pointers of a document stand for: its lists of children, and how deep each node lies. */
  datatype Dom = Dom(kids: Kids, depth: map<Node, nat>)

  /** The nodes are linked as the lists say, and form trees under document nodes. */
  ghost predicate IsTree(d: Dom)
    reads d.kids.Keys
  {
    Sound(d.kids, Look(d.kids.Keys), d.depth)
  }

  /** Where climbing along the parent pointers ends. */
  ghost function Top(m: Memory, depth: map<Node, nat>, x: Node): Node
    requires Climbs(m, depth) && x in m
    decreases depth[x]
  {
    if m[x].parent == null then x else Top(m, depth, m[x].parent)
  }

  /** The document in whose pages a node lies is the one on top of its tree. */
  lemma {:induction false} TopIsRoot(kids: Kids, m: Memory, depth: map<Node, nat>, x: Node)
    requires Sound(kids, m, depth) && Climbs(m, depth) && x in kids
    ensures Top(m, depth, x) == x.Root()
    decreases depth[x]
  {
    ParentHas(kids, m, x);
    if m[x].parent != null {
      var p := m[x].parent;
      var i: nat :| i < |kids[p]| && kids[p][i] == x;
      TopIsRoot(kids, m, depth, p);
    }
  }

  /** What `allow_move` answers: the new parent must be in the same document, and not in the subtree of the child. */
  ghost predicate MayMove(kids: Kids, m: Memory, depth: map<Node, nat>, parent: Node, child: Node)
    requires Sound(kids, m, depth) && parent in kids && child in kids
  {
    LayeredClimbs(kids, m, depth);
    AllowInsertChild(parent.kind, child.kind) && Top(m, depth, parent) == Top(m, depth, child) && !Under(m, depth, child, parent)
  }

  /** `allow_move` */
  method AllowMove(parent: Node, child: Node, ghost d: Dom) returns (b: bool)
    requires IsTree(d) && parent in d.kids && child in d.kids
    ensures b == MayMove(d.kids, Look(d.kids.Keys), d.depth, parent, child)
  {
    ghost var m, depth := Look(d.kids.Keys), d.depth;
    LayeredClimbs(d.kids, m, depth);
    if !AllowInsertChild(parent.kind, child.kind) {
      return false;
    }
    TopIsRoot(d.kids, m, depth, parent);
    TopIsRoot(d.kids, m, depth, child);
    if parent.Root() != child.Root() {
      return false;
    }
    var cur: Node? := parent;
    while cur != null
      invariant cur != null ==> cur in d.kids
      invariant Under(m, depth, child, parent) <==> cur != null && Under(m, depth, child, cur)
      decreases if cur == null then 0 else depth[cur] + 1
    {
      if cur == child {
        return false;
      }
      cur := cur.parent;
    }
    return true;
  }

  /** The moved node c is out of the list of q, and may be linked in below p; m is the memory before, now the one after that. */
  ghost predicate HalfMoved(d: Dom, m: Memory, q: Node, c: Node, p: Node, now: Memory) {
    && Sound(d.kids, m, d.depth) && Climbs(m, d.depth) && q in d.kids && c in d.kids[q] && p in d.kids
    && !Under(m, d.depth, c, p) && c.Root() == p.Root() && Fits(p.kind, c.kind) && IsRemoved(d.kids, m, q, IndexOf(d.kids[q], c), Taken(d.kids, q, c), now)
  }

  /** The first half of a move that is allowed. */
  method TakeOut(node: Node, moved: Node, ghost d: Dom) returns (ghost q: Node)
    requires IsTree(d) && node in d.kids && moved in d.kids && MayMove(d.kids, Look(d.kids.Keys), d.depth, node, moved)
    modifies d.kids.Keys
    ensures q == old(moved.parent) && HalfMoved(d, old(Look(d.kids.Keys)), q, moved, node, Look(d.kids.Keys))
    ensures CanLink(Taken(d.kids, q, moved), moved, node)
  {
    ghost var m := Look(d.kids.Keys);
    LayeredClimbs(d.kids, m, d.depth);
    ParentHas(d.kids, m, moved);
    TopIsRoot(d.kids, m, d.depth, node);
    TopIsRoot(d.kids, m, d.depth, moved);
    AllowedFits(node.kind, moved.kind);
    q := moved.parent;
    Detach(moved, d.kids, q);
    DetachedCanLink(d.kids, m, q, moved, node);
  }

  /** The document after c is moved from q to p as child number i. */
  ghost function After(d: Dom, m: Memory, q: Node, c: Node, p: Node, i: nat): Dom
    requires Climbs(m, d.depth) && q in d.kids && c in d.kids[q] && p in d.kids && i <= |Taken(d.kids, q, c)[p]| && p in d.depth
  {
    Dom(Moved(d.kids, q, c, p, i), Lowered(m, d.depth, c, d.depth[p]))
  }

  /** The second half is done: c is child number i of p. */
  lemma MoveDone(d: Dom, m: Memory, q: Node, c: Node, p: Node, i: nat, now: Memory)
    requires HalfMoved(d, m, q, c, p, now) && i <= |Taken(d.kids, q, c)[p]|
    requires IsInserted(Taken(d.kids, q, c), now, p, i, c, Moved(d.kids, q, c, p, i), Look(d.kids.Keys))
    ensures IsTree(After(d, m, q, c, p, i)) && After(d, m, q, c, p, i).kids.Keys == d.kids.Keys
  {
    assert Moved(d.kids, q, c, p, i).Keys == d.kids.Keys;
    MoveSound(d.kids, m, d.depth, q, c, p, i, now, Look(d.kids.Keys));
  }

  /** Names stay what they are. */
  ghost predicate SameNames(m: Memory, m': Memory) {
    forall x | x in m :: x in m' && m'[x].name == m[x].name
  }

  /** Moving a node touches no name. */
  lemma MovedNames(d: Dom, m: Memory, q: Node, c: Node, p: Node, i: nat, now: Memory)
    requires HalfMoved(d, m, q, c, p, now) && i <= |Taken(d.kids, q, c)[p]|
    requires IsInserted(Taken(d.kids, q, c), now, p, i, c, Moved(d.kids, q, c, p, i), Look(d.kids.Keys))
    ensures SameNames(m, Look(d.kids.Keys))
  {
    RelinkedNames(d.kids, m, q, IndexOf(d.kids[q], c), Taken(d.kids, q, c), now, p, i, c, Moved(d.kids, q, c, p, i), Look(d.kids.Keys));
  }

  lemma RelinkedNames(kids: Kids, m: Memory, q: Node, i: nat, t: Kids, now: Memory, p: Node, j: nat, c: Node, kids': Kids, m': Memory)
    requires IsRemoved(kids, m, q, i, t, now) && IsInserted(t, now, p, j, c, kids', m')
    ensures SameNames(m, m')
  {
  }

  /** A move to the first or the last place is done. */
  lemma MovedToEnd(d: Dom, m: Memory, q: Node, c: Node, p: Node, first: bool, now: Memory) returns (d': Dom)
    requires HalfMoved(d, m, q, c, p, now)
    requires var t := Taken(d.kids, q, c); var i := if first then 0 else |t[p]|;
             IsInserted(t, now, p, i, c, Given(t, p, i, c), Look(d.kids.Keys))
    ensures IsTree(d') && d'.kids.Keys == d.kids.Keys && SameNames(m, Look(d.kids.Keys))
    ensures IsMoved(d.kids, q, c, p, first, d'.kids)
  {
    var i := if first then 0 else |Taken(d.kids, q, c)[p]|;
    MovedNames(d, m, q, c, p, i, now);
    MoveDone(d, m, q, c, p, i, now);
    d' := After(d, m, q, c, p, i);
  }

  /** Makes a node the first or the last child of another one. */
  method MoveToEnd(node: Node, moved: Node, first: bool, ghost d: Dom) returns (ghost d': Dom)
    requires IsTree(d) && node in d.kids && moved in d.kids && MayMove(d.kids, Look(d.kids.Keys), d.depth, node, moved)
    modifies d.kids.Keys
    ensures IsTree(d') && d'.kids.Keys == d.kids.Keys && SameNames(old(Look(d.kids.Keys)), Look(d.kids.Keys))
    ensures IsMoved(d.kids, old(moved.parent), moved, node, first, d'.kids)
  {
    ghost var m := Look(d.kids.Keys);
    ghost var q := TakeOut(node, moved, d);
    ghost var t, now := Taken(d.kids, q, moved), Look(d.kids.Keys);
    if first {
      PrependTo(moved, node, t);
    } else {
      AppendTo(moved, node, t);
    }
    d' := MovedToEnd(d, m, q, moved, node, first, now);
  }

  /** `append_move` */
  method AppendMove(node: Node, moved: Node, ghost d: Dom) returns (ok: bool, ghost d': Dom)
    requires IsTree(d) && node in d.kids && moved in d.kids
    modifies d.kids.Keys
    ensures IsTree(d') && d'.kids.Keys == d.kids.Keys && ok == MayMove(d.kids, old(Look(d.kids.Keys)), d.depth, node, moved)
    ensures if ok then IsMoved(d.kids, old(moved.parent), moved, node, false, d'.kids) else d' == d
    ensures SameNames(old(Look(d.kids.Keys)), Look(d.kids.Keys))
  {
    d' := d;
    ok := AllowMove(node, moved, d);
    if ok {
      d' := MoveToEnd(node, moved, false, d);
    }
  }

  /** `prepend_move` */
  method PrependMove(node: Node, moved: Node, ghost d: Dom) returns (ok: bool, ghost d': Dom)
    requires IsTree(d) && node in d.kids && moved in d.kids
    modifies d.kids.Keys
    ensures IsTree(d') && d'.kids.Keys == d.kids.Keys && ok == MayMove(d.kids, old(Look(d.kids.Keys)), d.depth, node, moved)
    ensures if ok then IsMoved(d.kids, old(moved.parent), moved, node, true, d'.kids) else d' == d
    ensures SameNames(old(Look(d.kids.Keys)), Look(d.kids.Keys))
  {
    d' := d;
    ok := AllowMove(node, moved, d);
    if ok {
      d' := MoveToEnd(node, moved, true, d);
    }
  }

  /** The first half of a move next to a child of the node. */
  method TakeOutBeside(node: Node, moved: Node, place: Node, ghost d: Dom) returns (ghost q: Node)
    requires IsTree(d) && node in d.kids && moved in d.kids && MayMove(d.kids, Look(d.kids.Keys), d.depth, node, moved)
    requires place in d.kids && place.parent == node && moved != place
    modifies d.kids.Keys
    ensures q == old(moved.parent) && HalfMoved(d, old(Look(d.kids.Keys)), q, moved, node, Look(d.kids.Keys))
    ensures CanLink(Taken(d.kids, q, moved), moved, node) && place in Taken(d.kids, q, moved)[node]
  {
    ParentHas(d.kids, Look(d.kids.Keys), place);
    q := TakeOut(node, moved, d);
    StillThere(d.kids, q, moved, node, place);
  }

  /** Links a node that is taken out next to a child of its new parent. */
  method LinkBeside(child: Node, place: Node, after: bool, ghost t: Kids, ghost p: Node) returns (ghost at: nat)
    requires CanLink(t, child, p) && place in t[p]
    modifies t.Keys
    ensures at == IndexOf(t[p], place) + (if after then 1 else 0) && at <= |t[p]|
    ensures IsInserted(t, old(Look(t.Keys)), p, at, child, Given(t, p, at, child), Look(t.Keys))
  {
    if after {
      at := LinkAfter(child, place, t, p);
    } else {
      at := LinkBefore(child, place, t, p);
    }
  }

  /** The second half of a move, given the lists t without the moved node. */
  method PutBeside(node: Node, moved: Node, place: Node, after: bool, ghost d: Dom, ghost m: Memory, ghost q: Node, ghost t: Kids)
    returns (ghost d': Dom)
    requires HalfMoved(d, m, q, moved, node, Look(d.kids.Keys)) && t == Taken(d.kids, q, moved) && t.Keys == d.kids.Keys
    requires CanLink(t, moved, node) && place in t[node]
    modifies d.kids.Keys
    ensures IsTree(d') && IsMovedNext(d.kids, q, moved, node, place, after, d'.kids) && SameNames(m, Look(d.kids.Keys))
    ensures d'.kids.Keys == d.kids.Keys
  {
    ghost var now := Look(d.kids.Keys);
    ghost var at := LinkBeside(moved, place, after, t, node);
    MovedNames(d, m, q, moved, node, at, now);
    MoveDone(d, m, q, moved, node, at, now);
    d' := After(d, m, q, moved, node, at);
    MovedNextIs(d.kids, q, moved, node, place, after, t, at, d'.kids);
  }

  lemma MovedNextIs(kids: Kids, q: Node, c: Node, p: Node, place: Node, after: bool, t: Kids, at: nat, kids': Kids)
    requires q in kids && c in kids[q] && p in kids && t == Taken(kids, q, c) && place in t[p]
    requires at == IndexOf(t[p], place) + (if after then 1 else 0) && kids' == Moved(kids, q, c, p, at)
    ensures IsMovedNext(kids, q, c, p, place, after, kids')
  {
  }

  /** Moves a node behind or before a child of its new parent. */
  method MoveBeside(node: Node, moved: Node, place: Node, after: bool, ghost d: Dom) returns (ghost d': Dom)
    requires IsTree(d) && node in d.kids && moved in d.kids && MayMove(d.kids, Look(d.kids.Keys), d.depth, node, moved)
    requires place in d.kids && place.parent == node && moved != place
    modifies d.kids.Keys
    ensures IsTree(d') && IsMovedNext(d.kids, old(moved.parent), moved, node, place, after, d'.kids)
    ensures d'.kids.Keys == d.kids.Keys
    ensures SameNames(old(Look(d.kids.Keys)), Look(d.kids.Keys))
  {
    ghost var m := Look(d.kids.Keys);
    ghost var q := TakeOutBeside(node, moved, place, d);
    d' := PutBeside(node, moved, place, after, d, m, q, Taken(d.kids, q, moved));
  }

  /** `insert_move_after` and `insert_move_before` */
  method InsertMove(node: Node, moved: Node, place: Node, after: bool, ghost d: Dom) returns (ok: bool, ghost d': Dom)
    requires IsTree(d) && node in d.kids && moved in d.kids && place in d.kids
    modifies d.kids.Keys
    ensures IsTree(d') && d'.kids.Keys == d.kids.Keys
    ensures ok == (MayMove(d.kids, old(Look(d.kids.Keys)), d.depth, node, moved) && old(place.parent) == node && moved != place)
    ensures if ok then IsMovedNext(d.kids, old(moved.parent), moved, node, place, after, d'.kids) else d' == d
    ensures SameNames(old(Look(d.kids.Keys)), Look(d.kids.Keys))
  {
    d' := d;
    ok := AllowMove(node, moved, d);
    ok := ok && place.parent == node && moved != place;
    if ok {
      d' := MoveBeside(node, moved, place, after, d);
    }
  }

  // --------------------------------------------------------------------- new children

  lemma NewAlone(kids: Kids, c: Node)
    requires Forest(kids) && c !in kids
    ensures Forest(kids[c := []]) && Alone(kids[c := []], c)
  {
    var kids' := kids[c := []];
    forall p | p in kids' ensures c !in kids'[p] {
      if p in kids {
        MembersIn(kids, p);
      }
    }
  }

  /** kids' and m' are kids and m with a node without parent and children. */
  ghost predicate IsWithNew(kids: Kids, m: Memory, c: Node, f: Fields, kids': Kids, m': Memory) {
    && c !in kids && f.parent == null && f.first == null && f.next == null
    && kids'.Keys == kids.Keys + {c} && m'.Keys == m.Keys + {c} && kids'[c] == [] && m'[c] == f
    && (forall x | x in kids :: kids'[x] == kids[x]) && forall x | x in m :: m'[x] == m[x]
  }

  lemma NewChildren(kids: Kids, m: Memory, c: Node, f: Fields, kids': Kids, m': Memory)
    requires m.Keys == kids.Keys && ChildrenLinked(kids, m) && IsWithNew(kids, m, c, f, kids', m')
    ensures ChildrenLinked(kids', m')
  {
    forall p, i: nat | p in kids' && i < |kids'[p]| ensures kids'[p][i] in m' && AsChild(m'[kids'[p][i]], p, kids'[p], i) {
      assert AsChild(m[kids[p][i]], p, kids[p], i);
    }
  }

  lemma NewRoots(kids: Kids, m: Memory, c: Node, f: Fields, kids': Kids, m': Memory)
    requires m.Keys == kids.Keys && RootsLinked(kids, m) && IsWithNew(kids, m, c, f, kids', m')
    ensures RootsLinked(kids', m')
  {
    forall x | x in kids' && Alone(kids', x) ensures x in m' && AsRoot(m'[x]) {
      if x in kids {
        forall p | p in kids ensures x !in kids[p] {
          assert x !in kids'[p];
        }
        assert Alone(kids, x);
      }
    }
  }

  lemma NewLinked(kids: Kids, m: Memory, c: Node, f: Fields, kids': Kids, m': Memory)
    requires Linked(kids, m) && IsWithNew(kids, m, c, f, kids', m')
    ensures Linked(kids', m')
  {
    NewChildren(kids, m, c, f, kids', m');
    NewRoots(kids, m, c, f, kids', m');
  }

  lemma UpdatesAreNew(kids: Kids, m: Memory, c: Node, f: Fields)
    requires c !in kids && m.Keys == kids.Keys && f.parent == null && f.first == null && f.next == null
    ensures IsWithNew(kids, m, c, f, kids[c := []], m[c := f])
  {
  }

  /** A new node next to a document. */
  lemma WithNew(kids: Kids, m: Memory, c: Node, f: Fields)
    requires Forest(kids) && Linked(kids, m) && c !in kids && f.parent == null && f.first == null && f.next == null
    ensures Forest(kids[c := []]) && Linked(kids[c := []], m[c := f]) && Alone(kids[c := []], c)
  {
    NewAlone(kids, c);
    UpdatesAreNew(kids, m, c, f);
    NewLinked(kids, m, c, f, kids[c := []], m[c := f]);
  }

  /** A new node as child number i of p. */
  lemma NewSound(kids: Kids, m: Memory, depth: map<Node, nat>, c: Node, f: Fields, p: Node, i: nat, m': Memory)
    requires Sound(kids, m, depth) && c !in kids && f.parent == null && f.first == null && f.next == null
    requires p in kids && i <= |kids[p]| && Fits(p.kind, c.kind) && c.Root() == p.Root()
    requires IsInserted(kids[c := []], m[c := f], p, i, c, Given(kids[c := []], p, i, c), m')
    ensures Sound(Given(kids[c := []], p, i, c), m', depth[c := depth[p] + 1])
  {
    var k := kids[c := []];
    var g := Given(k, p, i, c);
    WithNew(kids, m, c, f);
    InsertedLinked(k, m[c := f], p, i, c, g, m');
    ForestInsert(k, p, i, c);
    NewLayered(kids, depth, c, p, i);
    NewAtHome(kids, c, p, i);
    NewNotAlone(kids, c, p, i);
  }

  lemma NewNotAlone(kids: Kids, c: Node, p: Node, i: nat)
    requires OnlyDocumentsAlone(kids) && c !in kids && p in kids && i <= |kids[p]|
    ensures OnlyDocumentsAlone(Given(kids[c := []], p, i, c))
  {
    var g := Given(kids[c := []], p, i, c);
    IsListed(kids[p], i, c);
    forall x | x in g && Alone(g, x) ensures x.kind == Document {
      assert x !in g[p];
      forall r | r in kids ensures x !in kids[r] {
        InsertKeeps(kids[p], i, c, x);
        assert x !in g[r];
      }
      assert Alone(kids, x);
    }
  }

  lemma NewAtHome(kids: Kids, c: Node, p: Node, i: nat)
    requires Forest(kids) && AtHome(kids) && c !in kids && p in kids && i <= |kids[p]| && Fits(p.kind, c.kind) && c.Root() == p.Root()
    ensures AtHome(Given(kids[c := []], p, i, c))
  {
    var g: Kids := Given(kids[c := []], p, i, c);
    forall q, j: nat | q in g && j < |g[q]| ensures g[q][j].Root() == q.Root() && Fits(q.kind, g[q][j].kind) {
      if q == p {
        assert g[p][j] == c || g[p][j] in kids[p];
      }
    }
  }

  lemma NewLayered(kids: Kids, depth: map<Node, nat>, c: Node, p: Node, i: nat)
    requires Forest(kids) && Layered(kids, depth) && c !in kids && p in kids && i <= |kids[p]|
    ensures Layered(Given(kids[c := []], p, i, c), depth[c := depth[p] + 1])
  {
    var g := Given(kids[c := []], p, i, c);
    forall q, j: nat | q in g && j < |g[q]| ensures g[q][j] in depth[c := depth[p] + 1] && depth[c := depth[p] + 1][q] < depth[c := depth[p] + 1][g[q][j]] {
      if q == p {
        assert g[p][j] == c || g[p][j] in kids[p];
      }
    }
  }

  lemma PrepareNew(d: Dom, n: Node, node: Node)
    requires IsTree(d) && node in d.kids && n !in d.kids && n.parent == null && n.firstChild == null && n.nextSibling == null
    ensures var k := d.kids[n := []]; Look(k.Keys) == Look(d.kids.Keys)[n := Read(n)] && CanLink(k, n, node)
  {
    var k := d.kids[n := []];
    assert Look(k.Keys) == Look(d.kids.Keys)[n := Read(n)];
    WithNew(d.kids, Look(d.kids.Keys), n, Read(n));
  }

  /** The document with a new last child of p. */
  ghost function NewDom(d: Dom, c: Node, p: Node): (r: Dom)
    requires p in d.kids && p in d.depth && c !in d.kids
    ensures r.kids.Keys == d.kids.Keys + {c}
  {
    Dom(Given(d.kids[c := []], p, |d.kids[p]|, c), d.depth[c := d.depth[p] + 1])
  }

  lemma NewDone(d: Dom, m: Memory, f: Fields, c: Node, p: Node, k: Kids, g: Kids, m': Memory)
    requires Sound(d.kids, m, d.depth) && c !in d.kids && f.parent == null && f.first == null && f.next == null && p in d.kids
    requires Fits(p.kind, c.kind) && c.Root() == p.Root() && k == d.kids[c := []] && g == Given(k, p, |d.kids[p]|, c)
    requires IsInserted(k, m[c := f], p, |d.kids[p]|, c, g, m')
    ensures Sound(NewDom(d, c, p).kids, m', NewDom(d, c, p).depth)
  {
    NewSound(d.kids, m, d.depth, c, f, p, |d.kids[p]|, m');
  }

  /** Only names may differ. */
  ghost predicate SamePointers(m: Memory, m': Memory) {
    m'.Keys == m.Keys && forall x | x in m :: m'[x] == m[x].(name := m'[x].name)
  }

  /** A name says nothing about the structure. */
  lemma RenamedLinked(kids: Kids, m: Memory, m': Memory)
    requires Linked(kids, m) && SamePointers(m, m')
    ensures Linked(kids, m')
  {
    forall p | p in kids ensures p in m' && AsParent(m'[p], kids[p]) {
      assert AsParent(m[p], kids[p]);
    }
    forall p, i: nat | p in kids && i < |kids[p]| ensures kids[p][i] in m' && AsChild(m'[kids[p][i]], p, kids[p], i) {
      assert AsChild(m[kids[p][i]], p, kids[p], i);
    }
  }

  lemma Renamed(d: Dom, m: Memory)
    requires Sound(d.kids, m, d.depth) && SamePointers(m, Look(d.kids.Keys))
    ensures IsTree(d)
  {
    RenamedLinked(d.kids, m, Look(d.kids.Keys));
  }

  /** `set_name` */
  method SetName(n: Node, name: string, ghost nodes: set<Node>)
    modifies n`name
    ensures n.name == name && SamePointers(old(Look(nodes)), Look(nodes))
    ensures forall x | x in nodes && x != n :: Look(nodes)[x] == old(Look(nodes))[x]
  {
    n.name := name;
  }

  /** Links a new node in as the last child. */
  method LinkNew(n: Node, node: Node, ghost d: Dom) returns (ghost d': Dom)
    requires IsTree(d) && node in d.kids && n !in d.kids && n.parent == null && n.firstChild == null && n.nextSibling == null
    requires Fits(node.kind, n.kind) && n.Root() == node.Root()
    modifies d.kids.Keys + {n}
    ensures IsTree(d') && d'.kids == Given(d.kids[n := []], node, |d.kids[node]|, n)
    ensures SameNames(old(Look(d.kids.Keys))[n := old(Read(n))], Look(d'.kids.Keys)) && n.name == old(n.name)
  {
    ghost var m, f, k := Look(d.kids.Keys), Read(n), d.kids[n := []];
    PrepareNew(d, n, node);
    AppendTo(n, node, k);
    d' := NewDom(d, n, node);
    NewDone(d, m, f, n, node, k, Given(k, node, |d.kids[node]|, n), Look(d'.kids.Keys));
    InsertedNames(k, m[n := f], node, |d.kids[node]|, n, d'.kids, Look(d'.kids.Keys));
  }

  lemma InsertedNames(kids: Kids, m: Memory, p: Node, i: nat, c: Node, kids': Kids, m': Memory)
    requires IsInserted(kids, m, p, i, c, kids', m')
    ensures SameNames(m, m') && (c in m ==> c in m' && m'[c].name == m[c].name)
  {
  }

  lemma NewNames(m: Memory, c: Node, f: Fields, linked: Memory, m': Memory)
    requires c !in m && SameNames(m[c := f], linked) && m'.Keys == linked.Keys && forall x | x in linked && x != c :: m'[x] == linked[x]
    ensures SameNames(m, m')
  {
    assert forall x | x in m :: m[c := f][x] == m[x];
  }

  /** A new declaration is named at once. */
  method NameNew(n: Node, ghost d: Dom, ghost m: Memory, ghost f: Fields)
    requires IsTree(d) && n in d.kids && n !in m && SameNames(m[n := f], Look(d.kids.Keys)) && n.name == ""
    modifies n`name
    ensures IsTree(d) && SameNames(m, Look(d.kids.Keys)) && n.name == if n.kind == Declaration then "xml" else ""
  {
    ghost var linked := Look(d.kids.Keys);
    if n.kind == Declaration {
      SetName(n, "xml", d.kids.Keys);
      Renamed(d, linked);
    }
    NewNames(m, n, f, linked, Look(d.kids.Keys));
  }

  /** Makes a new last child of a node that may have it. */
  method NewChild(node: Node, kind: NodeKind, ghost d: Dom) returns (child: Node, ghost d': Dom)
    requires IsTree(d) && node in d.kids && Fits(node.kind, kind)
    modifies d.kids.Keys
    ensures fresh(child) && child.kind == kind && child.name == if kind == Declaration then "xml" else ""
    ensures IsTree(d') && d'.kids == Given(d.kids[child := []], node, |d.kids[node]|, child)
    ensures SameNames(old(Look(d.kids.Keys)), Look(d'.kids.Keys))
  {
    child := new Node(kind, node.Root());
    ghost var m, f := Look(d.kids.Keys), Read(child);
    d' := LinkNew(child, node, d);
    NameNew(child, d', m, f);
  }

  /** `append_child` */
  method AppendChild(node: Node, kind: NodeKind, ghost d: Dom) returns (child: Node?, ghost d': Dom)
    requires IsTree(d) && node in d.kids
    modifies d.kids.Keys
    ensures IsTree(d') && (child != null <==> AllowInsertChild(node.kind, kind))
    ensures child == null ==> d' == d
    ensures child != null ==> fresh(child) && child.kind == kind && child.name == if kind == Declaration then "xml" else ""
    ensures child != null ==> d'.kids == Given(d.kids[child := []], node, |d.kids[node]|, child)
    ensures SameNames(old(Look(d.kids.Keys)), Look(d'.kids.Keys))
  {
    child, d' := null, d;
    AllowedFits(node.kind, kind);
    if AllowInsertChild(node.kind, kind) {
      child, d' := NewChild(node, kind, d);
    }
  }

  // -------------------------------------------------------------------------- runs

  /** A new document beside others. */
  method NewDocument(ghost d: Dom) returns (document: Node, ghost d': Dom)
    requires IsTree(d)
    ensures IsTree(d') && fresh(document) && document.kind == Document && d'.kids == d.kids[document := []]
  {
    document := new Node(Document, null);
    d' := Dom(d.kids[document := []], d.depth[document := 0]);
    DocumentSound(d, document, d');
  }

  lemma DocumentSound(d: Dom, document: Node, d': Dom)
    requires IsTree(d) && document !in d.kids && document.kind == Document && document.owner == null
    requires document.parent == null && document.firstChild == null && document.nextSibling == null
    requires d' == Dom(d.kids[document := []], d.depth[document := 0])
    ensures IsTree(d')
  {
    var m, f := Look(d.kids.Keys), Read(document);
    WithNew(d.kids, m, document, f);
    assert Look(d'.kids.Keys) == m[document := f];
    forall x | x in d'.kids && Alone(d'.kids, x) ensures x.kind == Document {
      if x in d.kids {
        forall r | r in d.kids ensures x !in d.kids[r] {
          assert x !in d'.kids[r];
        }
        assert Alone(d.kids, x);
      }
    }
  }

  /** An edit of documents; the nodes are numbered in the order in which they were made. */
  datatype Edit =
    | AddDocument
    | AddChild(parent: nat, kind: NodeKind)
    | MoveLast(parent: nat, moved: nat)
    | MoveFirst(parent: nat, moved: nat)
    | MoveBy(parent: nat, moved: nat, place: nat, after: bool)

  ghost predicate IsWorld(nodes: seq<Node>, d: Dom)
    reads d.kids.Keys
  {
    IsTree(d) && d.kids.Keys == set x | x in nodes
  }

  method PerformMove(edit: Edit, nodes: seq<Node>, ghost d: Dom) returns (ghost d': Dom)
    requires IsTree(d) && forall x | x in nodes :: x in d.kids
    modifies d.kids.Keys
    ensures IsTree(d') && d'.kids.Keys == d.kids.Keys
  {
    d' := d;
    var ok;
    match edit {
      case MoveLast(parent, moved) =>
        if parent < |nodes| && moved < |nodes| {
          ok, d' := AppendMove(nodes[parent], nodes[moved], d);
        }
      case MoveFirst(parent, moved) =>
        if parent < |nodes| && moved < |nodes| {
          ok, d' := PrependMove(nodes[parent], nodes[moved], d);
        }
      case MoveBy(parent, moved, place, after) =>
        if parent < |nodes| && moved < |nodes| && place < |nodes| {
          ok, d' := InsertMove(nodes[parent], nodes[moved], nodes[place], after, d);
        }
      case _ =>
    }
  }

  /** The new child, if there is one. */
  method PerformChild(parent: nat, kind: NodeKind, nodes: seq<Node>, ghost d: Dom) returns (made: seq<Node>, ghost d': Dom)
    requires IsTree(d) && forall x | x in nodes :: x in d.kids
    modifies d.kids.Keys
    ensures IsTree(d') && d'.kids.Keys == d.kids.Keys + (set x | x in made) && forall x | x in made :: fresh(x)
  {
    made, d' := [], d;
    if parent < |nodes| {
      var child;
      child, d' := AppendChild(nodes[parent], kind, d);
      if child != null {
        made := [child];
      }
    }
  }

  /** Carries out one edit; one that names missing nodes, or that is not allowed, changes nothing. */
  method Perform(edit: Edit, nodes: seq<Node>, ghost d: Dom) returns (nodes': seq<Node>, ghost d': Dom)
    requires IsWorld(nodes, d)
    modifies d.kids.Keys
    ensures IsWorld(nodes', d') && fresh(d'.kids.Keys - d.kids.Keys) && nodes <= nodes'
  {
    if edit.AddDocument? {
      var document;
      document, d' := NewDocument(d);
      nodes' := nodes + [document];
    } else if edit.AddChild? {
      var made;
      made, d' := PerformChild(edit.parent, edit.kind, nodes, d);
      nodes' := nodes + made;
    } else {
      nodes' := nodes;
      d' := PerformMove(edit, nodes, d);
    }
  }

  /** Any run: documents built and rearranged in any order are trees. */
  method Run(edits: seq<Edit>) returns (nodes: seq<Node>, ghost d: Dom)
    ensures IsWorld(nodes, d) && fresh(d.kids.Keys)
  {
    nodes, d := [], Dom(map[], map[]);
    for k := 0 to |edits|
      invariant IsWorld(nodes, d) && fresh(d.kids.Keys)
    {
      nodes, d := Perform(edits[k], nodes, d);
    }
  }

  // ------------------------------------------------------- where the moved node ends up

  /** A list without x, in its order. */
  function Dropped(l: seq<Node>, x: Node): seq<Node> {
    if l == [] then [] else (if l[0] == x then [] else [l[0]]) + Dropped(l[1..], x)
  }

  lemma {:induction false} DroppedConcat(a: seq<Node>, b: seq<Node>, x: Node)
    ensures Dropped(a + b, x) == Dropped(a, x) + Dropped(b, x)
  {
    if a == [] {
      assert a + b == b;
    } else {
      assert (a + b)[1..] == a[1..] + b;
      DroppedConcat(a[1..], b, x);
    }
  }

  lemma DroppedInsert(l: seq<Node>, i: nat, x: Node)
    requires i <= |l|
    ensures Dropped(Insert(l, i, x), x) == Dropped(l, x)
  {
    assert l == l[..i] + l[i..] && Dropped([x], x) == [];
    DroppedConcat(l[..i], l[i..], x);
    DroppedConcat(l[..i] + [x], l[i..], x);
    DroppedConcat(l[..i], [x], x);
  }

  lemma DroppedWithout(l: seq<Node>, i: nat, x: Node)
    requires i < |l| && l[i] == x
    ensures Dropped(Without(l, i), x) == Dropped(l, x)
  {
    assert l == Insert(Without(l, i), i, x);
    DroppedInsert(Without(l, i), i, x);
  }

  /** But for the moved node every list is what it was. */
  lemma OthersStay(kids: Kids, q: Node, c: Node, p: Node, i: nat, r: Node)
    requires q in kids && c in kids[q] && p in kids && i <= |Taken(kids, q, c)[p]| && r in kids
    ensures Dropped(Moved(kids, q, c, p, i)[r], c) == Dropped(kids[r], c)
  {
    DroppedWithout(kids[q], IndexOf(kids[q], c), c);
    DroppedInsert(Taken(kids, q, c)[p], i, c);
  }

  /** After a move to the front or the end the moved node is the first or the last child, and nothing else has changed. */
  lemma MovedToPlace(kids: Kids, q: Node, c: Node, p: Node, first: bool, kids': Kids)
    requires IsMoved(kids, q, c, p, first, kids')
    ensures kids'.Keys == kids.Keys && kids'[p] != [] && kids'[p][if first then 0 else |kids'[p]| - 1] == c
    ensures forall r | r in kids :: Dropped(kids'[r], c) == Dropped(kids[r], c)
  {
    var i := if first then 0 else |Taken(kids, q, c)[p]|;
    forall r | r in kids ensures Dropped(kids'[r], c) == Dropped(kids[r], c) {
      OthersStay(kids, q, c, p, i, r);
    }
  }

  /** After a move beside another child the two are neighbours in the order asked for, and nothing else has changed. */
  lemma MovedBeside(kids: Kids, q: Node, c: Node, p: Node, place: Node, after: bool, kids': Kids) returns (k: nat)
    requires IsMovedNext(kids, q, c, p, place, after, kids')
    ensures kids'.Keys == kids.Keys && k + 1 < |kids'[p]|
    ensures if after then kids'[p][k] == place && kids'[p][k + 1] == c else kids'[p][k] == c && kids'[p][k + 1] == place
    ensures forall r | r in kids :: Dropped(kids'[r], c) == Dropped(kids[r], c)
  {
    var l := Taken(kids, q, c)[p];
    k := IndexOf(l, place);
    var i := k + if after then 1 else 0;
    assert kids'[p] == Insert(l, i, c);
    forall r | r in kids ensures Dropped(kids'[r], c) == Dropped(kids[r], c) {
      OthersStay(kids, q, c, p, i, r);
    }
  }
}
