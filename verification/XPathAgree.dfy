/** When an evaluated node set, in whatever order and however partial, serves as a node set listed in document order. */
module XPathAgree {
  import opened XmlTree
  import opened XPathOrder
  import opened XPathNodeSet
  import opened XPathFill
  import opened XPathAst
  import opened XPathEval
  import opened XPathMeaning

  predicate AtOrBefore(x: XNode, y: XNode) {
    x == y || DocBefore(x, y)
  }

  /** What the caller needs of y: y itself, a node no later than y, or just any node. */
  predicate Covers(mode: Mode, s: seq<XNode>, y: XNode) {
    match mode
    case WantAll => y in s
    case WantFirst => exists z | z in s :: AtOrBefore(z, y)
    case WantAny => s != []
  }

  ghost predicate AllReal(env: Env, s: seq<XNode>) {
    forall x | x in s :: Real(env, x)
  }

  ghost predicate Agree(env: Env, mode: Mode, ns: NodeSet, list: seq<XNode>) {
    && InDocOrder(list) && AllReal(env, list) && OrderHolds(ns)
    && (forall x | x in ns.nodes :: x in list)
    && (forall y | y in list :: Covers(mode, ns.nodes, y))
  }

  lemma CoversMore(mode: Mode, s: seq<XNode>, t: seq<XNode>, y: XNode)
    requires Covers(mode, s, y) && forall x | x in s :: x in t
    ensures Covers(mode, t, y)
  {
    if mode == WantAny {
      assert s[0] in t;
    }
  }

  // --------------------------------------------------------------- canonical lists

  lemma CanonMeaning(s: seq<XNode>)
    ensures InDocOrder(Canon(s))
    ensures forall x :: x in Canon(s) <==> x in s && !x.Nothing?
  {
    DedupMeaning(s);
    InOrderMeaning(Dedup(s));
  }

  /** Document order and the nodes determine the list. */
  lemma CanonUnique(s: seq<XNode>, t: seq<XNode>)
    requires InDocOrder(t)
    requires forall x :: x in t <==> x in s && !x.Nothing?
    ensures Canon(s) == t
  {
    CanonMeaning(s);
    InDocOrderUnique(Canon(s), t);
  }

  // ------------------------------------------------------------------- consequences

  /** A set evaluated in full has the right nodes, once each. */
  lemma AllAgrees(env: Env, ns: NodeSet, list: seq<XNode>)
    requires Agree(env, WantAll, ns, list)
    ensures SortDone(ns).nodes == list
    ensures forall x :: x in ns.nodes <==> x in list
    ensures |ns.nodes| == |list|
  {
    forall x ensures x in ns.nodes <==> x in list {
      assert x in list ==> Covers(WantAll, ns.nodes, x);
    }
    SortDoneMeaning(ns);
    InDocOrderUnique(SortDone(ns).nodes, list);
  }

  lemma EmptyAgrees(env: Env, mode: Mode, ns: NodeSet, list: seq<XNode>)
    requires Agree(env, mode, ns, list)
    ensures ns.nodes == [] <==> list == []
  {
    if list != [] {
      assert Covers(mode, ns.nodes, list[0]);
    }
    if ns.nodes != [] {
      assert ns.nodes[0] in list;
    }
  }

  /** A set evaluated at least up to the first node has the right first node. */
  lemma FirstAgrees(env: Env, mode: Mode, ns: NodeSet, list: seq<XNode>)
    requires Agree(env, mode, ns, list) && mode != WantAny && list != []
    ensures ns.nodes != [] && First(ns) == list[0] && list[0] in ns.nodes
  {
    EmptyAgrees(env, mode, ns, list);
    assert Covers(mode, ns.nodes, list[0]);
    var z :| z in ns.nodes && AtOrBefore(z, list[0]);
    HeadIsLeast(list);
    DocOrderTotal(z, list[0]);
    FirstMeaning(ns);
    DocOrderTotal(First(ns), list[0]);
  }

  lemma FirstSorted(env: Env, mode: Mode, ns: NodeSet, list: seq<XNode>)
    requires Agree(env, mode, ns, list) && mode != WantAny && list != []
    ensures SortDone(ns).nodes != [] && SortDone(ns).nodes[0] == list[0]
  {
    FirstAgrees(env, mode, ns, list);
    SortDoneMeaning(ns);
    var s := SortDone(ns).nodes;
    assert list[0] in s;
    HeadIsLeast(s);
    HeadIsLeast(list);
    assert s[0] in list;
    DocOrderTotal(s[0], list[0]);
  }

  // --------------------------------------------------------------------- duplicates

  lemma DeduplicatedMeaning(s: seq<XNode>)
    requires forall x | x in s :: !x.Nothing?
    ensures var d := Deduplicated(NodeSet(s, Unsorted));
            d.order == Unsorted && Distinct(d.nodes) && forall x :: x in d.nodes <==> x in s
  {
    if |s| > 2 {
      DedupMeaning(s);
    } else if |s| == 2 {
      assert SqueezeTo(s, 2) == if s[0] == s[1] then [s[0]] else [s[0]] + [s[1]];
      assert s == [s[0]] + [s[1]];
    }
  }

  /** `|`: both sides evaluated in the same mode. */
  lemma UnionAgrees(env: Env, mode: Mode, ls: NodeSet, rs: NodeSet, l: seq<XNode>, r: seq<XNode>)
    requires Agree(env, mode, ls, l) && Agree(env, mode, rs, r)
    ensures Agree(env, mode, Deduplicated(NodeSet(ls.nodes + rs.nodes, Unsorted)), Canon(l + r))
  {
    var s := ls.nodes + rs.nodes;
    forall x | x in s ensures x in l + r && Real(env, x) {
    }
    DeduplicatedMeaning(s);
    CanonMeaning(l + r);
    var d := Deduplicated(NodeSet(s, Unsorted)).nodes;
    forall y | y in Canon(l + r) ensures Covers(mode, d, y) {
      if y in l {
        CoversMore(mode, ls.nodes, d, y);
      } else {
        CoversMore(mode, rs.nodes, d, y);
      }
    }
  }

  // --------------------------------------------------------------------- aggregates

  lemma SameTexts(env: Env, s: seq<XNode>, t: seq<XNode>)
    requires forall x :: x in s <==> x in t
    ensures Texts(env, s) == Texts(env, t)
  {
  }

  lemma SumAssoc(x: Num, y: Num, z: Num)
    ensures NumAdd(NumAdd(x, y), z) == NumAdd(NumAdd(x, z), y)
  {
  }

  function Dropped(s: seq<XNode>, k: nat): (r: seq<XNode>)
    requires k < |s|
    ensures |r| == |s| - 1
    ensures multiset(r) == multiset(s) - multiset{s[k]}
  {
    assert s == s[..k] + [s[k]] + s[k + 1..];
    s[..k] + s[k + 1..]
  }

  lemma {:induction false} SumOfPrefix(env: Env, s: seq<XNode>, t: seq<XNode>, n: nat)
    requires n <= |s| && n <= |t| && s[..n] == t[..n]
    ensures SumTo(env, s, n) == SumTo(env, t, n)
  {
    if n > 0 {
      assert s[..n][..n - 1] == s[..n - 1] && t[..n][..n - 1] == t[..n - 1];
      assert s[..n][n - 1] == s[n - 1] && t[..n][n - 1] == t[n - 1];
      SumOfPrefix(env, s, t, n - 1);
    }
  }

  /** Taking one node out of a sum and adding it at the end changes nothing. */
  lemma {:induction false} SumDropped(env: Env, s: seq<XNode>, k: nat, n: nat)
    requires k < n <= |s|
    ensures SumTo(env, s, n) == NumAdd(SumTo(env, Dropped(s, k), n - 1), env.toNumber(env.stringValue(s[k])))
  {
    var d := Dropped(s, k);
    if n == k + 1 {
      assert d[..k] == s[..k];
      SumOfPrefix(env, d, s, k);
    } else {
      SumDropped(env, s, k, n - 1);
      assert d[n - 2] == s[n - 1];
      SumAssoc(SumTo(env, d, n - 2), env.toNumber(env.stringValue(s[k])), env.toNumber(env.stringValue(s[n - 1])));
    }
  }

  /** The sum does not depend on the order of the nodes. */
  lemma {:induction false} SumOfSame(env: Env, s: seq<XNode>, t: seq<XNode>)
    requires multiset(s) == multiset(t)
    ensures SumTo(env, s, |s|) == SumTo(env, t, |t|)
    decreases |s|
  {
    assert |multiset(s)| == |s| && |multiset(t)| == |t|;
    if s != [] {
      var n := |s| - 1;
      assert s[n] in multiset(t);
      var k :| 0 <= k < |t| && t[k] == s[n];
      SumDropped(env, t, k, |t|);
      SumDropped(env, s, n, |s|);
      SumOfSame(env, Dropped(s, n), Dropped(t, k));
    }
  }

  lemma SumAgrees(env: Env, ns: NodeSet, list: seq<XNode>)
    requires Agree(env, WantAll, ns, list)
    ensures SumTo(env, ns.nodes, |ns.nodes|) == SumTo(env, list, |list|)
  {
    AllAgrees(env, ns, list);
    SameMembers(ns, list);
    SumOfSame(env, ns.nodes, list);
  }

  lemma SameMembers(ns: NodeSet, list: seq<XNode>)
    requires OrderHolds(ns) && InDocOrder(list) && forall x :: x in ns.nodes <==> x in list
    ensures multiset(ns.nodes) == multiset(list)
  {
    if ns.order != Unsorted {
      OrderedIsDistinct(ns.nodes);
    }
    InOrderMeaning(ns.nodes);
    InDocOrderUnique(InOrder(ns.nodes), list);
  }
}
