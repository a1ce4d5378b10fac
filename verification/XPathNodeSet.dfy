/**
 `xpath_node_set_raw`: the growing array of nodes that location steps fill, with its
 order flag, sorting and duplicate removal.
 */
module XPathNodeSet {
  import opened Wrappers
  import opened XmlTree
  import opened XPathOrder
  import XPathSort

  datatype Order = Sorted | SortedReverse | Unsorted

  /** A node set as a value: its nodes in storage order, and what is known about that order. */
  datatype NodeSet = NodeSet(nodes: seq<XNode>, order: Order)

  // --------------------------------------------------------------- on sequences

  predicate InDocOrder(s: seq<XNode>) {
    forall i, j | 0 <= i < j < |s| :: DocBefore(s[i], s[j])
  }

  predicate InReverseOrder(s: seq<XNode>) {
    forall i, j | 0 <= i < j < |s| :: DocBefore(s[j], s[i])
  }

  predicate Distinct(s: seq<XNode>) {
    forall i, j | 0 <= i < j < |s| :: s[i] != s[j]
  }

  /** The first occurrences of the non-null nodes among the first n, in order. */
  function DedupTo(s: seq<XNode>, n: nat): (r: seq<XNode>)
    requires n <= |s|
    ensures |r| <= n
  {
    if n == 0 then []
    else
      var d, x := DedupTo(s, n - 1), s[n - 1];
      if x.Nothing? || x in d then d else d + [x]
  }

  /** The first occurrence of every non-null node, in order. */
  function Dedup(s: seq<XNode>): seq<XNode> {
    DedupTo(s, |s|)
  }

  /** Of the first n elements, those that differ from the one kept before them. */
  function SqueezeTo(s: seq<XNode>, n: nat): (r: seq<XNode>)
    requires 0 < n <= |s|
    ensures 0 < |r| <= n
  {
    if n == 1 then [s[0]]
    else
      var d, x := SqueezeTo(s, n - 1), s[n - 1];
      if d[|d| - 1] == x then d else d + [x]
  }

  /** `unique`: an element equal to the one kept before it is dropped. */
  function Squeeze(s: seq<XNode>): seq<XNode> {
    if s == [] then [] else SqueezeTo(s, |s|)
  }

  lemma {:induction false} DedupToMeaning(s: seq<XNode>, n: nat)
    requires n <= |s|
    ensures Distinct(DedupTo(s, n))
    ensures forall x :: x in DedupTo(s, n) <==> x in s[..n] && !x.Nothing?
  {
    if n > 0 {
      DedupToMeaning(s, n - 1);
      assert s[..n] == s[..n - 1] + [s[n - 1]];
    }
  }

  lemma DedupMeaning(s: seq<XNode>)
    ensures Distinct(Dedup(s))
    ensures forall x :: x in Dedup(s) <==> x in s && !x.Nothing?
  {
    DedupToMeaning(s, |s|);
    assert s[..|s|] == s;
  }

  lemma {:induction false} DedupOfPrefix(s: seq<XNode>, t: seq<XNode>, n: nat)
    requires n <= |s| && n <= |t| && forall i | 0 <= i < n :: s[i] == t[i]
    ensures DedupTo(s, n) == DedupTo(t, n)
  {
    if n > 0 {
      DedupOfPrefix(s, t, n - 1);
    }
  }

  /** A node met again, or null, adds nothing; a new one is kept behind those met before. */
  lemma DedupAppended(s: seq<XNode>, x: XNode)
    ensures Dedup([]) == []
    ensures Dedup(s + [x]) == if x in s || x.Nothing? then Dedup(s) else Dedup(s) + [x]
  {
    DedupMeaning(s);
    DedupOfPrefix(s + [x], s, |s|);
  }

  lemma {:induction false} SqueezeOfPrefix(s: seq<XNode>, t: seq<XNode>, n: nat)
    requires 0 < n <= |s| && n <= |t| && forall i | 0 <= i < n :: s[i] == t[i]
    ensures SqueezeTo(s, n) == SqueezeTo(t, n)
  {
    if n > 1 {
      SqueezeOfPrefix(s, t, n - 1);
    }
  }

  lemma {:induction false} SqueezeLast(s: seq<XNode>, n: nat)
    requires 0 < n <= |s|
    ensures SqueezeTo(s, n)[|SqueezeTo(s, n)| - 1] == s[n - 1]
  {
    if n > 1 {
      SqueezeLast(s, n - 1);
    }
  }

  /** An element equal to its left neighbour adds nothing; any other is kept. */
  lemma SqueezeAppended(s: seq<XNode>, x: XNode)
    ensures Squeeze([]) == []
    ensures Squeeze(s + [x]) == if s != [] && s[|s| - 1] == x then Squeeze(s) else Squeeze(s) + [x]
  {
    if s != [] {
      SqueezeOfPrefix(s + [x], s, |s|);
      SqueezeLast(s, |s|);
    }
  }

  // ------------------------------------------------------------------- ordering

  /** `xpath_get_order`: one direction throughout, judged on neighbours. */
  function GetOrder(s: seq<XNode>): Order {
    if |s| < 2 then Sorted
    else if exists i | 1 <= i < |s| - 1 :: Comparator(s[i], s[i + 1]) != Comparator(s[0], s[1]) then Unsorted
    else if Comparator(s[0], s[1]) then Sorted else SortedReverse
  }

  /** Inserts x into a sequence in document order. */
  function Inserted(s: seq<XNode>, x: XNode): seq<XNode> {
    if s == [] then [x]
    else if DocBefore(x, s[0]) then [x] + s
    else [s[0]] + Inserted(s[1..], x)
  }

  /** The nodes of s in document order. */
  function InOrder(s: seq<XNode>): seq<XNode> {
    if s == [] then [] else Inserted(InOrder(s[1..]), s[0])
  }

  /** `sort_do` on values: sorts when nothing is known, reverses a reversed set. */
  function SortDone(ns: NodeSet): NodeSet {
    var order := if ns.order == Unsorted then GetOrder(ns.nodes) else ns.order;
    var nodes := match order
      case Sorted => ns.nodes
      case SortedReverse => Reversed(ns.nodes)
      case Unsorted => InOrder(ns.nodes);
    NodeSet(nodes, Sorted)
  }

  /** `remove_duplicates` on values. */
  function Deduplicated(ns: NodeSet): NodeSet {
    if ns.order == Unsorted && |ns.nodes| > 2 then ns.(nodes := Dedup(ns.nodes))
    else ns.(nodes := Squeeze(ns.nodes))
  }

  /** `min_element` under document order. */
  function Least(s: seq<XNode>): (x: XNode)
    requires s != []
    ensures x in s
  {
    if |s| == 1 then s[0]
    else
      var m, x := Least(s[..|s| - 1]), s[|s| - 1];
      if DocBefore(x, m) then x else m
  }

  /** `xpath_first`: null for an empty set, else the first node in document order. */
  function First(ns: NodeSet): XNode {
    if ns.nodes == [] then Nothing
    else match ns.order
      case Sorted => ns.nodes[0]
      case SortedReverse => ns.nodes[|ns.nodes| - 1]
      case Unsorted => Least(ns.nodes)
  }

  // -------------------------------------------------------- facts about ordering

  /** Document order as a set's known order promises it. */
  predicate OrderHolds(ns: NodeSet) {
    match ns.order
    case Sorted => InDocOrder(ns.nodes)
    case SortedReverse => InReverseOrder(ns.nodes)
    case Unsorted => Distinct(ns.nodes)
  }

  lemma DocOrderIsStrictTotal()
    ensures XPathSort.StrictTotal(DocBefore)
    ensures XPathSort.Agrees(Comparator, DocBefore)
  {
    forall x: XNode, y: XNode ensures DocBefore(x, y) || DocBefore(y, x) || x == y {
      DocOrderTotal(x, y);
    }
    forall x: XNode ensures !DocBefore(x, x) {
      DocOrderTotal(x, x);
    }
    forall x: XNode, y: XNode, z: XNode | DocBefore(x, y) && DocBefore(y, z) ensures DocBefore(x, z) {
      DocOrderTransitive(x, y, z);
    }
  }

  lemma OrderedIsDistinct(s: seq<XNode>)
    requires InDocOrder(s) || InReverseOrder(s)
    ensures Distinct(s)
  {
    forall i, j | 0 <= i < j < |s| ensures s[i] != s[j] {
      DocOrderTotal(s[i], s[i]);
    }
  }

  /** Neighbours in order make the whole sequence ordered. */
  lemma {:induction false} NeighboursSuffice(s: seq<XNode>)
    requires forall i | 0 <= i < |s| - 1 :: DocBefore(s[i], s[i + 1])
    ensures InDocOrder(s)
  {
    if |s| > 1 {
      var init := s[..|s| - 1];
      NeighboursSuffice(init);
      forall i, j | 0 <= i < j < |s| ensures DocBefore(s[i], s[j]) {
        if j < |s| - 1 {
          assert init[i] == s[i] && init[j] == s[j];
        } else if i < |s| - 2 {
          assert init[i] == s[i] && init[|s| - 2] == s[|s| - 2];
          assert DocBefore(s[|s| - 2], s[|s| - 2 + 1]);
          DocOrderTransitive(s[i], s[|s| - 2], s[|s| - 1]);
        } else {
          assert DocBefore(s[|s| - 2], s[|s| - 2 + 1]);
        }
      }
    }
  }

  lemma ReversedOrder(s: seq<XNode>)
    ensures InReverseOrder(s) <==> InDocOrder(Reversed(s))
    ensures Distinct(s) ==> Distinct(Reversed(s))
    ensures forall x :: x in Reversed(s) <==> x in s
  {
    var r := Reversed(s);
    ReversedHas(s);
    if InDocOrder(r) {
      forall i, j | 0 <= i < j < |s| ensures DocBefore(s[j], s[i]) {
        assert r[|s| - 1 - j] == s[j] && r[|s| - 1 - i] == s[i];
      }
    }
  }

  /** What `xpath_get_order` reports about distinct nodes is the truth. */
  lemma GetOrderTruthful(s: seq<XNode>)
    requires Distinct(s)
    ensures GetOrder(s) == Sorted ==> InDocOrder(s)
    ensures GetOrder(s) == SortedReverse ==> InReverseOrder(s)
  {
    if |s| >= 2 && GetOrder(s) != Unsorted {
      assert forall i | 1 <= i < |s| - 1 :: Comparator(s[i], s[i + 1]) == Comparator(s[0], s[1]);
      if Comparator(s[0], s[1]) {
        forall i | 0 <= i < |s| - 1 ensures DocBefore(s[i], s[i + 1]) {
          assert i == 0 || Comparator(s[i], s[i + 1]) == Comparator(s[0], s[1]);
        }
        NeighboursSuffice(s);
      } else {
        var r := Reversed(s);
        forall i | 0 <= i < |r| - 1 ensures DocBefore(r[i], r[i + 1]) {
          var k := |s| - 2 - i;
          assert r[i] == s[k + 1] && r[i + 1] == s[k];
          assert k == 0 || Comparator(s[k], s[k + 1]) == Comparator(s[0], s[1]);
          DocOrderTotal(s[k], s[k + 1]);
        }
        NeighboursSuffice(r);
        ReversedOrder(s);
      }
    }
  }

  /** The order reported about distinct nodes is document order if they are so ordered, and reverse likewise. */
  lemma GetOrderExactly(s: seq<XNode>)
    requires Distinct(s)
    ensures GetOrder(s) == Sorted <==> InDocOrder(s)
    ensures GetOrder(s) == SortedReverse <==> |s| >= 2 && InReverseOrder(s)
  {
    GetOrderTruthful(s);
    if |s| >= 2 && (InDocOrder(s) || InReverseOrder(s)) {
      DocOrderTotal(s[0], s[1]);
      forall i | 0 <= i < |s| - 1 ensures Comparator(s[i], s[i + 1]) <==> InDocOrder(s) {
        DocOrderTotal(s[i], s[i + 1]);
        assert InDocOrder(s) ==> DocBefore(s[0], s[1]);
        assert InReverseOrder(s) ==> DocBefore(s[1], s[0]);
      }
    }
  }

  lemma {:induction false} InsertedAdds(s: seq<XNode>, x: XNode)
    ensures multiset(Inserted(s, x)) == multiset(s) + multiset{x}
  {
    if s != [] {
      assert s == [s[0]] + s[1..];
      InsertedAdds(s[1..], x);
    }
  }

  lemma PrependKeepsOrder(x: XNode, s: seq<XNode>)
    requires InDocOrder(s) && forall y | y in s :: DocBefore(x, y)
    ensures InDocOrder([x] + s)
  {
    assert forall j | 0 <= j < |s| :: s[j] in s;
  }

  lemma {:induction false} InsertedMeaning(s: seq<XNode>, x: XNode)
    requires InDocOrder(s) && x !in s
    ensures InDocOrder(Inserted(s, x))
    ensures forall y :: y in Inserted(s, x) <==> y in s || y == x
  {
    if s != [] {
      assert s == [s[0]] + s[1..];
      if DocBefore(x, s[0]) {
        forall j | 0 <= j < |s| ensures DocBefore(x, s[j]) {
          if j > 0 {
            DocOrderTransitive(x, s[0], s[j]);
          }
        }
      } else {
        InsertedMeaning(s[1..], x);
        DocOrderTotal(x, s[0]);
        var rest := Inserted(s[1..], x);
        forall y | y in rest ensures DocBefore(s[0], y) {
        }
        PrependKeepsOrder(s[0], rest);
      }
    }
  }

  /** Distinct nodes are put into document order, none lost and none added. */
  lemma {:induction false} InOrderMeaning(s: seq<XNode>)
    requires Distinct(s)
    ensures InDocOrder(InOrder(s))
    ensures multiset(InOrder(s)) == multiset(s)
    ensures forall y :: y in InOrder(s) <==> y in s
  {
    if s != [] {
      InOrderMeaning(s[1..]);
      assert s == [s[0]] + s[1..];
      forall y | y in s[1..] ensures y != s[0] {
        var k :| 0 <= k < |s[1..]| && s[1..][k] == y;
        assert s[k + 1] == y;
      }
      InsertedMeaning(InOrder(s[1..]), s[0]);
      InsertedAdds(InOrder(s[1..]), s[0]);
    }
  }

  /** There is only one way to put the same nodes in document order. */
  lemma {:induction false} InDocOrderUnique(s: seq<XNode>, t: seq<XNode>)
    requires InDocOrder(s) && InDocOrder(t)
    requires forall x :: x in s <==> x in t
    ensures s == t
  {
    assert forall k | 0 <= k < |s| :: s[k] in t;
    assert forall k | 0 <= k < |t| :: t[k] in s;
    if s != [] && t != [] {
      HeadIsLeast(s);
      HeadIsLeast(t);
      assert s[0] in t && t[0] in s;
      DocOrderTotal(s[0], t[0]);
      forall x ensures x in s[1..] <==> x in t[1..] {
      }
      InDocOrderUnique(s[1..], t[1..]);
    }
  }

  lemma HeadIsLeast(s: seq<XNode>)
    requires InDocOrder(s) && s != []
    ensures forall x :: x in s[1..] <==> x in s && x != s[0]
    ensures forall x | x in s :: x == s[0] || DocBefore(s[0], x)
  {
    DocOrderTotal(s[0], s[0]);
    assert forall k | 1 <= k < |s| :: DocBefore(s[0], s[k]);
  }

  /** `sort_do` on a set that keeps its promise yields the same nodes in document order. */
  lemma SortDoneMeaning(ns: NodeSet)
    requires OrderHolds(ns)
    ensures InDocOrder(SortDone(ns).nodes)
    ensures forall x :: x in SortDone(ns).nodes <==> x in ns.nodes
    ensures |SortDone(ns).nodes| == |ns.nodes|
  {
    ReversedOrder(ns.nodes);
    if ns.order == Unsorted {
      GetOrderTruthful(ns.nodes);
      InOrderMeaning(ns.nodes);
      assert |multiset(InOrder(ns.nodes))| == |InOrder(ns.nodes)|;
    }
  }

  lemma {:induction false} LeastMeaning(s: seq<XNode>)
    requires s != []
    ensures forall x | x in s :: x == Least(s) || DocBefore(Least(s), x)
  {
    if |s| > 1 {
      var init, x := s[..|s| - 1], s[|s| - 1];
      LeastMeaning(init);
      var m := Least(init);
      DocOrderTotal(x, m);
      assert s == init + [x];
      forall y | y in s ensures y == Least(s) || DocBefore(Least(s), y) {
        if DocBefore(x, m) && y in init && y != m {
          DocOrderTransitive(x, m, y);
        }
      }
    }
  }

  /** `first()` of a set that keeps its promise comes before all other nodes. */
  lemma FirstMeaning(ns: NodeSet)
    requires OrderHolds(ns) && ns.nodes != []
    ensures First(ns) in ns.nodes
    ensures forall x | x in ns.nodes :: x == First(ns) || DocBefore(First(ns), x)
  {
    LeastMeaning(ns.nodes);
  }
}
