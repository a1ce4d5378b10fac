/** `xpath_node_set_raw` as the object it is: an array that grows, is sorted and compacted in place. */
module XPathRawSet {
  import opened Wrappers
  import opened XmlTree
  import opened XPathOrder
  import opened XPathNodeSet
  import XPathSort
  import XPathHash
  import opened Arithmetic

  // ------------------------------------------------- loops over a range of nodes

  /** s with its first n elements swapped with the last n of the first hi. */
  ghost function Crossed(s: seq<XNode>, n: nat, hi: nat): seq<XNode>
    requires hi <= |s|
  {
    seq(|s|, k requires 0 <= k < |s| => if k < hi && (k < n || hi - n <= k) then s[hi - 1 - k] else s[k])
  }

  /** `reverse` on a[..hi]. */
  method Reverse(a: array<XNode>, hi: nat)
    requires hi <= a.Length
    modifies a
    ensures a[..hi] == Reversed(old(a[..hi])) && a[hi..] == old(a[hi..])
  {
    var begin, end := 0, hi;
    ghost var s := a[..];
    while end - begin > 1
      invariant 0 <= begin && begin + end == hi && begin <= end + 1 && end <= hi
      invariant a[..] == Crossed(s, begin, hi)
      decreases end - begin
    {
      end := end - 1;
      assert a[begin] == a[..][begin] && a[end] == a[..][end];
      a[begin], a[end] := a[end], a[begin];
      begin := begin + 1;
      assert a[..] == Crossed(s, begin, hi);
    }
    assert Crossed(s, begin, hi)[..hi] == Reversed(s[..hi]);
    assert Crossed(s, begin, hi)[hi..] == s[hi..];
  }

  /** The fast skip of `unique`: the head in which no element equals the one before it. */
  method SkipHead(a: array<XNode>, hi: nat) returns (begin: nat)
    requires 0 < hi <= a.Length
    ensures begin < hi && a[..begin + 1] == SqueezeTo(a[..hi], begin + 1)
  {
    begin := 0;
    ghost var s := a[..hi];
    while hi - begin > 1 && a[begin] != a[begin + 1]
      invariant begin < hi && SqueezeTo(s, begin + 1) == s[..begin + 1]
    {
      assert s[..begin + 2] == s[..begin + 1] + [s[begin + 1]];
      begin := begin + 1;
    }
    assert s[..begin + 1] == a[..begin + 1];
  }

  /** Squeezing s in place: up to `write` stands what is kept of the elements before `begin`, the rest is untouched. */
  ghost predicate Squeezing(cur: seq<XNode>, s: seq<XNode>, write: nat, begin: nat) {
    && write < begin <= |s| <= |cur| && cur[..write + 1] == SqueezeTo(s, begin)
    && forall k | begin <= k < |s| :: cur[k] == s[k]
  }

  lemma SqueezeStep(cur: seq<XNode>, s: seq<XNode>, write: nat, begin: nat)
    requires Squeezing(cur, s, write, begin) && begin < |s|
    ensures cur[begin] == s[begin]
    ensures if cur[begin] != cur[write] then Squeezing(cur[write + 1 := s[begin]], s, write + 1, begin + 1)
            else Squeezing(cur, s, write, begin + 1)
  {
    assert cur[write] == cur[..write + 1][write];
    assert cur[write + 1 := s[begin]][..write + 2] == cur[..write + 1] + [s[begin]];
  }

  /** `unique`: compacts a[..hi] and returns the new end. */
  method Unique(a: array<XNode>, hi: nat) returns (end: nat)
    requires hi <= a.Length
    modifies a
    ensures end <= hi && a[..end] == Squeeze(old(a[..hi]))
  {
    if hi == 0 {
      return 0;
    }
    ghost var s, cur := a[..hi], a[..];
    // where the last kept node stands
    var write: nat := SkipHead(a, hi);
    var begin: nat := write + 1;
    assert cur[..begin] == a[..begin];
    // a node that differs from the last kept one is kept as well
    while begin != hi
      invariant begin <= hi && a[..] == cur && Squeezing(cur, s, write, begin)
    {
      SqueezeStep(cur, s, write, begin);
      if a[begin] != a[write] {
        write := write + 1;
        a[write] := a[begin];
        cur := cur[write := s[begin]];
      }
      begin := begin + 1;
    }
    end := write + 1;
    assert a[..end] == cur[..end];
  }

  /** The table of `remove_duplicates` with no key in it. */
  lemma {:induction false} EmptyTable(t: seq<Option<XNode>>, hash: XPathHash.Hash<XNode>)
    requires forall b | 0 <= b < |t| :: t[b].None?
    ensures XPathHash.Taken(t) == 0 && XPathHash.Keys(t) == {} && XPathHash.Findable(t, hash)
  {
    if t != [] {
      EmptyTable(t[..|t| - 1], hash);
    }
  }

  /** The smallest power of two that leaves a third of the table free. */
  method TableSize(count: nat) returns (size: nat, ghost n: nat)
    ensures size == Pow2(n) && size >= count + count / 2
  {
    size, n := 1, 0;
    while size < count + count / 2
      invariant size == Pow2(n)
      decreases count + count / 2 - size
    {
      size := size * 2;
      n := n + 1;
    }
  }

  /** The table holds exactly the keys kept so far. */
  ghost predicate Holds(t: seq<Option<XNode>>, hash: XPathHash.Hash<XNode>, kept: seq<XNode>) {
    && XPathHash.Findable(t, hash) && XPathHash.Taken(t) == |kept|
    && forall x :: x in XPathHash.Keys(t) <==> x in kept
  }

  /** One element of the hashing branch: whether it is kept. */
  method Offer(table: array<Option<XNode>>, key: XNode, hash: XPathHash.Hash<XNode>, ghost n: nat, ghost kept: seq<XNode>)
    returns (fits: bool)
    requires table.Length == Pow2(n) && Holds(table[..], hash, kept) && |kept| < table.Length
    modifies table
    ensures fits <==> !key.Nothing? && key !in kept
    ensures Holds(table[..], hash, if fits then kept + [key] else kept)
  {
    fits := false;
    if !key.Nothing? {
      fits := XPathHash.HashInsert(table, key, hash, n);
    }
  }

  /** Compaction of s[..hi] in place: the first occurrences among s[..it] are in front, the rest is untouched. */
  ghost predicate Compacting(cur: seq<XNode>, s: seq<XNode>, write: nat, it: nat) {
    && write <= it <= |s| <= |cur| && cur[..write] == DedupTo(s, it)
    && forall k | it <= k < |s| :: cur[k] == s[k]
  }

  lemma CompactStep(cur: seq<XNode>, s: seq<XNode>, write: nat, it: nat)
    requires Compacting(cur, s, write, it) && it < |s|
    ensures cur[it] == s[it]
    ensures var fits := !s[it].Nothing? && s[it] !in cur[..write];
            if fits then Compacting(cur[write := s[it]], s, write + 1, it + 1) && cur[write := s[it]][..write + 1] == cur[..write] + [s[it]]
            else Compacting(cur, s, write, it + 1)
  {
    assert cur[write := s[it]][..write + 1] == cur[..write] + [s[it]];
  }

  /** The hashing branch of `remove_duplicates`: compacts a[..hi] to the first occurrences. */
  method HashDedup(a: array<XNode>, hi: nat, hash: XPathHash.Hash<XNode>) returns (end: nat)
    requires 1 < hi <= a.Length
    modifies a
    ensures end <= hi && a[..end] == Dedup(old(a[..hi]))
  {
    ghost var s, cur := a[..hi], a[..];
    var size, n := TableSize(hi);
    var table := new Option<XNode>[size](_ => None);
    EmptyTable(table[..], hash);
    var write, it := 0, 0;
    while it != hi
      invariant it <= hi && fresh(table) && table.Length == size
      invariant a[..] == cur && Compacting(cur, s, write, it)
      invariant Holds(table[..], hash, cur[..write])
    {
      CompactStep(cur, s, write, it);
      var key := a[it];
      var fits := Offer(table, key, hash, n, cur[..write]);
      if fits {
        a[write] := a[it];
        cur := cur[write := key];
        write := write + 1;
      }
      it := it + 1;
    }
    end := write;
  }

  // ------------------------------------------------------------------ the object

  class RawNodeSet {
    var data: array<XNode>
    var end: nat
    var order: Order

    ghost predicate Valid()
      reads this
    {
      end <= data.Length
    }

    ghost function Contents(): seq<XNode>
      reads this, data
      requires Valid()
    {
      data[..end]
    }

    ghost function Value(): NodeSet
      reads this, data
      requires Valid()
    {
      NodeSet(data[..end], order)
    }

    constructor ()
      ensures Valid() && fresh(data) && Value() == NodeSet([], Unsorted)
    {
      data := new XNode[0];
      end := 0;
      order := Unsorted;
    }

    /** `push_back_grow`: the capacity grows by half and one. */
    method Grow()
      requires Valid() && end == data.Length
      modifies this`data
      ensures Valid() && fresh(data) && data.Length == old(data.Length) + old(data.Length) / 2 + 1
      ensures Value() == old(Value())
    {
      var capacity := data.Length;
      var bigger := new XNode[capacity + capacity / 2 + 1](_ => Nothing);
      var i := 0;
      while i < end
        invariant 0 <= i <= end && data == old(data) && fresh(bigger) && bigger.Length == capacity + capacity / 2 + 1
        invariant bigger[..i] == data[..i]
      {
        bigger[i] := data[i];
        i := i + 1;
      }
      data := bigger;
    }

    method PushBack(x: XNode)
      requires Valid()
      modifies this`data, this`end, data
      ensures Valid() && (data == old(data) || fresh(data))
      ensures Value() == old(Value()).(nodes := old(Contents()) + [x])
    {
      if end == data.Length {
        Grow();
      }
      data[end] := x;
      end := end + 1;
    }

    method Append(xs: seq<XNode>)
      requires Valid()
      modifies this`data, this`end, data
      ensures Valid() && (data == old(data) || fresh(data))
      ensures Value() == old(Value()).(nodes := old(Contents()) + xs)
    {
      var i := 0;
      while i < |xs|
        invariant 0 <= i <= |xs| && Valid() && (data == old(data) || fresh(data))
        invariant Value() == old(Value()).(nodes := old(Contents()) + xs[..i])
      {
        PushBack(xs[i]);
        assert xs[..i + 1] == xs[..i] + [xs[i]];
        i := i + 1;
      }
      assert xs[..|xs|] == xs;
    }

    method Truncate(pos: nat)
      requires Valid() && pos <= end
      modifies this`end
      ensures Valid() && Value() == old(Value()).(nodes := old(Contents())[..pos])
    {
      end := pos;
    }

    /** `xpath_get_order` */
    method ComputeOrder() returns (o: Order)
      requires Valid()
      ensures o == GetOrder(Contents())
    {
      if end < 2 {
        return Sorted;
      }
      ghost var s := Contents();
      var first := Comparator(data[0], data[1]);
      var it := 1;
      while it + 1 < end
        invariant 1 <= it <= end
        invariant forall i | 1 <= i < it && i < |s| - 1 :: Comparator(s[i], s[i + 1]) == first
      {
        if Comparator(data[it], data[it + 1]) != first {
          assert Comparator(s[it], s[it + 1]) != Comparator(s[0], s[1]);
          return Unsorted;
        }
        it := it + 1;
      }
      return if first then Sorted else SortedReverse;
    }

    /** `sort_do`, that is `xpath_sort` towards document order, on nodes without repetitions. */
    method SortDo()
      requires Valid() && Distinct(Contents())
      modifies this`order, data
      ensures Valid() && Value() == SortDone(old(Value()))
    {
      ghost var s := Contents();
      var o := order;
      if o == Unsorted {
        o := ComputeOrder();
        if o == Unsorted {
          SortRange(data, end);
          o := Sorted;
        }
      }
      if o != Sorted {
        Reverse(data, end);
      }
      order := Sorted;
    }

    /** `remove_duplicates` */
    method RemoveDuplicates(hash: XPathHash.Hash<XNode>)
      requires Valid()
      modifies this`end, data
      ensures Valid() && Value() == Deduplicated(old(Value()))
    {
      if order == Unsorted && end > 2 {
        end := HashDedup(data, end, hash);
      } else {
        end := Unique(data, end);
      }
    }
  }

  lemma UniqueMultiset(s: seq<XNode>)
    requires Distinct(s)
    ensures XPathSort.Unique(multiset(s))
    decreases |s|
  {
    if s != [] {
      var init, x := s[..|s| - 1], s[|s| - 1];
      UniqueMultiset(init);
      assert s == init + [x];
      assert x !in init;
    }
  }

  /** Sorting a[..hi] with the engine's sort and comparator puts distinct nodes into document order. */
  method SortRange(a: array<XNode>, hi: nat)
    requires hi <= a.Length && Distinct(a[..hi])
    modifies a
    ensures a[..hi] == InOrder(old(a[..hi]))
  {
    ghost var s, t := a[..], a[..hi];
    assert s[0..hi] == t;
    DocOrderIsStrictTotal();
    UniqueMultiset(t);
    ghost var depth := XPathSort.Sort(a, 0, hi, Comparator, DocBefore);
    ghost var u := a[..hi];
    assert a[..][0..hi] == u;
    XPathSort.RangePermuted(s, a[..], 0, hi);
    SortedDistinct(t, u);
    InOrderMeaning(t);
    InDocOrderUnique(u, InOrder(t));
  }

  lemma SortedDistinct(t: seq<XNode>, u: seq<XNode>)
    requires Distinct(t) && multiset(t) == multiset(u) && XPathSort.Sorted(DocBefore, u)
    ensures InDocOrder(u) && forall x :: x in u <==> x in t
  {
    UniqueMultiset(t);
    forall i, j | 0 <= i < j < |u| ensures DocBefore(u[i], u[j]) {
      XPathSort.UniqueAt(u, i, j);
      assert XPathSort.AtMost(DocBefore, u[i], u[j]);
    }
    forall x ensures x in u <==> x in t {
      assert x in multiset(u) <==> x in multiset(t);
    }
  }
}
