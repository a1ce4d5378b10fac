/**
 The sort the XPath engine uses for node sets: a three-way quicksort that loops on
 the larger part and recurses on the smaller, with insertion sort for short ranges.

 `pred` is the comparator the caller passes; `less` is the order it stands for. The
 document order comparator differs from its order on an attribute compared with
 itself, so the two are only required to agree on different elements.
 */
module XPathSort {
  import opened Arithmetic

  ghost predicate StrictTotal<T(!new)>(less: (T, T) -> bool) {
    && (forall x :: !less(x, x))
    && (forall x, y :: less(x, y) || less(y, x) || x == y)
    && (forall x, y, z :: less(x, y) && less(y, z) ==> less(x, z))
  }

  ghost predicate Agrees<T(!new)>(pred: (T, T) -> bool, less: (T, T) -> bool) {
    forall x, y | x != y :: pred(x, y) <==> less(x, y)
  }

  ghost predicate Irreflexive<T(!new)>(pred: (T, T) -> bool) {
    forall x :: !pred(x, x)
  }

  predicate AtMost<T(==)>(less: (T, T) -> bool, x: T, y: T) {
    x == y || less(x, y)
  }

  ghost predicate Sorted<T>(less: (T, T) -> bool, s: seq<T>) {
    forall i, j | 0 <= i < j < |s| :: AtMost(less, s[i], s[j])
  }

  /** Nothing in s exceeds anything in t. */
  ghost predicate Below<T>(less: (T, T) -> bool, s: seq<T>, t: seq<T>) {
    forall x, y | x in s && y in t :: AtMost(less, x, y)
  }

  /** No element occurs twice. */
  ghost predicate Unique<T>(m: multiset<T>) {
    forall x | x in m :: m[x] == 1
  }

  /** What the caller of the sort vouches for. */
  ghost predicate Sortable<T(!new)>(pred: (T, T) -> bool, less: (T, T) -> bool, s: seq<T>) {
    StrictTotal(less) && Agrees(pred, less) && (Irreflexive(pred) || Unique(multiset(s)))
  }

  lemma SortedConcat<T>(less: (T, T) -> bool, s: seq<T>, t: seq<T>)
    requires Sorted(less, s) && Sorted(less, t) && Below(less, s, t)
    ensures Sorted(less, s + t)
  {
    forall i, j | 0 <= i < j < |s + t| ensures AtMost(less, (s + t)[i], (s + t)[j]) {
      if i < |s| <= j {
        assert s[i] in s && t[j - |s|] in t;
      }
    }
  }

  lemma BelowPermuted<T>(less: (T, T) -> bool, s: seq<T>, s': seq<T>, t: seq<T>, t': seq<T>)
    requires Below(less, s, t) && multiset(s) == multiset(s') && multiset(t) == multiset(t')
    ensures Below(less, s', t')
  {
    forall x, y | x in s' && y in t' ensures AtMost(less, x, y) {
      assert x in multiset(s') && y in multiset(t');
      assert x in s && y in t;
    }
  }

  /** Two different positions of a sequence without repetitions hold different elements. */
  lemma UniqueAt<T>(s: seq<T>, i: nat, j: nat)
    requires Unique(multiset(s)) && i < j < |s|
    ensures s[i] != s[j]
  {
    var a, b := s[..j], s[j..];
    assert s == a + b;
    assert s[i] in a && a[i] == s[i] && b[0] == s[j];
    assert multiset(s) == multiset(a) + multiset(b);
    assert multiset(s)[s[i]] == multiset(a)[s[i]] + multiset(b)[s[i]];
    assert s[i] in multiset(a) && s[j] in multiset(b);
  }

  lemma UniquePart<T>(s: seq<T>, i: nat, j: nat)
    requires Unique(multiset(s)) && i <= j <= |s|
    ensures Unique(multiset(s[i..j]))
  {
    assert s == s[..i] + s[i..j] + s[j..];
    forall x | x in multiset(s[i..j]) ensures multiset(s[i..j])[x] == 1 {
      assert multiset(s)[x] == multiset(s[..i])[x] + multiset(s[i..j])[x] + multiset(s[j..])[x];
      assert x in multiset(s);
    }
  }

  // ------------------------------------------------------------ array mechanics

  /** Swaps two elements of the range [lo, hi). */
  method Swap<T>(a: array<T>, i: nat, j: nat, ghost lo: nat, ghost hi: nat)
    requires lo <= i < hi <= a.Length && lo <= j < hi
    modifies a
    ensures a[i] == old(a[j]) && a[j] == old(a[i])
    ensures forall k | 0 <= k < a.Length && k != i && k != j :: a[k] == old(a[k])
    ensures Permutes(old(a[..]), a[..], lo, hi)
  {
    a[i], a[j] := a[j], a[i];
  }

  /** A permutation of [i, j) that keeps everything around it. */
  ghost predicate Permutes<T>(s: seq<T>, t: seq<T>, i: nat, j: nat) {
    && i <= j <= |s| == |t|
    && s[..i] == t[..i] && s[j..] == t[j..] && multiset(s) == multiset(t)
  }

  /** A change inside [lo, hi) that permutes the whole array permutes the range. */
  lemma RangePermuted<T>(s: seq<T>, t: seq<T>, lo: nat, hi: nat)
    requires |s| == |t| && lo <= hi <= |s|
    requires s[..lo] == t[..lo] && s[hi..] == t[hi..] && multiset(s) == multiset(t)
    ensures multiset(s[lo..hi]) == multiset(t[lo..hi])
  {
    assert s == s[..lo] + s[lo..hi] + s[hi..];
    assert t == t[..lo] + t[lo..hi] + t[hi..];
    var x, y, z := multiset(s[..lo]), multiset(s[lo..hi]), multiset(s[hi..]);
    assert multiset(s) == x + y + z;
    assert multiset(t) == x + multiset(t[lo..hi]) + z;
    assert y == multiset(s) - x - z;
    assert multiset(t[lo..hi]) == multiset(t) - x - z;
  }

  // -------------------------------------------------------------- insertion sort

  /** s with its element number `it` moved to the front of the elements from `hole` on. */
  function Moved<T>(s: seq<T>, hole: nat, it: nat): seq<T>
    requires hole <= it < |s|
  {
    s[..hole] + [s[it]] + s[hole..it] + s[it + 1..]
  }

  /** s while the hole is on its way: the element at the hole still stands there twice. */
  function Shifted<T>(s: seq<T>, hole: nat, it: nat): seq<T>
    requires hole <= it < |s|
  {
    s[..hole + 1] + s[hole..it] + s[it + 1..]
  }

  lemma ShiftStep<T>(s: seq<T>, hole: nat, it: nat)
    requires hole <= it < |s|
    ensures |Shifted(s, hole, it)| == |s|
    ensures Shifted(s, it, it) == s
    ensures Shifted(s, hole, it)[hole := s[it]] == Moved(s, hole, it)
    ensures hole > 0 ==> Shifted(s, hole, it)[hole - 1] == s[hole - 1]
    ensures hole > 0 ==> Shifted(s, hole, it)[hole := s[hole - 1]] == Shifted(s, hole - 1, it)
  {
  }

  lemma MovedPermutes<T>(s: seq<T>, hole: nat, it: nat)
    requires hole <= it < |s|
    ensures multiset(Moved(s, hole, it)) == multiset(s)
    ensures Moved(s, hole, it)[..hole] == s[..hole] && Moved(s, hole, it)[it + 1..] == s[it + 1..]
  {
    assert s == s[..hole] + s[hole..it] + [s[it]] + s[it + 1..];
  }

  lemma MovedSorted<T(!new)>(s: seq<T>, lo: nat, hole: nat, it: nat, less: (T, T) -> bool)
    requires lo <= hole <= it < |s| && StrictTotal(less)
    requires Sorted(less, s[lo..it])
    requires forall k | hole <= k < it :: AtMost(less, s[it], s[k])
    requires hole > lo ==> AtMost(less, s[hole - 1], s[it])
    ensures Sorted(less, Moved(s, hole, it)[lo..it + 1])
  {
    var left, right := s[lo..hole], s[hole..it];
    assert Moved(s, hole, it)[lo..it + 1] == left + [s[it]] + right;
    forall x | x in left ensures AtMost(less, x, s[it]) {
      var k :| 0 <= k < |left| && left[k] == x;
      assert s[lo..it][k] == x && s[lo..it][hole - 1 - lo] == s[hole - 1];
      assert AtMost(less, x, s[hole - 1]);
    }
    forall i, j | 0 <= i < j < |left| ensures AtMost(less, left[i], left[j]) {
      assert left[i] == s[lo..it][i] && left[j] == s[lo..it][j];
    }
    forall i, j | 0 <= i < j < |right| ensures AtMost(less, right[i], right[j]) {
      assert right[i] == s[lo..it][hole - lo + i] && right[j] == s[lo..it][hole - lo + j];
    }
    forall x, y | x in left + [s[it]] && y in right ensures AtMost(less, x, y) {
      var k :| 0 <= k < |right| && right[k] == y;
      assert AtMost(less, s[it], s[hole + k]);
    }
    SortedConcat(less, left, [s[it]]);
    SortedConcat(less, left + [s[it]], right);
  }

  /** One round of `insertion_sort`: a[it] is moved in front of the elements it is before. */
  method Insert<T(==)>(a: array<T>, lo: nat, it: nat, pred: (T, T) -> bool) returns (ghost hole: nat)
    requires lo < it < a.Length
    modifies a
    ensures lo <= hole <= it && a[..] == Moved(old(a[..]), hole, it)
    ensures forall k | hole <= k < it :: pred(old(a[it]), old(a[k]))
    ensures hole > lo ==> !pred(old(a[it]), old(a[hole - 1]))
  {
    var val := a[it];
    var h := it;
    ghost var s := a[..];
    ShiftStep(s, it, it);
    // everything behind the hole is larger than the element
    while h > lo && pred(val, a[h - 1])
      invariant lo <= h <= it
      invariant a[..] == Shifted(s, h, it)
      invariant forall k | h <= k < it :: pred(val, s[k])
    {
      ShiftStep(s, h, it);
      assert a[h - 1] == a[..][h - 1];
      a[h] := a[h - 1];
      h := h - 1;
    }
    ShiftStep(s, h, it);
    assert h > lo ==> a[h - 1] == a[..][h - 1];
    // the hole is where the element belongs
    a[h] := val;
    hole := h;
  }

  lemma InsertSorts<T(!new)>(s0: seq<T>, s: seq<T>, lo: nat, hole: nat, it: nat, pred: (T, T) -> bool, less: (T, T) -> bool)
    requires lo <= hole <= it < |s| && StrictTotal(less) && Agrees(pred, less)
    requires SortedRange(less, s0, s, lo, it)
    requires forall k | hole <= k < it :: pred(s[it], s[k])
    requires hole > lo ==> !pred(s[it], s[hole - 1])
    ensures SortedRange(less, s0, Moved(s, hole, it), lo, it + 1)
  {
    MovedSorted(s, lo, hole, it, less);
    MovedPermutes(s, hole, it);
    Slices(Moved(s, hole, it), lo, hole, it + 1);
    Slices(s, lo, hole, it + 1);
    assert s[it..][1..] == s[it + 1..] && s0[it..][1..] == s0[it + 1..];
  }

  lemma Slices<T>(s: seq<T>, lo: nat, mid: nat, hi: nat)
    requires lo <= mid <= hi <= |s|
    ensures s[..mid][..lo] == s[..lo] && s[mid..][hi - mid..] == s[hi..]
  {
  }

  /** s with the range [lo, hi) sorted is t. */
  ghost predicate SortedRange<T>(less: (T, T) -> bool, s: seq<T>, t: seq<T>, lo: nat, hi: nat) {
    Permutes(s, t, lo, hi) && Sorted(less, t[lo..hi])
  }

  lemma SingletonSorted<T>(less: (T, T) -> bool, s: seq<T>, lo: nat)
    requires lo <= |s|
    ensures SortedRange(less, s, s, lo, lo)
    ensures lo < |s| ==> SortedRange(less, s, s, lo, lo + 1)
  {
  }

  /** `insertion_sort` on a[lo..hi]. */
  method InsertionSort<T(!new, ==)>(a: array<T>, lo: nat, hi: nat, pred: (T, T) -> bool, ghost less: (T, T) -> bool)
    requires lo <= hi <= a.Length && StrictTotal(less) && Agrees(pred, less)
    modifies a
    ensures SortedRange(less, old(a[..]), a[..], lo, hi)
  {
    if lo == hi {
      SingletonSorted(less, a[..], lo);
      return;
    }
    var it := lo + 1;
    ghost var s0, s := a[..], a[..];
    SingletonSorted(less, s, lo);
    while it != hi
      invariant lo < it <= hi && s == a[..]
      invariant SortedRange(less, s0, s, lo, it)
    {
      ghost var hole := Insert(a, lo, it, pred);
      InsertSorts(s0, s, lo, hole, it, pred, less);
      s := Moved(s, hole, it);
      it := it + 1;
    }
  }

  // ------------------------------------------------------------------- partition

  /** An element `partition3` puts into the middle group. */
  predicate Middle<T(==)>(pred: (T, T) -> bool, pivot: T, x: T) {
    x == pivot && !pred(x, pivot)
  }

  /** An element `partition3` puts into the last group. */
  predicate Greater<T(==)>(pred: (T, T) -> bool, pivot: T, x: T) {
    x != pivot && !pred(x, pivot)
  }

  /** Whether position p of m holds a middle element after i mirror swaps, when n1 stood in front. */
  predicate Mirrored(i: nat, m: nat, n1: nat, p: nat)
    requires i <= n1 <= m
  {
    if p < i || p + i >= m then p >= m - n1 else p < n1
  }

  /** The first loop of `partition3`: the groups "= < >" in this order. */
  method Split<T(==)>(a: array<T>, lo: nat, hi: nat, pivot: T, pred: (T, T) -> bool) returns (eq: nat, gt: nat)
    requires lo <= hi <= a.Length
    modifies a
    ensures lo <= eq <= gt <= hi
    ensures Permutes(old(a[..]), a[..], lo, hi)
    ensures forall k | lo <= k < eq :: Middle(pred, pivot, a[k])
    ensures forall k | eq <= k < gt :: pred(a[k], pivot)
    ensures forall k | gt <= k < hi :: Greater(pred, pivot, a[k])
  {
    var lt := lo;
    eq, gt := lo, hi;
    while lt < gt
      invariant lo <= eq <= lt <= gt <= hi
      invariant Permutes(old(a[..]), a[..], lo, hi)
      invariant forall k | lo <= k < eq :: Middle(pred, pivot, a[k])
      invariant forall k | eq <= k < lt :: pred(a[k], pivot)
      invariant forall k | gt <= k < hi :: Greater(pred, pivot, a[k])
      decreases gt - lt
    {
      if pred(a[lt], pivot) {
        lt := lt + 1;
      } else if a[lt] == pivot {
        Swap(a, eq, lt, lo, hi);
        eq, lt := eq + 1, lt + 1;
      } else {
        gt := gt - 1;
        Swap(a, lt, gt, lo, hi);
      }
    }
  }

  /**
   The second loop of `partition3`: the n1 = eq - lo middle elements are swapped from
   the front to the end, also when they outnumber the others and the swaps cross.
   */
  method MirrorSwap<T(==)>(a: array<T>, lo: nat, eq: nat, gt: nat, pivot: T, pred: (T, T) -> bool) returns (eqbeg: nat)
    requires lo <= eq <= gt <= a.Length
    requires forall k | lo <= k < eq :: Middle(pred, pivot, a[k])
    requires forall k | eq <= k < gt :: pred(a[k], pivot)
    modifies a
    ensures eqbeg == gt - (eq - lo)
    ensures Permutes(old(a[..]), a[..], lo, gt)
    ensures forall k | lo <= k < eqbeg :: pred(a[k], pivot)
    ensures forall k | eqbeg <= k < gt :: Middle(pred, pivot, a[k])
  {
    eqbeg := gt;
    var it := lo;
    while it != eq
      invariant lo <= it <= eq && eqbeg == gt - (it - lo)
      invariant Permutes(old(a[..]), a[..], lo, gt)
      invariant forall k | lo <= k < gt ::
                  if Mirrored(it - lo, gt - lo, eq - lo, k - lo) then Middle(pred, pivot, a[k]) else pred(a[k], pivot)
      decreases eq - it
    {
      eqbeg := eqbeg - 1;
      Swap(a, it, eqbeg, lo, gt);
      it := it + 1;
    }
  }

  /** `partition3`: less, equal and greater elements end up in three blocks. */
  method Partition3<T(==)>(a: array<T>, lo: nat, hi: nat, pivot: T, pred: (T, T) -> bool)
    returns (eqbeg: nat, eqend: nat)
    requires lo <= hi <= a.Length
    modifies a
    ensures lo <= eqbeg <= eqend <= hi
    ensures Permutes(old(a[..]), a[..], lo, hi)
    ensures forall k | lo <= k < eqbeg :: pred(a[k], pivot)
    ensures forall k | eqbeg <= k < eqend :: Middle(pred, pivot, a[k])
    ensures forall k | eqend <= k < hi :: Greater(pred, pivot, a[k])
  {
    var eq;
    eq, eqend := Split(a, lo, hi, pivot, pred);
    ghost var s := a[..];
    eqbeg := MirrorSwap(a, lo, eq, eqend, pivot, pred);
    Slices(s, 0, eqend, hi);
    Slices(a[..], 0, eqend, hi);
    assert forall k | eqend <= k < hi :: a[k] == s[eqend..][k - eqend];
  }

  /** `median3`: of three positions, the one whose element lies between the other two. */
  method Median3<T(!new, ==)>(a: array<T>, first: nat, middle: nat, last: nat, pred: (T, T) -> bool, ghost less: (T, T) -> bool)
    returns (m: nat, ghost low: nat, ghost high: nat)
    requires first < middle < last < a.Length && StrictTotal(less) && Agrees(pred, less)
    ensures low != m && m != high && {low, m, high} == {first, middle, last}
    ensures AtMost(less, a[low], a[m]) && AtMost(less, a[m], a[high])
  {
    var f, l := first, last;
    m := middle;
    if pred(a[m], a[f]) {
      m, f := f, m;
    }
    if pred(a[l], a[m]) {
      l, m := m, l;
    }
    if pred(a[m], a[f]) {
      m, f := f, m;
    }
    low, high := f, l;
  }

  // ------------------------------------------------------------------------ sort

  /** What one partition leaves: three parts in order, the two outer ones shorter than the whole. */
  lemma PartitionSplits<T(!new)>(s: seq<T>, x: seq<T>, y: seq<T>, z: seq<T>, pivot: T, low: T, high: T,
                                 pred: (T, T) -> bool, less: (T, T) -> bool)
    requires Sortable(pred, less, s) && Parts(s, x, y, z)
    requires forall e | e in x :: pred(e, pivot)
    requires forall e | e in y :: Middle(pred, pivot, e)
    requires forall e | e in z :: Greater(pred, pivot, e)
    requires Surrounded(less, s, pivot, low, high)
    ensures Sorted(less, y) && Below(less, x, y) && Below(less, x + y, z)
    ensures y + z != [] && x + y != []
  {
    PartsIn(s, x, y, z);
    assert forall e | e in x :: AtMost(less, e, pivot);
    assert forall e | e in z :: less(pivot, e);
    assert forall k | 0 <= k < |y| :: y[k] in y;
  }

  /** The pivot lies between two elements, which differ from it when no element occurs twice. */
  ghost predicate Surrounded<T>(less: (T, T) -> bool, s: seq<T>, pivot: T, low: T, high: T) {
    && low in s && pivot in s && high in s
    && AtMost(less, low, pivot) && AtMost(less, pivot, high)
    && (Unique(multiset(s)) ==> low != pivot && pivot != high)
  }

  /** A range whose middle part is still to be sorted: the outer parts are in place. */
  ghost predicate Ready<T>(less: (T, T) -> bool, l: seq<T>, m: seq<T>, r: seq<T>) {
    && Sorted(less, l) && Sorted(less, r)
    && Below(less, l, m) && Below(less, l, r) && Below(less, m, r)
  }

  /** The elements of x, y and z are those of m. */
  ghost predicate Parts<T>(m: seq<T>, x: seq<T>, y: seq<T>, z: seq<T>) {
    multiset(m) == multiset(x + y + z)
  }

  lemma PartsIn<T>(m: seq<T>, x: seq<T>, y: seq<T>, z: seq<T>)
    requires Parts(m, x, y, z)
    ensures forall e :: e in m <==> e in x || e in y || e in z
  {
    forall e ensures e in m <==> e in x || e in y || e in z {
      assert e in m <==> e in multiset(m);
      assert e in x + y + z <==> e in multiset(x + y + z);
    }
  }

  lemma NarrowToLeft<T>(less: (T, T) -> bool, l: seq<T>, m: seq<T>, r: seq<T>, x: seq<T>, y: seq<T>, z: seq<T>)
    requires Ready(less, l, m, r) && Parts(m, x, y, z)
    requires Sorted(less, y) && Sorted(less, z) && Below(less, x, y) && Below(less, x + y, z)
    ensures Ready(less, l, x, y + z + r)
  {
    PartsIn(m, x, y, z);
    SortedConcat(less, y, z);
    SortedConcat(less, y + z, r);
  }

  lemma NarrowToRight<T>(less: (T, T) -> bool, l: seq<T>, m: seq<T>, r: seq<T>, x: seq<T>, y: seq<T>, z: seq<T>)
    requires Ready(less, l, m, r) && Parts(m, x, y, z)
    requires Sorted(less, x) && Sorted(less, y) && Below(less, x, y) && Below(less, x + y, z)
    ensures Ready(less, l + x + y, z, r)
  {
    PartsIn(m, x, y, z);
    SortedConcat(less, l, x);
    SortedConcat(less, l + x, y);
  }

  lemma ReadySorted<T>(less: (T, T) -> bool, l: seq<T>, m: seq<T>, r: seq<T>, m': seq<T>)
    requires Ready(less, l, m, r) && Sorted(less, m') && multiset(m) == multiset(m')
    ensures Sorted(less, l + m' + r)
  {
    BelowPermuted(less, l, l, m, m');
    BelowPermuted(less, m, m', r, r);
    SortedConcat(less, l, m');
    SortedConcat(less, l + m', r);
  }

  /** How a[..] is cut at four positions. */
  lemma Cuts<T>(s: seq<T>, lo: nat, i: nat, j: nat, hi: nat)
    requires lo <= i <= j <= hi <= |s|
    ensures s[lo..hi] == s[lo..i] + s[i..j] + s[j..hi]
  {
  }

  /** The positions outside [i, j) hold what they held. */
  lemma OutsideKept<T>(s: seq<T>, t: seq<T>, i: nat, j: nat, lo: nat, hi: nat)
    requires |s| == |t| && lo <= i <= j <= hi <= |s|
    requires s[..i] == t[..i] && s[j..] == t[j..]
    ensures s[..lo] == t[..lo] && s[hi..] == t[hi..]
    ensures s[lo..i] == t[lo..i] && s[j..hi] == t[j..hi]
  {
    Slices(s, lo, i, j);
    assert s[..i][..lo] == s[..lo] && t[..i][..lo] == t[..lo];
    assert s[..i][lo..] == s[lo..i] && t[..i][lo..] == t[lo..i];
    assert s[j..][hi - j..] == s[hi..] && t[j..][hi - j..] == t[hi..];
    assert s[j..][..hi - j] == s[j..hi] && t[j..][..hi - j] == t[j..hi];
  }

  /** The pivot of one round: the median of the first, the middle and the last element. */
  method ChoosePivot<T(!new, ==)>(a: array<T>, begin: nat, end: nat, pred: (T, T) -> bool, ghost less: (T, T) -> bool)
    returns (pivot: T, ghost low: T, ghost high: T)
    requires begin <= end <= a.Length && end - begin > 16 && StrictTotal(less) && Agrees(pred, less)
    ensures Surrounded(less, a[..][begin..end], pivot, low, high)
  {
    var middle := begin + (end - begin) / 2;
    var median, l, h := Median3(a, begin, middle, end - 1, pred, less);
    pivot, low, high := a[median], a[l], a[h];
    ghost var s := a[..][begin..end];
    assert l in {l, median, h} && h in {l, median, h} && median in {l, median, h};
    assert s[l - begin] == low && s[h - begin] == high && s[median - begin] == pivot;
    if Unique(multiset(s)) {
      DistinctAt(s, l - begin, median - begin);
      DistinctAt(s, h - begin, median - begin);
    }
  }

  /** [begin, end) of s permuted into three ordered blocks, the middle one of equal elements. */
  ghost predicate Blocks<T>(less: (T, T) -> bool, s: seq<T>, t: seq<T>, begin: nat, i: nat, j: nat, end: nat) {
    && begin <= i <= j <= end && Permutes(s, t, begin, end)
    && Sorted(less, t[i..j]) && Below(less, t[begin..i], t[i..j]) && Below(less, t[begin..i] + t[i..j], t[j..end])
  }

  lemma BlocksInPlace<T(!new)>(s: seq<T>, t: seq<T>, begin: nat, i: nat, j: nat, end: nat,
                               pivot: T, low: T, high: T, pred: (T, T) -> bool, less: (T, T) -> bool)
    requires begin <= i <= j <= end && Permutes(s, t, begin, end)
    requires Sortable(pred, less, s[begin..end]) && Surrounded(less, s[begin..end], pivot, low, high)
    requires forall k | begin <= k < i :: pred(t[k], pivot)
    requires forall k | i <= k < j :: Middle(pred, pivot, t[k])
    requires forall k | j <= k < end :: Greater(pred, pivot, t[k])
    ensures Blocks(less, s, t, begin, i, j, end) && i < end && j > begin
  {
    var x, y, z := t[begin..i], t[i..j], t[j..end];
    RangePermuted(s, t, begin, end);
    Cuts(t, begin, i, j, end);
    PartitionSplits(s[begin..end], x, y, z, pivot, low, high, pred, less);
    assert |y + z| == end - i && |x + y| == j - begin;
  }

  /** One round: picks a pivot and partitions a[begin..end]; both outer blocks are shorter than the range. */
  method Partition<T(!new, ==)>(a: array<T>, begin: nat, end: nat, pred: (T, T) -> bool, ghost less: (T, T) -> bool)
    returns (eqbeg: nat, eqend: nat)
    requires begin <= end <= a.Length && end - begin > 16 && Sortable(pred, less, a[..][begin..end])
    modifies a
    ensures Blocks(less, old(a[..]), a[..], begin, eqbeg, eqend, end)
    ensures eqbeg < end && eqend > begin
  {
    ghost var whole := a[..];
    var pivot, low, high := ChoosePivot(a, begin, end, pred, less);
    eqbeg, eqend := Partition3(a, begin, end, pivot, pred);
    BlocksInPlace(whole, a[..], begin, eqbeg, eqend, end, pivot, low, high, pred, less);
  }

  lemma DistinctAt<T>(s: seq<T>, i: nat, j: nat)
    requires Unique(multiset(s)) && i < |s| && j < |s| && i != j
    ensures s[i] != s[j]
  {
    if i < j {
      UniqueAt(s, i, j);
    } else {
      UniqueAt(s, j, i);
    }
  }

  /** The state between two rounds: the range [lo, hi) of t, with [begin, end) still to be sorted. */
  ghost predicate Between<T>(less: (T, T) -> bool, s: seq<T>, t: seq<T>, lo: nat, begin: nat, end: nat, hi: nat) {
    && lo <= begin <= end <= hi <= |s| == |t|
    && s[..lo] == t[..lo] && s[hi..] == t[hi..] && multiset(s) == multiset(t)
    && Ready(less, t[lo..begin], t[begin..end], t[end..hi])
  }

  /** Partition of [begin, end), then the right block sorted: the left block remains. */
  lemma RoundLeft<T>(less: (T, T) -> bool, s: seq<T>, t: seq<T>, u: seq<T>, v: seq<T>,
                     lo: nat, begin: nat, i: nat, j: nat, end: nat, hi: nat)
    requires Between(less, s, t, lo, begin, end, hi)
    requires Blocks(less, t, u, begin, i, j, end) && SortedRange(less, u, v, j, end)
    ensures Between(less, s, v, lo, begin, i, hi)
  {
    OutsideKept(t, u, begin, end, lo, hi);
    OutsideKept(u, v, j, end, begin, hi);
    OutsideKept(u, v, j, end, lo, hi);
    OutsideKept(u, v, j, end, i, hi);
    RangePermuted(t, u, begin, end);
    RangePermuted(u, v, j, end);
    Cuts(u, begin, i, j, end);
    var x, y, z := u[begin..i], u[i..j], v[j..end];
    assert v[..j][..i] == v[..i] && u[..j][..i] == u[..i];
    assert v[..i][begin..] == v[begin..i] && u[..i][begin..] == u[begin..i];
    assert v[..i][lo..begin] == v[lo..begin] && u[..i][lo..begin] == u[lo..begin];
    BelowPermuted(less, x + y, x + y, u[j..end], z);
    NarrowToLeft(less, t[lo..begin], t[begin..end], t[end..hi], x, y, z);
    Cuts(v, i, j, end, hi);
    assert v[i..hi] == y + z + t[end..hi];
  }

  /** Partition of [begin, end), then the left block sorted: the right block remains. */
  lemma RoundRight<T>(less: (T, T) -> bool, s: seq<T>, t: seq<T>, u: seq<T>, v: seq<T>,
                      lo: nat, begin: nat, i: nat, j: nat, end: nat, hi: nat)
    requires Between(less, s, t, lo, begin, end, hi)
    requires Blocks(less, t, u, begin, i, j, end) && SortedRange(less, u, v, begin, i)
    ensures Between(less, s, v, lo, j, end, hi)
  {
    OutsideKept(t, u, begin, end, lo, hi);
    OutsideKept(u, v, begin, i, lo, hi);
    OutsideKept(u, v, begin, i, lo, end);
    OutsideKept(u, v, begin, i, lo, j);
    RangePermuted(t, u, begin, end);
    RangePermuted(u, v, begin, i);
    Cuts(u, begin, i, j, end);
    var x, y, z := v[begin..i], u[i..j], u[j..end];
    assert v[j..][..end - j] == v[j..end] && u[j..][..end - j] == u[j..end];
    assert v[end..][..hi - end] == v[end..hi] && u[end..][..hi - end] == u[end..hi];
    BelowPermuted(less, u[begin..i], x, y, y);
    BelowPermuted(less, u[begin..i] + y, x + y, z, z);
    NarrowToRight(less, t[lo..begin], t[begin..end], t[end..hi], x, y, z);
    Cuts(v, lo, begin, i, j);
    assert v[lo..j] == t[lo..begin] + x + y;
  }

  /** The last, short range is sorted: so is everything. */
  lemma Finish<T>(less: (T, T) -> bool, s: seq<T>, t: seq<T>, u: seq<T>, lo: nat, begin: nat, end: nat, hi: nat)
    requires Between(less, s, t, lo, begin, end, hi) && SortedRange(less, t, u, begin, end)
    ensures SortedRange(less, s, u, lo, hi)
  {
    OutsideKept(t, u, begin, end, lo, hi);
    RangePermuted(t, u, begin, end);
    ReadySorted(less, t[lo..begin], t[begin..end], t[end..hi], u[begin..end]);
    Cuts(u, lo, begin, end, hi);
  }

  lemma SubrangeSortable<T(!new)>(pred: (T, T) -> bool, less: (T, T) -> bool, s: seq<T>, t: seq<T>,
                                  lo: nat, i: nat, j: nat, hi: nat)
    requires lo <= i <= j <= hi && Permutes(s, t, lo, hi) && Sortable(pred, less, s[lo..hi])
    ensures Sortable(pred, less, t[i..j])
  {
    RangePermuted(s, t, lo, hi);
    if Unique(multiset(t[lo..hi])) {
      UniquePart(t[lo..hi], i - lo, j - lo);
      SliceOfSlice(t, lo, i, j, hi);
    }
  }

  lemma SliceOfSlice<T>(s: seq<T>, lo: nat, i: nat, j: nat, hi: nat)
    requires lo <= i <= j <= hi <= |s|
    ensures s[lo..hi][i - lo..j - lo] == s[i..j]
  {
    var x, y := s[lo..hi][i - lo..j - lo], s[i..j];
    forall k | 0 <= k < |x| ensures x[k] == y[k] {
      assert x[k] == s[lo..hi][i - lo + k];
    }
  }

  /** One round of the sorting loop: the shorter block is sorted by recursion, the longer one remains. */
  method Round<T(!new, ==)>(a: array<T>, begin: nat, end: nat, pred: (T, T) -> bool, ghost less: (T, T) -> bool,
                            ghost s: seq<T>, ghost lo: nat, ghost hi: nat)
    returns (begin': nat, end': nat, ghost depth: nat)
    requires hi <= a.Length && Between(less, s, a[..], lo, begin, end, hi)
    requires end - begin > 16 && Sortable(pred, less, a[..][begin..end])
    modifies a
    ensures Between(less, s, a[..], lo, begin', end', hi) && end' - begin' < end - begin
    ensures Pow2(depth) <= end - begin
    decreases end - begin, 0
  {
    ghost var t := a[..];
    var eqbeg, eqend := Partition(a, begin, end, pred, less);
    ghost var u := a[..];
    // the recursion takes the smaller side, which halves the length
    if eqbeg - begin > end - eqend {
      SubrangeSortable(pred, less, t, u, begin, eqend, end, end);
      depth := Sort(a, eqend, end, pred, less);
      RoundLeft(less, s, t, u, a[..], lo, begin, eqbeg, eqend, end, hi);
      begin', end' := begin, eqbeg;
    } else {
      SubrangeSortable(pred, less, t, u, begin, begin, eqbeg, end);
      depth := Sort(a, begin, eqbeg, pred, less);
      RoundRight(less, s, t, u, a[..], lo, begin, eqbeg, eqend, end, hi);
      begin', end' := eqend, end;
    }
    depth := depth + 1;
  }

  /**
   `sort` on a[lo..hi]: the range ends up a sorted permutation, nothing else changes, and
   since only the shorter block is recursed into, the recursion is at most log2(n) deep.
   */
  method Sort<T(!new, ==)>(a: array<T>, lo: nat, hi: nat, pred: (T, T) -> bool, ghost less: (T, T) -> bool)
    returns (ghost depth: nat)
    requires lo <= hi <= a.Length && Sortable(pred, less, a[..][lo..hi])
    modifies a
    ensures SortedRange(less, old(a[..]), a[..], lo, hi)
    ensures Pow2(depth) <= (if lo == hi then 1 else hi - lo)
    decreases hi - lo, 1
  {
    var begin, end := lo, hi;
    ghost var s := a[..];
    depth := 0;
    // longer ranges are partitioned
    while end - begin > 16
      invariant Between(less, s, a[..], lo, begin, end, hi)
      invariant Pow2(depth) <= (if lo == hi then 1 else hi - lo)
      decreases end - begin
    {
      SubrangeSortable(pred, less, s, a[..], lo, begin, end, hi);
      ghost var d;
      begin, end, d := Round(a, begin, end, pred, less, s, lo, hi);
      depth := if d > depth then d else depth;
    }
    // what is left is short
    ghost var t := a[..];
    InsertionSort(a, begin, end, pred, less);
    Finish(less, s, t, a[..], lo, begin, end, hi);
  }
}
