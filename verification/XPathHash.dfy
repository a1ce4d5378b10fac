/**
 The open-addressing hash set the XPath engine removes duplicates with: `hash_insert`
 probes a table of 2^n slots in steps of 1, 2, 3, ...

 Reducing a bucket with `& (size - 1)` is written as the remainder modulo the size,
 which is the same for a power of two.
 */
module XPathHash {
  import opened Wrappers
  import opened Arithmetic

  // ------------------------------------------------------- triangular probing

  /** 1 + 2 + ... + n, the distance from the first bucket to the n-th probed one. */
  function Triangle(n: nat): nat {
    if n == 0 then 0 else Triangle(n - 1) + n
  }

  lemma {:induction false} TriangleTwice(n: nat)
    ensures 2 * Triangle(n) == n * (n + 1)
  {
    if n > 0 {
      TriangleTwice(n - 1);
    }
  }

  lemma OddTimesOdd(a: nat, b: nat)
    requires a % 2 == 1 && b % 2 == 1
    ensures (a * b) % 2 == 1
  {
    var i, j := a / 2, b / 2;
    assert a * b == 2 * (2 * i * j + i + j) + 1;
  }

  lemma Doubled(p: nat, q: nat)
    ensures (2 * p) * q == 2 * (p * q) == p * (2 * q)
  {
  }

  lemma EvenFactor(a: nat, b: nat, h: nat)
    requires a % 2 == 1 && a * b == 2 * h
    ensures b == 2 * (b / 2) && a * (b / 2) == h
  {
    if b % 2 == 1 {
      OddTimesOdd(a, b);
    }
    Doubled(a, b / 2);
  }

  /** A power of two that divides a product with one odd factor divides the other factor. */
  lemma {:induction false} OddFactor(a: nat, b: nat, n: nat, q: nat) returns (r: nat)
    requires a % 2 == 1 && a * b == Pow2(n) * q
    ensures b == Pow2(n) * r
  {
    if n == 0 {
      r := b;
    } else {
      var p := Pow2(n - 1);
      Doubled(p, q);
      EvenFactor(a, b, p * q);
      r := OddFactor(a, b / 2, n - 1, q);
      Doubled(p, r);
    }
  }

  /** A positive multiple of p is no smaller than p. */
  lemma MultipleIsLarge(p: nat, r: nat)
    requires p * r > 0
    ensures p * r >= p
  {
    assert r > 0;
    assert p * r == p + p * (r - 1);
  }

  /** The bucket that probe number i looks at. */
  function Bucket(h: nat, i: nat, size: nat): (b: nat)
    requires size > 0
    ensures b < size
  {
    (h + Triangle(i)) % size
  }

  lemma SameRemainder(x: nat, y: nat, p: nat) returns (q: nat)
    requires p > 0 && x <= y && x % p == y % p
    ensures y - x == p * q
  {
    assert x == p * (x / p) + x % p && y == p * (y / p) + y % p;
    QuotientGrows(x, y, p);
    q := y / p - x / p;
    assert p * (y / p) - p * (x / p) == p * q;
  }

  lemma QuotientGrows(x: nat, y: nat, p: nat)
    requires p > 0 && x <= y
    ensures x / p <= y / p
  {
    ProductGrows(p, y / p + 1, x / p);
    assert p * (y / p + 1) == p * (y / p) + p;
  }

  lemma TriangleGrows(i: nat, j: nat)
    requires i <= j
    ensures 2 * (Triangle(j) - Triangle(i)) == (j - i) * (j + i + 1)
    ensures Triangle(i) <= Triangle(j)
  {
    TriangleTwice(i);
    TriangleTwice(j);
    assert (j - i) * (j + i + 1) == j * (j + 1) - i * (i + 1);
    assert (j - i) * (j + i + 1) >= 0;
  }

  /** x * y = 2^n q with x, y of different parity forces one of them to be at least 2^n. */
  lemma OneFactorIsLarge(x: nat, y: nat, n: nat, q: nat)
    requires x > 0 && y > 0 && (x + y) % 2 == 1 && x * y == Pow2(n) * q
    ensures x >= Pow2(n) || y >= Pow2(n)
  {
    if x % 2 == 1 {
      var r := OddFactor(x, y, n, q);
      MultipleIsLarge(Pow2(n), r);
    } else {
      assert y * x == x * y;
      var r := OddFactor(y, x, n, q);
      MultipleIsLarge(Pow2(n), r);
    }
  }

  lemma DistanceIsLarge(x: nat, y: nat, d: nat, n: nat, q: nat)
    requires x > 0 && y > 0 && (x + y) % 2 == 1 && 2 * d == x * y && d == Pow2(n) * q
    ensures x >= 2 * Pow2(n) || y >= 2 * Pow2(n)
  {
    Doubled(Pow2(n), q);
    OneFactorIsLarge(x, y, n + 1, q);
  }

  /** Two probes at the same bucket are a multiple of the size apart. */
  lemma SameBucket(h: nat, i: nat, j: nat, size: nat) returns (q: nat)
    requires size > 0 && i <= j && Bucket(h, i, size) == Bucket(h, j, size)
    ensures Triangle(j) - Triangle(i) == size * q
  {
    TriangleGrows(i, j);
    q := SameRemainder(h + Triangle(i), h + Triangle(j), size);
  }

  lemma FarApart(i: nat, j: nat, d: nat, n: nat, q: nat)
    requires i < j && 2 * d == (j - i) * (j + i + 1) && d == Pow2(n) * q
    ensures j >= Pow2(n)
  {
    DistanceIsLarge(j - i, j + i + 1, d, n, q);
  }

  /** Two probes never meet at the same bucket. */
  lemma ProbesDiffer(h: nat, i: nat, j: nat, n: nat)
    requires i < j < Pow2(n)
    ensures Bucket(h, i, Pow2(n)) != Bucket(h, j, Pow2(n))
  {
    if Bucket(h, i, Pow2(n)) == Bucket(h, j, Pow2(n)) {
      var q := SameBucket(h, i, j, Pow2(n));
      TriangleGrows(i, j);
      FarApart(i, j, Triangle(j) - Triangle(i), n, q);
    }
  }

  /** The buckets looked at by the first k probes. */
  ghost function Probed(h: nat, k: nat, size: nat): set<nat>
    requires size > 0
  {
    set i: nat | i < k :: Bucket(h, i, size)
  }

  lemma ProbedGrows(h: nat, k: nat, size: nat)
    requires k > 0 && size > 0
    ensures Probed(h, k, size) == Probed(h, k - 1, size) + {Bucket(h, k - 1, size)}
  {
  }

  lemma {:induction false} ProbedCount(h: nat, k: nat, n: nat)
    requires k <= Pow2(n)
    ensures |Probed(h, k, Pow2(n))| == k
  {
    var size := Pow2(n);
    if k == 0 {
      assert Probed(h, 0, size) == {};
    } else {
      ProbedCount(h, k - 1, n);
      var b := Bucket(h, k - 1, size);
      assert b !in Probed(h, k - 1, size) by {
        if b in Probed(h, k - 1, size) {
          var i: nat :| i < k - 1 && Bucket(h, i, size) == b;
          ProbesDiffer(h, i, k - 1, n);
        }
      }
      ProbedGrows(h, k, size);
    }
  }

  ghost function Below(n: nat): (s: set<nat>)
    ensures forall b: nat :: b in s <==> b < n
    ensures |s| == n
  {
    if n == 0 then {} else Below(n - 1) + {n - 1}
  }

  lemma SubsetOfSameSize<T>(a: set<T>, b: set<T>)
    requires a <= b && |a| == |b|
    ensures a == b
  {
    assert b == a + (b - a);
    assert |b| == |a| + |b - a|;
  }

  /** Probing a table of 2^n slots meets every bucket exactly once. */
  lemma ProbesCoverTable(h: nat, n: nat, b: nat)
    requires b < Pow2(n)
    ensures exists i: nat :: i < Pow2(n) && Bucket(h, i, Pow2(n)) == b
    ensures forall i: nat, j: nat | i < j < Pow2(n) :: Bucket(h, i, Pow2(n)) != Bucket(h, j, Pow2(n))
  {
    ProbedCount(h, Pow2(n), n);
    SubsetOfSameSize(Probed(h, Pow2(n), Pow2(n)), Below(Pow2(n)));
    assert b in Below(Pow2(n));
    forall i: nat, j: nat | i < j < Pow2(n) ensures Bucket(h, i, Pow2(n)) != Bucket(h, j, Pow2(n)) {
      ProbesDiffer(h, i, j, n);
    }
  }

  // ------------------------------------------------------------------ the table

  /** The mixed address of a key; any function will do. */
  type Hash<!T> = T -> nat

  /** The keys in the table. */
  ghost function Keys<T>(t: seq<Option<T>>): set<T> {
    set o | o in t && o.Some? :: o.value
  }

  /** How many slots are taken. */
  ghost function Taken<T>(t: seq<Option<T>>): nat {
    if t == [] then 0 else Taken(t[..|t| - 1]) + (if t[|t| - 1].Some? then 1 else 0)
  }

  /** Probe i of key k finds it, and no probe before meets a free slot. */
  ghost predicate FoundAt<T>(t: seq<Option<T>>, hash: Hash<T>, k: T, i: nat) {
    && i < |t| && t[Bucket(hash(k), i, |t|)] == Some(k)
    && forall j: nat | j < i :: t[Bucket(hash(k), j, |t|)].Some?
  }

  /** Every key stored in the table is found by probing. */
  ghost predicate Findable<T>(t: seq<Option<T>>, hash: Hash<T>) {
    forall k | k in Keys(t) :: exists i: nat :: FoundAt(t, hash, k, i)
  }

  lemma {:induction false} TakenBounds<T>(t: seq<Option<T>>, b: nat)
    requires b < |t| && t[b].None?
    ensures Taken(t) < |t|
    ensures forall k :: Taken(t[b := Some(k)]) == Taken(t) + 1
  {
    var init := t[..|t| - 1];
    if b == |t| - 1 {
      TakenAtMost(init);
      assert forall k :: t[b := Some(k)][..|t| - 1] == init;
    } else {
      TakenBounds(init, b);
      assert forall k :: t[b := Some(k)][..|t| - 1] == init[b := Some(k)];
    }
  }

  lemma {:induction false} TakenAtMost<T>(t: seq<Option<T>>)
    ensures Taken(t) <= |t|
    ensures Taken(t) == |t| ==> forall b | 0 <= b < |t| :: t[b].Some?
  {
    if t != [] {
      TakenAtMost(t[..|t| - 1]);
      assert forall b | 0 <= b < |t| - 1 :: t[b] == t[..|t| - 1][b];
    }
  }

  /** A table with a free slot shows it to some probe of every key. */
  lemma FreeSlotIsProbed<T>(t: seq<Option<T>>, h: nat, n: nat)
    requires |t| == Pow2(n) && Taken(t) < |t|
    ensures exists i: nat :: i < |t| && t[Bucket(h, i, |t|)].None?
  {
    AllTaken(t);
    var b: nat :| b < |t| && t[b].None?;
    ProbesCoverTable(h, n, b);
  }

  lemma {:induction false} AllTaken<T>(t: seq<Option<T>>)
    requires Taken(t) < |t|
    ensures exists b: nat :: b < |t| && t[b].None?
  {
    if t[|t| - 1].Some? {
      var init := t[..|t| - 1];
      AllTaken(init);
      var b: nat :| b < |init| && init[b].None?;
      assert t[b].None?;
    }
  }

  /** A key that probing runs past is not in the table. */
  lemma FreeMeansAbsent<T>(t: seq<Option<T>>, hash: Hash<T>, k: T, p: nat)
    requires Findable(t, hash) && p < |t| && t[Bucket(hash(k), p, |t|)].None?
    requires forall j: nat | j < p :: t[Bucket(hash(k), j, |t|)] != Some(k)
    ensures k !in Keys(t)
  {
    forall i: nat ensures !FoundAt(t, hash, k, i) {
      assert i < p || i == p || p < i;
    }
  }

  lemma InsertKeepsFindable<T>(t: seq<Option<T>>, hash: Hash<T>, k: T, p: nat)
    requires Findable(t, hash) && p < |t| && t[Bucket(hash(k), p, |t|)].None?
    requires forall j: nat | j < p :: t[Bucket(hash(k), j, |t|)].Some?
    ensures var t' := t[Bucket(hash(k), p, |t|) := Some(k)];
            Findable(t', hash) && Keys(t') == Keys(t) + {k}
  {
    var b := Bucket(hash(k), p, |t|);
    var t' := t[b := Some(k)];
    assert t'[b] == Some(k);
    forall x ensures x in Keys(t') <==> x in Keys(t) + {k} {
      if x in Keys(t) {
        var i :| 0 <= i < |t| && t[i] == Some(x);
        assert t'[i] == Some(x);
      }
      if x in Keys(t') {
        var i :| 0 <= i < |t| && t'[i] == Some(x);
      }
    }
    assert FoundAt(t', hash, k, p);
    forall x | x in Keys(t) ensures exists i: nat :: FoundAt(t', hash, x, i) {
      var i: nat :| FoundAt(t, hash, x, i);
      assert FoundAt(t', hash, x, i);
    }
  }

  /**
   `hash_insert`: adds a key that is not in the table and says so. With a free slot the
   end of the loop is never reached.
   */
  method HashInsert<T(==)>(table: array<Option<T>>, key: T, hash: Hash<T>, ghost n: nat) returns (inserted: bool)
    requires table.Length == Pow2(n) && Findable(table[..], hash) && Taken(table[..]) < table.Length
    modifies table
    ensures Findable(table[..], hash)
    ensures inserted <==> key !in Keys(old(table[..]))
    ensures Keys(table[..]) == Keys(old(table[..])) + {key}
    ensures Taken(table[..]) == Taken(old(table[..])) + (if inserted then 1 else 0)
  {
    var size := table.Length;
    var h := hash(key);
    var bucket := h % size;
    ghost var t := table[..];
    var probe := 0;
    FreeSlotIsProbed(t, h, n);
    ghost var free: nat :| free < |t| && t[Bucket(h, free, |t|)].None?;
    while probe < size
      invariant 0 <= probe <= free && bucket == Bucket(h, probe, size)
      invariant table[..] == t
      invariant forall j: nat | j < probe :: t[Bucket(h, j, size)].Some? && t[Bucket(h, j, size)] != Some(key)
    {
      assert table[bucket] == t[bucket];
      if table[bucket] == None {
        FreeMeansAbsent(t, hash, key, probe);
        InsertKeepsFindable(t, hash, key, probe);
        TakenBounds(t, bucket);
        table[bucket] := Some(key);
        assert table[..] == t[bucket := Some(key)];
        return true;
      }
      if table[bucket] == Some(key) {
        assert Keys(t) == Keys(t) + {key};
        return false;
      }
      // occupied by another key: the next distance is one longer
      NextBucket(h, probe, size);
      bucket := (bucket + probe + 1) % size;
      probe := probe + 1;
    }
    assert false;
    return false;
  }

  lemma NextBucket(h: nat, probe: nat, size: nat)
    requires size > 0
    ensures (Bucket(h, probe, size) + probe + 1) % size == Bucket(h, probe + 1, size)
  {
    var x, y := h + Triangle(probe), Bucket(h, probe, size) + probe + 1;
    Division(x, size);
    Division(y, size);
    SumOfRemainders(x, probe + 1, size, x / size, x % size, y / size, y % size);
  }

  lemma Division(x: nat, p: nat)
    requires p > 0
    ensures x == p * (x / p) + x % p
  {
  }

  lemma SumOfRemainders(x: nat, d: nat, p: nat, a: nat, r: nat, b: nat, s: nat)
    requires x == p * a + r && r + d == p * b + s && s < p
    ensures (x + d) % p == s
  {
    assert p * a + p * b == p * (a + b);
    RemainderIs(x + d, p, a + b, s);
  }
}
