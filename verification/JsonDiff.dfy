/**
 `basic_json::diff`: the patch it creates turns the source into the target.

 Operations are kept in two forms: the JSON objects the library stores, whose
 path is a pointer string from the document root, and the operation they stand
 for, with a path relative to the value being compared.
 */
module JsonDiff {
  import opened Wrappers
  import opened JsonValue
  import opened Digits
  import opened JsonPointer
  import opened JsonPatch

  // -------------------------------------------------------- what a diff yields

  /** The source after its diff to the target is applied. Where `==` holds nothing is touched. */
  function Patched(source: Json, target: Json): Json
    decreases target
  {
    if Equals(source, target) then source
    else
      match (source, target)
      case (Array(x), Array(y)) =>
        Array(seq(|y|, i requires 0 <= i < |y| => if i < |x| then Patched(x[i], y[i]) else y[i]))
      case (Object(x), Object(y)) =>
        Object(map k | k in y.Keys :: if k in x then Patched(x[k], y[k]) else y[k])
      case (_, _) => target
  }

  /** The patched source equals the target under the library's `==`. */
  lemma {:induction false} PatchedEquals(source: Json, target: Json)
    ensures Equals(Patched(source, target), target)
    decreases target
  {
    if !Equals(source, target) {
      match (source, target)
      case (Array(x), Array(y)) =>
        forall i | 0 <= i < |y| ensures Equals(Patched(source, target).elems[i], y[i]) {
          if i < |x| {
            PatchedEquals(x[i], y[i]);
          } else {
            EqualsReflexive(y[i]);
          }
        }
      case (Object(x), Object(y)) =>
        forall k | k in y.Keys ensures Equals(Patched(source, target).members[k], y[k]) {
          if k in x {
            PatchedEquals(x[k], y[k]);
          } else {
            EqualsReflexive(y[k]);
          }
        }
      case (_, _) =>
        EqualsReflexive(target);
    }
  }

  /**
   No number of the source meets, at the place the diff compares it with, a number
   of another kind that `==` takes for the same.
   */
  predicate NoCoercion(source: Json, target: Json)
    decreases target
  {
    match (source, target)
    case (Array(x), Array(y)) =>
      forall i | 0 <= i < |x| && i < |y| :: NoCoercion(x[i], y[i])
    case (Object(x), Object(y)) =>
      forall k | k in x.Keys && k in y.Keys :: NoCoercion(x[k], y[k])
    case (_, _) =>
      KindOf(source) == KindOf(target) || !Equals(source, target)
  }

  lemma {:induction false} EqualsWithoutCoercion(source: Json, target: Json)
    requires Equals(source, target)
    ensures NoCoercion(source, target) <==> source == target
    decreases target
  {
    match (source, target)
    case (Array(x), Array(y)) =>
      forall i | 0 <= i < |x| ensures NoCoercion(x[i], y[i]) <==> x[i] == y[i] {
        EqualsWithoutCoercion(x[i], y[i]);
      }
    case (Object(x), Object(y)) =>
      forall k | k in x.Keys ensures NoCoercion(x[k], y[k]) <==> x[k] == y[k] {
        EqualsWithoutCoercion(x[k], y[k]);
      }
    case (_, _) =>
  }

  /** The patched source is the target itself, kind of every number included, exactly without coercion. */
  lemma {:induction false} PatchedExactly(source: Json, target: Json)
    ensures Patched(source, target) == target <==> NoCoercion(source, target)
    decreases target
  {
    if Equals(source, target) {
      EqualsWithoutCoercion(source, target);
    } else {
      match (source, target)
      case (Array(x), Array(y)) =>
        var z := Patched(source, target).elems;
        forall i | 0 <= i < |x| && i < |y| ensures z[i] == y[i] <==> NoCoercion(x[i], y[i]) {
          PatchedExactly(x[i], y[i]);
        }
        assert z == y <==> forall i | 0 <= i < |x| && i < |y| :: z[i] == y[i];
      case (Object(x), Object(y)) =>
        var z := Patched(source, target).members;
        forall k | k in x.Keys && k in y.Keys ensures z[k] == y[k] <==> NoCoercion(x[k], y[k]) {
          PatchedExactly(x[k], y[k]);
        }
        assert z == y <==> forall k | k in x.Keys && k in y.Keys :: z[k] == y[k];
      case (_, _) =>
    }
  }

  /** Two numbers `==` takes for the same although they differ: the diff leaves the source as it is. */
  lemma CoercionKeepsSource()
    ensures var source, target := Integer(-1), Unsigned(0xFFFF_FFFF_FFFF_FFFF);
            Equals(source, target) && Patched(source, target) == source != target
  {
  }

  // -------------------------------------------------------- relative operations

  /** Operations that only touch what is below (or, replacing, at) the value they are applied to. */
  predicate Local(op: Op) {
    (op.Add? && op.path != []) || (op.Remove? && op.path != []) || op.Replace?
  }

  predicate AllLocal(ops: seq<Op>) {
    forall i | 0 <= i < |ops| :: Local(ops[i])
  }

  function Prefixed(at: Path, op: Op): Op
    requires Local(op)
  {
    match op
    case Add(path, v) => Add(at + path, v)
    case Remove(path) => Remove(at + path)
    case Replace(path, v) => Replace(at + path, v)
  }

  function ApplyOps(doc: Json, ops: seq<Op>): Applied
    decreases |ops|
  {
    if ops == [] then Applied(doc, None)
    else
      var step := ApplyOp(doc, ops[0]);
      if step.error.Some? then step else ApplyOps(step.doc, ops[1..])
  }

  function PrefixedAll(at: Path, ops: seq<Op>): (r: seq<Op>)
    requires AllLocal(ops)
    ensures AllLocal(r)
    ensures |r| == |ops| && forall i | 0 <= i < |ops| :: r[i] == Prefixed(at, ops[i])
  {
    seq(|ops|, i requires 0 <= i < |ops| => Prefixed(at, ops[i]))
  }

  lemma InitConcat(at: Path, path: Path)
    requires path != []
    ensures at + path != [] && Init(at + path) == at + Init(path) && Last(at + path) == Last(path)
    ensures |at + path| > 1 ==> at + Init(path) != [] && (at + path)[0] == (at + Init(path))[0]
  {
  }

  /** The parent an operation resolves in the whole document is the one it resolves in the part. */
  lemma ParentAt(doc: Json, at: Path, path: Path)
    requires At(doc, at).Ok? && path != [] && At(At(doc, at).value, Init(path)).Ok?
    ensures At(doc, Init(at + path)) == At(At(doc, at).value, Init(path))
    ensures |at + path| > 1 ==> At(doc, [(at + path)[0]]).Ok?
  {
    InitConcat(at, path);
    AtConcat(doc, at, Init(path));
    if |at + path| > 1 {
      AtTop(doc, at + Init(path));
    }
  }

  lemma LiftAdd(doc: Json, at: Path, path: Path, v: Json)
    requires At(doc, at).Ok? && path != [] && AddAt(At(doc, at).value, path, v).Ok?
    ensures AddAt(doc, at + path, v) == Ok(Put(doc, at, AddAt(At(doc, at).value, path, v).value))
  {
    var part := At(doc, at).value;
    InitConcat(at, path);
    ParentAt(doc, at, path);
    var changed := AddToParent(At(part, Init(path)).value, Last(path), v).value;
    PutConcat(doc, at, Init(path), changed);
  }

  lemma LiftRemove(doc: Json, at: Path, path: Path)
    requires At(doc, at).Ok? && path != [] && RemoveAt(At(doc, at).value, path).Ok?
    ensures RemoveAt(doc, at + path) == Ok(Put(doc, at, RemoveAt(At(doc, at).value, path).value))
  {
    var part := At(doc, at).value;
    InitConcat(at, path);
    ParentAt(doc, at, path);
    var changed := RemoveFromParent(At(part, Init(path)).value, Last(path)).value;
    PutConcat(doc, at, Init(path), changed);
  }

  /** A local operation that succeeds on a part of a document does the same to that part of the whole. */
  lemma LiftOp(doc: Json, at: Path, op: Op)
    requires At(doc, at).Ok? && Local(op)
    requires ApplyOp(At(doc, at).value, op).error.None?
    ensures ApplyOp(doc, Prefixed(at, op)) == Applied(Put(doc, at, ApplyOp(At(doc, at).value, op).doc), None)
  {
    match op
    case Replace(path, v) =>
      AtConcat(doc, at, path);
      PutConcat(doc, at, path, v);
    case Add(path, v) =>
      LiftAdd(doc, at, path, v);
    case Remove(path) =>
      LiftRemove(doc, at, path);
  }

  lemma {:induction false} LiftOps(doc: Json, at: Path, ops: seq<Op>)
    requires At(doc, at).Ok? && AllLocal(ops)
    requires ApplyOps(At(doc, at).value, ops).error.None?
    ensures ApplyOps(doc, PrefixedAll(at, ops)) == Applied(Put(doc, at, ApplyOps(At(doc, at).value, ops).doc), None)
    decreases |ops|
  {
    var part := At(doc, at).value;
    if ops == [] {
      PutGet(doc, at, part);
    } else {
      LiftOp(doc, at, ops[0]);
      var next := ApplyOp(part, ops[0]).doc;
      var doc' := Put(doc, at, next);
      PutGet(doc, at, next);
      LiftOps(doc', at, ops[1..]);
      assert PrefixedAll(at, ops)[1..] == PrefixedAll(at, ops[1..]);
      PutPut(doc, at, next, ApplyOps(next, ops[1..]).doc);
    }
  }

  lemma {:induction false} ApplyConcat(doc: Json, a: seq<Op>, b: seq<Op>)
    requires ApplyOps(doc, a).error.None?
    ensures ApplyOps(doc, a + b) == ApplyOps(ApplyOps(doc, a).doc, b)
    decreases |a|
  {
    if a == [] {
      assert a + b == b;
    } else {
      assert (a + b)[0] == a[0] && (a + b)[1..] == a[1..] + b;
      ApplyConcat(ApplyOp(doc, a[0]).doc, a[1..], b);
    }
  }

  // ------------------------------------------------------------ stored operations

  function AddObject(path: string, v: Json): Json {
    Object(map["op" := String("add"), "path" := String(path), "value" := v])
  }

  function RemoveObject(path: string): Json {
    Object(map["op" := String("remove"), "path" := String(path)])
  }

  function ReplaceObject(path: string, v: Json): Json {
    Object(map["op" := String("replace"), "path" := String(path), "value" := v])
  }

  /** The object that stores an operation, its path written as a pointer string. */
  function OpObject(op: Op): Json
    requires op.Add? || op.Remove? || op.Replace?
  {
    match op
    case Add(path, v) => AddObject(Render(path), v)
    case Remove(path) => RemoveObject(Render(path))
    case Replace(path, v) => ReplaceObject(Render(path), v)
  }

  /** Reading a stored operation back gives the operation. */
  lemma ReadStored(op: Op)
    requires op.Add? || op.Remove? || op.Replace?
    ensures ReadOp(OpObject(op)) == Ok(op)
  {
    TokensOfRender(op.path);
  }

  /** The patch objects of operations that are relative to the place `at`. */
  function Stored(at: Path, ops: seq<Op>): (patch: seq<Json>)
    requires AllLocal(ops)
    ensures |patch| == |ops|
  {
    if ops == [] then [] else [OpObject(Prefixed(at, ops[0]))] + Stored(at, ops[1..])
  }

  lemma {:induction false} StoredConcat(at: Path, a: seq<Op>, b: seq<Op>)
    requires AllLocal(a) && AllLocal(b)
    ensures Stored(at, a + b) == Stored(at, a) + Stored(at, b)
  {
    if a == [] {
      assert a + b == b;
    } else {
      assert (a + b)[0] == a[0] && (a + b)[1..] == a[1..] + b;
      StoredConcat(at, a[1..], b);
    }
  }

  lemma {:induction false} StoredInto(at: Path, token: string, ops: seq<Op>)
    requires AllLocal(ops)
    ensures Stored(at, PrefixedAll([token], ops)) == Stored(at + [token], ops)
  {
    if ops != [] {
      assert at + ([token] + ops[0].path) == (at + [token]) + ops[0].path;
      assert PrefixedAll([token], ops)[1..] == PrefixedAll([token], ops[1..]);
      StoredInto(at, token, ops[1..]);
    }
  }

  lemma StoredOne(at: Path, op: Op)
    requires Local(op)
    ensures Stored(at, [op]) == [OpObject(Prefixed(at, op))]
  {
  }

  lemma StoredFirst(ops: seq<Op>)
    requires AllLocal(ops) && ops != []
    ensures ReadOp(Stored([], ops)[0]) == Ok(ops[0]) && Stored([], ops)[1..] == Stored([], ops[1..])
  {
    assert [] + ops[0].path == ops[0].path;
    ReadStored(ops[0]);
  }

  lemma {:induction false} ApplyStored(doc: Json, ops: seq<Op>)
    requires AllLocal(ops)
    ensures ApplyAll(doc, Stored([], ops)) == ApplyOps(doc, ops)
    decreases |ops|
  {
    if ops != [] {
      StoredFirst(ops);
      ApplyStored(ApplyOp(doc, ops[0]).doc, ops[1..]);
    }
  }

  /** A child's pointer is the parent's, a slash and the escaped token. */
  lemma ChildPath(at: Path, token: string)
    ensures Render(at + [token]) == Render(at) + "/" + Escape(token)
  {
    assert (at + [token])[..|at|] == at;
  }

  /** Array indices and "-" need no escape. */
  lemma {:induction false} EscapePlain(s: string)
    requires '~' !in s && '/' !in s
    ensures Escape(s) == s
  {
    if s != "" {
      assert s[0] in s;
      assert s == [s[0]] + s[1..];
      EscapeCons(s[0], s[1..]);
      EscapePlain(s[1..]);
    }
  }

  lemma IndexPath(at: Path, i: nat)
    ensures Render(at + [Decimal(i)]) == Render(at) + "/" + Decimal(i)
  {
    var s := Decimal(i);
    forall c | c in s ensures IsDigit(c) {
      var k :| 0 <= k < |s| && s[k] == c;
    }
    EscapePlain(s);
    ChildPath(at, s);
  }

  // --------------------------------------------------------------------- arrays

  /** The source array when its first n common elements are patched. */
  function Mid(x: seq<Json>, y: seq<Json>, n: nat): (r: seq<Json>)
    requires n <= |x| && n <= |y|
    ensures |r| == |x|
  {
    seq(|x|, i requires 0 <= i < |x| => if i < n then Patched(x[i], y[i]) else x[i])
  }

  /** The removals of elements hi-1 down to lo. */
  function Removals(lo: nat, hi: nat): (ops: seq<Op>)
    requires lo <= hi
    ensures |ops| == hi - lo
    ensures AllLocal(ops)
  {
    if lo == hi then [] else [Remove([Decimal(hi - 1)])] + Removals(lo, hi - 1)
  }

  lemma ElementAt(e: seq<Json>, i: nat)
    requires i < |e| < TWO_64
    ensures At(Array(e), [Decimal(i)]) == Ok(e[i])
    ensures forall v :: Put(Array(e), [Decimal(i)], v) == Array(e[i := v])
  {
    IndexRoundTrip(i);
    assert [Decimal(i)][1..] == [];
  }

  lemma RemoveDirect(doc: Json, key: string)
    ensures RemoveAt(doc, [key]) == RemoveFromParent(doc, key)
  {
    assert Init([key]) == [] && Last([key]) == key;
  }

  lemma CutLast(e: seq<Json>, key: string)
    requires e != [] && ArrayIndex(key) == Ok(|e| - 1)
    ensures RemoveFromParent(Array(e), key) == Ok(Array(e[..|e| - 1]))
  {
    assert e[..|e| - 1] + e[|e|..] == e[..|e| - 1];
  }

  /** The last element of an array is removed through its index. */
  lemma RemoveLast(e: seq<Json>)
    requires 0 < |e| < TWO_64
    ensures ApplyOp(Array(e), Remove([Decimal(|e| - 1)])) == Applied(Array(e[..|e| - 1]), None)
  {
    var key := Decimal(|e| - 1);
    IndexRoundTrip(|e| - 1);
    CutLast(e, key);
    RemoveDirect(Array(e), key);
  }

  lemma RemovalsFirst(lo: nat, hi: nat)
    requires lo < hi
    ensures Removals(lo, hi)[0] == Remove([Decimal(hi - 1)]) && Removals(lo, hi)[1..] == Removals(lo, hi - 1)
  {
  }

  lemma {:induction false} RemovalsCut(e: seq<Json>, lo: nat)
    requires lo <= |e| < TWO_64
    ensures ApplyOps(Array(e), Removals(lo, |e|)) == Applied(Array(e[..lo]), None)
    decreases |e|
  {
    if lo == |e| {
      assert e[..lo] == e;
    } else {
      var last := |e| - 1;
      RemoveLast(e);
      RemovalsFirst(lo, |e|);
      RemovalsCut(e[..last], lo);
      assert e[..last][..lo] == e[..lo];
    }
  }

  lemma AdditionApplies(e: seq<Json>, v: Json)
    ensures ApplyOp(Array(e), Add(["-"], v)) == Applied(Array(e + [v]), None)
  {
    assert Init(["-"]) == [];
  }

  // -------------------------------------------------------------------- objects

  /** The source object when the keys in `done` are dealt with. */
  function MidObject(x: map<string, Json>, y: map<string, Json>, done: set<string>): map<string, Json> {
    map k | k in x.Keys && (k in done ==> k in y) :: if k in done then Patched(x[k], y[k]) else x[k]
  }

  /** The patched common members together with the added keys. */
  function EndObject(x: map<string, Json>, y: map<string, Json>, added: set<string>): map<string, Json> {
    map k | k in y.Keys && (k in x || k in added) :: if k in x then Patched(x[k], y[k]) else y[k]
  }

  lemma MemberOps(m: map<string, Json>, k: string)
    ensures k in m ==> At(Object(m), [k]) == Ok(m[k]) && forall v :: Put(Object(m), [k], v) == Object(m[k := v])
    ensures k in m ==> ApplyOp(Object(m), Remove([k])) == Applied(Object(m - {k}), None)
    ensures forall v :: ApplyOp(Object(m), Add([k], v)) == Applied(Object(m[k := v]), None)
  {
    assert [k][1..] == [] && Init([k]) == [];
  }

  // ----------------------------------------------------------- creating the diff

  /** The operations of a finished or partly finished diff lead from the source to `now`. */
  ghost predicate Leads(source: Json, ops: seq<Op>, now: Json) {
    AllLocal(ops) && ApplyOps(source, ops) == Applied(now, None)
  }

  lemma LeadsConcat(source: Json, at: Path, a: seq<Op>, b: seq<Op>, mid: Json, now: Json)
    requires Leads(source, a, mid) && Leads(mid, b, now)
    ensures Leads(source, a + b, now)
    ensures Stored(at, a + b) == Stored(at, a) + Stored(at, b)
  {
    ApplyConcat(source, a, b);
    StoredConcat(at, a, b);
  }

  lemma LeadsOne(source: Json, at: Path, a: seq<Op>, op: Op, mid: Json, now: Json)
    requires Leads(source, a, mid) && Local(op) && ApplyOp(mid, op) == Applied(now, None)
    ensures Leads(source, a + [op], now)
    ensures Stored(at, a + [op]) == Stored(at, a) + [OpObject(Prefixed(at, op))]
  {
    assert ApplyOps(mid, [op]) == ApplyOps(now, []);
    StoredOne(at, op);
    LeadsConcat(source, at, a, [op], mid, now);
  }

  /** A child's diff is a diff of the parent that changes only that child. */
  lemma LeadsInto(source: Json, at: Path, a: seq<Op>, token: string, b: seq<Op>, mid: Json, child: Json)
    requires Leads(source, a, mid)
    requires At(mid, [token]).Ok? && Leads(At(mid, [token]).value, b, child)
    ensures Leads(source, a + PrefixedAll([token], b), Put(mid, [token], child))
    ensures Stored(at, a + PrefixedAll([token], b)) == Stored(at, a) + Stored(at + [token], b)
  {
    LiftOps(mid, [token], b);
    StoredInto(at, token, b);
    LeadsConcat(source, at, a, PrefixedAll([token], b), mid, Put(mid, [token], child));
  }

  /** `diff`: dispatches on the two kinds. */
  method Diff(source: Json, target: Json, path: string, ghost at: Path) returns (patch: seq<Json>, ghost ops: seq<Op>)
    requires path == Render(at) && SizesFit(source)
    ensures Leads(source, ops, Patched(source, target)) && patch == Stored(at, ops)
    ensures patch == [] <==> Equals(source, target)
    decreases source, 2
  {
    if Equals(source, target) {
      return [], [];
    }
    if source.Array? && target.Array? {
      patch, ops := DiffArrays(source.elems, target.elems, path, at, source);
    } else if source.Object? && target.Object? {
      patch, ops := DiffObjects(source.members, target.members, path, at, source);
    } else {
      // different kinds, or two primitive values
      patch, ops := [ReplaceObject(path, target)], [Replace([], target)];
      assert at + [] == at;
      StoredOne(at, Replace([], target));
      LeadsOne(source, at, [], Replace([], target), source, target);
    }
  }

  lemma ElementStep(x: seq<Json>, y: seq<Json>, i: nat, at: Path, ops: seq<Op>, sub: seq<Op>)
    requires i < |x| < TWO_64 && i < |y|
    requires Leads(Array(x), ops, Array(Mid(x, y, i))) && Leads(x[i], sub, Patched(x[i], y[i]))
    ensures Leads(Array(x), ops + PrefixedAll([Decimal(i)], sub), Array(Mid(x, y, i + 1)))
    ensures Stored(at, ops + PrefixedAll([Decimal(i)], sub)) == Stored(at, ops) + Stored(at + [Decimal(i)], sub)
  {
    var now := Mid(x, y, i);
    ElementAt(now, i);
    LeadsInto(Array(x), at, ops, Decimal(i), sub, Array(now), Patched(x[i], y[i]));
    assert now[i := Patched(x[i], y[i])] == Mid(x, y, i + 1);
  }

  /** First pass over two arrays: the elements at common indices. */
  method DiffElements(x: seq<Json>, y: seq<Json>, path: string, ghost at: Path, ghost source: Json)
    returns (patch: seq<Json>, i: nat, ghost ops: seq<Op>)
    requires source == Array(x) && path == Render(at) && SizesFit(source)
    ensures i == if |x| < |y| then |x| else |y|
    ensures Leads(source, ops, Array(Mid(x, y, i))) && patch == Stored(at, ops)
    ensures patch == [] <==> forall j | 0 <= j < i :: Equals(x[j], y[j])
    decreases source, 0
  {
    patch, ops := [], [];
    i := 0;
    assert Mid(x, y, 0) == x;
    while i < |x| && i < |y|
      invariant i <= |x| && i <= |y|
      invariant Leads(source, ops, Array(Mid(x, y, i))) && patch == Stored(at, ops)
      invariant patch == [] <==> forall j | 0 <= j < i :: Equals(x[j], y[j])
    {
      IndexPath(at, i);
      var sub, subOps := Diff(x[i], y[i], path + "/" + Decimal(i), at + [Decimal(i)]);
      ElementStep(x, y, i, at, ops, subOps);
      ops := ops + PrefixedAll([Decimal(i)], subOps);
      patch := patch + sub;
      i := i + 1;
    }
  }

  lemma RemovalStep(at: Path, lo: nat, i: nat)
    requires lo <= i
    ensures Stored(at, Removals(lo, i + 1)) == [RemoveObject(Render(at) + "/" + Decimal(i))] + Stored(at, Removals(lo, i))
  {
    var op := Remove([Decimal(i)]);
    IndexPath(at, i);
    StoredOne(at, op);
    StoredConcat(at, [op], Removals(lo, i));
  }

  lemma InsertedBehind(first: seq<Json>, rest: seq<Json>, j: Json)
    ensures var p := first + rest; p[..|first|] + [j] + p[|first|..] == first + ([j] + rest)
  {
  }

  /** Second pass: what is left of the source is removed, each operation put in front of the earlier ones. */
  method RemoveRest(x: seq<Json>, first: seq<Json>, start: nat, path: string, ghost at: Path)
    returns (patch: seq<Json>)
    requires start <= |x| && path == Render(at)
    ensures patch == first + Stored(at, Removals(start, |x|))
  {
    patch := first;
    var endIndex := |patch|;
    var i := start;
    while i < |x|
      invariant start <= i <= |x|
      invariant patch == first + Stored(at, Removals(start, i))
    {
      var removal := RemoveObject(path + "/" + Decimal(i));
      RemovalStep(at, start, i);
      InsertedBehind(first, Stored(at, Removals(start, i)), removal);
      patch := patch[..endIndex] + [removal] + patch[endIndex..];
      i := i + 1;
    }
  }

  /** The operations that append the elements of y from number i on. */
  function Additions(y: seq<Json>, i: nat): (ops: seq<Op>)
    requires i <= |y|
    ensures AllLocal(ops)
    decreases |y| - i
  {
    if i == |y| then [] else [Add(["-"], y[i])] + Additions(y, i + 1)
  }

  /** The objects that store them. */
  function AddObjects(path: string, y: seq<Json>, i: nat): (r: seq<Json>)
    requires i <= |y|
    ensures |r| == |y| - i
    decreases |y| - i
  {
    if i == |y| then [] else [AddObject(path + "/-", y[i])] + AddObjects(path, y, i + 1)
  }

  /** Additions append the rest of the target. */
  lemma {:induction false} AdditionsAppend(e: seq<Json>, y: seq<Json>, i: nat)
    requires i <= |y|
    ensures ApplyOps(Array(e), Additions(y, i)) == Applied(Array(e + y[i..]), None)
    decreases |y| - i
  {
    if i == |y| {
      assert e + y[i..] == e;
    } else {
      AdditionApplies(e, y[i]);
      AdditionsAppend(e + [y[i]], y, i + 1);
      assert (e + [y[i]]) + y[i + 1..] == e + y[i..];
      assert Additions(y, i)[1..] == Additions(y, i + 1);
    }
  }

  lemma AdditionStored(at: Path, v: Json)
    ensures OpObject(Prefixed(at, Add(["-"], v))) == AddObject(Render(at) + "/-", v)
  {
    EscapePlain("-");
    ChildPath(at, "-");
    assert Render(at) + "/" + "-" == Render(at) + "/-";
  }

  lemma {:induction false} AdditionsStored(at: Path, y: seq<Json>, i: nat)
    requires i <= |y|
    ensures Stored(at, Additions(y, i)) == AddObjects(Render(at), y, i)
    decreases |y| - i
  {
    if i < |y| {
      AdditionStored(at, y[i]);
      AdditionsStored(at, y, i + 1);
      StoredConcat(at, [Add(["-"], y[i])], Additions(y, i + 1));
      StoredOne(at, Add(["-"], y[i]));
    }
  }

  /** Third pass: what is left of the target is appended. */
  method AddRest(y: seq<Json>, before: seq<Json>, start: nat, path: string, ghost at: Path) returns (patch: seq<Json>)
    requires start <= |y| && path == Render(at)
    ensures patch == before + Stored(at, Additions(y, start)) && |patch| == |before| + |y| - start
  {
    patch := PushAdditions(y, before, start, path);
    AdditionsStored(at, y, start);
  }

  method PushAdditions(y: seq<Json>, before: seq<Json>, start: nat, path: string) returns (patch: seq<Json>)
    requires start <= |y|
    ensures patch == before + AddObjects(path, y, start)
  {
    patch := before;
    var i := start;
    while i < |y|
      invariant start <= i <= |y| && patch + AddObjects(path, y, i) == before + AddObjects(path, y, start)
    {
      Regroup(patch, [AddObject(path + "/-", y[i])], AddObjects(path, y, i + 1));
      patch := patch + [AddObject(path + "/-", y[i])];
      i := i + 1;
    }
    assert patch + [] == patch;
  }

  lemma AppendStep(source: Json, at: Path, ops: seq<Op>, e: seq<Json>, y: seq<Json>, start: nat)
    requires start <= |y| && Leads(source, ops, Array(e))
    ensures Leads(source, ops + Additions(y, start), Array(e + y[start..]))
    ensures Stored(at, ops + Additions(y, start)) == Stored(at, ops) + Stored(at, Additions(y, start))
  {
    AdditionsAppend(e, y, start);
    LeadsConcat(source, at, ops, Additions(y, start), Array(e), Array(e + y[start..]));
  }

  lemma CutStep(source: Json, at: Path, ops: seq<Op>, e: seq<Json>, lo: nat)
    requires lo <= |e| < TWO_64 && Leads(source, ops, Array(e))
    ensures Leads(source, ops + Removals(lo, |e|), Array(e[..lo]))
    ensures Stored(at, ops + Removals(lo, |e|)) == Stored(at, ops) + Stored(at, Removals(lo, |e|))
  {
    RemovalsCut(e, lo);
    LeadsConcat(source, at, ops, Removals(lo, |e|), Array(e), Array(e[..lo]));
  }

  lemma PassesMakeTarget(x: seq<Json>, y: seq<Json>, i: nat)
    requires i == (if |x| < |y| then |x| else |y|) && !Equals(Array(x), Array(y))
    ensures Array(Mid(x, y, i)[..i] + y[i..]) == Patched(Array(x), Array(y))
  {
  }

  method DiffArrays(x: seq<Json>, y: seq<Json>, path: string, ghost at: Path, ghost source: Json)
    returns (patch: seq<Json>, ghost ops: seq<Op>)
    requires source == Array(x) && path == Render(at) && SizesFit(source)
    requires !Equals(Array(x), Array(y))
    ensures Leads(source, ops, Patched(Array(x), Array(y))) && patch == Stored(at, ops)
    ensures patch != []
    decreases source, 1
  {
    var first, i, common := DiffElements(x, y, path, at, source);
    var second := RemoveRest(x, first, i, path, at);
    CutStep(source, at, common, Mid(x, y, i), i);
    patch := AddRest(y, second, i, path, at);
    AppendStep(source, at, common + Removals(i, |x|), Mid(x, y, i)[..i], y, i);
    ops := common + Removals(i, |x|) + Additions(y, i);
    PassesMakeTarget(x, y, i);
  }

  lemma MemberStep(x: map<string, Json>, y: map<string, Json>, done: set<string>, key: string,
                   at: Path, ops: seq<Op>, sub: seq<Op>)
    requires key in x && key in y && key !in done
    requires Leads(Object(x), ops, Object(MidObject(x, y, done))) && Leads(x[key], sub, Patched(x[key], y[key]))
    ensures Leads(Object(x), ops + PrefixedAll([key], sub), Object(MidObject(x, y, done + {key})))
    ensures Stored(at, ops + PrefixedAll([key], sub)) == Stored(at, ops) + Stored(at + [key], sub)
  {
    var now := MidObject(x, y, done);
    MemberOps(now, key);
    LeadsInto(Object(x), at, ops, key, sub, Object(now), Patched(x[key], y[key]));
    MidPatched(x, y, done, key);
  }

  lemma MidPatched(x: map<string, Json>, y: map<string, Json>, done: set<string>, key: string)
    requires key in x && key in y && key !in done
    ensures MidObject(x, y, done)[key := Patched(x[key], y[key])] == MidObject(x, y, done + {key})
  {
  }

  lemma MidDropped(x: map<string, Json>, y: map<string, Json>, done: set<string>, key: string)
    requires key in x && key !in y && key !in done
    ensures MidObject(x, y, done) - {key} == MidObject(x, y, done + {key})
  {
  }

  lemma EndGained(x: map<string, Json>, y: map<string, Json>, done: set<string>, key: string)
    requires key !in x && key in y && key !in done
    ensures EndObject(x, y, done)[key := y[key]] == EndObject(x, y, done + {key})
  {
  }

  lemma DropStep(x: map<string, Json>, y: map<string, Json>, done: set<string>, key: string, at: Path, ops: seq<Op>)
    requires key in x && key !in y && key !in done
    requires Leads(Object(x), ops, Object(MidObject(x, y, done)))
    ensures Leads(Object(x), ops + [Remove([key])], Object(MidObject(x, y, done + {key})))
    ensures Stored(at, ops + [Remove([key])]) == Stored(at, ops) + [RemoveObject(Render(at) + "/" + Escape(key))]
  {
    var now := MidObject(x, y, done);
    MemberOps(now, key);
    ChildPath(at, key);
    MidDropped(x, y, done, key);
    LeadsOne(Object(x), at, ops, Remove([key]), Object(now), Object(now - {key}));
  }

  lemma GainStep(x: map<string, Json>, y: map<string, Json>, done: set<string>, key: string, at: Path, ops: seq<Op>)
    requires key !in x && key in y && key !in done
    requires Leads(Object(x), ops, Object(EndObject(x, y, done)))
    ensures Leads(Object(x), ops + [Add([key], y[key])], Object(EndObject(x, y, done + {key})))
    ensures Stored(at, ops + [Add([key], y[key])]) == Stored(at, ops) + [AddObject(Render(at) + "/" + Escape(key), y[key])]
  {
    var now := EndObject(x, y, done);
    MemberOps(now, key);
    ChildPath(at, key);
    EndGained(x, y, done, key);
    LeadsOne(Object(x), at, ops, Add([key], y[key]), Object(now), Object(now[key := y[key]]));
  }

  /** First pass over two objects: the source's members, in any order. */
  method DiffMembers(x: map<string, Json>, y: map<string, Json>, path: string, ghost at: Path, ghost source: Json)
    returns (patch: seq<Json>, ghost ops: seq<Op>)
    requires source == Object(x) && path == Render(at) && SizesFit(source)
    ensures Leads(source, ops, Object(MidObject(x, y, x.Keys))) && patch == Stored(at, ops)
    ensures patch == [] <==> forall k | k in x.Keys :: k in y && Equals(x[k], y[k])
    decreases source, 0
  {
    patch, ops := [], [];
    var keys := x.Keys;
    ghost var done: set<string> := {};
    assert MidObject(x, y, {}) == x;
    while keys != {}
      invariant keys !! done && keys + done == x.Keys
      invariant Leads(source, ops, Object(MidObject(x, y, done))) && patch == Stored(at, ops)
      invariant patch == [] <==> forall k | k in done :: k in y && Equals(x[k], y[k])
      decreases keys
    {
      var key :| key in keys;
      var pathKey := path + "/" + Escape(key);
      if key in y {
        ChildPath(at, key);
        var sub, subOps := Diff(x[key], y[key], pathKey, at + [key]);
        MemberStep(x, y, done, key, at, ops, subOps);
        patch, ops := patch + sub, ops + PrefixedAll([key], subOps);
      } else {
        DropStep(x, y, done, key, at, ops);
        patch, ops := patch + [RemoveObject(pathKey)], ops + [Remove([key])];
      }
      keys, done := keys - {key}, done + {key};
    }
    assert done == x.Keys;
  }

  /** Second pass: the target's members the source lacks, in any order. */
  method AddMembers(x: map<string, Json>, y: map<string, Json>, first: seq<Json>, path: string,
                    ghost at: Path, ghost before: seq<Op>)
    returns (patch: seq<Json>, ghost ops: seq<Op>)
    requires path == Render(at)
    requires Leads(Object(x), before, Object(EndObject(x, y, {}))) && first == Stored(at, before)
    ensures Leads(Object(x), ops, Object(EndObject(x, y, y.Keys))) && patch == Stored(at, ops)
    ensures patch == [] <==> first == [] && y.Keys <= x.Keys
  {
    patch, ops := first, before;
    var keys := y.Keys;
    ghost var done: set<string> := {};
    while keys != {}
      invariant keys !! done && keys + done == y.Keys
      invariant Leads(Object(x), ops, Object(EndObject(x, y, done))) && patch == Stored(at, ops)
      invariant patch == [] <==> first == [] && done <= x.Keys
      decreases keys
    {
      var key :| key in keys;
      if key !in x {
        GainStep(x, y, done, key, at, ops);
        patch := patch + [AddObject(path + "/" + Escape(key), y[key])];
        ops := ops + [Add([key], y[key])];
      } else {
        assert EndObject(x, y, done) == EndObject(x, y, done + {key});
      }
      keys, done := keys - {key}, done + {key};
    }
    assert done == y.Keys;
  }

  method DiffObjects(x: map<string, Json>, y: map<string, Json>, path: string, ghost at: Path, ghost source: Json)
    returns (patch: seq<Json>, ghost ops: seq<Op>)
    requires source == Object(x) && path == Render(at) && SizesFit(source)
    requires !Equals(Object(x), Object(y))
    ensures Leads(source, ops, Patched(Object(x), Object(y))) && patch == Stored(at, ops)
    ensures patch != []
    decreases source, 1
  {
    patch, ops := DiffMembers(x, y, path, at, source);
    assert MidObject(x, y, x.Keys) == EndObject(x, y, {});
    assert EndObject(x, y, y.Keys) == Patched(Object(x), Object(y)).members;
    patch, ops := AddMembers(x, y, patch, path, at, ops);
  }

  // -------------------------------------------------------------- the round trip

  /**
   The law of `diff` and `patch`: for every source and target no operation of the
   patch fails and the patched source equals the target; it is the very same value
   exactly when no two numbers of different kinds were taken for equal.
   */
  method DiffThenPatch(source: Json, target: Json) returns (patch: Json, result: Json, error: Option<Error>)
    requires SizesFit(source)
    ensures Applied(result, error) == ApplyPatch(source, patch)
    ensures error.None? && Equals(result, target)
    ensures result == target <==> NoCoercion(source, target)
    ensures patch == Array([]) <==> Equals(source, target)
  {
    var objects, relative := Diff(source, target, "", []);
    ApplyStored(source, relative);
    PatchedEquals(source, target);
    PatchedExactly(source, target);
    patch := Array(objects);
    var doc := new Document(source);
    error := doc.PatchInplace(patch);
    result := doc.value;
  }
}
