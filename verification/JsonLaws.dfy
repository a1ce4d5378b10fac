/**
 What patch operations do to a document, told by what is found in it afterwards
 (RFC 6902, RFC 6901 and RFC 7396), and when two values are equal.
 */
module JsonLaws {
  import opened Wrappers
  import opened Digits
  import opened JsonValue
  import opened JsonPointer
  import opened JsonPatch
  import opened JsonDiff

  // ------------------------------------------------------------------ indices

  lemma DecimalShift(n: nat, d: nat)
    requires n > 0 && d < 10
    ensures Decimal(10 * n + d) == Decimal(n) + [Digit(d)]
  {
    assert (10 * n + d) / 10 == n && (10 * n + d) % 10 == d;
  }

  lemma DigitOf(c: char)
    requires IsDigit(c)
    ensures Digit((c - '0') as int) == c
  {
  }

  /** A digit string without a leading zero is the decimal form of its value. */
  lemma {:induction false} DecimalUnique(s: string)
    requires s != "" && AllDigits(s) && (s[0] == '0' ==> s == "0")
    ensures Decimal(DecimalValue(s)) == s
    decreases |s|
  {
    var init, last := s[..|s| - 1], s[|s| - 1];
    DigitOf(last);
    assert s == init + [last];
    if init == "" {
      DecimalOne(last);
    } else {
      DecimalPositive(init);
      DecimalUnique(init);
      DecimalShift(DecimalValue(init), (last - '0') as int);
    }
  }

  lemma DecimalOne(c: char)
    requires IsDigit(c)
    ensures Decimal(DecimalValue([c])) == [c]
  {
    assert [c][..0] == "";
    DigitOf(c);
  }

  /** A number without a leading zero is not zero. */
  lemma {:induction false} DecimalPositive(s: string)
    requires s != "" && AllDigits(s) && s[0] != '0'
    ensures DecimalValue(s) > 0
    decreases |s|
  {
    var init := s[..|s| - 1];
    assert IsDigit(s[0]) && IsDigit(s[|s| - 1]);
    if init != "" {
      DecimalPositive(init);
    }
  }

  /** A token names the array element n exactly when it is the decimal form of n, and n is no `npos`. */
  lemma IndexExactly(token: string, n: nat)
    ensures ArrayIndex(token) == Ok(n) <==> token == Decimal(n) && n < TWO_64 - 1
  {
    if n < TWO_64 - 1 {
      IndexRoundTrip(n);
    }
    if ArrayIndex(token).Ok? {
      DecimalUnique(token);
    }
  }

  /** The exception for what is no index: a leading zero, something else than a digit, or too large a number. */
  lemma IndexRefused(token: string)
    ensures |token| > 1 && token[0] == '0' ==> ArrayIndex(token) == Err(ParseError(106))
    ensures |token| > 1 && !IsDigit(token[0]) ==> ArrayIndex(token) == Err(ParseError(109))
    ensures |token| <= 1 && !(token != "" && IsDigit(token[0])) ==> ArrayIndex(token) == Err(OutOfRange(404))
    ensures |token| > 1 && '1' <= token[0] <= '9' && !AllDigits(token) ==> ArrayIndex(token) == Err(OutOfRange(404))
    ensures token != "" && AllDigits(token) && token[0] != '0' && DecimalValue(token) >= 0x1_0000_0000_0000_0000 ==>
              ArrayIndex(token) == Err(OutOfRange(404))
    ensures token != "" && AllDigits(token) && token[0] != '0' && DecimalValue(token) == 0xFFFF_FFFF_FFFF_FFFF ==>
              ArrayIndex(token) == Err(OutOfRange(410))
  {
  }

  // ---------------------------------------------------------------- inserting

  /** `after` is `before` with v at place i and everything from there on one place higher. */
  ghost predicate InsertedAt(before: seq<Json>, after: seq<Json>, i: nat, v: Json) {
    && i <= |before| && |after| == |before| + 1
    && after[i] == v
    && (forall k | 0 <= k < i :: after[k] == before[k])
    && (forall k | i <= k < |before| :: after[k + 1] == before[k])
  }

  lemma ParentOf(at: Path, token: string)
    ensures Last(at + [token]) == token && Init(at + [token]) == at
  {
  }

  /** The first token of a resolvable path is resolvable, as `operation_add` demands. */
  lemma TopResolves(doc: Json, at: Path, token: string)
    requires At(doc, at).Ok?
    ensures |at + [token]| > 1 ==> At(doc, [(at + [token])[0]]).Ok?
  {
    if at != [] {
      AtTop(doc, at);
    }
  }

  lemma AddBelow(doc: Json, at: Path, token: string, v: Json)
    requires At(doc, at).Ok?
    ensures AddAt(doc, at + [token], v).Ok? <==> AddAt(At(doc, at).value, [token], v).Ok?
    ensures AddAt(doc, at + [token], v).Ok? ==>
              AddAt(doc, at + [token], v).value == Put(doc, at, AddAt(At(doc, at).value, [token], v).value)
    ensures AddAt(doc, at + [token], v).Err? ==>
              AddAt(doc, at + [token], v).error == AddAt(At(doc, at).value, [token], v).error
  {
    ParentOf(at, token);
    ParentOf([], token);
    assert [] + [token] == [token];
    TopResolves(doc, at, token);
  }

  lemma RemoveBelow(doc: Json, at: Path, token: string)
    requires At(doc, at).Ok?
    ensures RemoveAt(doc, at + [token]).Ok? <==> RemoveAt(At(doc, at).value, [token]).Ok?
    ensures RemoveAt(doc, at + [token]).Ok? ==>
              RemoveAt(doc, at + [token]).value == Put(doc, at, RemoveAt(At(doc, at).value, [token]).value)
    ensures RemoveAt(doc, at + [token]).Err? ==>
              RemoveAt(doc, at + [token]).error == RemoveAt(At(doc, at).value, [token]).error
  {
    ParentOf(at, token);
    ParentOf([], token);
    assert [] + [token] == [token];
  }

  /**
   An add at an index of an array, wherever the array is, inserts there: nothing is
   overwritten, nothing outside the array changes, and removing at the same pointer
   gives the old document back.
   */
  lemma AddInserts(doc: Json, at: Path, i: nat, v: Json)
    requires At(doc, at).Ok? && At(doc, at).value.Array? && i < TWO_64 - 1
    requires i <= |At(doc, at).value.elems|
    ensures var added := AddAt(doc, at + [Decimal(i)], v);
            && added.Ok?
            && At(added.value, at).Ok? && At(added.value, at).value.Array?
            && InsertedAt(At(doc, at).value.elems, At(added.value, at).value.elems, i, v)
            && Put(added.value, at, At(doc, at).value) == doc
            && RemoveAt(added.value, at + [Decimal(i)]) == Ok(doc)
  {
    var list := At(doc, at).value;
    AddBelow(doc, at, Decimal(i), v);
    InsertedDirectly(list, i, v);
    var list' := AddAt(list, [Decimal(i)], v).value;
    Rewritten(doc, at, list');
    RemoveBelow(Put(doc, at, list'), at, Decimal(i));
  }

  lemma Rewritten(doc: Json, at: Path, v: Json)
    requires At(doc, at).Ok?
    ensures At(Put(doc, at, v), at) == Ok(v)
    ensures Put(Put(doc, at, v), at, At(doc, at).value) == doc
  {
    PutGet(doc, at, v);
    PutPut(doc, at, v, At(doc, at).value);
  }

  lemma InsertedSeq(e: seq<Json>, i: nat, v: Json)
    requires i <= |e|
    ensures InsertedAt(e, e[..i] + [v] + e[i..], i, v)
    ensures (e[..i] + [v] + e[i..])[..i] + (e[..i] + [v] + e[i..])[i + 1..] == e
  {
    var f := e[..i] + [v] + e[i..];
    assert f[..i] == e[..i] && f[i + 1..] == e[i..];
  }

  lemma InsertedDirectly(list: Json, i: nat, v: Json)
    requires list.Array? && i < TWO_64 - 1 && i <= |list.elems|
    ensures var added := AddAt(list, [Decimal(i)], v);
            && added.Ok? && added.value.Array?
            && InsertedAt(list.elems, added.value.elems, i, v)
            && RemoveAt(added.value, [Decimal(i)]) == Ok(list)
  {
    IndexRoundTrip(i);
    ParentOf([], Decimal(i));
    assert [] + [Decimal(i)] == [Decimal(i)];
    InsertedSeq(list.elems, i, v);
  }

  /** An add at "-" appends, an index behind the end is refused, and so is every other token. */
  lemma AddAppends(doc: Json, at: Path, token: string, v: Json)
    requires At(doc, at).Ok? && At(doc, at).value.Array?
    ensures var e, added := At(doc, at).value.elems, AddAt(doc, at + [token], v);
            && (token == "-" ==> added == Ok(Put(doc, at, Array(e + [v]))))
            && (token != "-" && ArrayIndex(token).Err? ==> added == Err(ArrayIndex(token).error))
            && (forall n: nat | n > |e| && ArrayIndex(token) == Ok(n) :: added == Err(OutOfRange(401)))
  {
    AddBelow(doc, at, token, v);
    ParentOf([], token);
    assert [] + [token] == [token];
    IndexNotDash(token);
  }

  lemma IndexNotDash(token: string)
    ensures ArrayIndex(token).Ok? ==> token != "-"
  {
    assert !IsDigit("-"[0]);
  }

  /** An add below an object sets that member alone; below null it makes an object. */
  lemma AddSetsMember(doc: Json, at: Path, key: string, v: Json)
    requires At(doc, at).Ok? && (At(doc, at).value.Object? || At(doc, at).value.Null?)
    ensures var added := AddAt(doc, at + [key], v);
            && added.Ok? && At(added.value, at).Ok? && At(added.value, at).value.Object?
            && Put(added.value, at, At(doc, at).value) == doc
            && At(added.value, at + [key]) == Ok(v)
            && forall k | k != key ::
                 Found(At(added.value, at).value, [k]) == Found(At(doc, at).value, [k])
  {
    var parent := At(doc, at).value;
    AddBelow(doc, at, key, v);
    SetDirectly(parent, key, v);
    var parent' := AddAt(parent, [key], v).value;
    Rewritten(doc, at, parent');
    AtConcat(Put(doc, at, parent'), at, [key]);
  }

  lemma SetDirectly(parent: Json, key: string, v: Json)
    requires parent.Object? || parent.Null?
    ensures var added := AddAt(parent, [key], v);
            && added.Ok? && added.value.Object?
            && At(added.value, [key]) == Ok(v)
            && forall k | k != key :: Found(added.value, [k]) == Found(parent, [k])
  {
    ParentOf([], key);
    assert [] + [key] == [key];
    var added := AddAt(parent, [key], v);
    assert added.Ok? && added.value.Object?;
    AtOne(added.value, key);
  }

  /** Nothing can be added below another value, or below what is not there; the root is replaced. */
  lemma AddRefused(doc: Json, at: Path, token: string, v: Json)
    ensures At(doc, at).Err? ==> AddAt(doc, at + [token], v) == Err(At(doc, at).error)
    ensures At(doc, at).Ok? && KindOf(At(doc, at).value) in {KBoolean, KInteger, KUnsigned, KFloat, KString, KBinary} ==>
              AddAt(doc, at + [token], v) == Err(AssertionFailed)
    ensures AddAt(doc, [], v) == Ok(v)
  {
    ParentOf(at, token);
    if At(doc, at).Ok? {
      AddBelow(doc, at, token, v);
      ParentOf([], token);
      assert [] + [token] == [token];
    } else {
      assert (at + [token])[0] == at[0];
      if At(doc, [at[0]]).Err? {
        TopFails(doc, at);
      }
    }
  }

  lemma TopFails(doc: Json, at: Path)
    requires at != [] && At(doc, [at[0]]).Err?
    ensures At(doc, at) == Err(At(doc, [at[0]]).error)
  {
    assert [at[0]][1..] == [];
  }

  // ----------------------------------------------------------------- removing

  /**
   A remove at an index of an array closes the gap, and adding what was there at the
   same pointer gives the old document back.
   */
  lemma RemoveCloses(doc: Json, at: Path, i: nat)
    requires At(doc, at).Ok? && At(doc, at).value.Array? && i < TWO_64 - 1 && i < |At(doc, at).value.elems|
    ensures var removed, e := RemoveAt(doc, at + [Decimal(i)]), At(doc, at).value.elems;
            && removed.Ok?
            && At(removed.value, at).Ok? && At(removed.value, at).value.Array?
            && InsertedAt(At(removed.value, at).value.elems, e, i, e[i])
            && Put(removed.value, at, At(doc, at).value) == doc
            && AddAt(removed.value, at + [Decimal(i)], e[i]) == Ok(doc)
  {
    var list := At(doc, at).value;
    RemoveBelow(doc, at, Decimal(i));
    RemovedDirectly(list, i);
    var list' := RemoveAt(list, [Decimal(i)]).value;
    Rewritten(doc, at, list');
    AddBelow(Put(doc, at, list'), at, Decimal(i), list.elems[i]);
  }

  lemma RemovedSeq(e: seq<Json>, i: nat)
    requires i < |e|
    ensures InsertedAt(e[..i] + e[i + 1..], e, i, e[i])
    ensures (e[..i] + e[i + 1..])[..i] + [e[i]] + (e[..i] + e[i + 1..])[i..] == e
  {
    var f := e[..i] + e[i + 1..];
    assert f[..i] == e[..i] && f[i..] == e[i + 1..];
  }

  lemma RemovedDirectly(list: Json, i: nat)
    requires list.Array? && i < TWO_64 - 1 && i < |list.elems|
    ensures var removed, e := RemoveAt(list, [Decimal(i)]), list.elems;
            && removed.Ok? && removed.value.Array?
            && InsertedAt(removed.value.elems, e, i, e[i])
            && AddAt(removed.value, [Decimal(i)], e[i]) == Ok(list)
  {
    IndexRoundTrip(i);
    ParentOf([], Decimal(i));
    assert [] + [Decimal(i)] == [Decimal(i)];
    RemovedSeq(list.elems, i);
  }

  /** A remove below an object drops that member alone; a member that is not there is refused. */
  lemma RemoveDropsMember(doc: Json, at: Path, key: string)
    requires At(doc, at).Ok? && At(doc, at).value.Object?
    ensures var members, removed := At(doc, at).value.members, RemoveAt(doc, at + [key]);
            if key !in members then removed == Err(OutOfRange(403))
            else
              && removed.Ok? && At(removed.value, at).Ok? && At(removed.value, at).value.Object?
              && Put(removed.value, at, At(doc, at).value) == doc
              && At(removed.value, at + [key]).Err?
              && AddAt(removed.value, at + [key], members[key]) == Ok(doc)
              && forall k | k != key :: Found(At(removed.value, at).value, [k]) == Found(At(doc, at).value, [k])
  {
    var parent := At(doc, at).value;
    RemoveBelow(doc, at, key);
    DropDirectly(parent, key);
    if key in parent.members {
      var parent' := RemoveAt(parent, [key]).value;
      Rewritten(doc, at, parent');
      AtConcat(Put(doc, at, parent'), at, [key]);
      AddBelow(Put(doc, at, parent'), at, key, parent.members[key]);
    }
  }

  lemma DropDirectly(parent: Json, key: string)
    requires parent.Object?
    ensures key !in parent.members ==> RemoveAt(parent, [key]) == Err(OutOfRange(403))
    ensures key in parent.members ==>
              var removed := RemoveAt(parent, [key]);
              && removed.Ok? && removed.value.Object?
              && At(removed.value, [key]).Err?
              && AddAt(removed.value, [key], parent.members[key]) == Ok(parent)
              && forall k | k != key :: Found(removed.value, [k]) == Found(parent, [k])
  {
    ParentOf([], key);
    assert [] + [key] == [key];
    if key in parent.members {
      assert (parent.members - {key})[key := parent.members[key]] == parent.members;
    }
  }

  /** What cannot be removed: the root, an index at or behind the end, and what is below nothing. */
  lemma RemoveRefused(doc: Json, at: Path, token: string)
    ensures RemoveAt(doc, []) == Err(OutOfRange(405))
    ensures At(doc, at).Err? ==> RemoveAt(doc, at + [token]) == Err(At(doc, at).error)
    ensures At(doc, at).Ok? && At(doc, at).value.Array? ==>
              && (ArrayIndex(token).Err? ==> RemoveAt(doc, at + [token]) == Err(ArrayIndex(token).error))
              && (forall n: nat | n >= |At(doc, at).value.elems| && ArrayIndex(token) == Ok(n) ::
                    RemoveAt(doc, at + [token]) == Err(OutOfRange(401)))
    ensures At(doc, at).Ok? && !At(doc, at).value.Array? && !At(doc, at).value.Object? ==>
              RemoveAt(doc, at + [token]) == Ok(doc)
  {
    ParentOf(at, token);
    if At(doc, at).Ok? {
      PutGet(doc, at, At(doc, at).value);
    }
  }

  // ------------------------------------------------------------------- frames

  /** Two paths that part at some token: neither leads through the place of the other. */
  predicate Apart(p: Path, q: Path)
    decreases |p|
  {
    p != [] && q != [] && (p[0] != q[0] || Apart(p[1..], q[1..]))
  }

  /** Writing at one place leaves every place apart from it as it was, errors included. */
  lemma {:induction false} PutElsewhere(doc: Json, p: Path, q: Path, v: Json)
    requires At(doc, p).Ok? && Apart(p, q)
    ensures At(Put(doc, p, v), q) == At(doc, q)
    decreases |p|
  {
    match doc
    case Object(members) =>
      if p[0] == q[0] {
        PutElsewhere(members[p[0]], p[1..], q[1..], v);
      }
    case Array(elems) =>
      if p[0] == q[0] {
        PutElsewhere(elems[ArrayIndex(p[0]).value], p[1..], q[1..], v);
      } else {
        IndicesDiffer(p[0], q[0]);
      }
    case _ =>
  }

  lemma IndicesDiffer(a: string, b: string)
    requires a != b && ArrayIndex(a).Ok?
    ensures ArrayIndex(b) != ArrayIndex(a)
  {
    var i := ArrayIndex(a).value;
    IndexExactly(a, i);
    IndexExactly(b, i);
  }

  /** One more token: what is found, and the exception for what is not. */
  lemma AtStep(doc: Json, at: Path, token: string)
    ensures At(doc, at).Err? ==> At(doc, at + [token]) == Err(At(doc, at).error)
    ensures At(doc, at).Ok? ==>
              var parent, found := At(doc, at).value, At(doc, at + [token]);
              && (parent.Object? ==>
                    found == if token in parent.members then Ok(parent.members[token]) else Err(OutOfRange(403)))
              && (parent.Array? && token == "-" ==> found == Err(OutOfRange(402)))
              && (parent.Array? && token != "-" && ArrayIndex(token).Err? ==> found == Err(ArrayIndex(token).error))
              && (parent.Array? ==> forall i: nat | token == Decimal(i) && i < TWO_64 - 1 ::
                    found == if i < |parent.elems| then Ok(parent.elems[i]) else Err(OutOfRange(401)))
              && (!parent.Object? && !parent.Array? ==> found == Err(OutOfRange(404)))
  {
    if At(doc, at).Ok? {
      AtConcat(doc, at, [token]);
      AtOne(At(doc, at).value, token);
    } else {
      ErrorStays(doc, at, [token]);
    }
  }

  lemma AtOne(parent: Json, token: string)
    ensures var found := At(parent, [token]);
            && (parent.Object? ==>
                  found == if token in parent.members then Ok(parent.members[token]) else Err(OutOfRange(403)))
            && (parent.Array? && token == "-" ==> found == Err(OutOfRange(402)))
            && (parent.Array? && token != "-" && ArrayIndex(token).Err? ==> found == Err(ArrayIndex(token).error))
            && (parent.Array? ==> forall i: nat | token == Decimal(i) && i < TWO_64 - 1 ::
                  found == if i < |parent.elems| then Ok(parent.elems[i]) else Err(OutOfRange(401)))
            && (!parent.Object? && !parent.Array? ==> found == Err(OutOfRange(404)))
  {
    assert [token][1..] == [];
    IndexNotDash(token);
    forall i: nat | token == Decimal(i) && i < TWO_64 - 1 ensures ArrayIndex(token) == Ok(i) {
      IndexRoundTrip(i);
    }
  }

  lemma {:induction false} ErrorStays(doc: Json, a: Path, b: Path)
    requires At(doc, a).Err?
    ensures At(doc, a + b) == Err(At(doc, a).error)
    decreases |a|
  {
    assert (a + b)[0] == a[0] && (a + b)[1..] == a[1..] + b;
    match doc
    case Object(members) =>
      if a[0] in members {
        ErrorStays(members[a[0]], a[1..], b);
      }
    case Array(elems) =>
      if a[0] != "-" && ArrayIndex(a[0]).Ok? && ArrayIndex(a[0]).value < |elems| {
        ErrorStays(elems[ArrayIndex(a[0]).value], a[1..], b);
      }
    case _ =>
  }

  // ------------------------------------------------- operations by other operations

  /** A replace is a remove followed by an add at the same place (section 4.3 of RFC 6902). */
  lemma ReplaceIsRemoveThenAdd(doc: Json, at: Path, token: string, v: Json)
    requires At(doc, at + [token]).Ok?
    ensures ApplyOp(doc, Replace(at + [token], v)).error.None?
    ensures ApplyOp(doc, Replace(at + [token], v)) == ApplyOps(doc, [Remove(at + [token]), Add(at + [token], v)])
  {
    AtStep(doc, at, token);
    var parent := At(doc, at).value;
    AtConcat(doc, at, [token]);
    PutConcat(doc, at, [token], v);
    ReplaceDirectly(parent, token, v);
    var less := RemoveAt(parent, [token]).value;
    RemoveBelow(doc, at, token);
    Rewritten(doc, at, less);
    AddBelow(Put(doc, at, less), at, token, v);
    PutPut(doc, at, less, Put(parent, [token], v));
    TwoOps(doc, Remove(at + [token]), Add(at + [token], v));
  }

  lemma ReplaceDirectly(parent: Json, token: string, v: Json)
    requires At(parent, [token]).Ok?
    ensures RemoveAt(parent, [token]).Ok?
    ensures AddAt(RemoveAt(parent, [token]).value, [token], v) == Ok(Put(parent, [token], v))
  {
    ParentOf([], token);
    assert [] + [token] == [token] && [token][1..] == [];
    if parent.Object? {
      assert (parent.members - {token})[token := v] == parent.members[token := v];
    } else {
      var e, i := parent.elems, ArrayIndex(token).value;
      IndexNotDash(token);
      ReplacedSeq(e, i, v);
    }
  }

  lemma ReplacedSeq(e: seq<Json>, i: nat, v: Json)
    requires i < |e|
    ensures (e[..i] + e[i + 1..])[..i] + [v] + (e[..i] + e[i + 1..])[i..] == e[i := v]
  {
    var f := e[..i] + e[i + 1..];
    assert f[..i] == e[..i] && f[i..] == e[i + 1..];
  }

  lemma TwoOps(doc: Json, a: Op, b: Op)
    ensures ApplyOp(doc, a).error.None? ==> ApplyOps(doc, [a, b]) == ApplyOp(ApplyOp(doc, a).doc, b)
    ensures ApplyOp(doc, a).error.Some? ==> ApplyOps(doc, [a, b]) == ApplyOp(doc, a)
  {
    assert [a, b][1..] == [b];
    OneOp(ApplyOp(doc, a).doc, b);
  }

  lemma OneOp(doc: Json, a: Op)
    ensures ApplyOps(doc, [a]) == ApplyOp(doc, a)
  {
    assert [a][1..] == [];
    assert ApplyOps(ApplyOp(doc, a).doc, []) == Applied(ApplyOp(doc, a).doc, None);
  }

  /** A move is a remove followed by an add of the value just removed (section 4.4 of RFC 6902). */
  lemma MoveIsRemoveThenAdd(doc: Json, from: Path, path: Path)
    ensures At(doc, from).Err? ==> ApplyOp(doc, Move(from, path)) == Applied(doc, Some(At(doc, from).error))
    ensures At(doc, from).Ok? ==>
              ApplyOp(doc, Move(from, path)) == ApplyOps(doc, [Remove(from), Add(path, At(doc, from).value)])
  {
    if At(doc, from).Ok? {
      TwoOps(doc, Remove(from), Add(path, At(doc, from).value));
    }
  }

  /** A copy is an add of the value at the source place (section 4.5 of RFC 6902). */
  lemma CopyIsAdd(doc: Json, from: Path, path: Path)
    ensures At(doc, from).Err? ==> ApplyOp(doc, Copy(from, path)) == Applied(doc, Some(At(doc, from).error))
    ensures At(doc, from).Ok? ==>
              ApplyOp(doc, Copy(from, path)) == ApplyOp(doc, Add(path, At(doc, from).value))
  {
  }

  /** A test succeeds exactly when an equal value is there, and never changes the document. */
  lemma TestExactly(doc: Json, path: Path, v: Json)
    ensures ApplyOp(doc, Test(path, v)).doc == doc
    ensures ApplyOp(doc, Test(path, v)).error.None? <==> At(doc, path).Ok? && Equals(At(doc, path).value, v)
    ensures ApplyOp(doc, Test(path, v)).error.Some? && (At(doc, path).Err? ==> At(doc, path).error.OutOfRange?) ==>
              ApplyOp(doc, Test(path, v)).error == Some(OtherError(501))
    ensures At(doc, path).Err? && !At(doc, path).error.OutOfRange? ==>
              ApplyOp(doc, Test(path, v)).error == Some(At(doc, path).error)
  {
  }

  /** An operation that fails changes nothing, but for a move whose second half fails. */
  lemma FailureKeeps(doc: Json, op: Op)
    ensures ApplyOp(doc, op).error.Some? && !op.Move? ==> ApplyOp(doc, op).doc == doc
    ensures op.Move? && ApplyOp(doc, op).error.Some? && RemoveAt(doc, op.from).Ok? && At(doc, op.from).Ok? ==>
              ApplyOp(doc, op).doc == RemoveAt(doc, op.from).value
  {
  }

  // ----------------------------------------------------------------- pointers

  /** Escaping works character by character. */
  lemma {:induction false} EscapeConcat(a: string, b: string)
    ensures Escape(a + b) == Escape(a) + Escape(b)
    decreases |a|
  {
    if a == "" {
      assert a + b == b;
    } else {
      var c, rest := a[0], a[1..];
      EscapeConcat(rest, b);
      assert a == [c] + rest && a + b == [c] + (rest + b);
      EscapeCons(c, rest);
      EscapeCons(c, rest + b);
      Regroup(EscapeChar(c), Escape(rest), Escape(b));
    }
  }

  lemma EscapeOne(c: char)
    ensures Escape([c]) == if c == '~' then "~0" else if c == '/' then "~1" else [c]
  {
    EscapeCons(c, "");
    assert [c] + "" == [c] && EscapeChar(c) + "" == EscapeChar(c);
  }

  /** A token without '/' whose escapes are valid is the escape of what it stands for. */
  lemma {:induction false} EscapeUnescape(raw: string)
    requires EscapesValid(raw) && '/' !in raw
    ensures Escape(Unescape(raw)) == raw
    decreases |raw|
  {
    if raw != "" {
      var n := if raw[0] == '~' then 2 else 1;
      assert raw[0] in raw;
      var c := if raw[0] != '~' then raw[0] else if raw[1] == '0' then '~' else '/';
      var rest := raw[n..];
      assert raw == EscapeChar(c) + rest;
      forall i | 0 <= i < |rest| && rest[i] == '~'
        ensures i + 1 < |rest| && (rest[i + 1] == '0' || rest[i + 1] == '1')
      {
        assert raw[n + i] == '~';
      }
      EscapeUnescape(rest);
      UnescapeCons(c, rest);
      EscapeCons(c, Unescape(rest));
    }
  }

  lemma {:induction false} RenderFirst(token: string, tokens: seq<string>)
    ensures Render([token] + tokens) == "/" + Escape(token) + Render(tokens)
  {
    var all := [token] + tokens;
    if tokens == [] {
      assert all == [token];
      RenderOne(token);
      assert "/" + Escape(token) + "" == "/" + Escape(token);
    } else {
      var init, last := tokens[..|tokens| - 1], tokens[|tokens| - 1];
      assert all[..|all| - 1] == [token] + init;
      RenderFirst(token, init);
      RegroupText("/" + Escape(token), Render(init), "/", Escape(last));
    }
  }

  lemma RegroupText(a: string, b: string, c: string, d: string)
    ensures a + b + c + d == a + (b + c + d)
  {
  }

  /** Escapes do not reach over a slash. */
  lemma EscapesCut(s: string, k: nat)
    requires k <= |s| && (k < |s| ==> s[k] == '/')
    ensures EscapesValid(s) <==> EscapesValid(s[..k]) && EscapesValid(s[k..])
  {
    if EscapesValid(s) {
      EscapesHead(s, k);
      EscapesDrop(s, k);
    }
    if EscapesValid(s[..k]) && EscapesValid(s[k..]) {
      EscapesJoin(s[..k], s[k..]);
      assert s[..k] + s[k..] == s;
    }
  }

  lemma EscapesHead(s: string, k: nat)
    requires EscapesValid(s) && k <= |s| && (k < |s| ==> s[k] == '/')
    ensures EscapesValid(s[..k])
  {
    forall i | 0 <= i < k && s[..k][i] == '~' ensures i + 1 < k && (s[..k][i + 1] == '0' || s[..k][i + 1] == '1') {
      assert s[i] == '~';
    }
  }

  lemma EscapesDrop(s: string, k: nat)
    requires EscapesValid(s) && k <= |s|
    ensures EscapesValid(s[k..])
  {
    var r := s[k..];
    forall i | 0 <= i < |r| && r[i] == '~' ensures i + 1 < |r| && (r[i + 1] == '0' || r[i + 1] == '1') {
      assert s[k + i] == '~' && (k + i + 1 < |s| ==> r[i + 1] == s[k + i + 1]);
    }
  }

  lemma EscapesJoin(a: string, b: string)
    requires EscapesValid(a) && EscapesValid(b)
    ensures EscapesValid(a + b)
  {
    var s := a + b;
    forall i | 0 <= i < |s| && s[i] == '~' ensures i + 1 < |s| && (s[i + 1] == '0' || s[i + 1] == '1') {
      if i < |a| {
        assert a[i] == '~' && s[i + 1] == a[i + 1];
      } else {
        assert b[i - |a|] == '~' && s[i + 1] == b[i - |a| + 1];
      }
    }
  }

  lemma EscapesBehind(s: string)
    requires s != "" && s[0] != '~'
    ensures EscapesValid(s) <==> EscapesValid(s[1..])
  {
    if EscapesValid(s) {
      EscapesDrop(s, 1);
    }
    if EscapesValid(s[1..]) {
      EscapesJoin([s[0]], s[1..]);
      assert [s[0]] + s[1..] == s;
    }
  }

  lemma SlashSplit(s: string)
    ensures var k := FirstSlash(s);
            && '/' !in s[..k]
            && (EscapesValid(s) <==> EscapesValid(s[..k]) && (k < |s| ==> EscapesValid(s[k + 1..])))
  {
    var k := FirstSlash(s);
    BeforeSlash(s);
    EscapesCut(s, k);
    if k < |s| {
      EscapesBehind(s[k..]);
      assert s[k..][1..] == s[k + 1..];
    }
  }

  lemma {:induction false} BeforeSlash(s: string)
    ensures '/' !in s[..FirstSlash(s)]
  {
    if s != "" && s[0] != '/' {
      BeforeSlash(s[1..]);
      var k := FirstSlash(s);
      assert s[..k] == [s[0]] + s[1..][..k - 1];
    }
  }

  lemma {:induction false} RestTokensExactly(s: string)
    ensures RestTokens(s).Ok? <==> EscapesValid(s)
    ensures RestTokens(s).Err? ==> RestTokens(s).error == ParseError(108)
    decreases |s|
  {
    var k := FirstSlash(s);
    SlashSplit(s);
    if k < |s| {
      RestTokensExactly(s[k + 1..]);
    }
  }

  lemma {:induction false} RestTokensBack(s: string)
    requires RestTokens(s).Ok?
    ensures Render(RestTokens(s).value) == "/" + s
    decreases |s|
  {
    var k := FirstSlash(s);
    BeforeSlash(s);
    var token := TokenOf(s[..k]).value;
    EscapeUnescape(s[..k]);
    if k < |s| {
      FirstToken(s, k);
      RestTokensBack(s[k + 1..]);
      RenderFirst(token, RestTokens(s[k + 1..]).value);
      SlashJoin(s, k);
    } else {
      RestTokensSingle(s[..k]);
      assert s[..k] == s;
      RenderOne(token);
    }
  }

  lemma SlashJoin(s: string, k: nat)
    requires k < |s| && s[k] == '/'
    ensures "/" + s[..k] + ("/" + s[k + 1..]) == "/" + s
  {
  }

  lemma RenderOne(token: string)
    ensures Render([token]) == "/" + Escape(token)
  {
    assert [token][..0] == [] && "" + "/" == "/";
  }

  /**
   A string is a JSON pointer exactly when it is empty or begins with a slash and every
   tilde is followed by 0 or 1, and then writing its tokens gives it back.
   */
  lemma TokensExactly(s: string)
    ensures Tokens(s).Ok? <==> s == "" || (s[0] == '/' && EscapesValid(s))
    ensures Tokens(s).Ok? ==> Render(Tokens(s).value) == s
    ensures Tokens(s).Err? ==> Tokens(s).error == ParseError(if s[0] == '/' then 108 else 107)
  {
    if s != "" && s[0] == '/' {
      RestTokensExactly(s[1..]);
      if RestTokens(s[1..]).Ok? {
        RestTokensBack(s[1..]);
      }
      EscapesBehind(s);
      assert s == "/" + s[1..];
    }
  }

  // ------------------------------------------------------- reading operations

  predicate Has(val: Json, name: string, v: Json) {
    val.Object? && name in val.members && val.members[name] == v
  }

  /** An object carries an operation: its name, its pointers in writing, and its value. */
  predicate Carries(val: Json, op: Op) {
    && Has(val, "path", String(Render(op.path)))
    && Has(val, "op", String(match op
                             case Add(_, _) => "add"
                             case Remove(_) => "remove"
                             case Replace(_, _) => "replace"
                             case Move(_, _) => "move"
                             case Copy(_, _) => "copy"
                             case Test(_, _) => "test"))
    && (op.Move? || op.Copy? ==> Has(val, "from", String(Render(op.from))))
    && (op.Add? || op.Replace? || op.Test? ==> Has(val, "value", op.value))
  }

  lemma PointerExactly(val: Json, name: string, path: Path)
    requires val.Object?
    ensures PointerMember(val, name) == Ok(path) <==> Has(val, name, String(Render(path)))
  {
    TokensOfRender(path);
    if PointerMember(val, name) == Ok(path) {
      TokensExactly(val.members[name].s);
    }
  }

  lemma ReadCarried(val: Json, op: Op)
    requires Carries(val, op)
    ensures ReadOp(val) == Ok(op)
  {
    PointerExactly(val, "path", op.path);
    if op.Move? || op.Copy? {
      PointerExactly(val, "from", op.from);
    }
  }

  lemma CarriedRead(val: Json, op: Op)
    requires ReadOp(val) == Ok(op)
    ensures Carries(val, op)
  {
    PointerExactly(val, "path", op.path);
    if op.Move? || op.Copy? {
      PointerExactly(val, "from", op.from);
    }
  }

  /** An element of a patch is read as an operation exactly when it carries it, whatever else it has. */
  lemma ReadExactly(val: Json, op: Op)
    ensures ReadOp(val) == Ok(op) <==> Carries(val, op)
  {
    if Carries(val, op) {
      ReadCarried(val, op);
    }
    if ReadOp(val) == Ok(op) {
      CarriedRead(val, op);
    }
  }

  /** A string member. */
  predicate HasText(val: Json, name: string) {
    val.Object? && name in val.members && val.members[name].String?
  }

  /** What is no operation: its exception. */
  lemma ReadRefused(val: Json)
    ensures !val.Object? ==> ReadOp(val) == Err(ParseError(104))
    ensures val.Object? && !(HasText(val, "op") && HasText(val, "path")) ==> ReadOp(val) == Err(ParseError(105))
    ensures HasText(val, "op") && HasText(val, "path") && Tokens(val.members["path"].s).Err? ==>
              ReadOp(val) == Err(Tokens(val.members["path"].s).error)
    ensures HasText(val, "op") && HasText(val, "path") && Tokens(val.members["path"].s).Ok? ==>
              var name := val.members["op"].s;
              && (name in {"add", "replace", "test"} && "value" !in val.members ==> ReadOp(val) == Err(ParseError(105)))
              && (name in {"move", "copy"} && !HasText(val, "from") ==> ReadOp(val) == Err(ParseError(105)))
              && (name in {"move", "copy"} && HasText(val, "from") && Tokens(val.members["from"].s).Err? ==>
                    ReadOp(val) == Err(Tokens(val.members["from"].s).error))
              && (name !in {"add", "remove", "replace", "move", "copy", "test"} ==> ReadOp(val) == Err(ParseError(105)))
  {
  }

  /** A patch runs its operations in order, and none behind one that throws. */
  lemma {:induction false} RunConcat(doc: Json, a: seq<Json>, b: seq<Json>)
    ensures var first := ApplyAll(doc, a);
            ApplyAll(doc, a + b) == if first.error.Some? then first else ApplyAll(first.doc, b)
    decreases |a|
  {
    if a == [] {
      assert a + b == b;
    } else {
      assert (a + b)[0] == a[0] && (a + b)[1..] == a[1..] + b;
      if ReadOp(a[0]).Ok? {
        RunConcat(ApplyOp(doc, ReadOp(a[0]).value).doc, a[1..], b);
      }
    }
  }

  lemma RunOne(doc: Json, val: Json)
    ensures ReadOp(val).Ok? ==> ApplyAll(doc, [val]) == ApplyOp(doc, ReadOp(val).value)
    ensures ReadOp(val).Err? ==> ApplyAll(doc, [val]) == Applied(doc, Some(ReadOp(val).error))
  {
    assert [val][1..] == [];
    if ReadOp(val).Ok? {
      var step := ApplyOp(doc, ReadOp(val).value);
      assert ApplyAll(step.doc, []) == Applied(step.doc, None);
    }
  }

  lemma RunWhole(doc: Json, patch: Json)
    ensures !patch.Array? ==> ApplyPatch(doc, patch) == Applied(doc, Some(ParseError(104)))
    ensures patch.Array? && patch.elems == [] ==> ApplyPatch(doc, patch) == Applied(doc, None)
    ensures patch.Array? && patch.elems != [] ==>
              var n := |patch.elems| - 1;
              var before := ApplyPatch(doc, Array(patch.elems[..n]));
              ApplyPatch(doc, patch) == if before.error.Some? then before else ApplyAll(before.doc, [patch.elems[n]])
  {
    if patch.Array? && patch.elems != [] {
      var n := |patch.elems| - 1;
      RunConcat(doc, patch.elems[..n], [patch.elems[n]]);
      assert patch.elems[..n] + [patch.elems[n]] == patch.elems;
    }
  }
}
