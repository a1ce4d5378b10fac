/**
 Applying a JSON Patch (RFC 6902) to a document: `basic_json::patch_inplace`
 with its lambdas `operation_add` and `operation_remove`.
 */
module JsonPatch {
  import opened Wrappers
  import opened JsonValue
  import opened JsonPointer

  type Path = seq<string>

  // ------------------------------------------------------- reading and writing

  /** `at(json_pointer)`: every token must name an existing child. */
  function At(doc: Json, path: Path): Result<Json, Error>
    decreases |path|
  {
    if path == [] then Ok(doc)
    else
      match doc
      case Object(members) =>
        if path[0] in members then At(members[path[0]], path[1..]) else Err(OutOfRange(403))
      case Array(elems) =>
        if path[0] == "-" then Err(OutOfRange(402))
        else
          var idx :- ArrayIndex(path[0]);
          if idx < |elems| then At(elems[idx], path[1..]) else Err(OutOfRange(401))
      case _ => Err(OutOfRange(404))
  }

  /** The document after an assignment through the reference `at(path)` returns. */
  function Put(doc: Json, path: Path, v: Json): Json
    requires At(doc, path).Ok?
    decreases |path|
  {
    if path == [] then v
    else
      match doc
      case Object(members) => Object(members[path[0] := Put(members[path[0]], path[1..], v)])
      case Array(elems) =>
        var idx := ArrayIndex(path[0]).value;
        Array(elems[idx := Put(elems[idx], path[1..], v)])
  }

  lemma {:induction false} PutGet(doc: Json, path: Path, v: Json)
    requires At(doc, path).Ok?
    ensures At(Put(doc, path, v), path) == Ok(v)
    ensures Put(doc, path, At(doc, path).value) == doc
    decreases |path|
  {
    if path != [] {
      match doc
      case Object(members) =>
        PutGet(members[path[0]], path[1..], v);
      case Array(elems) =>
        var idx := ArrayIndex(path[0]).value;
        PutGet(elems[idx], path[1..], v);
      case _ =>
    }
  }

  lemma {:induction false} PutPut(doc: Json, path: Path, v: Json, w: Json)
    requires At(doc, path).Ok?
    ensures At(Put(doc, path, v), path).Ok?
    ensures Put(Put(doc, path, v), path, w) == Put(doc, path, w)
    decreases |path|
  {
    PutGet(doc, path, v);
    if path != [] {
      match doc
      case Object(members) =>
        PutPut(members[path[0]], path[1..], v, w);
      case Array(elems) =>
        var idx := ArrayIndex(path[0]).value;
        PutPut(elems[idx], path[1..], v, w);
      case _ =>
    }
  }

  /** Resolving a concatenated path resolves its two halves one after the other. */
  lemma {:induction false} AtConcat(doc: Json, a: Path, b: Path)
    requires At(doc, a).Ok?
    ensures At(doc, a + b) == At(At(doc, a).value, b)
    decreases |a|
  {
    if a == [] {
      assert a + b == b;
    } else {
      assert (a + b)[0] == a[0];
      assert (a + b)[1..] == a[1..] + b;
      match doc
      case Object(members) =>
        AtConcat(members[a[0]], a[1..], b);
      case Array(elems) =>
        var idx := ArrayIndex(a[0]).value;
        AtConcat(elems[idx], a[1..], b);
      case _ =>
    }
  }

  /** Storing at a concatenated path stores the changed part at the first half. */
  lemma {:induction false} PutConcat(doc: Json, a: Path, b: Path, v: Json)
    requires At(doc, a).Ok? && At(At(doc, a).value, b).Ok?
    ensures At(doc, a + b).Ok?
    ensures Put(doc, a + b, v) == Put(doc, a, Put(At(doc, a).value, b, v))
    decreases |a|
  {
    AtConcat(doc, a, b);
    if a == [] {
      assert a + b == b;
    } else {
      assert (a + b)[0] == a[0];
      assert (a + b)[1..] == a[1..] + b;
      match doc
      case Object(members) =>
        PutConcat(members[a[0]], a[1..], b, v);
      case Array(elems) =>
        var idx := ArrayIndex(a[0]).value;
        PutConcat(elems[idx], a[1..], b, v);
      case _ =>
    }
  }

  /** A resolvable path has a resolvable first token. */
  lemma AtTop(doc: Json, path: Path)
    requires At(doc, path).Ok? && path != []
    ensures At(doc, [path[0]]).Ok?
  {
    assert [path[0]][1..] == [];
  }

  // ---------------------------------------------------------------- operations

  function Last(path: Path): string
    requires path != []
  {
    path[|path| - 1]
  }

  function Init(path: Path): Path
    requires path != []
  {
    path[..|path| - 1]
  }

  /** What `operation_add` makes of the parent it found. */
  function AddToParent(parent: Json, key: string, v: Json): Result<Json, Error> {
    match parent
    case Null => Ok(Object(map[key := v]))
    case Object(members) => Ok(Object(members[key := v]))
    case Array(elems) =>
      if key == "-" then Ok(Array(elems + [v]))
      else
        var idx :- ArrayIndex(key);
        if idx > |elems| then Err(OutOfRange(401))
        else Ok(Array(elems[..idx] + [v] + elems[idx..]))
    case _ => Err(AssertionFailed)
  }

  /** What `operation_remove` makes of the parent it found: a primitive parent is left alone. */
  function RemoveFromParent(parent: Json, key: string): Result<Json, Error> {
    match parent
    case Object(members) =>
      if key in members then Ok(Object(members - {key})) else Err(OutOfRange(403))
    case Array(elems) =>
      var idx :- ArrayIndex(key);
      if idx >= |elems| then Err(OutOfRange(401)) else Ok(Array(elems[..idx] + elems[idx + 1..]))
    case _ => Ok(parent)
  }

  /** `operation_add` as a function of the document. */
  function AddAt(doc: Json, path: Path, v: Json): Result<Json, Error> {
    if path == [] then Ok(v)
    else
      var top :- if |path| > 1 then At(doc, [path[0]]) else Ok(doc);
      var parent :- At(doc, Init(path));
      var changed :- AddToParent(parent, Last(path), v);
      Ok(Put(doc, Init(path), changed))
  }

  /** `operation_remove` as a function of the document. */
  function RemoveAt(doc: Json, path: Path): Result<Json, Error> {
    if path == [] then Err(OutOfRange(405))
    else
      var parent :- At(doc, Init(path));
      var changed :- RemoveFromParent(parent, Last(path));
      Ok(Put(doc, Init(path), changed))
  }

  function ReplaceAt(doc: Json, path: Path, v: Json): Result<Json, Error> {
    var current :- At(doc, path);
    Ok(Put(doc, path, v))
  }

  /** One operation object, with its pointers split. */
  datatype Op =
    | Add(path: Path, value: Json)
    | Remove(path: Path)
    | Replace(path: Path, value: Json)
    | Move(from: Path, path: Path)
    | Copy(from: Path, path: Path)
    | Test(path: Path, value: Json)

  /** A document and the exception that stopped the patch, if one did. */
  datatype Applied = Applied(doc: Json, error: Option<Error>)

  function Settle(doc: Json, r: Result<Json, Error>): Applied {
    match r
    case Ok(doc') => Applied(doc', None)
    case Err(e) => Applied(doc, Some(e))
  }

  /** `test` fails unless the value is there; only an out-of-range path counts as a mismatch. */
  function TestAt(doc: Json, path: Path, v: Json): Option<Error> {
    match At(doc, path)
    case Ok(found) => if Equals(found, v) then None else Some(OtherError(501))
    case Err(OutOfRange(_)) => Some(OtherError(501))
    case Err(e) => Some(e)
  }

  function ApplyOp(doc: Json, op: Op): Applied {
    match op
    case Add(path, v) => Settle(doc, AddAt(doc, path, v))
    case Remove(path) => Settle(doc, RemoveAt(doc, path))
    case Replace(path, v) => Settle(doc, ReplaceAt(doc, path, v))
    case Copy(from, path) =>
      (match At(doc, from)
       case Ok(v) => Settle(doc, AddAt(doc, path, v))
       case Err(e) => Applied(doc, Some(e)))
    case Move(from, path) =>
      (match At(doc, from)
       case Err(e) => Applied(doc, Some(e))
       case Ok(v) =>
         match RemoveAt(doc, from)
         case Ok(doc') => Settle(doc', AddAt(doc', path, v))
         case Err(e) => Applied(doc, Some(e)))
    case Test(path, v) => Applied(doc, TestAt(doc, path, v))
  }

  // ------------------------------------------------------ reading an operation

  /** `get_value`: the named member, which may have to be a string. */
  function Member(val: Json, name: string, mustBeString: bool): Result<Json, Error>
    requires val.Object?
  {
    if name !in val.members then Err(ParseError(105))
    else if mustBeString && !val.members[name].String? then Err(ParseError(105))
    else Ok(val.members[name])
  }

  function PointerMember(val: Json, name: string): Result<Path, Error>
    requires val.Object?
  {
    var text :- Member(val, name, true);
    Tokens(text.s)
  }

  /** The operation an element of the patch array stands for. */
  function ReadOp(val: Json): Result<Op, Error> {
    if !val.Object? then Err(ParseError(104))
    else
      var op :- Member(val, "op", true);
      var path :- PointerMember(val, "path");
      match op.s
      case "add" => var v :- Member(val, "value", false); Ok(Add(path, v))
      case "remove" => Ok(Remove(path))
      case "replace" => var v :- Member(val, "value", false); Ok(Replace(path, v))
      case "move" => var from :- PointerMember(val, "from"); Ok(Move(from, path))
      case "copy" => var from :- PointerMember(val, "from"); Ok(Copy(from, path))
      case "test" => var v :- Member(val, "value", false); Ok(Test(path, v))
      case _ => Err(ParseError(105))
  }

  /** The elements of a patch applied in order up to the first exception. */
  function ApplyAll(doc: Json, patch: seq<Json>): Applied
    decreases |patch|
  {
    if patch == [] then Applied(doc, None)
    else
      match ReadOp(patch[0])
      case Err(e) => Applied(doc, Some(e))
      case Ok(op) =>
        var step := ApplyOp(doc, op);
        if step.error.Some? then step else ApplyAll(step.doc, patch[1..])
  }

  function ApplyPatch(doc: Json, patch: Json): Applied {
    if patch.Array? then ApplyAll(doc, patch.elems) else Applied(doc, Some(ParseError(104)))
  }

  // ------------------------------------------------------------- the document

  /** A JSON value that is patched in place. */
  class Document {
    var value: Json

    constructor (j: Json)
      ensures value == j
    {
      value := j;
    }

    method OperationAdd(ptr: Path, v: Json) returns (error: Option<Error>)
      modifies this
      ensures Applied(value, error) == Settle(old(value), AddAt(old(value), ptr, v))
    {
      if ptr == [] {
        value := v;
        return None;
      }
      if |ptr| > 1 {
        var top := At(value, [ptr[0]]);
        if top.Err? {
          return Some(top.error);
        }
      }
      var lastPath, parentPtr := Last(ptr), Init(ptr);
      var found := At(value, parentPtr);
      if found.Err? {
        return Some(found.error);
      }
      match found.value {
      case Null =>
        value := Put(value, parentPtr, Object(map[lastPath := v]));
      case Object(members) =>
        value := Put(value, parentPtr, Object(members[lastPath := v]));
      case Array(elems) =>
        if lastPath == "-" {
          value := Put(value, parentPtr, Array(elems + [v]));
        } else {
          var idx := ArrayIndex(lastPath);
          if idx.Err? {
            return Some(idx.error);
          }
          if idx.value > |elems| {
            return Some(OutOfRange(401));
          }
          value := Put(value, parentPtr, Array(elems[..idx.value] + [v] + elems[idx.value..]));
        }
      case _ =>
        return Some(AssertionFailed);
      }
      return None;
    }

    method OperationRemove(ptr: Path) returns (error: Option<Error>)
      modifies this
      ensures Applied(value, error) == Settle(old(value), RemoveAt(old(value), ptr))
    {
      if ptr == [] {
        return Some(OutOfRange(405));
      }
      var lastPath, parentPtr := Last(ptr), Init(ptr);
      var found := At(value, parentPtr);
      if found.Err? {
        return Some(found.error);
      }
      PutGet(value, parentPtr, found.value);
      var parent := found.value;
      if parent.Object? {
        if lastPath !in parent.members {
          return Some(OutOfRange(403));
        }
        value := Put(value, parentPtr, Object(parent.members - {lastPath}));
      } else if parent.Array? {
        var idx := ArrayIndex(lastPath);
        if idx.Err? {
          return Some(idx.error);
        }
        if idx.value >= |parent.elems| {
          return Some(OutOfRange(401));
        }
        value := Put(value, parentPtr, Array(parent.elems[..idx.value] + parent.elems[idx.value + 1..]));
      }
      return None;
    }

    /** `patch_inplace`: the document keeps the effect of the operations before the failing one. */
    method PatchInplace(patch: Json) returns (error: Option<Error>)
      modifies this
      ensures Applied(value, error) == ApplyPatch(old(value), patch)
    {
      if !patch.Array? {
        return Some(ParseError(104));
      }
      var k := 0;
      while k < |patch.elems|
        invariant 0 <= k <= |patch.elems|
        invariant ApplyAll(old(value), patch.elems) == ApplyAll(value, patch.elems[k..])
      {
        var read := ReadOp(patch.elems[k]);
        if read.Err? {
          return Some(read.error);
        }
        assert patch.elems[k..][1..] == patch.elems[k + 1..];
        error := Execute(read.value);
        if error.Some? {
          return;
        }
        k := k + 1;
      }
      return None;
    }

    method Execute(op: Op) returns (error: Option<Error>)
      modifies this
      ensures Applied(value, error) == ApplyOp(old(value), op)
    {
      match op
      case Add(path, v) =>
        error := OperationAdd(path, v);
      case Remove(path) =>
        error := OperationRemove(path);
      case Replace(path, v) =>
        var found := At(value, path);
        if found.Err? {
          return Some(found.error);
        }
        value := Put(value, path, v);
        error := None;
      case Move(from, path) =>
        var found := At(value, from);
        if found.Err? {
          return Some(found.error);
        }
        error := OperationRemove(from);
        if error.None? {
          error := OperationAdd(path, found.value);
        }
      case Copy(from, path) =>
        var found := At(value, from);
        if found.Err? {
          return Some(found.error);
        }
        error := OperationAdd(path, found.value);
      case Test(path, v) =>
        var found := At(value, path);
        var success := false;
        if found.Ok? {
          success := Equals(found.value, v);
        } else if !found.error.OutOfRange? {
          return Some(found.error);
        }
        error := if success then None else Some(OtherError(501));
    }
  }
}
