/** JSON Merge Patch: `basic_json::merge_patch` computes the MergePatch function of RFC 7396. */
module JsonMerge {
  import opened Wrappers
  import opened JsonValue

  /** The members a target brings into the merge: none when it is not an object. */
  function Base(target: Json): map<string, Json> {
    if target.Object? then target.members else map[]
  }

  /** A member's value, with null for a member that is not there. */
  function Lookup(members: map<string, Json>, k: string): Json {
    if k in members then members[k] else Null
  }

  /** MergePatch(Target, Patch) of section 2 of RFC 7396. */
  function Merged(target: Json, patch: Json): Json
    decreases patch
  {
    if !patch.Object? then patch
    else
      var base, p := Base(target), patch.members;
      Object(map k | k in base.Keys + p.Keys && !(k in p && p[k].Null?) ::
               if k in p then Merged(Lookup(base, k), p[k]) else base[k])
  }

  /** Following these names, the patch is left at an object that does not name the next one. */
  predicate Unnamed(patch: Json, names: seq<string>)
    decreases |names|
  {
    && names != [] && patch.Object?
    && (names[0] !in patch.members || Unnamed(patch.members[names[0]], names[1..]))
  }

  /** What the patch does not name is kept: there, or not there, as it was. */
  lemma {:induction false} MergeKeeps(target: Json, patch: Json, names: seq<string>)
    requires Unnamed(patch, names)
    ensures Found(Merged(target, patch), names) == Found(target, names)
    decreases |names|
  {
    if names[0] in patch.members {
      var before := Lookup(Base(target), names[0]);
      MergeKeeps(before, patch.members[names[0]], names[1..]);
    }
  }

  /** What the patch names with a value is that value, with null is gone, and with an object is an object. */
  lemma {:induction false} MergeSets(target: Json, patch: Json, names: seq<string>)
    requires Found(patch, names).Some?
    ensures var v, there := Found(patch, names).value, Found(Merged(target, patch), names);
            if v.Object? then there.Some? && there.value.Object?
            else if v.Null? && names != [] then there.None?
            else there == Some(v)
    decreases |names|
  {
    if names != [] {
      MergeSets(Lookup(Base(target), names[0]), patch.members[names[0]], names[1..]);
    }
  }

  /** No member is null, nor any member of an object that is a member, at any depth. */
  predicate NullFree(j: Json) {
    j.Object? ==> forall k | k in j.members :: !j.members[k].Null? && NullFree(j.members[k])
  }

  /** A merge patch is idempotent. */
  lemma {:induction false} MergeIdempotent(target: Json, patch: Json)
    ensures Merged(Merged(target, patch), patch) == Merged(target, patch)
    decreases patch
  {
    if patch.Object? {
      var p, once := patch.members, Merged(target, patch);
      forall k | k in p && !p[k].Null?
        ensures k in once.members && Merged(Lookup(once.members, k), p[k]) == once.members[k]
      {
        MergeIdempotent(Lookup(Base(target), k), p[k]);
      }
      assert Merged(once, patch).members == once.members;
    }
  }

  /** Merging a null-free document over nothing yields that document. */
  lemma {:induction false} MergeOverNothing(patch: Json)
    requires NullFree(patch)
    ensures Merged(Null, patch) == patch
    decreases patch
  {
    if patch.Object? {
      forall k | k in patch.members ensures Merged(Null, patch.members[k]) == patch.members[k] {
        MergeOverNothing(patch.members[k]);
      }
      assert Merged(Null, patch).members == patch.members;
    }
  }

  /** A merge patch brings no nulls into a target without nulls, whatever it holds in objects. */
  lemma {:induction false} MergeKeepsNullFree(target: Json, patch: Json)
    requires NullFree(target)
    ensures patch.Object? ==> NullFree(Merged(target, patch))
    decreases patch
  {
    if patch.Object? {
      var base, p := Base(target), patch.members;
      forall k | k in p && !p[k].Null? ensures NullFree(Merged(Lookup(base, k), p[k])) {
        MergeKeepsNullFree(Lookup(base, k), p[k]);
      }
    }
  }

  /** The members of a target when the patch members in `done` are merged. */
  ghost function Partial(base: map<string, Json>, p: map<string, Json>, done: set<string>): map<string, Json>
    requires done <= p.Keys
  {
    map k | k in base.Keys + done && !(k in done && p[k].Null?) ::
      if k in done then Merged(Lookup(base, k), p[k]) else base[k]
  }

  lemma PartialStep(base: map<string, Json>, p: map<string, Json>, done: set<string>, key: string)
    requires done <= p.Keys && key in p && key !in done
    ensures p[key].Null? ==> Partial(base, p, done + {key}) == Partial(base, p, done) - {key}
    ensures !p[key].Null? ==>
              Partial(base, p, done + {key}) ==
              Partial(base, p, done)[key := Merged(Lookup(Partial(base, p, done), key), p[key])]
  {
  }

  /** A JSON value merged into in place. */
  class Target {
    var value: Json

    constructor (j: Json)
      ensures value == j
    {
      value := j;
    }

    /** `merge_patch`: edits the value member by member, visiting the patch in any order. */
    method MergePatch(patch: Json)
      modifies this
      ensures value == Merged(old(value), patch)
      decreases patch
    {
      if !patch.Object? {
        value := patch;
        return;
      }
      if !value.Object? {
        value := Object(map[]);
      }
      var p := patch.members;
      var keys := p.Keys;
      ghost var base, done: set<string> := Base(old(value)), {};
      while keys != {}
        invariant keys !! done && keys + done == p.Keys
        invariant value.Object?
        invariant value.members == Partial(base, p, done)
        decreases keys
      {
        var key :| key in keys;
        PartialStep(base, p, done, key);
        if p[key].Null? {
          value := Object(value.members - {key});
        } else {
          // operator[] creates a missing member as null before it is merged into
          var child := new Target(Lookup(value.members, key));
          child.MergePatch(p[key]);
          value := Object(value.members[key := child.value]);
        }
        keys, done := keys - {key}, done + {key};
      }
      assert done == p.Keys;
      assert Object(Partial(base, p, p.Keys)) == Merged(old(value), patch);
    }
  }
}
