/** `merge_patch`, against section 2 of RFC 7396. */
module JsonMergePatch {
  import opened StringOrder
  import opened JsonValue
  import opened JsonPointer
  import opened Wrappers

  function Members(j: Json): map<string, Json> {
    if j.Obj? then j.members else map[]
  }

  function MemberOrNull(m: map<string, Json>, k: string): Json {
    if k in m then m[k] else Null
  }

  predicate Erases(patch: map<string, Json>, k: string) {
    k in patch && patch[k].Null?
  }

  /** The result of the standard's `MergePatch(Target, Patch)`, member by member. */
  function Merged(target: Json, patch: Json): Json
    decreases patch
  {
    if !patch.Obj? then patch
    else
      var t, p := Members(target), patch.members;
      Obj(map k | k in t.Keys + p.Keys && !Erases(p, k) ::
            if k in p then Merged(MemberOrNull(t, k), p[k]) else t[k])
  }

  /** The members of `t` once the patch members named in `done` have been applied. */
  function PartlyMerged(t: map<string, Json>, p: map<string, Json>, done: seq<string>): map<string, Json> {
    map k | k in t.Keys + p.Keys && (k in done || k in t) && !(k in done && Erases(p, k)) ::
      if k in done && k in p then Merged(MemberOrNull(t, k), p[k]) else t[k]
  }

  lemma MergeNext(t: map<string, Json>, p: map<string, Json>, ks: seq<string>, i: nat)
    requires i < |ks| && ks[i] in p && ks[i] !in ks[..i]
    ensures var m := PartlyMerged(t, p, ks[..i]);
            var key := ks[i];
            MemberOrNull(m, key) == MemberOrNull(t, key) &&
            PartlyMerged(t, p, ks[..i + 1]) ==
            if p[key].Null? then m - {key} else m[key := Merged(MemberOrNull(t, key), p[key])]
  {
    hide Merged;
    var key := ks[i];
    var m := PartlyMerged(t, p, ks[..i]);
    var m' := if p[key].Null? then m - {key} else m[key := Merged(MemberOrNull(t, key), p[key])];
    assert forall k :: k in ks[..i + 1] <==> k in ks[..i] || k == key;
    assert PartlyMerged(t, p, ks[..i + 1]).Keys == m'.Keys;
  }

  lemma MergeEnds(t: map<string, Json>, p: map<string, Json>, ks: seq<string>)
    requires forall k :: k in ks <==> k in p
    ensures PartlyMerged(t, p, []) == t
    ensures forall target: Json | Members(target) == t :: Merged(target, Obj(p)) == Obj(PartlyMerged(t, p, ks))
  {
    forall target: Json | Members(target) == t ensures Merged(target, Obj(p)) == Obj(PartlyMerged(t, p, ks)) {
      assert Merged(target, Obj(p)).members == PartlyMerged(t, p, ks);
    }
  }

  /** `merge_patch`: `self` is the value the call is made on, `merged` what it has become. */
  method MergePatch(self: Json, applyPatch: Json) returns (merged: Json)
    ensures merged == Merged(self, applyPatch)
    decreases applyPatch
  {
    merged := self;
    if applyPatch.Obj? {
      if !merged.Obj? {
        merged := Obj(map[]);
      }
      ghost var t := merged.members;
      var p := applyPatch.members;
      var ks := Sorted(p.Keys);
      MergeEnds(t, p, ks);
      hide Merged, PartlyMerged, Le;
      assert ks[..0] == [];
      var i := 0;
      while i < |ks|
        invariant 0 <= i <= |ks|
        invariant merged == Obj(PartlyMerged(t, p, ks[..i]))
      {
        var key := ks[i];
        assert key in ks;
        MergeNext(t, p, ks, i);
        if p[key].Null? {
          merged := Obj(merged.members - {key});
        } else {
          var member := MergePatch(MemberOrNull(merged.members, key), p[key]);
          merged := Obj(merged.members[key := member]);
        }
        i := i + 1;
      }
      assert ks[..i] == ks;
    } else {
      merged := applyPatch;
    }
  }

  /** Patching again changes nothing. */
  lemma {:induction false} MergeIdempotent(t: Json, p: Json)
    ensures Merged(Merged(t, p), p) == Merged(t, p)
    decreases p
  {
    if p.Obj? {
      var once, twice := Merged(t, p).members, Merged(Merged(t, p), p).members;
      forall k | k in once ensures k in twice && twice[k] == once[k] {
        if k in p.members { MergeIdempotent(MemberOrNull(Members(t), k), p.members[k]); }
      }
      assert once.Keys == twice.Keys;
    }
  }

  /** `q` leads through objects of both to a member of the target that the patch does not name. */
  predicate Unnamed(t: Json, p: Json, q: Pointer) {
    && t.Obj? && p.Obj? && q != []
    && (q[0] !in p.members ||
        (q[0] in t.members && Unnamed(t.members[q[0]], p.members[q[0]], q[1..])))
  }

  /** What the patch does not name stays, at every depth. */
  lemma {:induction false} MergeKeepsUnnamed(t: Json, p: Json, q: Pointer)
    requires Unnamed(t, p, q)
    ensures At(Merged(t, p), q) == At(t, q)
    decreases q
  {
    if q[0] in p.members {
      MergeKeepsUnnamed(t.members[q[0]], p.members[q[0]], q[1..]);
    }
  }

  /** `q` leads through objects of the patch to a value in it that is not an object. */
  predicate Names(p: Json, q: Pointer) {
    p.Obj? && q != [] && q[0] in p.members &&
    if |q| == 1 then !p.members[q[0]].Obj? else Names(p.members[q[0]], q[1..])
  }

  /** Every leaf of the patch arrives: a null removes the member, anything else becomes its value. */
  lemma {:induction false} MergeSetsNamed(t: Json, p: Json, q: Pointer)
    requires Names(p, q)
    ensures At(p, q).Ok?
    ensures At(Merged(t, p), q) == if At(p, q).value.Null? then Err(OutOfRange) else At(p, q)
    decreases q
  {
    if |q| == 1 {
      assert q[1..] == [];
    } else {
      MergeSetsNamed(MemberOrNull(Members(t), q[0]), p.members[q[0]], q[1..]);
    }
  }
}
