/** Patches as JSON documents, and the object that executes them in place. */
module JsonPatchDocument {
  import opened Wrappers
  import opened JsonValue
  import opened JsonPointer
  import opened JsonPatch

  // ---------- reading an operation ----------

  /** `get_value`: a member an operation must have. */
  function GetValue(m: map<string, Json>, member: string, stringType: bool): Result<Json, Error> {
    if member !in m then Err(ParseError)
    else if stringType && !m[member].Str? then Err(ParseError)
    else Ok(m[member])
  }

  function GetPointer(m: map<string, Json>, member: string): Result<Pointer, Error> {
    match GetValue(m, member, true)
    case Err(e) => Err(e)
    case Ok(j) => Parse(j.s)
  }

  function DecodeMembers(m: map<string, Json>, op: string, path: Pointer): Result<Op, Error> {
    if op == "remove" then Ok(Remove(path))
    else if op == "add" || op == "replace" || op == "test" then
      match GetValue(m, "value", false)
      case Err(e) => Err(e)
      case Ok(v) =>
        Ok(if op == "add" then Add(path, v) else if op == "replace" then Replace(path, v) else Test(path, v))
    else if op == "move" || op == "copy" then
      match GetPointer(m, "from")
      case Err(e) => Err(e)
      case Ok(f) => Ok(if op == "move" then Move(f, path) else Copy(f, path))
    else Err(ParseError)
  }

  function Decode(val: Json): Result<Op, Error> {
    if !val.Obj? then Err(ParseError)
    else
      match GetValue(val.members, "op", true)
      case Err(e) => Err(e)
      case Ok(op) =>
        match GetPointer(val.members, "path")
        case Err(e) => Err(e)
        case Ok(path) => DecodeMembers(val.members, op.s, path)
  }

  function ApplyElement(val: Json, doc: Json): Patched {
    match Decode(val)
    case Err(e) => Patched(doc, Some(e))
    case Ok(op) => ApplyOp(op, doc)
  }

  function RunElements(vals: seq<Json>, doc: Json): Patched {
    if vals == [] then Patched(doc, None)
    else
      var first := ApplyElement(vals[0], doc);
      if first.error.Some? then first else RunElements(vals[1..], first.doc)
  }

  function PatchResult(patch: Json, doc: Json): Patched {
    if !patch.Arr? then Patched(doc, Some(ParseError)) else RunElements(patch.items, doc)
  }

  // ---------- writing an operation ----------

  /** The object form of an operation whose path is `prefix` followed by the operation's own path. */
  function Encode(prefix: string, op: Op): Json {
    var path := Str(prefix + ToString(op.path));
    match op
    case Add(_, v) => Obj(map["op" := Str("add"), "path" := path, "value" := v])
    case Remove(_) => Obj(map["op" := Str("remove"), "path" := path])
    case Replace(_, v) => Obj(map["op" := Str("replace"), "path" := path, "value" := v])
    case Move(f, _) => Obj(map["op" := Str("move"), "path" := path, "from" := Str(prefix + ToString(f))])
    case Copy(f, _) => Obj(map["op" := Str("copy"), "path" := path, "from" := Str(prefix + ToString(f))])
    case Test(_, v) => Obj(map["op" := Str("test"), "path" := path, "value" := v])
  }

  function EncodeAll(prefix: string, ops: seq<Op>): seq<Json> {
    if ops == [] then [] else [Encode(prefix, ops[0])] + EncodeAll(prefix, ops[1..])
  }

  lemma DecodeObject(m: map<string, Json>, op: string, path: Pointer)
    requires "op" in m && m["op"] == Str(op)
    requires "path" in m && m["path"] == Str(ToString(path))
    ensures Decode(Obj(m)) == DecodeMembers(m, op, path)
  {
    ParseToString(path);
  }

  lemma MemberNames()
    ensures "op" != "path" && "op" != "value" && "op" != "from"
    ensures "path" != "value" && "path" != "from"
  {
    assert |"op"| == 2 && |"path"| == 4 && |"value"| == 5 && |"from"| == 4;
    assert "path"[0] != "from"[0];
  }

  lemma OperationNames()
    ensures "add" != "remove" && "replace" != "remove" && "test" != "remove"
    ensures "move" != "remove" && "copy" != "remove"
    ensures "replace" != "add" && "test" != "add" && "test" != "replace"
    ensures "move" != "add" && "move" != "replace" && "move" != "test"
    ensures "copy" != "add" && "copy" != "replace" && "copy" != "test" && "copy" != "move"
  {
    assert |"add"| == 3 && |"remove"| == 6 && |"replace"| == 7 && |"test"| == 4 && |"move"| == 4 && |"copy"| == 4;
    assert "test"[0] == 't' && "move"[0] == 'm' && "copy"[0] == 'c';
  }

  lemma EncodedPath(op: Op)
    ensures "" + ToString(op.path) == ToString(op.path)
    ensures "op" in Encode("", op).members
    ensures "path" in Encode("", op).members && Encode("", op).members["path"] == Str(ToString(op.path))
  {
    MemberNames();
  }

  lemma DecodeEncodeValue(op: Op)
    requires op.Add? || op.Replace? || op.Test?
    ensures Decode(Encode("", op)) == Ok(op)
  {
    EncodedPath(op);
    MemberNames();
    OperationNames();
    var m := Encode("", op).members;
    var name := if op.Add? then "add" else if op.Replace? then "replace" else "test";
    assert m["op"] == Str(name) && m["value"] == op.value;
    DecodeObject(m, name, op.path);
  }

  lemma DecodeFrom(m: map<string, Json>, f: Pointer, path: Pointer)
    requires "from" in m && m["from"] == Str(ToString(f))
    ensures DecodeMembers(m, "move", path) == Ok(Move(f, path))
    ensures DecodeMembers(m, "copy", path) == Ok(Copy(f, path))
  {
    OperationNames();
    ParseToString(f);
  }

  lemma DecodeEncodeFrom(op: Op)
    requires op.Move? || op.Copy?
    ensures Decode(Encode("", op)) == Ok(op)
  {
    EncodedPath(op);
    MemberNames();
    var m := Encode("", op).members;
    assert "" + ToString(op.from) == ToString(op.from);
    hide Parse, ToString, DecodeMembers, Decode;
    DecodeFrom(m, op.from, op.path);
    DecodeObject(m, if op.Move? then "move" else "copy", op.path);
  }

  /** Every operation can be written as a document and read back. */
  lemma DecodeEncode(op: Op)
    ensures Decode(Encode("", op)) == Ok(op)
  {
    match op
    case Remove(p) =>
      EncodedPath(op);
      MemberNames();
      DecodeObject(Encode("", op).members, "remove", p);
    case Move(_, _) => DecodeEncodeFrom(op);
    case Copy(_, _) => DecodeEncodeFrom(op);
    case _ => DecodeEncodeValue(op);
  }

  lemma {:induction false} RunEncoded(ops: seq<Op>, doc: Json)
    ensures RunElements(EncodeAll("", ops), doc) == Run(ops, doc)
  {
    if ops != [] {
      DecodeEncode(ops[0]);
      RunEncoded(ops[1..], ApplyOp(ops[0], doc).doc);
    }
  }

  // ---------- executing in place ----------

  class Document {
    var root: Json

    constructor (j: Json)
      ensures root == j
    {
      root := j;
    }

    /** The "add" wrapper. */
    method OperationAdd(ptr: Pointer, val: Json) returns (thrown: Option<Error>)
      modifies this
      ensures Patched(root, thrown) == Finish(old(root), AddAt(old(root), ptr, val))
    {
      if ptr == [] {
        root := val;
        return None;
      }
      var topPointer := ptr[..1];
      if topPointer != ptr {
        var top := At(root, topPointer);
        if top.Err? {
          TopFailure(root, ptr);
          return Some(top.error);
        }
      }
      var lastPath := ptr[|ptr| - 1];
      var parentPtr := ptr[..|ptr| - 1];
      var parent := At(root, parentPtr);
      if parent.Err? {
        return Some(parent.error);
      }
      match parent.value {
        case Null =>
          root := Put(root, parentPtr, Obj(map[lastPath := val]));
        case Obj(m) =>
          root := Put(root, parentPtr, Obj(m[lastPath := val]));
        case Arr(items) =>
          if lastPath == "-" {
            root := Put(root, parentPtr, Arr(items + [val]));
          } else {
            var idx := ArrayIndex(lastPath);
            if idx.Err? {
              return Some(idx.error);
            }
            if idx.value > |items| {
              return Some(OutOfRange);
            }
            root := Put(root, parentPtr, Arr(items[..idx.value] + [val] + items[idx.value..]));
          }
        case _ =>
          return Some(AssertionFailed);
      }
      return None;
    }

    /** The "remove" wrapper. */
    method OperationRemove(ptr: Pointer) returns (thrown: Option<Error>)
      modifies this
      ensures Patched(root, thrown) == Finish(old(root), RemoveAt(old(root), ptr))
    {
      if ptr == [] {
        return Some(OutOfRange);
      }
      var lastPath := ptr[|ptr| - 1];
      var parentPtr := ptr[..|ptr| - 1];
      var parent := At(root, parentPtr);
      if parent.Err? {
        return Some(parent.error);
      }
      if parent.value.Obj? {
        if lastPath !in parent.value.members {
          return Some(OutOfRange);
        }
        root := Put(root, parentPtr, Obj(parent.value.members - {lastPath}));
      } else if parent.value.Arr? {
        var items := parent.value.items;
        var idx := ArrayIndex(lastPath);
        if idx.Err? {
          return Some(idx.error);
        }
        if idx.value >= |items| {
          return Some(OutOfRange);
        }
        root := Put(root, parentPtr, Arr(items[..idx.value] + items[idx.value + 1..]));
      } else {
        PutAt(root, parentPtr);
      }
      return None;
    }

    method Execute(op: Op) returns (thrown: Option<Error>)
      modifies this
      ensures Patched(root, thrown) == ApplyOp(op, old(root))
    {
      thrown := None;
      match op {
        case Add(p, v) =>
          thrown := OperationAdd(p, v);
        case Remove(p) =>
          thrown := OperationRemove(p);
        case Replace(p, v) =>
          var at := At(root, p);
          if at.Err? {
            return Some(at.error);
          }
          root := Put(root, p, v);
        case Move(f, p) =>
          var at := At(root, f);
          if at.Err? {
            return Some(at.error);
          }
          var v := at.value;
          thrown := OperationRemove(f);
          if thrown.None? {
            thrown := OperationAdd(p, v);
          }
        case Copy(f, p) =>
          var at := At(root, f);
          if at.Err? {
            return Some(at.error);
          }
          thrown := OperationAdd(p, at.value);
        case Test(p, v) =>
          var success := false;
          var at := At(root, p);
          if at.Ok? {
            success := LibEq(at.value, v);
          } else if at.error != OutOfRange {
            return Some(at.error);
          }
          if !success {
            return Some(PatchTestFailed);
          }
      }
    }

    /** Applies the operations in order; when one throws, the document keeps what was done before it. */
    method PatchInplace(patch: Json) returns (thrown: Option<Error>)
      modifies this
      ensures Patched(root, thrown) == PatchResult(patch, old(root))
    {
      if !patch.Arr? {
        return Some(ParseError);
      }
      var i := 0;
      while i < |patch.items|
        invariant 0 <= i <= |patch.items|
        invariant RunElements(patch.items, old(root)) == RunElements(patch.items[i..], root)
      {
        var op := Decode(patch.items[i]);
        if op.Err? {
          return Some(op.error);
        }
        thrown := Execute(op.value);
        if thrown.Some? {
          return thrown;
        }
        i := i + 1;
      }
      return None;
    }
  }

  lemma TopFailure(doc: Json, p: Pointer)
    requires |p| > 1 && At(doc, p[..1]).Err?
    ensures At(doc, p[..|p| - 1]) == Err(At(doc, p[..1]).error)
  {
    assert p[..|p| - 1] == p[..1] + p[1..|p| - 1];
    AtConcat(doc, p[..1], p[1..|p| - 1]);
  }

  // ---------- where the code and RFC 6902 differ ----------

  /** Section 4.2 of RFC 6902: "The target location MUST exist for the operation to be successful." */
  predicate RemoveConforms(doc: Json, p: Pointer) {
    ApplyOp(Remove(p), doc).error.None? ==> At(doc, p).Ok?
  }

  lemma AtLast(doc: Json, p: Pointer)
    requires p != []
    ensures At(doc, p).Ok? <==>
            At(doc, p[..|p| - 1]).Ok? && Child(At(doc, p[..|p| - 1]).value, p[|p| - 1]).Ok?
  {
    var up, last := p[..|p| - 1], p[|p| - 1];
    assert p == up + [last];
    AtConcat(doc, up, [last]);
    if At(doc, up).Ok? {
      ChildAt(At(doc, up).value, last);
    }
  }

  /** A remove below a string, number, boolean, binary value or null succeeds and does nothing. */
  lemma RemoveConformsExactly(doc: Json, p: Pointer)
    ensures RemoveConforms(doc, p) <==>
            (p != [] && At(doc, p[..|p| - 1]).Ok? ==> At(doc, p[..|p| - 1]).value.Container())
    ensures !RemoveConforms(doc, p) ==> ApplyOp(Remove(p), doc).doc == doc
  {
    hide At, Put;
    if p != [] {
      AtLast(doc, p);
      if At(doc, p[..|p| - 1]).Ok? {
        PutAt(doc, p[..|p| - 1]);
      }
    }
  }

  lemma RemoveBelowNumber()
    ensures !RemoveConforms(Obj(map["a" := Integer(5)]), ["a", "b"])
  {
    var doc := Obj(map["a" := Integer(5)]);
    assert ["a", "b"][..1] == ["a"];
    assert At(doc, ["a"]) == Ok(Integer(5));
    RemoveConformsExactly(doc, ["a", "b"]);
  }

  /** Section 4.1 of RFC 6902: the target is the root, or its object or array exists. */
  predicate AddConforms(doc: Json, p: Pointer, v: Json) {
    ApplyOp(Add(p, v), doc).error.None? && p != [] ==>
      At(doc, p[..|p| - 1]).Ok? && At(doc, p[..|p| - 1]).value.Container()
  }

  /** An add below null succeeds and puts an object in the place of the null. */
  lemma AddConformsExactly(doc: Json, p: Pointer, v: Json)
    ensures AddConforms(doc, p, v) <==> !(p != [] && At(doc, p[..|p| - 1]) == Ok(Null))
    ensures !AddConforms(doc, p, v) ==>
              ApplyOp(Add(p, v), doc) == Patched(Put(doc, p[..|p| - 1], Obj(map[p[|p| - 1] := v])), None)
  {
    hide At, Put, ArrayIndex;
  }

  lemma AddBelowNull()
    ensures var doc := Obj(map["a" := Null]);
            !AddConforms(doc, ["a", "b"], Integer(5)) && ApplyOp(Add(["a", "b"], Integer(5)), doc).error.None?
  {
    var doc := Obj(map["a" := Null]);
    assert ["a", "b"][..1] == ["a"];
    assert At(doc, ["a"]) == Ok(Null);
    AddConformsExactly(doc, ["a", "b"], Integer(5));
  }

  /** The parent of the location is there and is a string, number, boolean or binary value. */
  predicate BelowPrimitive(doc: Json, p: Pointer) {
    p != [] && At(doc, p[..|p| - 1]).Ok? &&
    var parent := At(doc, p[..|p| - 1]).value;
    !parent.Container() && parent != Null
  }

  lemma {:induction false} LookupNeverAsserts(j: Json, p: Pointer)
    ensures At(j, p) != Err(AssertionFailed)
  {
    hide ArrayIndex;
    if p != [] {
      ChildNeverAsserts(j, p[0]);
      if Child(j, p[0]).Ok? {
        LookupNeverAsserts(Child(j, p[0]).value, p[1..]);
      }
    }
  }

  lemma ChildNeverAsserts(j: Json, token: string)
    ensures Child(j, token) != Err(AssertionFailed)
  {
  }

  lemma AddAsserts(doc: Json, p: Pointer, v: Json)
    ensures AddAt(doc, p, v) == Err(AssertionFailed) <==> BelowPrimitive(doc, p)
  {
    hide At, Put;
    if p != [] {
      LookupNeverAsserts(doc, p[..|p| - 1]);
    }
  }

  lemma RemoveNeverAsserts(doc: Json, p: Pointer)
    ensures RemoveAt(doc, p) != Err(AssertionFailed)
  {
    hide At, Put;
    if p != [] {
      LookupNeverAsserts(doc, p[..|p| - 1]);
    }
  }

  /** Where an operation adds its value, and to which document: a move adds after it has removed. */
  predicate AddsBelowPrimitive(op: Op, doc: Json) {
    match op
    case Add(p, _) => BelowPrimitive(doc, p)
    case Copy(f, p) => At(doc, f).Ok? && BelowPrimitive(doc, p)
    case Move(f, p) => At(doc, f).Ok? && RemoveAt(doc, f).Ok? && BelowPrimitive(RemoveAt(doc, f).value, p)
    case _ => false
  }

  /** The assertion in the add wrapper fails exactly when a value is to be added below a primitive other than null. */
  lemma AssertsExactly(op: Op, doc: Json)
    ensures ApplyOp(op, doc).error == Some(AssertionFailed) <==> AddsBelowPrimitive(op, doc)
  {
    hide At, Put, AddAt, RemoveAt, BelowPrimitive;
    match op {
      case Add(p, v) => AddAsserts(doc, p, v);
      case Remove(p) => RemoveNeverAsserts(doc, p);
      case Replace(p, _) => LookupNeverAsserts(doc, p);
      case Test(p, _) => LookupNeverAsserts(doc, p);
      case Copy(f, p) =>
        LookupNeverAsserts(doc, f);
        if At(doc, f).Ok? {
          AddAsserts(doc, p, At(doc, f).value);
        }
      case Move(f, p) =>
        LookupNeverAsserts(doc, f);
        RemoveNeverAsserts(doc, f);
        if At(doc, f).Ok? && RemoveAt(doc, f).Ok? {
          AddAsserts(RemoveAt(doc, f).value, p, At(doc, f).value);
        }
    }
  }

  lemma AddBelowNumber()
    ensures ApplyOp(Add(["a", "b"], Null), Obj(map["a" := Integer(5)])).error == Some(AssertionFailed)
  {
    var doc := Obj(map["a" := Integer(5)]);
    assert ["a", "b"][..1] == ["a"];
    assert At(doc, ["a"]) == Ok(Integer(5));
    AssertsExactly(Add(["a", "b"], Null), doc);
  }

  /** Removing what is there leaves a smaller container. */
  lemma RemoveChanges(doc: Json, p: Pointer)
    requires p != [] && At(doc, p).Ok?
    ensures RemoveAt(doc, p).Ok? && RemoveAt(doc, p).value != doc
  {
    hide At, Put;
    var up := p[..|p| - 1];
    AtLast(doc, p);
    var parent := At(doc, up).value;
    SmallerWithout(parent, p[|p| - 1]);
    AtPut(doc, up, EraseChild(parent, p[|p| - 1]).value);
  }

  lemma SmallerWithout(parent: Json, token: string)
    requires Child(parent, token).Ok?
    ensures EraseChild(parent, token).Ok? && EraseChild(parent, token).value != parent
  {
    if parent.Arr? {
      var i := ArrayIndex(token).value;
      assert |parent.items[..i] + parent.items[i + 1..]| < |parent.items|;
    } else {
      assert token !in parent.members - {token};
    }
  }

  /** An operation that throws leaves the document alone, except a move that has already removed its value. */
  lemma ThrowsHalfwayExactly(op: Op, doc: Json)
    requires ApplyOp(op, doc).error.Some?
    ensures ApplyOp(op, doc).doc != doc <==> op.Move? && op.from != [] && At(doc, op.from).Ok?
  {
    hide At, Put, AddAt, RemoveAt;
    if op.Move? && op.from != [] && At(doc, op.from).Ok? {
      RemoveChanges(doc, op.from);
    } else if op.Move? && op.from == [] {
      RootNotRemoved(doc);
    }
  }

  lemma RootNotRemoved(doc: Json)
    ensures RemoveAt(doc, []).Err?
  {
  }

  lemma MoveHalfway()
    ensures var doc := Obj(map["a" := Null]);
            var r := ApplyOp(Move(["a"], ["b", "c"]), doc);
            r.error == Some(OutOfRange) && r.doc == Obj(map[])
  {
    var doc := Obj(map["a" := Null]);
    assert At(doc, ["a"]) == Ok(Null);
    assert ["a"][..0] == [] && ["b", "c"][..1] == ["b"];
    var rest := map["a" := Null] - {"a"};
    assert rest == map[];
    assert RemoveAt(doc, ["a"]) == Ok(Obj(rest));
    assert At(Obj(rest), ["b"]) == Err(OutOfRange);
  }
}
