/** `patch_inplace`: the six operations, the documents that describe them, and what they leave alone. */
module JsonPatch {
  import opened Wrappers
  import opened JsonValue
  import opened JsonPointer

  datatype Op =
    | Add(path: Pointer, value: Json)
    | Remove(path: Pointer)
    | Replace(path: Pointer, value: Json)
    | Move(from: Pointer, path: Pointer)
    | Copy(from: Pointer, path: Pointer)
    | Test(path: Pointer, value: Json)

  /** A document after some operations, and what was thrown if one of them failed. */
  datatype Patched = Patched(doc: Json, error: Option<Error>)

  // ---------- the operations ----------

  /** A change made to the container that holds the target location. */
  datatype Edit = Insert(value: Json) | Erase

  function InsertChild(parent: Json, token: string, v: Json): Result<Json, Error> {
    match parent
    case Null => Ok(Obj(map[token := v]))
    case Obj(m) => Ok(Obj(m[token := v]))
    case Arr(items) =>
      if token == "-" then Ok(Arr(items + [v]))
      else (match ArrayIndex(token)
            case Err(e) => Err(e)
            case Ok(i) =>
              if i > |items| then Err(OutOfRange) else Ok(Arr(items[..i] + [v] + items[i..])))
    case _ => Err(AssertionFailed)
  }

  function EraseChild(parent: Json, token: string): Result<Json, Error> {
    match parent
    case Obj(m) => if token in m then Ok(Obj(m - {token})) else Err(OutOfRange)
    case Arr(items) =>
      (match ArrayIndex(token)
       case Err(e) => Err(e)
       case Ok(i) => if i >= |items| then Err(OutOfRange) else Ok(Arr(items[..i] + items[i + 1..])))
    case _ => Ok(parent)
  }

  function EditChild(parent: Json, token: string, e: Edit): Result<Json, Error> {
    match e
    case Insert(v) => InsertChild(parent, token, v)
    case Erase => EraseChild(parent, token)
  }

  function EditAt(doc: Json, p: Pointer, e: Edit): Result<Json, Error>
    requires p != []
  {
    var parentPath := p[..|p| - 1];
    match At(doc, parentPath)
    case Err(x) => Err(x)
    case Ok(parent) =>
      match EditChild(parent, p[|p| - 1], e)
      case Err(x) => Err(x)
      case Ok(edited) => Ok(Put(doc, parentPath, edited))
  }

  function AddAt(doc: Json, p: Pointer, v: Json): Result<Json, Error> {
    if p == [] then Ok(v) else EditAt(doc, p, Insert(v))
  }

  function RemoveAt(doc: Json, p: Pointer): Result<Json, Error> {
    if p == [] then Err(OutOfRange) else EditAt(doc, p, Erase)
  }

  function Finish(doc: Json, r: Result<Json, Error>): Patched {
    match r
    case Ok(changed) => Patched(changed, None)
    case Err(e) => Patched(doc, Some(e))
  }

  function ApplyOp(op: Op, doc: Json): Patched {
    match op
    case Add(p, v) => Finish(doc, AddAt(doc, p, v))
    case Remove(p) => Finish(doc, RemoveAt(doc, p))
    case Replace(p, v) =>
      (match At(doc, p)
       case Err(e) => Patched(doc, Some(e))
       case Ok(_) => Patched(Put(doc, p, v), None))
    case Move(f, p) =>
      (match At(doc, f)
       case Err(e) => Patched(doc, Some(e))
       case Ok(v) =>
         match RemoveAt(doc, f)
         case Err(e) => Patched(doc, Some(e))
         case Ok(without) => Finish(without, AddAt(without, p, v)))
    case Copy(f, p) =>
      (match At(doc, f)
       case Err(e) => Patched(doc, Some(e))
       case Ok(v) => Finish(doc, AddAt(doc, p, v)))
    case Test(p, v) =>
      match At(doc, p)
      case Err(OutOfRange) => Patched(doc, Some(PatchTestFailed))
      case Err(e) => Patched(doc, Some(e))
      case Ok(found) => Patched(doc, if LibEq(found, v) then None else Some(PatchTestFailed))
  }

  /** The operations one after another, stopping at the first that throws. */
  function Run(ops: seq<Op>, doc: Json): Patched {
    if ops == [] then Patched(doc, None)
    else
      var first := ApplyOp(ops[0], doc);
      if first.error.Some? then first else Run(ops[1..], first.doc)
  }

  lemma {:induction false} RunConcat(a: seq<Op>, b: seq<Op>, doc: Json)
    ensures Run(a + b, doc) == if Run(a, doc).error.Some? then Run(a, doc) else Run(b, Run(a, doc).doc)
  {
    if a == [] {
      assert a + b == b;
    } else {
      assert (a + b)[1..] == a[1..] + b;
      RunConcat(a[1..], b, ApplyOp(a[0], doc).doc);
    }
  }

  // ---------- locality ----------

  function UnderOp(p: Pointer, op: Op): Op {
    match op
    case Add(q, v) => Add(p + q, v)
    case Remove(q) => Remove(p + q)
    case Replace(q, v) => Replace(p + q, v)
    case Move(f, q) => Move(p + f, p + q)
    case Copy(f, q) => Copy(p + f, p + q)
    case Test(q, v) => Test(p + q, v)
  }

  function Under(p: Pointer, ops: seq<Op>): seq<Op> {
    if ops == [] then [] else [UnderOp(p, ops[0])] + Under(p, ops[1..])
  }

  /** An operation that changes only the inside of the value it is addressed from. */
  predicate Inner(op: Op) {
    match op
    case Add(q, _) => q != []
    case Remove(q) => q != []
    case Replace(_, _) => true
    case Move(f, q) => f != [] && q != []
    case Copy(_, q) => q != []
    case Test(_, _) => true
  }

  predicate AllInner(ops: seq<Op>) {
    forall i | 0 <= i < |ops| :: Inner(ops[i])
  }

  function LiftResult(doc: Json, p: Pointer, r: Result<Json, Error>): Result<Json, Error>
    requires At(doc, p).Ok?
  {
    match r
    case Ok(sub) => Ok(Put(doc, p, sub))
    case Err(e) => Err(e)
  }

  lemma EditUnder(doc: Json, p: Pointer, q: Pointer, e: Edit)
    requires At(doc, p).Ok? && q != []
    ensures EditAt(doc, p + q, e) == LiftResult(doc, p, EditAt(At(doc, p).value, q, e))
  {
    var up := q[..|q| - 1];
    assert (p + q)[..|p + q| - 1] == p + up;
    assert (p + q)[|p + q| - 1] == q[|q| - 1];
    AtConcat(doc, p, up);
    match At(At(doc, p).value, up)
    case Err(_) =>
    case Ok(parent) =>
      match EditChild(parent, q[|q| - 1], e)
      case Err(_) =>
      case Ok(edited) => PutConcat(doc, p, up, edited);
  }

  function Lift(doc: Json, p: Pointer, sub: Patched): Patched
    requires At(doc, p).Ok?
  {
    Patched(Put(doc, p, sub.doc), sub.error)
  }

  lemma ApplyUnder(doc: Json, p: Pointer, op: Op)
    requires At(doc, p).Ok? && Inner(op)
    ensures ApplyOp(UnderOp(p, op), doc) == Lift(doc, p, ApplyOp(op, At(doc, p).value))
  {
    var sub := At(doc, p).value;
    PutAt(doc, p);
    match op
    case Add(q, v) => EditUnder(doc, p, q, Insert(v));
    case Remove(q) => EditUnder(doc, p, q, Erase);
    case Replace(q, v) =>
      AtConcat(doc, p, q);
      if At(sub, q).Ok? { PutConcat(doc, p, q, v); }
    case Move(f, q) =>
      AtConcat(doc, p, f);
      if At(sub, f).Ok? {
        EditUnder(doc, p, f, Erase);
        if RemoveAt(sub, f).Ok? {
          var without, subWithout := RemoveAt(doc, p + f).value, RemoveAt(sub, f).value;
          AtPut(doc, p, subWithout);
          EditUnder(without, p, q, Insert(At(sub, f).value));
          if AddAt(subWithout, q, At(sub, f).value).Ok? {
            PutPut(doc, p, subWithout, AddAt(subWithout, q, At(sub, f).value).value);
          }
        }
      }
    case Copy(f, q) =>
      AtConcat(doc, p, f);
      if At(sub, f).Ok? { EditUnder(doc, p, q, Insert(At(sub, f).value)); }
    case Test(q, v) => AtConcat(doc, p, q);
  }

  /** Patching below `p` is patching the value at `p` in isolation and putting it back. */
  lemma {:induction false} Locality(doc: Json, p: Pointer, ops: seq<Op>)
    requires At(doc, p).Ok? && AllInner(ops)
    ensures Run(Under(p, ops), doc) == Lift(doc, p, Run(ops, At(doc, p).value))
    decreases |ops|
  {
    if ops == [] {
      PutAt(doc, p);
    } else {
      ApplyUnder(doc, p, ops[0]);
      var first := ApplyOp(ops[0], At(doc, p).value);
      AtPut(doc, p, first.doc);
      Locality(Put(doc, p, first.doc), p, ops[1..]);
      PutPut(doc, p, first.doc, Run(ops[1..], first.doc).doc);
    }
  }

  // ---------- frame ----------

  /** `q` leaves the path `p` at some step: neither location is inside the other. */
  predicate Diverge(p: Pointer, q: Pointer) {
    p != [] && q != [] && (p[0] != q[0] || Diverge(p[1..], q[1..]))
  }

  lemma {:induction false} PositiveDigits(a: string)
    requires forall i | 0 <= i < |a| :: IsDigit(a[i])
    requires a != [] && a[0] != '0'
    ensures DigitsValue(a) > 0
  {
    assert IsDigit(a[|a| - 1]);
    if |a| > 1 { PositiveDigits(a[..|a| - 1]); }
  }

  predicate Canonical(a: string) {
    && a != []
    && (forall i | 0 <= i < |a| :: IsDigit(a[i]))
    && (|a| > 1 ==> a[0] != '0')
  }

  lemma {:induction false} IndexInjective(a: string, b: string)
    requires Canonical(a) && Canonical(b) && DigitsValue(a) == DigitsValue(b)
    ensures a == b
  {
    var a', b' := a[..|a| - 1], b[..|b| - 1];
    assert a == a' + [a[|a| - 1]] && b == b' + [b[|b| - 1]];
    assert IsDigit(a[|a| - 1]) && IsDigit(b[|b| - 1]);
    assert DigitsValue(a') == DigitsValue(b') && a[|a| - 1] == b[|b| - 1];
    if a' != [] { PositiveDigits(a'); }
    if b' != [] { PositiveDigits(b'); }
    if a' != [] && b' != [] { IndexInjective(a', b'); }
  }

  lemma ArrayIndexInjective(a: string, b: string)
    requires ArrayIndex(a).Ok? && ArrayIndex(a) == ArrayIndex(b)
    ensures a == b
  {
    IndexInjective(a, b);
  }

  /** Assigning at `p` is invisible at every location that diverges from `p`. */
  lemma {:induction false} PutFrame(doc: Json, p: Pointer, q: Pointer, v: Json)
    requires At(doc, p).Ok? && Diverge(p, q)
    ensures At(Put(doc, p, v), q) == At(doc, q)
  {
    var child := Child(doc, p[0]).value;
    if p[0] == q[0] {
      PutFrame(child, p[1..], q[1..], v);
    } else if doc.Arr? && ArrayIndex(p[0]) == ArrayIndex(q[0]) {
      ArrayIndexInjective(p[0], q[0]);
      assert false;
    }
  }

  /** A patch below `p` leaves every location that diverges from `p` as it was, even when it fails halfway. */
  lemma PatchFrame(doc: Json, p: Pointer, ops: seq<Op>, q: Pointer)
    requires At(doc, p).Ok? && AllInner(ops) && Diverge(p, q)
    ensures At(Run(Under(p, ops), doc).doc, q) == At(doc, q)
  {
    Locality(doc, p, ops);
    PutFrame(doc, p, q, Run(ops, At(doc, p).value).doc);
  }
}
