/** `diff`: the patch from one value to another, and that executing it arrives. */
module JsonDiff {
  import opened Wrappers
  import opened StringOrder
  import opened JsonValue
  import opened JsonPointer
  import opened JsonPatch
  import opened JsonPatchDocument

  // ---------- the operations, addressed from the compared value ----------

  function Min(a: nat, b: nat): nat {
    if a < b then a else b
  }

  function DiffOps(s: Json, t: Json): seq<Op>
    decreases s, 1, 0
  {
    if LibEq(s, t) then []
    else if s.Arr? && t.Arr? then
      var n := Min(|s.items|, |t.items|);
      ItemOps(s, t, n) + RemoveTail(n, |s.items|) + AddTail(t.items, n, |t.items|)
    else if s.Obj? && t.Obj? then
      KeyOps(s, t, Sorted(s.members.Keys)) + NewKeyOps(s.members, t.members, Sorted(t.members.Keys))
    else [Replace([], t)]
  }

  /** Elements both arrays have, the first `n` of them. */
  function ItemOps(s: Json, t: Json, n: nat): seq<Op>
    requires s.Arr? && t.Arr? && n <= |s.items| && n <= |t.items|
    decreases s, 0, n
  {
    if n == 0 then []
    else ItemOps(s, t, n - 1) + Under([Decimal(n - 1)], DiffOps(s.items[n - 1], t.items[n - 1]))
  }

  /** Removals of the elements from `lo` up to `hi`, the last element first. */
  function RemoveTail(lo: nat, hi: nat): seq<Op>
    decreases hi
  {
    if hi <= lo then [] else [Remove([Decimal(hi - 1)])] + RemoveTail(lo, hi - 1)
  }

  /** Additions of the elements from `lo` up to `hi`. */
  function AddTail(items: seq<Json>, lo: nat, hi: nat): seq<Op>
    requires hi <= |items|
    decreases hi
  {
    if hi <= lo then [] else AddTail(items, lo, hi - 1) + [Add(["-"], items[hi - 1])]
  }

  /** Members of the source, for the keys of a prefix of its key list. */
  function KeyOps(s: Json, t: Json, ks: seq<string>): seq<Op>
    requires s.Obj? && t.Obj? && forall i | 0 <= i < |ks| :: ks[i] in s.members
    decreases s, 0, |ks|
  {
    if ks == [] then []
    else
      var k := ks[|ks| - 1];
      KeyOps(s, t, ks[..|ks| - 1]) +
      if k in t.members then Under([k], DiffOps(s.members[k], t.members[k])) else [Remove([k])]
  }

  /** Members only the target has. */
  function NewKeyOps(s: map<string, Json>, t: map<string, Json>, ks: seq<string>): seq<Op>
    requires forall i | 0 <= i < |ks| :: ks[i] in t
    decreases |ks|
  {
    if ks == [] then []
    else
      var k := ks[|ks| - 1];
      NewKeyOps(s, t, ks[..|ks| - 1]) + if k !in s then [Add([k], t[k])] else []
  }

  // ---------- every operation is inner ----------

  lemma InnerConcat(a: seq<Op>, b: seq<Op>)
    requires AllInner(a) && AllInner(b)
    ensures AllInner(a + b)
  {
  }

  lemma {:induction false} InnerUnder(token: string, ops: seq<Op>)
    requires AllInner(ops)
    ensures AllInner(Under([token], ops))
  {
    if ops != [] {
      InnerUnder(token, ops[1..]);
      InnerConcat([UnderOp([token], ops[0])], Under([token], ops[1..]));
    }
  }

  lemma {:induction false} DiffInner(s: Json, t: Json)
    ensures AllInner(DiffOps(s, t))
    decreases s, 1, 0
  {
    if LibEq(s, t) {
    } else if s.Arr? && t.Arr? {
      var n := Min(|s.items|, |t.items|);
      ItemsInner(s, t, n);
      RemoveTailInner(n, |s.items|);
      AddTailInner(t.items, n, |t.items|);
      InnerConcat(ItemOps(s, t, n), RemoveTail(n, |s.items|));
      InnerConcat(ItemOps(s, t, n) + RemoveTail(n, |s.items|), AddTail(t.items, n, |t.items|));
    } else if s.Obj? && t.Obj? {
      var ks, kt := Sorted(s.members.Keys), Sorted(t.members.Keys);
      KeysInner(s, t, ks);
      NewKeysInner(s.members, t.members, kt);
      InnerConcat(KeyOps(s, t, ks), NewKeyOps(s.members, t.members, kt));
    }
  }

  lemma {:induction false} ItemsInner(s: Json, t: Json, n: nat)
    requires s.Arr? && t.Arr? && n <= |s.items| && n <= |t.items|
    ensures AllInner(ItemOps(s, t, n))
    decreases s, 0, n
  {
    hide LibEq;
    if n > 0 {
      var ops := DiffOps(s.items[n - 1], t.items[n - 1]);
      ItemsInner(s, t, n - 1);
      DiffInner(s.items[n - 1], t.items[n - 1]);
      InnerUnder(Decimal(n - 1), ops);
      InnerConcat(ItemOps(s, t, n - 1), Under([Decimal(n - 1)], ops));
    }
  }

  lemma {:induction false} RemoveTailInner(lo: nat, hi: nat)
    ensures AllInner(RemoveTail(lo, hi))
    decreases hi
  {
    if hi > lo {
      RemoveTailInner(lo, hi - 1);
      InnerConcat([Remove([Decimal(hi - 1)])], RemoveTail(lo, hi - 1));
    }
  }

  lemma {:induction false} AddTailInner(items: seq<Json>, lo: nat, hi: nat)
    requires hi <= |items|
    ensures AllInner(AddTail(items, lo, hi))
    decreases hi
  {
    if hi > lo {
      AddTailInner(items, lo, hi - 1);
      InnerConcat(AddTail(items, lo, hi - 1), [Add(["-"], items[hi - 1])]);
    }
  }

  lemma {:induction false} KeysInner(s: Json, t: Json, ks: seq<string>)
    requires s.Obj? && t.Obj? && forall i | 0 <= i < |ks| :: ks[i] in s.members
    ensures AllInner(KeyOps(s, t, ks))
    decreases s, 0, |ks|
  {
    hide LibEq;
    if ks != [] {
      var init, k := ks[..|ks| - 1], ks[|ks| - 1];
      KeysInner(s, t, init);
      if k in t.members {
        var ops := DiffOps(s.members[k], t.members[k]);
        DiffInner(s.members[k], t.members[k]);
        InnerUnder(k, ops);
        InnerConcat(KeyOps(s, t, init), Under([k], ops));
      } else {
        InnerConcat(KeyOps(s, t, init), [Remove([k])]);
      }
    }
  }

  lemma {:induction false} NewKeysInner(s: map<string, Json>, t: map<string, Json>, ks: seq<string>)
    requires forall i | 0 <= i < |ks| :: ks[i] in t
    ensures AllInner(NewKeyOps(s, t, ks))
    decreases |ks|
  {
    if ks != [] {
      var init, k := ks[..|ks| - 1], ks[|ks| - 1];
      NewKeysInner(s, t, init);
      InnerConcat(NewKeyOps(s, t, init), if k !in s then [Add([k], t[k])] else []);
    }
  }

  // ---------- running them ----------

  /** The operations run without an error and leave `t`, up to the library's equality. */
  ghost predicate Arrives(s: Json, t: Json) {
    var r := Run(DiffOps(s, t), s);
    r.error.None? && LibEq(r.doc, t)
  }

  lemma {:induction false} DiffArrives(s: Json, t: Json)
    ensures Arrives(s, t)
    decreases s, 2, 0
  {
    if !LibEq(s, t) {
      if s.Arr? && t.Arr? {
        ArraysArrive(s, t);
      } else if s.Obj? && t.Obj? {
        ObjectsArrive(s, t);
      } else {
        LibEqReflexive(t);
      }
    }
  }

  lemma RunNone(doc: Json)
    ensures Run([], doc) == Patched(doc, None)
  {
  }

  lemma RunFirst(op: Op, ops: seq<Op>, doc0: Json, doc1: Json)
    requires ApplyOp(op, doc0) == Patched(doc1, None)
    ensures Run([op] + ops, doc0) == Run(ops, doc1)
  {
    assert ([op] + ops)[1..] == ops;
  }

  lemma RunTwo(a: seq<Op>, b: seq<Op>, doc0: Json, doc1: Json)
    requires Run(a, doc0) == Patched(doc1, None)
    ensures Run(a + b, doc0) == Run(b, doc1)
  {
    RunConcat(a, b, doc0);
  }

  lemma RunThree(a: seq<Op>, b: seq<Op>, c: seq<Op>, doc0: Json, doc1: Json, doc2: Json, doc3: Json)
    requires Run(a, doc0) == Patched(doc1, None)
    requires Run(b, doc1) == Patched(doc2, None)
    requires Run(c, doc2) == Patched(doc3, None)
    ensures Run(a + b + c, doc0) == Patched(doc3, None)
  {
    RunConcat(a, b, doc0);
    RunConcat(a + b, c, doc0);
  }

  lemma {:induction false} ArraysArrive(s: Json, t: Json)
    requires s.Arr? && t.Arr? && !LibEq(s, t)
    ensures Arrives(s, t)
    decreases s, 1, 0
  {
    var n := Min(|s.items|, |t.items|);
    var xs := ItemsArrive(s, t, n);
    var ys := xs[..n] + t.items[n..];
    RemoveTailRuns(xs, n);
    AddTailRuns(xs[..n], t.items, |t.items|);
    assert t.items[n..|t.items|] == t.items[n..];
    RunThree(ItemOps(s, t, n), RemoveTail(n, |s.items|), AddTail(t.items, n, |t.items|), s, Arr(xs), Arr(xs[..n]), Arr(ys));
    forall i | 0 <= i < |t.items| ensures LibEq(ys[i], t.items[i]) {
      if n <= i { LibEqReflexive(t.items[i]); }
    }
  }

  lemma {:induction false} ObjectsArrive(s: Json, t: Json)
    requires s.Obj? && t.Obj? && !LibEq(s, t)
    ensures Arrives(s, t)
    decreases s, 1, 0
  {
    var ks, kt := Sorted(s.members.Keys), Sorted(t.members.Keys);
    var m := KeysArrive(s, t, ks);
    var m' := NewKeysRun(s.members, t.members, kt, m);
    RunConcat(KeyOps(s, t, ks), NewKeyOps(s.members, t.members, kt), s);
    assert Run(DiffOps(s, t), s) == Patched(Obj(m'), None);
    hide DiffOps, Run, NewKeyOps, KeyOps;
    forall k | k in t.members ensures k in m' && LibEq(m'[k], t.members[k]) {
      assert k in kt;
      if k !in s.members { LibEqReflexive(t.members[k]); }
    }
    MembersEqual(m', t.members);
  }

  lemma MembersEqual(a: map<string, Json>, b: map<string, Json>)
    requires forall k :: k in a ==> k in b
    requires forall k :: k in b ==> k in a && LibEq(a[k], b[k])
    ensures LibEq(Obj(a), Obj(b))
  {
    assert a.Keys == b.Keys;
  }

  lemma PutChild(j: Json, token: string, v: Json)
    requires Child(j, token).Ok? && At(j, [token]).Ok?
    ensures Put(j, [token], v) == SetChild(j, token, v)
  {
    assert [token][1..] == [];
    assert Put(Child(j, token).value, [], v) == v;
  }

  /** A patch to one array element. */
  lemma PatchItem(xs: seq<Json>, i: nat, ops: seq<Op>)
    requires i < |xs| && AllInner(ops)
    ensures Run(Under([Decimal(i)], ops), Arr(xs)) ==
            Patched(Arr(xs[i := Run(ops, xs[i]).doc]), Run(ops, xs[i]).error)
  {
    var token := Decimal(i);
    IndexOfDecimal(i);
    hide Run, Under, Decimal, ArrayIndex;
    ChildAt(Arr(xs), token);
    Locality(Arr(xs), [token], ops);
    PutChild(Arr(xs), token, Run(ops, xs[i]).doc);
  }

  /** A patch to one member. */
  lemma PatchMember(m: map<string, Json>, k: string, ops: seq<Op>)
    requires k in m && AllInner(ops)
    ensures Run(Under([k], ops), Obj(m)) ==
            Patched(Obj(m[k := Run(ops, m[k]).doc]), Run(ops, m[k]).error)
  {
    hide Run, Under;
    ChildAt(Obj(m), k);
    Locality(Obj(m), [k], ops);
    PutChild(Obj(m), k, Run(ops, m[k]).doc);
  }

  /** After the first pass over two arrays: the common elements have arrived, the others are untouched. */
  lemma {:induction false} ItemsArrive(s: Json, t: Json, n: nat) returns (xs: seq<Json>)
    requires s.Arr? && t.Arr? && n <= |s.items| && n <= |t.items|
    ensures Run(ItemOps(s, t, n), s) == Patched(Arr(xs), None)
    ensures |xs| == |s.items|
    ensures forall i :: 0 <= i < n ==> LibEq(xs[i], t.items[i])
    ensures forall i :: n <= i < |xs| ==> xs[i] == s.items[i]
    decreases s, 0, n
  {
    hide Run, LibEq, Decimal;
    RunNone(s);
    if n == 0 {
      xs := s.items;
    } else {
      var ys := ItemsArrive(s, t, n - 1);
      var ops := DiffOps(s.items[n - 1], t.items[n - 1]);
      DiffArrives(s.items[n - 1], t.items[n - 1]);
      DiffInner(s.items[n - 1], t.items[n - 1]);
      PatchItem(ys, n - 1, ops);
      RunTwo(ItemOps(s, t, n - 1), Under([Decimal(n - 1)], ops), s, Arr(ys));
      xs := ys[n - 1 := Run(ops, s.items[n - 1]).doc];
    }
  }

  lemma {:induction false} RemoveTailRuns(xs: seq<Json>, lo: nat)
    requires lo <= |xs|
    ensures Run(RemoveTail(lo, |xs|), Arr(xs)) == Patched(Arr(xs[..lo]), None)
    decreases |xs|
  {
    hide Run, ApplyOp, Decimal;
    var hi := |xs|;
    RunNone(Arr(xs));
    if hi == lo {
      assert xs[..lo] == xs;
    } else {
      var shorter := xs[..hi - 1];
      RemoveLast(xs);
      RunFirst(Remove([Decimal(hi - 1)]), RemoveTail(lo, hi - 1), Arr(xs), Arr(shorter));
      RemoveTailRuns(shorter, lo);
      assert shorter[..lo] == xs[..lo];
    }
  }

  /** An operation on a direct child of the document. */
  lemma EditRoot(doc: Json, token: string, e: Edit)
    ensures EditAt(doc, [token], e) == EditChild(doc, token, e)
  {
    hide EditChild;
    assert [token][..0] == [];
  }

  lemma RunOne(op: Op, doc: Json)
    ensures Run([op], doc) == ApplyOp(op, doc)
  {
    hide ApplyOp;
    assert [op][1..] == [];
    RunNone(ApplyOp(op, doc).doc);
  }

  lemma AppendItem(xs: seq<Json>, v: Json)
    ensures Run([Add(["-"], v)], Arr(xs)) == Patched(Arr(xs + [v]), None)
  {
    hide Run, EditAt;
    RunOne(Add(["-"], v), Arr(xs));
    EditRoot(Arr(xs), "-", Insert(v));
  }

  lemma RemoveLast(xs: seq<Json>)
    requires xs != []
    ensures ApplyOp(Remove([Decimal(|xs| - 1)]), Arr(xs)) == Patched(Arr(xs[..|xs| - 1]), None)
  {
    hide Decimal, ArrayIndex, EditAt;
    var i := |xs| - 1;
    IndexOfDecimal(i);
    EditRoot(Arr(xs), Decimal(i), Erase);
    assert xs[..i] + xs[i + 1..] == xs[..i];
  }

  lemma {:induction false} AddTailRuns(xs: seq<Json>, items: seq<Json>, hi: nat)
    requires |xs| <= hi <= |items|
    ensures Run(AddTail(items, |xs|, hi), Arr(xs)) == Patched(Arr(xs + items[|xs|..hi]), None)
    decreases hi
  {
    hide Run;
    var lo := |xs|;
    RunNone(Arr(xs));
    if hi == lo {
      assert xs + items[lo..hi] == xs;
    } else {
      var ys := xs + items[lo..hi - 1];
      AddTailRuns(xs, items, hi - 1);
      RunTwo(AddTail(items, lo, hi - 1), [Add(["-"], items[hi - 1])], Arr(xs), Arr(ys));
      AppendItem(ys, items[hi - 1]);
      assert xs + items[lo..hi - 1] + [items[hi - 1]] == xs + items[lo..hi];
    }
  }

  lemma RemoveMember(m: map<string, Json>, k: string)
    requires k in m
    ensures Run([Remove([k])], Obj(m)) == Patched(Obj(m - {k}), None)
  {
    hide Run, EditAt;
    RunOne(Remove([k]), Obj(m));
    EditRoot(Obj(m), k, Erase);
  }

  lemma AddMember(m: map<string, Json>, k: string, v: Json)
    ensures Run([Add([k], v)], Obj(m)) == Patched(Obj(m[k := v]), None)
  {
    hide Run, EditAt;
    RunOne(Add([k], v), Obj(m));
    EditRoot(Obj(m), k, Insert(v));
  }

  predicate Distinct(ks: seq<string>) {
    forall i, j | 0 <= i < j < |ks| :: ks[i] != ks[j]
  }

  /** After the first pass over two objects. */
  lemma {:induction false} KeysArrive(s: Json, t: Json, ks: seq<string>) returns (m: map<string, Json>)
    requires s.Obj? && t.Obj? && Distinct(ks) && forall i | 0 <= i < |ks| :: ks[i] in s.members
    ensures Run(KeyOps(s, t, ks), s) == Patched(Obj(m), None)
    ensures forall k :: k in m <==> k in s.members && (k in ks ==> k in t.members)
    ensures forall k :: k in m && k in ks ==> LibEq(m[k], t.members[k])
    ensures forall k :: k in m && k !in ks ==> m[k] == s.members[k]
    decreases s, 0, |ks|
  {
    hide Run, LibEq;
    RunNone(s);
    if ks == [] {
      m := s.members;
    } else {
      var init, k := ks[..|ks| - 1], ks[|ks| - 1];
      assert ks == init + [k] && k !in init;
      var before := KeysArrive(s, t, init);
      if k in t.members {
        var ops := DiffOps(s.members[k], t.members[k]);
        DiffArrives(s.members[k], t.members[k]);
        DiffInner(s.members[k], t.members[k]);
        PatchMember(before, k, ops);
        RunTwo(KeyOps(s, t, init), Under([k], ops), s, Obj(before));
        m := before[k := Run(ops, s.members[k]).doc];
      } else {
        RunTwo(KeyOps(s, t, init), [Remove([k])], s, Obj(before));
        RemoveMember(before, k);
        m := before - {k};
      }
    }
  }

  lemma {:induction false} NewKeysRun(s: map<string, Json>, t: map<string, Json>, ks: seq<string>, m: map<string, Json>)
    returns (m': map<string, Json>)
    requires forall i | 0 <= i < |ks| :: ks[i] in t
    ensures Run(NewKeyOps(s, t, ks), Obj(m)) == Patched(Obj(m'), None)
    ensures forall k :: k in m' <==> k in m || (k in ks && k !in s)
    ensures forall k :: k in ks && k !in s ==> m'[k] == t[k]
    ensures forall k :: k in m && !(k in ks && k !in s) ==> m'[k] == m[k]
    decreases |ks|
  {
    hide Run;
    RunNone(Obj(m));
    if ks == [] {
      m' := m;
    } else {
      var init, k := ks[..|ks| - 1], ks[|ks| - 1];
      assert ks == init + [k];
      var before := NewKeysRun(s, t, init, m);
      if k !in s {
        RunTwo(NewKeyOps(s, t, init), [Add([k], t[k])], Obj(m), Obj(before));
        AddMember(before, k, t[k]);
        m' := before[k := t[k]];
      } else {
        assert NewKeyOps(s, t, ks) == NewKeyOps(s, t, init);
        m' := before;
      }
    }
  }

  // ---------- emptiness ----------

  lemma {:induction false} UnequalItem(s: seq<Json>, t: seq<Json>) returns (i: nat)
    requires |s| == |t| && !LibEq(Arr(s), Arr(t))
    ensures i < |s| && !LibEq(s[i], t[i])
  {
    i :| 0 <= i < |s| && !LibEq(s[i], t[i]);
  }

  lemma {:induction false} ItemOpsShown(s: Json, t: Json, n: nat, i: nat)
    requires s.Arr? && t.Arr? && i < n && n <= |s.items| && n <= |t.items|
    requires DiffOps(s.items[i], t.items[i]) != []
    ensures ItemOps(s, t, n) != []
    decreases n
  {
    if i < n - 1 { ItemOpsShown(s, t, n - 1, i); }
  }

  lemma {:induction false} KeyOpsShown(s: Json, t: Json, ks: seq<string>, k: string)
    requires s.Obj? && t.Obj? && k in ks && forall i | 0 <= i < |ks| :: ks[i] in s.members
    requires k in t.members ==> DiffOps(s.members[k], t.members[k]) != []
    ensures KeyOps(s, t, ks) != []
    decreases |ks|
  {
    var init := ks[..|ks| - 1];
    assert ks == init + [ks[|ks| - 1]];
    if k != ks[|ks| - 1] { KeyOpsShown(s, t, init, k); }
  }

  lemma {:induction false} NewKeyOpsShown(s: map<string, Json>, t: map<string, Json>, ks: seq<string>, k: string)
    requires k in ks && k !in s && forall i | 0 <= i < |ks| :: ks[i] in t
    ensures NewKeyOps(s, t, ks) != []
    decreases |ks|
  {
    var init := ks[..|ks| - 1];
    assert ks == init + [ks[|ks| - 1]];
    if k != ks[|ks| - 1] { NewKeyOpsShown(s, t, init, k); }
  }

  /** The patch is empty exactly when there is nothing to change. */
  lemma {:induction false} EmptyExactly(s: Json, t: Json)
    ensures DiffOps(s, t) == [] <==> LibEq(s, t)
    decreases s
  {
    if LibEq(s, t) {
    } else if s.Arr? && t.Arr? {
      if |s.items| == |t.items| {
        var i := UnequalItem(s.items, t.items);
        EmptyExactly(s.items[i], t.items[i]);
        ItemOpsShown(s, t, |s.items|, i);
      }
    } else if s.Obj? && t.Obj? {
      var k, inSource := UnequalMember(s.members, t.members);
      if inSource {
        if k in t.members { EmptyExactly(s.members[k], t.members[k]); }
        KeyOpsShown(s, t, Sorted(s.members.Keys), k);
      } else {
        NewKeyOpsShown(s.members, t.members, Sorted(t.members.Keys), k);
      }
    }
  }

  lemma UnequalMember(s: map<string, Json>, t: map<string, Json>) returns (k: string, inSource: bool)
    requires !LibEq(Obj(s), Obj(t))
    ensures if inSource then k in s && (k in t ==> !LibEq(s[k], t[k])) else k in t && k !in s
  {
    if s.Keys <= t.Keys && t.Keys <= s.Keys {
      inSource := true;
      k :| k in s && !LibEq(s[k], t[k]);
    } else if s.Keys <= t.Keys {
      inSource := false;
      k :| k in t.Keys && k !in s.Keys;
    } else {
      inSource := true;
      k :| k in s.Keys && k !in t.Keys;
    }
  }

  // ---------- as a document ----------

  lemma {:induction false} DigitsNotEscaped(s: string)
    requires forall i | 0 <= i < |s| :: IsDigit(s[i])
    ensures EscapeChars(s) == s
  {
    if s != [] {
      assert IsDigit(s[0]);
      DigitsNotEscaped(s[1..]);
      assert s == [s[0]] + s[1..];
    }
  }

  lemma IndexNotEscaped(n: nat)
    ensures Escape(Decimal(n)) == Decimal(n)
  {
    EscapeByChar(Decimal(n));
    DecimalDigits(n);
    DigitsNotEscaped(Decimal(n));
  }

  lemma {:induction false} EncodeAllConcat(path: string, a: seq<Op>, b: seq<Op>)
    ensures EncodeAll(path, a + b) == EncodeAll(path, a) + EncodeAll(path, b)
  {
    if a == [] {
      assert a + b == b;
    } else {
      assert (a + b)[1..] == a[1..] + b;
      EncodeAllConcat(path, a[1..], b);
    }
  }

  lemma PathUnder(path: string, token: string, p: Pointer)
    ensures path + ToString([token] + p) == path + "/" + Escape(token) + ToString(p)
  {
    assert ([token] + p)[1..] == p;
    assert path + ("/" + Escape(token) + ToString(p)) == path + "/" + Escape(token) + ToString(p);
  }

  lemma {:induction false} EncodeUnder(path: string, token: string, ops: seq<Op>)
    ensures EncodeAll(path, Under([token], ops)) == EncodeAll(path + "/" + Escape(token), ops)
  {
    hide Escape;
    if ops != [] {
      EncodeUnder(path, token, ops[1..]);
      PathUnder(path, token, ops[0].path);
      if ops[0].Move? || ops[0].Copy? { PathUnder(path, token, ops[0].from); }
      EncodeFirst(path, UnderOp([token], ops[0]), Under([token], ops[1..]));
    }
  }

  lemma EncodeFirst(path: string, op: Op, ops: seq<Op>)
    ensures EncodeAll(path, [op] + ops) == [Encode(path, op)] + EncodeAll(path, ops)
  {
    assert ([op] + ops)[1..] == ops;
  }

  lemma EncodeOne(path: string, op: Op)
    ensures EncodeAll(path, [op]) == [Encode(path, op)]
    ensures EncodeAll(path, []) == []
  {
    assert [op][1..] == [];
  }

  lemma PathOf(path: string, token: string)
    ensures path + ToString([token]) == path + "/" + Escape(token)
    ensures path + ToString([]) == path
  {
    PathUnder(path, token, []);
    assert [token] + [] == [token];
  }

  function ReplacementElement(path: string, v: Json): Json {
    Obj(map["op" := Str("replace"), "path" := Str(path), "value" := v])
  }

  /** Values that are neither two arrays nor two objects are replaced as a whole. */
  lemma Replacement(s: Json, t: Json, path: string)
    requires !LibEq(s, t) && !(s.Arr? && t.Arr?) && !(s.Obj? && t.Obj?)
    ensures EncodeAll(path, DiffOps(s, t)) == [ReplacementElement(path, t)]
  {
    hide LibEq, EncodeAll;
    PathOf(path, "");
    EncodeOne(path, Replace([], t));
  }

  lemma NothingToDo(s: Json, t: Json, path: string)
    requires LibEq(s, t)
    ensures EncodeAll(path, DiffOps(s, t)) == []
  {
    hide LibEq;
  }

  /** The recursion over both values, building the patch as the elements of a JSON array. */
  method Diff(source: Json, target: Json, path: string) returns (result: seq<Json>)
    ensures result == EncodeAll(path, DiffOps(source, target))
    decreases source, 1
  {
    hide LibEq, EncodeAll, DiffOps;
    result := [];
    if LibEq(source, target) {
      NothingToDo(source, target, path);
      return;
    }
    if !SameType(source, target) {
      Replacement(source, target, path);
      return [ReplacementElement(path, target)];
    }
    match source {
      case Arr(items) =>
        result := DiffArrays(source, target, path);
      case Obj(members) =>
        result := DiffObjects(source, target, path);
      case _ =>
        Replacement(source, target, path);
        result := [ReplacementElement(path, target)];
    }
  }

  lemma ItemsNext(s: Json, t: Json, path: string, i: nat)
    requires s.Arr? && t.Arr? && i < |s.items| && i < |t.items|
    ensures EncodeAll(path, ItemOps(s, t, i + 1)) ==
            EncodeAll(path, ItemOps(s, t, i)) +
            EncodeAll(path + "/" + Decimal(i), DiffOps(s.items[i], t.items[i]))
  {
    hide LibEq;
    IndexNotEscaped(i);
    var ops := DiffOps(s.items[i], t.items[i]);
    EncodeUnder(path, Decimal(i), ops);
    EncodeAllConcat(path, ItemOps(s, t, i), Under([Decimal(i)], ops));
  }

  function RemovalElement(path: string): Json {
    Obj(map["op" := Str("remove"), "path" := Str(path)])
  }

  function AdditionElement(path: string, v: Json): Json {
    Obj(map["op" := Str("add"), "path" := Str(path), "value" := v])
  }

  lemma RemovalNext(path: string, lo: nat, i: nat)
    requires lo <= i
    ensures EncodeAll(path, RemoveTail(lo, i + 1)) ==
            [RemovalElement(path + "/" + Decimal(i))] + EncodeAll(path, RemoveTail(lo, i))
  {
    IndexNotEscaped(i);
    PathOf(path, Decimal(i));
    EncodeAllConcat(path, [Remove([Decimal(i)])], RemoveTail(lo, i));
    EncodeOne(path, Remove([Decimal(i)]));
  }

  lemma DashPath(path: string)
    ensures path + ToString(["-"]) == path + "/-"
  {
    PathOf(path, "-");
    EscapeByChar("-");
    assert "-"[1..] == [];
    assert Escape("-") == "-";
    assert path + "/" + "-" == path + "/-";
  }

  lemma AdditionNext(path: string, items: seq<Json>, lo: nat, i: nat)
    requires lo <= i < |items|
    ensures EncodeAll(path, AddTail(items, lo, i + 1)) ==
            EncodeAll(path, AddTail(items, lo, i)) + [AdditionElement(path + "/-", items[i])]
  {
    DashPath(path);
    EncodeAllConcat(path, AddTail(items, lo, i), [Add(["-"], items[i])]);
    EncodeOne(path, Add(["-"], items[i]));
  }

  lemma ArrayStart(s: Json, t: Json, path: string, lo: nat)
    requires s.Arr? && t.Arr?
    ensures EncodeAll(path, ItemOps(s, t, 0)) == []
    ensures EncodeAll(path, RemoveTail(lo, lo)) == []
    ensures lo <= |t.items| ==> EncodeAll(path, AddTail(t.items, lo, lo)) == []
  {
  }

  lemma ArrayParts(s: Json, t: Json, path: string)
    requires s.Arr? && t.Arr? && !LibEq(s, t)
    ensures var n := Min(|s.items|, |t.items|);
            EncodeAll(path, DiffOps(s, t)) ==
            EncodeAll(path, ItemOps(s, t, n)) + EncodeAll(path, RemoveTail(n, |s.items|)) +
            EncodeAll(path, AddTail(t.items, n, |t.items|))
  {
    var n := Min(|s.items|, |t.items|);
    EncodeAllConcat(path, ItemOps(s, t, n), RemoveTail(n, |s.items|));
    EncodeAllConcat(path, ItemOps(s, t, n) + RemoveTail(n, |s.items|), AddTail(t.items, n, |t.items|));
  }

  /** The array case of `Diff`. */
  method DiffArrays(source: Json, target: Json, path: string) returns (result: seq<Json>)
    requires source.Arr? && target.Arr? && !LibEq(source, target)
    ensures result == EncodeAll(path, DiffOps(source, target))
    decreases source, 0
  {
    hide LibEq, Decimal, DiffOps, ItemOps, EncodeAll;
    ArrayParts(source, target, path);
    ArrayStart(source, target, path, 0);
    result := [];
    var i := 0;
    while i < |source.items| && i < |target.items|
      invariant i <= |source.items| && i <= |target.items|
      invariant result == EncodeAll(path, ItemOps(source, target, i))
    {
      var tempDiff := Diff(source.items[i], target.items[i], path + "/" + Decimal(i));
      ItemsNext(source, target, path, i);
      result := result + tempDiff;
      i := i + 1;
    }
    ghost var n := i;
    ArrayStart(source, target, path, n);
    ghost var common := result;
    var endIndex := |result|;
    while i < |source.items|
      invariant n <= i <= |source.items|
      invariant endIndex == |common| <= |result|
      invariant result == common + EncodeAll(path, RemoveTail(n, i))
    {
      RemovalNext(path, n, i);
      result := result[..endIndex] + [RemovalElement(path + "/" + Decimal(i))] + result[endIndex..];
      i := i + 1;
    }
    ghost var shortened := result;
    while i < |target.items|
      invariant n <= i
      invariant n == |source.items| || |target.items| <= i
      invariant n == |target.items| || i <= |target.items|
      invariant result == shortened + EncodeAll(path, AddTail(target.items, n, Min(i, |target.items|)))
    {
      AdditionNext(path, target.items, n, i);
      result := result + [AdditionElement(path + "/-", target.items[i])];
      i := i + 1;
    }
  }

  lemma KeysNext(s: Json, t: Json, path: string, ks: seq<string>, i: nat)
    requires s.Obj? && t.Obj? && (forall j | 0 <= j < |ks| :: ks[j] in s.members) && i < |ks|
    ensures EncodeAll(path, KeyOps(s, t, ks[..i + 1])) ==
            EncodeAll(path, KeyOps(s, t, ks[..i])) +
            if ks[i] in t.members
            then EncodeAll(path + "/" + Escape(ks[i]), DiffOps(s.members[ks[i]], t.members[ks[i]]))
            else [RemovalElement(path + "/" + Escape(ks[i]))]
  {
    hide LibEq, Escape;
    var k := ks[i];
    assert ks[..i + 1][..i] == ks[..i];
    if k in t.members {
      var ops := DiffOps(s.members[k], t.members[k]);
      EncodeUnder(path, k, ops);
      EncodeAllConcat(path, KeyOps(s, t, ks[..i]), Under([k], ops));
    } else {
      PathOf(path, k);
      EncodeOne(path, Remove([k]));
      EncodeAllConcat(path, KeyOps(s, t, ks[..i]), [Remove([k])]);
    }
  }

  lemma NewKeysNext(s: map<string, Json>, t: map<string, Json>, path: string, ks: seq<string>, i: nat)
    requires (forall j | 0 <= j < |ks| :: ks[j] in t) && i < |ks|
    ensures EncodeAll(path, NewKeyOps(s, t, ks[..i + 1])) ==
            EncodeAll(path, NewKeyOps(s, t, ks[..i])) +
            if ks[i] !in s then [AdditionElement(path + "/" + Escape(ks[i]), t[ks[i]])] else []
  {
    hide Escape;
    var k := ks[i];
    assert ks[..i + 1][..i] == ks[..i];
    PathOf(path, k);
    var ops := if k !in s then [Add([k], t[k])] else [];
    EncodeAllConcat(path, NewKeyOps(s, t, ks[..i]), ops);
    if k !in s { EncodeOne(path, Add([k], t[k])); }
  }

  lemma ObjectParts(s: Json, t: Json, path: string)
    requires s.Obj? && t.Obj? && !LibEq(s, t)
    ensures EncodeAll(path, KeyOps(s, t, [])) == []
    ensures EncodeAll(path, NewKeyOps(s.members, t.members, [])) == []
    ensures EncodeAll(path, DiffOps(s, t)) ==
            EncodeAll(path, KeyOps(s, t, Sorted(s.members.Keys))) +
            EncodeAll(path, NewKeyOps(s.members, t.members, Sorted(t.members.Keys)))
  {
    EncodeAllConcat(path, KeyOps(s, t, Sorted(s.members.Keys)),
                    NewKeyOps(s.members, t.members, Sorted(t.members.Keys)));
  }

  /** The object case of `Diff`. */
  method DiffObjects(source: Json, target: Json, path: string) returns (result: seq<Json>)
    requires source.Obj? && target.Obj? && !LibEq(source, target)
    ensures result == EncodeAll(path, DiffOps(source, target))
    decreases source, 0
  {
    hide LibEq, Escape, DiffOps, KeyOps, NewKeyOps, EncodeAll, Sorted, Le;
    ObjectParts(source, target, path);
    result := [];
    var ks := Sorted(source.members.Keys);
    var i := 0;
    assert ks[..0] == [];
    while i < |ks|
      invariant 0 <= i <= |ks|
      invariant result == EncodeAll(path, KeyOps(source, target, ks[..i]))
    {
      var key := ks[i];
      assert key in ks;
      KeysNext(source, target, path, ks, i);
      if key in target.members {
        var tempDiff := Diff(source.members[key], target.members[key], path + "/" + Escape(key));
        result := result + tempDiff;
      } else {
        result := result + [RemovalElement(path + "/" + Escape(key))];
      }
      i := i + 1;
    }
    assert ks[..i] == ks;
    ghost var first := result;
    var kt := Sorted(target.members.Keys);
    i := 0;
    assert kt[..0] == [];
    while i < |kt|
      invariant 0 <= i <= |kt|
      invariant result == first + EncodeAll(path, NewKeyOps(source.members, target.members, kt[..i]))
    {
      var key := kt[i];
      assert key in kt;
      NewKeysNext(source.members, target.members, path, kt, i);
      if key !in source.members {
        result := result + [AdditionElement(path + "/" + Escape(key), target.members[key])];
      }
      i := i + 1;
    }
    assert kt[..i] == kt;
  }

  /** The patch `diff` returns, executed on the source, reaches the target, and no operation in it fails. */
  lemma DiffPatchRoundTrip(s: Json, t: Json)
    ensures var r := PatchResult(Arr(EncodeAll("", DiffOps(s, t))), s);
            r.error.None? && LibEq(r.doc, t)
  {
    RunEncoded(DiffOps(s, t), s);
    DiffArrives(s, t);
  }

  /** Executing in place what `diff` returned, as a caller would. */
  method ApplyDiff(document: Document, target: Json) returns (thrown: Option<Error>)
    modifies document
    ensures thrown.None? && LibEq(document.root, target)
    ensures LibEq(old(document.root), target) ==> document.root == old(document.root)
  {
    var ops := Diff(document.root, target, "");
    DiffPatchRoundTrip(document.root, target);
    EmptyExactly(document.root, target);
    thrown := document.PatchInplace(Arr(ops));
  }
}
