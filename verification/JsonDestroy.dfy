/** `json_value::destroy`: flattening a value onto a stack instead of recursing into it. */
module JsonDestroy {
  import opened Wrappers
  import opened StringOrder
  import opened JsonValue
  import opened JsonPointer
  import opened JsonPatch

  /** The tokens that select the children of a value, in storage order. */
  function Tokens(j: Json): (ts: seq<string>)
    ensures forall i :: 0 <= i < |ts| ==> Child(j, ts[i]).Ok?
    ensures forall i, k :: 0 <= i < k < |ts| ==> ts[i] != ts[k]
  {
    match j
    case Arr(items) => (Indices(|items|); seq(|items|, (i: nat) => Decimal(i)))
    case Obj(m) => Sorted(m.Keys)
    case _ => []
  }

  lemma Indices(n: nat)
    ensures forall i: nat :: ArrayIndex(Decimal(i)) == Ok(i) && Decimal(i) != "-"
  {
    forall i: nat ensures ArrayIndex(Decimal(i)) == Ok(i) && Decimal(i) != "-" { IndexOfDecimal(i); }
  }

  lemma TokensComplete(j: Json, token: string)
    requires Child(j, token).Ok?
    ensures token in Tokens(j)
  {
    if j.Arr? {
      var i := ArrayIndex(token).value;
      IndexOfDecimal(i);
      ArrayIndexInjective(token, Decimal(i));
      Indices(0);
      assert Tokens(j)[i] == Decimal(i);
    }
  }

  function Children(j: Json): (cs: seq<Json>)
    ensures |cs| == |Tokens(j)|
    ensures forall i :: 0 <= i < |cs| ==> Child(j, Tokens(j)[i]) == Ok(cs[i])
  {
    match j
    case Arr(items) => (Indices(0); items)
    case Obj(m) => var ks := Sorted(m.Keys); seq(|ks|, i requires 0 <= i < |ks| => m[ks[i]])
    case _ => []
  }

  /** What is left of a value once its children have been moved away and it has been cleared. */
  function Cleared(j: Json): Json {
    if j.Arr? then Arr([]) else if j.Obj? then Obj(map[]) else j
  }

  // ---------- measure ----------

  /** Number of values in a tree. */
  function Size(j: Json): nat
    decreases j, 1, 0
  {
    1 + SizeUpTo(j, |Children(j)|)
  }

  function SizeUpTo(j: Json, n: nat): nat
    requires n <= |Children(j)|
    decreases j, 0, n
  {
    if n == 0 then 0
    else
      ChildSmaller(j, n - 1);
      SizeUpTo(j, n - 1) + Size(Children(j)[n - 1])
  }

  lemma ChildSmaller(j: Json, i: nat)
    requires i < |Children(j)|
    ensures Children(j)[i] < j
  {
  }

  function StackSize(stack: seq<Json>): nat {
    if stack == [] then 0 else StackSize(stack[..|stack| - 1]) + Size(stack[|stack| - 1])
  }

  lemma {:induction false} PushChildren(stack: seq<Json>, j: Json, n: nat)
    requires n <= |Children(j)|
    ensures StackSize(stack + Children(j)[..n]) == StackSize(stack) + SizeUpTo(j, n)
    decreases n
  {
    hide Size, Children, Tokens;
    if n == 0 {
      assert stack + Children(j)[..0] == stack;
    } else {
      PushChildren(stack, j, n - 1);
      var bigger := stack + Children(j)[..n];
      assert bigger[..|bigger| - 1] == stack + Children(j)[..n - 1];
    }
  }

  // ---------- bookkeeping ----------

  function ChildPlaces(place: Pointer, j: Json): (ps: seq<Pointer>)
    ensures |ps| == |Tokens(j)|
    ensures forall i :: 0 <= i < |ps| ==> ps[i] == place + [Tokens(j)[i]]
  {
    seq(|Tokens(j)|, i requires 0 <= i < |Tokens(j)| => place + [Tokens(j)[i]])
  }

  ghost predicate Covered(waiting: seq<Pointer>, p: Pointer) {
    exists i :: 0 <= i < |waiting| && waiting[i] <= p
  }

  ghost predicate ValuesAt(v: Json, places: seq<Pointer>, values: seq<Json>) {
    |values| == |places| &&
    forall i :: 0 <= i < |places| ==> places[i] != [] && At(v, places[i]) == Ok(values[i])
  }

  /** No waiting subtree lies in another. */
  ghost predicate Apart(waiting: seq<Pointer>) {
    forall i, k :: 0 <= i < |waiting| && 0 <= k < |waiting| && i != k ==> !(waiting[i] <= waiting[k])
  }

  /** No waiting subtree holds a place already released, and no place was released twice. */
  ghost predicate Once(waiting: seq<Pointer>, places: seq<Pointer>) {
    && (forall i, k :: 0 <= i < |waiting| && 0 <= k < |places| ==> !(waiting[i] <= places[k]))
    && (forall i, k :: 0 <= i < k < |places| ==> places[i] != places[k])
  }

  /** Every descendant has been released or waits in some subtree. */
  ghost predicate Complete(v: Json, waiting: seq<Pointer>, places: seq<Pointer>) {
    forall p :: p != [] && At(v, p).Ok? ==> p in places || Covered(waiting, p)
  }

  lemma StartValues(v: Json)
    ensures ValuesAt(v, ChildPlaces([], v), Children(v))
    ensures forall i :: 0 <= i < |Tokens(v)| ==> ChildPlaces([], v)[i] == [Tokens(v)[i]]
  {
    hide Tokens, Children;
    var waiting := ChildPlaces([], v);
    forall i | 0 <= i < |waiting| ensures waiting[i] == [Tokens(v)[i]] && At(v, waiting[i]) == Ok(Children(v)[i]) {
      ChildAt(v, Tokens(v)[i]);
    }
  }

  lemma StartApart(v: Json)
    ensures Apart(ChildPlaces([], v))
  {
    hide Tokens, Children, At;
    var waiting := ChildPlaces([], v);
    forall i, k | 0 <= i < |waiting| && 0 <= k < |waiting| && i != k ensures !(waiting[i] <= waiting[k]) {
      assert waiting[i][0] == Tokens(v)[i] && waiting[k][0] == Tokens(v)[k];
    }
  }

  lemma StartComplete(v: Json)
    ensures Complete(v, ChildPlaces([], v), [])
  {
    hide Tokens, Children;
    var waiting := ChildPlaces([], v);
    forall p | p != [] && At(v, p).Ok? ensures Covered(waiting, p) {
      TokensComplete(v, p[0]);
      var i :| 0 <= i < |Tokens(v)| && Tokens(v)[i] == p[0];
      assert waiting[i] == [p[0]] <= p;
    }
  }

  lemma PrefixOfExtension(a: Pointer, w: Pointer, token: string)
    ensures a <= w + [token] ==> a <= w || a == w + [token]
  {
    if a <= w + [token] && |a| <= |w| {
      assert a == (w + [token])[..|a|] == w[..|a|];
    }
  }

  lemma StepApart(others: seq<Pointer>, w: Pointer, c: Json)
    requires Apart(others + [w])
    ensures Apart(others + ChildPlaces(w, c))
  {
    hide Tokens;
    var before, after := others + [w], others + ChildPlaces(w, c);
    assert before[|others|] == w;
    forall i | 0 <= i < |others| ensures !(others[i] <= w) && !(w <= others[i]) {
      assert before[i] == others[i];
    }
    forall i, k | 0 <= i < |after| && 0 <= k < |after| && i != k ensures !(after[i] <= after[k]) {
      if i < |others| && k < |others| {
        assert before[i] == others[i] && before[k] == others[k];
      } else if i < |others| {
        assert w <= after[k];
        PrefixOfExtension(after[i], w, Tokens(c)[k - |others|]);
      } else if k >= |others| {
        assert after[i][|w|] != after[k][|w|];
      } else {
        assert w <= after[i];
      }
    }
  }

  lemma StepOnce(others: seq<Pointer>, places: seq<Pointer>, w: Pointer, c: Json)
    requires Apart(others + [w]) && Once(others + [w], places)
    ensures Once(others + ChildPlaces(w, c), places + [w])
  {
    hide Tokens;
    var before, after := others + [w], others + ChildPlaces(w, c);
    assert before[|others|] == w;
    forall k | 0 <= k < |places| ensures !(w <= places[k]) {
      assert !(before[|others|] <= places[k]);
    }
    forall i, k | 0 <= i < |after| && 0 <= k < |places| + 1 ensures !(after[i] <= (places + [w])[k]) {
      if i < |others| {
        assert before[i] == others[i];
      } else {
        assert w <= after[i];
      }
    }
  }

  lemma StepComplete(v: Json, others: seq<Pointer>, places: seq<Pointer>, w: Pointer, c: Json)
    requires Complete(v, others + [w], places) && At(v, w) == Ok(c)
    ensures Complete(v, others + ChildPlaces(w, c), places + [w])
  {
    var before, after := others + [w], others + ChildPlaces(w, c);
    forall p | p != [] && At(v, p).Ok? ensures p in places + [w] || Covered(after, p) {
      if p !in places && p != w {
        var i :| 0 <= i < |before| && before[i] <= p;
        if i < |others| {
          assert after[i] <= p;
        } else {
          var k := Descend(v, w, c, p);
          assert after[|others| + k] == w + [Tokens(c)[k]];
        }
      }
    }
  }

  /** A value below `w` is at or below one of the children of the value at `w`. */
  lemma Descend(v: Json, w: Pointer, c: Json, p: Pointer) returns (k: nat)
    requires At(v, w) == Ok(c) && At(v, p).Ok? && w <= p && w != p
    ensures k < |Tokens(c)| && w + [Tokens(c)[k]] <= p
  {
    var token, rest := p[|w|], p[|w| + 1..];
    assert p == w + ([token] + rest);
    AtConcat(v, w, [token] + rest);
    TokensComplete(c, token);
    k :| 0 <= k < |Tokens(c)| && Tokens(c)[k] == token;
  }

  lemma StepValues(v: Json, w: Pointer, c: Json)
    requires At(v, w) == Ok(c)
    ensures ValuesAt(v, ChildPlaces(w, c), Children(c))
  {
    hide Tokens, Children;
    forall i | 0 <= i < |Children(c)| ensures At(v, ChildPlaces(w, c)[i]) == Ok(Children(c)[i]) {
      AtConcat(v, w, [Tokens(c)[i]]);
      ChildAt(c, Tokens(c)[i]);
    }
  }

  /** The loop invariant: the stack holds what `waiting` says, the rest of `v` has been released. */
  ghost predicate Halfway(v: Json, stack: seq<Json>, waiting: seq<Pointer>, released: seq<Json>, places: seq<Pointer>) {
    && ValuesAt(v, waiting, stack)
    && Apart(waiting)
    && Once(waiting, places)
    && Complete(v, waiting, places)
    && Released(v, released, places)
  }

  ghost predicate Released(v: Json, released: seq<Json>, places: seq<Pointer>) {
    |released| == |places| &&
    forall i :: 0 <= i < |places| ==>
      places[i] != [] && At(v, places[i]).Ok? && released[i] == Cleared(At(v, places[i]).value)
  }

  lemma StartHalfway(v: Json)
    ensures Halfway(v, Children(v), ChildPlaces([], v), [], [])
  {
    hide ChildPlaces, Children;
    StartValues(v);
    StartApart(v);
    StartComplete(v);
  }

  lemma StepHalfway(v: Json, stack: seq<Json>, waiting: seq<Pointer>, released: seq<Json>, places: seq<Pointer>)
    requires Halfway(v, stack, waiting, released, places) && stack != []
    ensures var last := |stack| - 1;
            Halfway(v, stack[..last] + Children(stack[last]), waiting[..last] + ChildPlaces(waiting[last], stack[last]),
                    released + [Cleared(stack[last])], places + [waiting[last]])
  {
    hide At, Tokens, Children, ChildPlaces, Apart, Once, Complete;
    var last := |stack| - 1;
    var w, others := waiting[last], waiting[..last];
    assert waiting == others + [w];
    StepApart(others, w, stack[last]);
    StepOnce(others, places, w, stack[last]);
    StepComplete(v, others, places, w, stack[last]);
    StepValues(v, w, stack[last]);
  }

  /** The values the loop lets go of, in order, and (as a ghost) where in `v` each of them was. */
  method Destroy(v: Json) returns (released: seq<Json>, ghost places: seq<Pointer>)
    ensures |released| == |places|
    ensures forall i :: 0 <= i < |places| ==>
      places[i] != [] && At(v, places[i]).Ok? && released[i] == Cleared(At(v, places[i]).value)
    ensures forall i, k :: 0 <= i < k < |places| ==> places[i] != places[k]
    ensures forall p :: p != [] && At(v, p).Ok? ==> p in places
    ensures forall i :: 0 <= i < |released| ==> Children(released[i]) == []
  {
    StartHalfway(v);
    hide Halfway, Children, ChildPlaces, StackSize, SizeUpTo, Cleared;
    var stack := Children(v);
    ghost var waiting := ChildPlaces([], v);
    released, places := [], [];
    while stack != []
      invariant |waiting| == |stack|
      invariant Halfway(v, stack, waiting, released, places)
      decreases StackSize(stack)
    {
      StepHalfway(v, stack, waiting, released, places);
      Popped(stack);
      var last := |stack| - 1;
      var currentItem := stack[last];
      ghost var w := waiting[last];
      Pushed(stack[..last], currentItem);
      stack := stack[..last] + Children(currentItem);
      waiting := waiting[..last] + ChildPlaces(w, currentItem);
      currentItem := Cleared(currentItem);
      released := released + [currentItem];
      places := places + [w];
    }
    assert waiting == [];
    Finished(v, released, places);
    forall i | 0 <= i < |released| ensures Children(released[i]) == [] {
      ClearedHasNoChildren(At(v, places[i]).value);
    }
  }

  lemma Finished(v: Json, released: seq<Json>, places: seq<Pointer>)
    requires Halfway(v, [], [], released, places)
    ensures Released(v, released, places)
    ensures forall i, k :: 0 <= i < k < |places| ==> places[i] != places[k]
    ensures forall p :: p != [] && At(v, p).Ok? ==> p in places
  {
  }

  lemma ClearedHasNoChildren(j: Json)
    ensures Children(Cleared(j)) == []
  {
  }

  lemma Popped(stack: seq<Json>)
    requires stack != []
    ensures StackSize(stack) == StackSize(stack[..|stack| - 1]) + 1 + SizeUpTo(stack[|stack| - 1], |Children(stack[|stack| - 1])|)
  {
  }

  lemma Pushed(stack: seq<Json>, j: Json)
    ensures StackSize(stack + Children(j)) == StackSize(stack) + SizeUpTo(j, |Children(j)|)
  {
    PushChildren(stack, j, |Children(j)|);
    assert Children(j)[..|Children(j)|] == Children(j);
  }
}
