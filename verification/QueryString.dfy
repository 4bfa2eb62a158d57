/** Query strings: `split`, `params_to_query_str` and `parse_query_text`. */
module QueryString {
  import opened UrlCoding
  import opened MultipartHeader
  import StringOrder

  // ---------- splitting ----------

  /** The fields between the separators. */
  function Fields(s: string, d: char): (fs: seq<string>)
    ensures fs != []
  {
    if s == [] then [""]
    else
      var init := Fields(s[..|s| - 1], d);
      var last := s[|s| - 1];
      if last == d then init + [""] else init[..|init| - 1] + [init[|init| - 1] + [last]]
  }

  /** The fields that are left once blanks have been trimmed. */
  function Cleaned(fs: seq<string>): seq<string> {
    if fs == [] then []
    else Cleaned(fs[..|fs| - 1]) + CleanedField(fs[|fs| - 1])
  }

  function CleanedField(f: string): seq<string> {
    if TrimCopy(f) == "" then [] else [TrimCopy(f)]
  }

  function Pieces(s: string, d: char): seq<string> {
    Cleaned(Fields(s, d))
  }

  predicate AllBlank(s: string) {
    forall i | 0 <= i < |s| :: IsBlank(s[i])
  }

  lemma {:induction false} TrimLeftSkips(a: string, b: string)
    requires AllBlank(a) && (b == [] || !IsBlank(b[0]))
    ensures TrimLeft(a + b) == b
  {
    if a == [] {
      assert a + b == b;
    } else {
      assert (a + b)[1..] == a[1..] + b;
      TrimLeftSkips(a[1..], b);
    }
  }

  lemma {:induction false} TrimRightSkips(a: string, b: string)
    requires AllBlank(b) && (a == [] || !IsBlank(a[|a| - 1]))
    ensures TrimRight(a + b) == a
    decreases |b|
  {
    if b == [] {
      assert a + b == a;
    } else {
      assert (a + b)[..|a + b| - 1] == a + b[..|b| - 1];
      TrimRightSkips(a, b[..|b| - 1]);
    }
  }

  /** The middle that blanks surround is what trimming leaves. */
  lemma TrimFinds(a: string, b: string, c: string)
    requires AllBlank(a) && AllBlank(c)
    requires b == [] || (!IsBlank(b[0]) && !IsBlank(b[|b| - 1]))
    ensures TrimCopy(a + b + c) == b
  {
    hide TrimLeft;
    if b == [] {
      assert a + b + c == (a + c) + [];
      TrimLeftSkips(a + c, []);
      assert TrimRight("") == "";
    } else {
      assert a + b + c == a + (b + c);
      TrimLeftSkips(a, b + c);
      TrimRightSkips(b, c);
    }
  }

  /** `trim` moves `left` and `right` inwards over blanks, `left` up to the end of the whole text. */
  method Trim(s: string, left: nat, right: nat) returns (l: nat, r: nat)
    requires left <= right <= |s|
    ensures if l < r then left <= l < r <= right && s[l..r] == TrimCopy(s[left..right])
            else TrimCopy(s[left..right]) == ""
  {
    hide TrimCopy;
    l, r := left, right;
    while l < |s| && IsBlank(s[l])
      invariant left <= l <= |s|
      invariant forall k :: left <= k < l ==> IsBlank(s[k])
    {
      l := l + 1;
    }
    while r > 0 && IsBlank(s[r - 1])
      invariant 0 <= r <= right
      invariant forall k :: r <= k < right ==> IsBlank(s[k])
    {
      r := r - 1;
    }
    if l < r {
      TrimFinds(s[left..l], s[l..r], s[r..right]);
      assert s[left..l] + s[l..r] + s[r..right] == s[left..right];
    } else {
      TrimFinds(s[left..right], [], []);
      assert s[left..right] + [] + [] == s[left..right];
    }
  }

  lemma FieldsNext(s: string, i: nat, d: char, done: seq<string>, beg: nat)
    requires beg <= i < |s| && Fields(s[..i], d) == done + [s[beg..i]]
    ensures Fields(s[..i + 1], d) == if s[i] == d then done + [s[beg..i]] + [""] else done + [s[beg..i + 1]]
  {
    assert s[..i + 1][..i] == s[..i];
    assert (done + [s[beg..i]])[..|done|] == done;
    assert s[beg..i] + [s[i]] == s[beg..i + 1];
  }

  lemma CleanedLast(done: seq<string>, f: string)
    ensures Cleaned(done + [f]) == Cleaned(done) + CleanedField(f)
  {
    hide CleanedField;
    assert (done + [f])[..|done|] == done;
  }

  /** `split`: each piece between separators, trimmed, unless nothing is left of it. */
  method Split(s: string, d: char) returns (pieces: seq<string>)
    ensures pieces == Pieces(s, d)
  {
    hide TrimCopy, Fields, Cleaned;
    pieces := [];
    var i, beg := 0, 0;
    ghost var done: seq<string> := [];
    FieldsOfNothing(d);
    while i < |s|
      invariant 0 <= beg <= i <= |s|
      invariant Fields(s[..i], d) == done + [s[beg..i]] && pieces == Cleaned(done)
    {
      FieldsNext(s, i, d, done, beg);
      assert s[i + 1..i + 1] == "";
      if s[i] == d {
        var left, right := Trim(s, beg, i);
        if left < right {
          pieces := pieces + [s[left..right]];
        }
        CleanedLast(done, s[beg..i]);
        done := done + [s[beg..i]];
        beg := i + 1;
      }
      i := i + 1;
    }
    assert s[..i] == s;
    CleanedLast(done, s[beg..i]);
    if i > 0 {
      var left, right := Trim(s, beg, i);
      if left < right {
        pieces := pieces + [s[left..right]];
      }
    } else {
      assert TrimCopy(s[beg..i]) == "" by { AlreadyTrimmed(""); }
    }
  }

  lemma FieldsOfNothing(d: char)
    ensures Fields("", d) == [""] && Cleaned([]) == []
  {
  }

  lemma {:induction false} OneField(a: string, d: char)
    requires d !in a
    ensures Fields(a, d) == [a]
  {
    if a != [] {
      OneField(a[..|a| - 1], d);
      assert a[..|a| - 1] + [a[|a| - 1]] == a;
    }
  }

  lemma FieldsLast(s: string, d: char)
    requires s != []
    ensures var init := Fields(s[..|s| - 1], d);
            var last := s[|s| - 1];
            Fields(s, d) == if last == d then init + [""] else init[..|init| - 1] + [init[|init| - 1] + [last]]
  {
  }

  /** A separator separates. */
  lemma {:induction false} FieldsApart(a: string, b: string, d: char)
    ensures Fields(a + [d] + b, d) == Fields(a, d) + Fields(b, d)
    decreases |b|
  {
    hide Fields;
    var s := a + [d] + b;
    if b == [] {
      assert s[..|s| - 1] == a;
      FieldsOfNothing(d);
      FieldsLast(s, d);
    } else {
      var init := b[..|b| - 1];
      assert s[..|s| - 1] == a + [d] + init;
      FieldsApart(a, init, d);
      AppendField(Fields(a, d), Fields(init, d), s[|s| - 1]);
      FieldsLast(s, d);
      FieldsLast(b, d);
    }
  }

  lemma AppendField(x: seq<string>, y: seq<string>, c: char)
    requires y != []
    ensures var z := x + y;
            z + [""] == x + (y + [""]) &&
            z[..|z| - 1] + [z[|z| - 1] + [c]] == x + (y[..|y| - 1] + [y[|y| - 1] + [c]])
  {
    var z := x + y;
    assert z[|z| - 1] == y[|y| - 1];
    assert z[..|z| - 1] == x + y[..|y| - 1];
  }

  // ---------- parameters ----------

  type Param = (string, string)

  /** `std::multimap` iterates over the keys in order. */
  predicate Ordered(ps: seq<Param>) {
    forall i, j | 0 <= i < j < |ps| :: StringOrder.Le(ps[i].0, ps[j].0)
  }

  /** How many entries `emplace` passes: all those whose key is not greater. */
  function After(ps: seq<Param>, key: string): (n: nat)
    ensures n <= |ps|
  {
    if ps == [] || !StringOrder.Le(ps[0].0, key) then 0 else 1 + After(ps[1..], key)
  }

  function Emplace(ps: seq<Param>, p: Param): seq<Param> {
    var n := After(ps, p.0);
    ps[..n] + [p] + ps[n..]
  }

  lemma {:induction false} AfterAll(ps: seq<Param>, key: string)
    requires forall i | 0 <= i < |ps| :: StringOrder.Le(ps[i].0, key)
    ensures After(ps, key) == |ps|
  {
    if ps != [] {
      AfterAll(ps[1..], key);
    }
  }

  function Item(p: Param): string {
    p.0 + "=" + EncodedParam(p.1)
  }

  function Printed(ps: seq<Param>): string {
    if ps == [] then ""
    else if |ps| == 1 then Item(ps[0])
    else Printed(ps[..|ps| - 1]) + "&" + Item(ps[|ps| - 1])
  }

  method ParamsToQueryStr(params: seq<Param>) returns (query: string)
    ensures query == Printed(params)
  {
    hide EncodedParam;
    query := "";
    var i := 0;
    while i < |params|
      invariant 0 <= i <= |params| && query == Printed(params[..i])
    {
      ghost var before := query;
      if i > 0 {
        query := query + "&";
      }
      query := query + params[i].0;
      query := query + "=";
      var value := EncodeQueryParam(params[i].1);
      query := query + value;
      assert params[..i + 1][..i] == params[..i];
      assert query == (if i > 0 then before + "&" + Item(params[i]) else before + Item(params[i]));
      i := i + 1;
    }
    assert params[..i] == params;
  }

  /** The key and the value of one piece: the first piece that is not empty, and the last of the others. */
  function KeyValue(pieces: seq<string>): Param {
    if pieces == [] then ("", "")
    else if |pieces| == 1 then (pieces[0], "")
    else (pieces[0], pieces[|pieces| - 1])
  }

  function Decoded(kv: Param): Param {
    (DecodedUrl(kv.0, true), DecodedUrl(kv.1, true))
  }

  /** The parameters after the pieces, with those seen before in `cache`. */
  function Parsed(pieces: seq<string>, cache: set<string>, params: seq<Param>): seq<Param> {
    if pieces == [] then params
    else if pieces[0] in cache then Parsed(pieces[1..], cache, params)
    else
      var kv := KeyValue(Pieces(pieces[0], '='));
      Parsed(pieces[1..], cache + {pieces[0]}, if kv.0 == "" then params else Emplace(params, Decoded(kv)))
  }

  method SplitPair(kv: string) returns (key: string, val: string)
    ensures (key, val) == KeyValue(Pieces(kv, '='))
  {
    hide Pieces, Cleaned;
    var pieces := Split(kv, '=');
    PiecesNotEmpty(kv, '=');
    key, val := "", "";
    var i := 0;
    while i < |pieces|
      invariant 0 <= i <= |pieces| && (key, val) == KeyValue(pieces[..i])
      invariant key == "" <==> i == 0
    {
      assert pieces[..i + 1] == pieces[..i] + [pieces[i]] && pieces[i] in pieces;
      if key == "" {
        key := pieces[i];
      } else {
        val := pieces[i];
      }
      i := i + 1;
    }
    assert pieces[..i] == pieces;
  }

  lemma {:induction false} CleanedNotEmpty(fs: seq<string>)
    ensures forall f :: f in Cleaned(fs) ==> f != ""
  {
    hide TrimCopy;
    if fs != [] {
      CleanedNotEmpty(fs[..|fs| - 1]);
    }
  }

  lemma PiecesNotEmpty(s: string, d: char)
    ensures forall f :: f in Pieces(s, d) ==> f != ""
  {
    CleanedNotEmpty(Fields(s, d));
  }

  method ParseQueryText(s: string, params: seq<Param>) returns (params': seq<Param>)
    ensures params' == Parsed(Pieces(s, '&'), {}, params)
  {
    hide Pieces, KeyValue, Emplace, DecodedUrl;
    params' := params;
    var cache := {};
    var pieces := Split(s, '&');
    var i := 0;
    while i < |pieces|
      invariant 0 <= i <= |pieces|
      invariant Parsed(pieces, {}, params) == Parsed(pieces[i..], cache, params')
    {
      assert pieces[i..][1..] == pieces[i + 1..];
      if pieces[i] !in cache {
        cache := cache + {pieces[i]};
        var key, val := SplitPair(pieces[i]);
        if key != "" {
          var k := DecodeUrl(key, true);
          var v := DecodeUrl(val, true);
          params' := Emplace(params', (k, v));
        }
      }
      i := i + 1;
    }
  }

  // ---------- parsing what was printed ----------

  /** A key that needs no coding: `params_to_query_str` writes it as it is. */
  predicate PlainKey(k: string) {
    && k != "" && '&' !in k && '=' !in k
    && !IsBlank(k[0]) && !IsBlank(k[|k| - 1])
    && DecodedUrl(k, true) == k
  }

  lemma UnreservedKey(k: string)
    requires k != "" && forall i | 0 <= i < |k| :: Unreserved(k[i])
    ensures PlainKey(k)
  {
    NothingToDecode(k, true);
  }

  predicate Printable(ps: seq<Param>) {
    forall i | 0 <= i < |ps| :: PlainKey(ps[i].0) && Bytes(ps[i].1)
  }

  lemma ItemChars(p: Param)
    requires PlainKey(p.0) && Bytes(p.1)
    ensures '&' !in Item(p) && '=' !in EncodedParam(p.1) && CleanedField(Item(p)) == [Item(p)]
    ensures EncodedParam(p.1) != "" ==> CleanedField(EncodedParam(p.1)) == [EncodedParam(p.1)]
    ensures CleanedField(p.0) == [p.0] && CleanedField("") == []
  {
    hide EncodedParam, DecodedUrl, TrimCopy;
    var v := EncodedParam(p.1);
    EncodedChars(p.1);
    assert forall i :: 0 <= i < |v| ==> v[i] != '&' && v[i] != '=' && !IsBlank(v[i]);
    AlreadyTrimmed(Item(p));
    AlreadyTrimmed(v);
    AlreadyTrimmed(p.0);
    AlreadyTrimmed("");
  }

  lemma AlreadyTrimmed(s: string)
    requires s == "" || (!IsBlank(s[0]) && !IsBlank(s[|s| - 1]))
    ensures TrimCopy(s) == s
  {
    hide TrimCopy;
    assert [] + s + [] == s;
    TrimFinds([], s, []);
  }

  lemma {:induction false} CleanedConcat(a: seq<string>, b: seq<string>)
    ensures Cleaned(a + b) == Cleaned(a) + Cleaned(b)
    decreases |b|
  {
    hide CleanedField;
    if b == [] {
      assert a + b == a;
    } else {
      assert (a + b)[..|a + b| - 1] == a + b[..|b| - 1];
      CleanedConcat(a, b[..|b| - 1]);
    }
  }

  lemma CleanedOne(f: string)
    ensures Cleaned([f]) == CleanedField(f)
  {
    hide CleanedField;
    assert [f][..0] == [];
  }

  /** One item is read back as its key and value. */
  lemma ItemPair(p: Param)
    requires PlainKey(p.0) && Bytes(p.1)
    ensures KeyValue(Pieces(Item(p), '=')) == (p.0, EncodedParam(p.1))
    ensures Decoded((p.0, EncodedParam(p.1))) == p
  {
    hide EncodedParam, DecodedUrl, CleanedField, Cleaned, Fields;
    ItemChars(p);
    var v := EncodedParam(p.1);
    FieldsApart(p.0, v, '=');
    OneField(p.0, '=');
    OneField(v, '=');
    CleanedConcat([p.0], [v]);
    CleanedOne(p.0);
    CleanedOne(v);
    DecodeEncoded(p.1, true);
  }

  function Items(ps: seq<Param>): seq<string> {
    seq(|ps|, i requires 0 <= i < |ps| => Item(ps[i]))
  }

  lemma {:induction false} PrintedPieces(ps: seq<Param>)
    requires Printable(ps)
    ensures Pieces(Printed(ps), '&') == Items(ps)
  {
    hide PlainKey, Item, CleanedField, Fields, Cleaned;
    if ps == [] {
      NoPieces('&');
    } else {
      var last := ps[|ps| - 1];
      ItemChars(last);
      OneField(Item(last), '&');
      CleanedOne(Item(last));
      var init := ps[..|ps| - 1];
      assert Items(ps) == Items(init) + [Item(last)];
      if |ps| > 1 {
        PrintedPieces(init);
        FieldsApart(Printed(init), Item(last), '&');
        CleanedConcat(Fields(Printed(init), '&'), [Item(last)]);
      }
    }
  }

  lemma NoPieces(d: char)
    ensures Pieces("", d) == []
  {
    AlreadyTrimmed("");
    CleanedOne("");
  }

  /** The parameters without those that repeat an earlier one. */
  function Distinct(ps: seq<Param>): seq<Param> {
    if ps == [] then []
    else
      var init := ps[..|ps| - 1];
      if ps[|ps| - 1] in init then Distinct(init) else Distinct(init) + [ps[|ps| - 1]]
  }

  lemma ItemInjective(p: Param, q: Param)
    requires PlainKey(p.0) && Bytes(p.1) && PlainKey(q.0) && Bytes(q.1) && Item(p) == Item(q)
    ensures p == q
  {
    hide PlainKey, Item, KeyValue, Pieces, Decoded;
    ItemPair(p);
    ItemPair(q);
  }

  function Seen(ps: seq<Param>): set<string> {
    set i | 0 <= i < |ps| :: Item(ps[i])
  }

  lemma {:induction false} DistinctMembers(ps: seq<Param>)
    ensures forall p :: p in Distinct(ps) <==> p in ps
  {
    if ps != [] {
      DistinctMembers(ps[..|ps| - 1]);
      assert ps == ps[..|ps| - 1] + [ps[|ps| - 1]];
    }
  }

  /** A further parameter is dropped if it was seen, and otherwise goes to the end. */
  lemma ParsedNext(done: seq<Param>, p: Param)
    requires Printable(done + [p]) && Ordered(done + [p])
    ensures Item(p) in Seen(done) <==> p in done
    ensures Emplace(Distinct(done), p) == Distinct(done) + [p]
    ensures Seen(done + [p]) == Seen(done) + {Item(p)}
    ensures Distinct(done + [p]) == if p in done then Distinct(done) else Distinct(done) + [p]
  {
    hide PlainKey, Item, StringOrder.Le;
    var all := done + [p];
    assert all[|done|] == p && all[..|done|] == done;
    forall i | 0 <= i < |done| ensures all[i] == done[i] && (Item(done[i]) == Item(p) ==> done[i] == p) {
      assert all[i] == done[i];
      if Item(done[i]) == Item(p) {
        ItemInjective(done[i], p);
      }
    }
    DistinctMembers(done);
    var ds := Distinct(done);
    forall i | 0 <= i < |ds| ensures StringOrder.Le(ds[i].0, p.0) {
      assert ds[i] in done;
    }
    AfterAll(ds, p.0);
    SeenNext(done, p);
  }

  lemma SeenNext(done: seq<Param>, p: Param)
    ensures Seen(done + [p]) == Seen(done) + {Item(p)}
  {
    hide Item;
    var all := done + [p];
    assert all[|done|] == p;
    forall x | x in Seen(done) ensures x in Seen(all) {
      var i :| 0 <= i < |done| && Item(done[i]) == x;
      assert all[i] == done[i];
    }
  }

  lemma {:induction false} ParsedItems(done: seq<Param>, rest: seq<Param>)
    requires Printable(done + rest) && Ordered(done + rest)
    ensures Parsed(Items(rest), Seen(done), Distinct(done)) == Distinct(done + rest)
    decreases |rest|
  {
    hide PlainKey, Item, StringOrder.Le, Seen, Distinct, KeyValue, Pieces, Decoded, Emplace;
    if rest == [] {
      assert done + rest == done;
    } else {
      var p := rest[0];
      assert done + rest == done + [p] + rest[1..];
      Prefix(done + [p], rest[1..]);
      ParsedNext(done, p);
      PlainItem(done, rest);
      ItemPair(p);
      assert Items(rest)[0] == Item(p) && Items(rest)[1..] == Items(rest[1..]);
      ParsedItems(done + [p], rest[1..]);
      SeenAgain(done, p);
    }
  }

  lemma SeenAgain(done: seq<Param>, p: Param)
    ensures Item(p) in Seen(done) ==> Seen(done) + {Item(p)} == Seen(done)
  {
    hide Item;
  }

  lemma Prefix(a: seq<Param>, b: seq<Param>)
    requires Printable(a + b) && Ordered(a + b)
    ensures Printable(a) && Ordered(a)
  {
    hide PlainKey, StringOrder.Le;
    assert forall i :: 0 <= i < |a| ==> (a + b)[i] == a[i];
  }

  lemma PlainItem(done: seq<Param>, rest: seq<Param>)
    requires Printable(done + rest) && rest != []
    ensures PlainKey(rest[0].0) && Bytes(rest[0].1) && PlainNonempty(rest[0])
  {
    assert (done + rest)[|done|] == rest[0];
  }

  predicate PlainNonempty(p: Param) {
    p.0 != ""
  }

  /** `parse_query_text` gives back what `params_to_query_str` printed, without repeated pairs. */
  lemma PrintThenParse(ps: seq<Param>)
    requires Printable(ps) && Ordered(ps)
    ensures Parsed(Pieces(Printed(ps), '&'), {}, []) == Distinct(ps)
  {
    hide PlainKey, Item, StringOrder.Le, Pieces, Parsed;
    PrintedPieces(ps);
    assert [] + ps == ps;
    ParsedItems([], ps);
    assert Seen([]) == {};
  }

  /** So a multimap comes back exactly when it holds no pair twice. */
  lemma {:induction false} DistinctExactly(ps: seq<Param>)
    ensures |Distinct(ps)| <= |ps|
    ensures Distinct(ps) == ps <==> forall i, j :: 0 <= i < j < |ps| ==> ps[i] != ps[j]
  {
    if ps != [] {
      var init, last := ps[..|ps| - 1], ps[|ps| - 1];
      assert ps == init + [last];
      DistinctExactly(init);
      if last in init {
        var i :| 0 <= i < |init| && init[i] == last;
        assert ps[i] == ps[|ps| - 1];
      } else if Distinct(ps) == ps {
        assert Distinct(init) == ps[..|ps| - 1];
      } else {
        assert Distinct(init) != init;
        var i, j :| 0 <= i < j < |init| && init[i] == init[j];
        assert ps[i] == ps[j];
      }
    }
  }

  method PrintParse(ps: seq<Param>) returns (query: string, back: seq<Param>)
    requires Printable(ps) && Ordered(ps)
    ensures back == Distinct(ps)
    ensures back == ps <==> forall i, j :: 0 <= i < j < |ps| ==> ps[i] != ps[j]
  {
    hide Parsed, Pieces, Printed, Distinct, Printable, Ordered;
    query := ParamsToQueryStr(ps);
    back := ParseQueryText(query, []);
    PrintThenParse(ps);
    DistinctExactly(ps);
  }
}
