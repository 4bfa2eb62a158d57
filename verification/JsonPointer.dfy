/** JSON pointers: their string form, and evaluation against a value. */
module JsonPointer {
  import opened Wrappers
  import opened JsonValue

  /** The exception classes a pointer or a patch can throw; `AssertionFailed` is a failed `JSON_ASSERT`. */
  datatype Error = OutOfRange | ParseError | PatchTestFailed | AssertionFailed

  type Pointer = seq<string>

  // ---------- escaping ----------

  /** `replace_substring`: left to right, continuing behind each replacement. */
  function ReplaceAll(s: string, f: string, t: string): string
    requires f != []
  {
    if s == [] then []
    else if f <= s then t + ReplaceAll(s[|f|..], f, t)
    else [s[0]] + ReplaceAll(s[1..], f, t)
  }

  function Escape(s: string): string {
    ReplaceAll(ReplaceAll(s, "~", "~0"), "/", "~1")
  }

  function Unescape(s: string): string {
    ReplaceAll(ReplaceAll(s, "~1", "/"), "~0", "~")
  }

  /** Escaping looked at one character at a time. */
  function EscapeChar(c: char): string {
    if c == '~' then "~0" else if c == '/' then "~1" else [c]
  }

  function EscapeChars(s: string): string {
    if s == [] then [] else EscapeChar(s[0]) + EscapeChars(s[1..])
  }

  lemma ReplaceSkip(c: char, s: string, f: string, t: string)
    requires f != [] && f[0] != c
    ensures ReplaceAll([c] + s, f, t) == [c] + ReplaceAll(s, f, t)
  {
    assert ([c] + s)[1..] == s;
  }

  lemma ReplaceFront(s: string, f: string, t: string)
    requires f != []
    ensures ReplaceAll(f + s, f, t) == t + ReplaceAll(s, f, t)
  {
    assert (f + s)[|f|..] == s;
  }

  lemma ReplaceOther(c: char, d: char, s: string, f: string, t: string)
    requires |f| == 2 && f[1] != d
    ensures ReplaceAll([c, d] + s, f, t) == [c] + ReplaceAll([d] + s, f, t)
  {
    assert ([c, d] + s)[1..] == [d] + s;
    assert ([c, d] + s)[1] == d;
  }

  lemma {:induction false} EscapeByChar(s: string)
    ensures Escape(s) == EscapeChars(s)
  {
    if s != [] {
      EscapeByChar(s[1..]);
      assert s == [s[0]] + s[1..];
      var rest := ReplaceAll(s[1..], "~", "~0");
      if s[0] == '~' {
        ReplaceFront(s[1..], "~", "~0");
        assert "~0" + rest == ['~'] + (['0'] + rest);
        ReplaceSkip('~', ['0'] + rest, "/", "~1");
        ReplaceSkip('0', rest, "/", "~1");
      } else {
        ReplaceSkip(s[0], s[1..], "~", "~0");
        if s[0] == '/' {
          ReplaceFront(rest, "/", "~1");
        } else {
          ReplaceSkip(s[0], rest, "/", "~1");
        }
      }
    }
  }

  lemma {:induction false} UnescapeEscapeChars(s: string)
    ensures Unescape(EscapeChars(s)) == s
  {
    if s != [] {
      UnescapeEscapeChars(s[1..]);
      assert s == [s[0]] + s[1..];
      var rest := EscapeChars(s[1..]);
      var half := ReplaceAll(rest, "~1", "/");
      if s[0] == '~' {
        assert "~0" + rest == ['~', '0'] + rest;
        ReplaceOther('~', '0', rest, "~1", "/");
        ReplaceSkip('0', rest, "~1", "/");
        assert ['~'] + (['0'] + half) == "~0" + half;
        ReplaceFront(half, "~0", "~");
      } else if s[0] == '/' {
        ReplaceFront(rest, "~1", "/");
        ReplaceSkip('/', half, "~0", "~");
      } else {
        ReplaceSkip(s[0], rest, "~1", "/");
        ReplaceSkip(s[0], half, "~0", "~");
      }
    }
  }

  lemma UnescapeEscape(s: string)
    ensures Unescape(Escape(s)) == s
  {
    EscapeByChar(s);
    UnescapeEscapeChars(s);
  }

  // ---------- string form ----------

  function ToString(p: Pointer): string {
    if p == [] then [] else "/" + Escape(p[0]) + ToString(p[1..])
  }

  /** Every `~` of a reference token is followed by `0` or `1`. */
  predicate ProperlyEscaped(s: string) {
    forall i | 0 <= i < |s| && s[i] == '~' :: i + 1 < |s| && (s[i + 1] == '0' || s[i + 1] == '1')
  }

  /** Where the first slash is, or the length when there is none. */
  function FindSlash(s: string): (n: nat)
    ensures n <= |s|
    ensures '/' !in s[..n]
    ensures n < |s| ==> s[n] == '/'
  {
    if s == [] || s[0] == '/' then 0 else 1 + FindSlash(s[1..])
  }

  /** The reference tokens of a text that begins behind a slash. */
  function SplitTokens(s: string): Result<Pointer, Error>
    decreases |s|
  {
    var n := FindSlash(s);
    if !ProperlyEscaped(s[..n]) then Err(ParseError)
    else
      var token := Unescape(s[..n]);
      if n == |s| then Ok([token])
      else
        match SplitTokens(s[n + 1..])
        case Ok(rest) => Ok([token] + rest)
        case Err(e) => Err(e)
  }

  /** `json_pointer(s)`. */
  function Parse(s: string): Result<Pointer, Error> {
    if s == [] then Ok([])
    else if s[0] != '/' then Err(ParseError)
    else SplitTokens(s[1..])
  }

  lemma {:induction false} EscapeCharsProper(s: string)
    ensures ProperlyEscaped(EscapeChars(s))
    ensures '/' !in EscapeChars(s)
  {
    if s != [] {
      EscapeCharsProper(s[1..]);
    }
  }

  lemma EscapedToken(s: string)
    ensures ProperlyEscaped(Escape(s)) && '/' !in Escape(s) && Unescape(Escape(s)) == s
  {
    EscapeByChar(s);
    EscapeCharsProper(s);
    UnescapeEscape(s);
  }

  lemma {:induction false} FindSlashPrefix(a: string, b: string)
    requires '/' !in a
    requires b == [] || b[0] == '/'
    ensures FindSlash(a + b) == |a|
  {
    if a == [] {
      assert a + b == b;
    } else {
      assert (a + b)[1..] == a[1..] + b;
      FindSlashPrefix(a[1..], b);
    }
  }

  lemma SplitFirst(token: string, rest: string)
    requires ProperlyEscaped(token) && '/' !in token
    requires rest == [] || rest[0] == '/'
    ensures SplitTokens(token + rest) ==
            if rest == [] then Ok([Unescape(token)])
            else match SplitTokens(rest[1..]) case Ok(ts) => Ok([Unescape(token)] + ts) case Err(e) => Err(e)
  {
    FindSlashPrefix(token, rest);
    assert (token + rest)[..|token|] == token;
    if rest != [] {
      assert (token + rest)[|token| + 1..] == rest[1..];
    }
  }

  lemma ParseFirst(key: string, token: string, p: Pointer, rest: string)
    requires ProperlyEscaped(token) && '/' !in token && Unescape(token) == key
    requires Parse(rest) == Ok(p) && (p == [] <==> rest == [])
    ensures Parse("/" + token + rest) == Ok([key] + p)
  {
    SplitFirst(token, rest);
    assert ("/" + token + rest)[1..] == token + rest;
    assert p == [] ==> [key] + p == [key];
  }

  /** Parsing inverts printing, whatever characters the keys hold. */
  lemma {:induction false} ParseToString(p: Pointer)
    ensures Parse(ToString(p)) == Ok(p)
  {
    if p != [] {
      ParseToString(p[1..]);
      EscapedToken(p[0]);
      ParseFirst(p[0], Escape(p[0]), p[1..], ToString(p[1..]));
      assert p == [p[0]] + p[1..];
    }
  }

  // ---------- array indices ----------

  function Digit(d: nat): char
    requires d < 10
  {
    '0' + d as char
  }

  /** `std::to_string` of a size. */
  function Decimal(n: nat): (s: string)
    ensures s != []
  {
    if n < 10 then [Digit(n)] else Decimal(n / 10) + [Digit(n % 10)]
  }

  predicate IsDigit(c: char) {
    '0' <= c <= '9'
  }

  function DigitsValue(s: string): nat
    requires forall i | 0 <= i < |s| :: IsDigit(s[i])
  {
    if s == [] then 0
    else
      var last := s[|s| - 1];
      assert IsDigit(last);
      10 * DigitsValue(s[..|s| - 1]) + (last - '0') as nat
  }

  /** `array_index`. Tokens above 2^64 - 2 throw `out_of_range` there; here they become indices that no array has. */
  function ArrayIndex(s: string): Result<nat, Error> {
    if |s| > 1 && s[0] == '0' then Err(ParseError)
    else if |s| > 1 && !('1' <= s[0] <= '9') then Err(ParseError)
    else if s == [] || exists i | 0 <= i < |s| :: !IsDigit(s[i]) then Err(OutOfRange)
    else Ok(DigitsValue(s))
  }

  lemma {:induction false} DecimalDigits(n: nat)
    ensures forall i | 0 <= i < |Decimal(n)| :: IsDigit(Decimal(n)[i])
    ensures DigitsValue(Decimal(n)) == n
    ensures |Decimal(n)| > 1 ==> Decimal(n)[0] != '0'
    ensures n > 0 ==> Decimal(n)[0] != '0'
  {
    if n < 10 {
      assert [Digit(n)][..0] == [];
    } else {
      DecimalDigits(n / 10);
      assert Decimal(n)[..|Decimal(n)| - 1] == Decimal(n / 10);
    }
  }

  lemma IndexOfDecimal(n: nat)
    ensures ArrayIndex(Decimal(n)) == Ok(n)
    ensures Decimal(n) != "-"
  {
    DecimalDigits(n);
    assert IsDigit(Decimal(n)[0]);
  }

  // ---------- evaluation ----------

  /** One step of `get_checked`. */
  function Child(j: Json, token: string): Result<Json, Error> {
    match j
    case Obj(m) => if token in m then Ok(m[token]) else Err(OutOfRange)
    case Arr(items) =>
      if token == "-" then Err(OutOfRange)
      else (match ArrayIndex(token)
            case Err(e) => Err(e)
            case Ok(i) => if i < |items| then Ok(items[i]) else Err(OutOfRange))
    case _ => Err(OutOfRange)
  }

  /** `get_checked`: the value a pointer refers to. */
  function At(j: Json, p: Pointer): Result<Json, Error> {
    if p == [] then Ok(j)
    else
      match Child(j, p[0])
      case Ok(c) => At(c, p[1..])
      case Err(e) => Err(e)
  }

  lemma ChildAt(j: Json, token: string)
    ensures At(j, [token]) == Child(j, token)
  {
  }

  function SetChild(j: Json, token: string, v: Json): Json
    requires Child(j, token).Ok?
  {
    match j
    case Obj(m) => Obj(m[token := v])
    case Arr(items) => Arr(items[ArrayIndex(token).value := v])
  }

  /** The document after an assignment through the reference `at(p)`. */
  function Put(j: Json, p: Pointer, v: Json): Json
    requires At(j, p).Ok?
  {
    if p == [] then v
    else SetChild(j, p[0], Put(Child(j, p[0]).value, p[1..], v))
  }

  lemma {:induction false} AtConcat(j: Json, p: Pointer, q: Pointer)
    ensures At(j, p + q) == (match At(j, p) case Ok(c) => At(c, q) case Err(e) => Err(e))
  {
    if p == [] {
      assert p + q == q;
    } else {
      assert (p + q)[1..] == p[1..] + q;
      if Child(j, p[0]).Ok? {
        AtConcat(Child(j, p[0]).value, p[1..], q);
      }
    }
  }

  lemma {:induction false} PutConcat(j: Json, p: Pointer, q: Pointer, v: Json)
    requires At(j, p).Ok? && At(At(j, p).value, q).Ok?
    ensures At(j, p + q).Ok?
    ensures Put(j, p + q, v) == Put(j, p, Put(At(j, p).value, q, v))
  {
    AtConcat(j, p, q);
    if p == [] {
      assert p + q == q;
    } else {
      assert (p + q)[1..] == p[1..] + q;
      PutConcat(Child(j, p[0]).value, p[1..], q, v);
    }
  }

  lemma {:induction false} AtPut(j: Json, p: Pointer, v: Json)
    requires At(j, p).Ok?
    ensures At(Put(j, p, v), p) == Ok(v)
  {
    if p != [] {
      AtPut(Child(j, p[0]).value, p[1..], v);
    }
  }

  lemma {:induction false} PutPut(j: Json, p: Pointer, v: Json, w: Json)
    requires At(j, p).Ok?
    ensures At(Put(j, p, v), p).Ok?
    ensures Put(Put(j, p, v), p, w) == Put(j, p, w)
  {
    AtPut(j, p, v);
    if p != [] {
      PutPut(Child(j, p[0]).value, p[1..], v, w);
    }
  }

  lemma {:induction false} PutAt(j: Json, p: Pointer)
    requires At(j, p).Ok?
    ensures Put(j, p, At(j, p).value) == j
  {
    if p != [] {
      PutAt(Child(j, p[0]).value, p[1..]);
    }
  }
}
