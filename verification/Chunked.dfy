/** Chunked transfer: what the reader makes of a byte stream, and what the writer puts on it (section 7.1 of RFC 9112). */
module Chunked {
  import opened Wrappers
  import opened UrlCoding
  import opened MultipartHeader

  const ULONG_MAX: nat := 0xFFFF_FFFF_FFFF_FFFF
  const HEADER_MAX_LENGTH: nat := 8192

  // ---------- lines ----------

  datatype Line = Line(ok: bool, line: string, rest: string)

  /** `getline`: up to a line feed, or to the end of the stream if that is a clean one. */
  function ReadLine(s: string, cleanEnd: bool): (r: Line)
    ensures r.line + r.rest == s
    ensures r.ok ==> r.line != ""
    decreases |s|
  {
    if s == "" then Line(false, "", "")
    else if s[0] == '\n' then Line(true, s[..1], s[1..])
    else if |s| == 1 then Line(cleanEnd, s, "")
    else
      var r := ReadLine(s[1..], cleanEnd);
      Line(r.ok, s[..1] + r.line, r.rest)
  }

  /** What a C string function sees. */
  function CString(s: string): string {
    if s == "" || s[0] == 0 as char then "" else s[..1] + CString(s[1..])
  }

  predicate IsCrlf(line: string) {
    CString(line) == "\r\n"
  }

  // ---------- numbers ----------

  /** The hexadecimal digits at the start of `s`, read on from `n`. */
  function HexPrefix(s: string, n: nat): nat {
    if s == "" || !IsHex(s[0]) then n else HexPrefix(s[1..], 16 * n + HexDigit(s[0]))
  }

  /** `strtoul` with base 16: spaces, a sign, `0x`; no number without a digit; negative numbers wrap around. */
  function StrToUL(s: string): (r: Option<nat>)
    ensures r.Some? ==> r.value <= ULONG_MAX
  {
    var t := SkipSpaces(s);
    var u := if t != "" && (t[0] == '+' || t[0] == '-') then t[1..] else t;
    var v := if |u| > 2 && u[0] == '0' && (u[1] == 'x' || u[1] == 'X') && IsHex(u[2]) then u[2..] else u;
    if v == "" || !IsHex(v[0]) then None
    else
      var n := HexPrefix(v, 0);
      if n > ULONG_MAX then Some(ULONG_MAX)
      else if t[0] == '-' then Some((ULONG_MAX + 1 - n) % (ULONG_MAX + 1))
      else Some(n)
  }

  // ---------- header lines ----------

  type Field = (string, string)

  predicate EqualNoCase(a: string, b: string) {
    |a| == |b| && StartsNoCase(a, b)
  }

  /** The position of the first colon, or the length. */
  function Colon(s: string): (n: nat)
    ensures n <= |s|
  {
    if s == "" || s[0] == ':' then 0 else 1 + Colon(s[1..])
  }

  /** `parse_header`: the value of any field but `Location` is percent-decoded. */
  function ParseField(s: string): Option<Field> {
    var t := TrimRight(s);
    var n := Colon(t);
    if n == |t| then None
    else
      var value := TrimLeft(t[n + 1..]);
      if value == "" then None
      else Some((t[..n], if EqualNoCase(t[..n], "Location") then value else DecodedUrl(value, false)))
  }

  function Fields(f: Option<Field>): seq<Field> {
    match f
    case Some(p) => [p]
    case None => []
  }

  // ---------- the reader ----------

  /** What has been delivered, whether all went well, and what is left of the stream. */
  datatype Received = Received(ok: bool, body: string, headers: seq<Field>, rest: string)

  function WithoutEnd(line: string): string {
    if |line| < 2 then "" else line[..|line| - 2]
  }

  function ReadTrailers(s: string, cleanEnd: bool): Received
    decreases |s|
  {
    var l := ReadLine(s, cleanEnd);
    if !l.ok then Received(false, "", [], l.rest)
    else if IsCrlf(l.line) then Received(true, "", [], l.rest)
    else if |l.line| > HEADER_MAX_LENGTH then Received(false, "", [], l.rest)
    else
      var r := ReadTrailers(l.rest, cleanEnd);
      r.(headers := Fields(ParseField(WithoutEnd(l.line))) + r.headers)
  }

  /** From a size line on. */
  function ReadChunks(size: string, s: string, cleanEnd: bool): Received
    decreases |s|
  {
    match StrToUL(size)
    case None => Received(false, "", [], s)
    case Some(n) =>
      if n == ULONG_MAX then Received(false, "", [], s)
      else if n == 0 then ReadTrailers(s, cleanEnd)
      else if |s| < n then Received(false, s, [], "")
      else
        var end := ReadLine(s[n..], cleanEnd);
        if !end.ok || !IsCrlf(end.line) then Received(false, s[..n], [], end.rest)
        else
          var next := ReadLine(end.rest, cleanEnd);
          if !next.ok then Received(false, s[..n], [], next.rest)
          else
            var r := ReadChunks(next.line, next.rest, cleanEnd);
            r.(body := s[..n] + r.body)
  }

  function ReadChunked(s: string, cleanEnd: bool): Received {
    var l := ReadLine(s, cleanEnd);
    if !l.ok then Received(false, "", [], l.rest) else ReadChunks(l.line, l.rest, cleanEnd)
  }

  // ---------- the writer ----------

  function LowerHex(v: nat): (c: char)
    requires v < 16
    ensures IsHex(c) && HexDigit(c) == v
  {
    if v < 10 then '0' + v as char else 'a' + (v - 10) as char
  }

  function Hex(n: nat): (s: string)
    ensures s != ""
  {
    (if n < 16 then "" else Hex(n / 16)) + [LowerHex(n % 16)]
  }

  function Chunk(d: string): string {
    if d == "" then "" else Hex(|d|) + "\r\n" + d + "\r\n"
  }

  function FieldLine(f: Field): string {
    f.0 + ": " + f.1 + "\r\n"
  }

  function FieldLines(fs: seq<Field>): string {
    if fs == [] then "" else FieldLines(fs[..|fs| - 1]) + FieldLine(fs[|fs| - 1])
  }

  /** A call of the data sink by the content provider; a trailer is optional. */
  datatype SinkCall = Write(data: string) | Done(trailer: seq<Field>)

  /** The bytes a call puts on the stream. */
  function Emits(a: SinkCall): string {
    match a
    case Write(d) => Chunk(d)
    case Done(t) => "0\r\n" + FieldLines(t) + "\r\n"
  }

  function Emitted(calls: seq<SinkCall>): string {
    if calls == [] then "" else Emitted(calls[..|calls| - 1]) + Emits(calls[|calls| - 1])
  }

  /** `data_available` after a call: an empty write clears it, and another write sets it again. */
  function Available(calls: seq<SinkCall>): bool {
    if calls == [] then true
    else
      match calls[|calls| - 1]
      case Write(d) => d != ""
      case Done(_) => false
  }

  /** What a stream that takes `capacity` bytes has taken. */
  function Cut(s: string, capacity: nat): string {
    if |s| <= capacity then s else s[..capacity]
  }

  lemma {:induction false} EmittedConcat(a: seq<SinkCall>, b: seq<SinkCall>)
    ensures Emitted(a + b) == Emitted(a) + Emitted(b)
    decreases |b|
  {
    hide Emits;
    if b == [] {
      assert a + b == a;
    } else {
      assert (a + b)[..|a + b| - 1] == a + b[..|b| - 1];
      EmittedConcat(a, b[..|b| - 1]);
    }
  }

  // ---------- numbers come back ----------

  lemma {:induction false} HexPrefixSplit(a: string, b: string, n: nat)
    requires forall i :: 0 <= i < |a| ==> IsHex(a[i])
    ensures HexPrefix(a + b, n) == HexPrefix(b, HexPrefix(a, n))
  {
    if a == "" {
      assert a + b == b;
    } else {
      assert (a + b)[1..] == a[1..] + b;
      HexPrefixSplit(a[1..], b, 16 * n + HexDigit(a[0]));
    }
  }

  lemma {:induction false} HexDigits(n: nat)
    ensures forall i :: 0 <= i < |Hex(n)| ==> IsHex(Hex(n)[i])
    ensures HexPrefix(Hex(n), 0) == n
  {
    var d := [LowerHex(n % 16)];
    assert HexPrefix(d, n / 16) == n by {
      assert d[1..] == "";
      assert HexPrefix("", 16 * (n / 16) + n % 16) == n;
    }
    if n < 16 {
      assert "" + d == d;
    } else {
      HexDigits(n / 16);
      HexPrefixSplit(Hex(n / 16), d, 0);
    }
  }

  /** The size line is read as the size. */
  lemma SizeBack(n: nat)
    requires n <= ULONG_MAX
    ensures StrToUL(Hex(n) + "\r\n") == Some(n)
  {
    hide Hex;
    HexDigits(n);
    var s := Hex(n) + "\r\n";
    HexPrefixSplit(Hex(n), "\r\n", 0);
    assert IsHex(s[0]) && (|Hex(n)| > 1 ==> IsHex(s[1]));
  }

  lemma ZeroBack()
    ensures StrToUL("0\r\n") == Some(0)
  {
    SizeBack(0);
    assert Hex(0) == "0";
  }

  // ---------- lines come back ----------

  lemma {:induction false} LineBack(a: string, rest: string, cleanEnd: bool)
    requires '\n' !in a
    ensures ReadLine(a + "\n" + rest, cleanEnd) == Line(true, a + "\n", rest)
  {
    var s := a + "\n" + rest;
    if a == "" {
      assert s[..1] == "\n" && s[1..] == rest;
    } else {
      assert s[1..] == a[1..] + "\n" + rest;
      LineBack(a[1..], rest, cleanEnd);
      assert s[..1] + (a[1..] + "\n") == a + "\n";
    }
  }

  lemma CrlfBack(a: string, rest: string, cleanEnd: bool)
    requires '\n' !in a
    ensures ReadLine(a + "\r\n" + rest, cleanEnd) == Line(true, a + "\r\n", rest)
  {
    assert a + "\r\n" + rest == (a + "\r") + "\n" + rest;
    assert a + "\r\n" == (a + "\r") + "\n";
    LineBack(a + "\r", rest, cleanEnd);
  }

  lemma {:induction false} CStringFeed(s: string)
    ensures |CString(s)| <= |s|
    ensures forall i :: 0 <= i < |CString(s)| ==> CString(s)[i] == s[i]
  {
    if s != "" {
      CStringFeed(s[1..]);
    }
  }

  /** A line with only one line feed is a bare CRLF or does not look like one. */
  lemma OnlyCrlf(a: string)
    requires '\n' !in a
    ensures IsCrlf(a + "\r\n") <==> a == ""
  {
    hide CString;
    var s := a + "\r\n";
    CStringFeed(s);
    if a == "" {
      assert s == "\r\n";
      CrlfString();
    } else {
      assert s[1] == if |a| == 1 then '\r' else a[1];
    }
  }

  lemma CrlfString()
    ensures CString("\r\n") == "\r\n"
  {
    assert "\r\n"[1..] == "\n" && "\n"[1..] == "";
  }
}
