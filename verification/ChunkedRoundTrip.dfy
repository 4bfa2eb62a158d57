/** What `read_content_chunked` delivers of what `write_content_chunked` sent. */
module ChunkedRoundTrip {
  import opened Wrappers
  import opened UrlCoding
  import opened MultipartHeader
  import opened Chunked

  function Concat(ws: seq<string>): string {
    if ws == [] then "" else ws[0] + Concat(ws[1..])
  }

  function Writes(ws: seq<string>): seq<SinkCall> {
    seq(|ws|, i requires 0 <= i < |ws| => Write(ws[i]))
  }

  /** Lengths fit into a `size_t` that is not the largest one. */
  predicate Sizes(ws: seq<string>) {
    forall i | 0 <= i < |ws| :: |ws[i]| < ULONG_MAX
  }

  // ---------- chunks ----------

  lemma {:induction false} HexNotFeed(n: nat)
    ensures '\n' !in Hex(n)
  {
    HexDigits(n);
  }

  lemma PositiveHex(n: nat)
    requires 0 < n < ULONG_MAX
    ensures StrToUL(Hex(n) + "\r\n") == Some(n)
  {
    SizeBack(n);
  }

  /** One chunk is read as its data, whatever comes after it. */
  lemma ChunkBack(w: string, s: string, cleanEnd: bool)
    requires 0 < |w| < ULONG_MAX
    ensures var r := ReadChunked(s, cleanEnd);
            ReadChunked(Chunk(w) + s, cleanEnd) == r.(body := w + r.body)
  {
    hide Hex, StrToUL, ReadLine, IsCrlf, ReadTrailers;
    var size := Hex(|w|);
    assert Chunk(w) + s == size + "\r\n" + (w + "\r\n" + s);
    HexNotFeed(|w|);
    CrlfBack(size, w + "\r\n" + s, cleanEnd);
    PositiveHex(|w|);
    var after := w + "\r\n" + s;
    assert after[|w|..] == "" + "\r\n" + s && after[..|w|] == w;
    CrlfBack("", s, cleanEnd);
    OnlyCrlf("");
    assert w + "" == w && "" + "\r\n" == "\r\n";
    var next := ReadLine(s, cleanEnd);
  }

  /** An empty write sends nothing. */
  lemma WriteBack(w: string, s: string, cleanEnd: bool)
    requires |w| < ULONG_MAX
    ensures var r := ReadChunked(s, cleanEnd);
            ReadChunked(Chunk(w) + s, cleanEnd) == r.(body := w + r.body)
  {
    hide ReadChunked, Chunk;
    if w == "" {
      EmptyChunk();
      assert "" + s == s && "" + ReadChunked(s, cleanEnd).body == ReadChunked(s, cleanEnd).body;
    } else {
      ChunkBack(w, s, cleanEnd);
    }
  }

  lemma EmittedFirst(ws: seq<string>, s: string)
    requires ws != []
    ensures Emitted(Writes(ws)) + s == Chunk(ws[0]) + (Emitted(Writes(ws[1..])) + s)
  {
    hide Chunk, Emitted;
    assert Writes(ws) == [Write(ws[0])] + Writes(ws[1..]);
    EmittedConcat([Write(ws[0])], Writes(ws[1..]));
    OneCall(Write(ws[0]));
  }

  /** Any writes, empty ones included. */
  lemma {:induction false} ChunksBack(ws: seq<string>, s: string, cleanEnd: bool)
    requires Sizes(ws)
    ensures var r := ReadChunked(s, cleanEnd);
            ReadChunked(Emitted(Writes(ws)) + s, cleanEnd) == r.(body := Concat(ws) + r.body)
  {
    hide ReadChunked, Chunk, Emitted;
    var r := ReadChunked(s, cleanEnd);
    if ws == [] {
      NothingEmitted(s);
      assert "" + r.body == r.body;
    } else {
      EmittedFirst(ws, s);
      ChunksBack(ws[1..], s, cleanEnd);
      WriteBack(ws[0], Emitted(Writes(ws[1..])) + s, cleanEnd);
      assert ws[0] + (Concat(ws[1..]) + r.body) == Concat(ws) + r.body;
    }
  }

  lemma NothingEmitted(s: string)
    ensures Emitted(Writes([])) + s == s
  {
    assert Writes([]) == [];
  }

  lemma EmptyChunk()
    ensures Chunk("") == ""
  {
  }

  lemma OneCall(a: SinkCall)
    ensures Emitted([a]) == Emits(a)
  {
    hide Emits;
    assert [a][..0] == [];
    assert Emitted([]) == "";
  }

  // ---------- trailers ----------

  /** A trailer field that stays one line of admissible length. */
  predicate OneLine(f: Field) {
    '\n' !in f.0 && '\n' !in f.1 && |FieldLine(f)| <= HEADER_MAX_LENGTH
  }

  /** What the reader makes of trailer fields. */
  function Delivered(fs: seq<Field>): seq<Field> {
    if fs == [] then []
    else Delivered(fs[..|fs| - 1]) + Fields(ParseField(fs[|fs| - 1].0 + ": " + fs[|fs| - 1].1))
  }

  lemma FieldBack(f: Field, s: string, cleanEnd: bool)
    requires OneLine(f)
    ensures var r := ReadTrailers(s, cleanEnd);
            ReadTrailers(FieldLine(f) + s, cleanEnd)
            == r.(headers := Fields(ParseField(f.0 + ": " + f.1)) + r.headers)
  {
    hide ReadLine, IsCrlf, ParseField;
    var line := f.0 + ": " + f.1;
    assert FieldLine(f) + s == line + "\r\n" + s && FieldLine(f) == line + "\r\n";
    CrlfBack(line, s, cleanEnd);
    OnlyCrlf(line);
    assert WithoutEnd(line + "\r\n") == line;
  }

  lemma {:induction false} FieldsBack(fs: seq<Field>, s: string, cleanEnd: bool)
    requires forall i :: 0 <= i < |fs| ==> OneLine(fs[i])
    ensures var r := ReadTrailers(s, cleanEnd);
            ReadTrailers(FieldLines(fs) + s, cleanEnd) == r.(headers := Delivered(fs) + r.headers)
    decreases |fs|
  {
    hide ReadTrailers, ParseField, OneLine, FieldLine;
    var r := ReadTrailers(s, cleanEnd);
    if fs == [] {
      assert "" + s == s && [] + r.headers == r.headers;
    } else {
      var init, last := fs[..|fs| - 1], fs[|fs| - 1];
      assert FieldLines(fs) + s == FieldLines(init) + (FieldLine(last) + s);
      FieldBack(last, s, cleanEnd);
      FieldsBack(init, FieldLine(last) + s, cleanEnd);
      var one := Fields(ParseField(last.0 + ": " + last.1));
      assert Delivered(init) + (one + r.headers) == Delivered(fs) + r.headers;
    }
  }

  lemma DoneBytes(trailer: seq<Field>, tail: string)
    ensures Emits(Done(trailer)) + tail == "0\r\n" + (FieldLines(trailer) + ("\r\n" + tail))
  {
    hide FieldLines;
    Reassociate("0\r\n", FieldLines(trailer), "\r\n", tail);
  }

  lemma Reassociate(a: string, b: string, c: string, d: string)
    ensures a + b + c + d == a + (b + (c + d))
  {
  }

  lemma ZeroLine(s: string, cleanEnd: bool)
    ensures ReadLine("0\r\n" + s, cleanEnd) == Line(true, "0\r\n", s)
  {
    hide ReadLine;
    assert "0\r\n" == "0" + "\r\n";
    CrlfBack("0", s, cleanEnd);
  }

  lemma ZeroSize(s: string, cleanEnd: bool)
    ensures ReadChunks("0\r\n", s, cleanEnd) == ReadTrailers(s, cleanEnd)
  {
    hide ReadTrailers, StrToUL, ReadLine;
    ZeroBack();
  }

  /** The end of the message. */
  lemma DoneBack(trailer: seq<Field>, tail: string, cleanEnd: bool)
    requires forall i :: 0 <= i < |trailer| ==> OneLine(trailer[i])
    ensures ReadChunked(Emits(Done(trailer)) + tail, cleanEnd) == Received(true, "", Delivered(trailer), tail)
  {
    hide ReadLine, ReadChunks, FieldLines, OneLine, Delivered, ReadTrailers;
    hide Emits;
    var after := FieldLines(trailer) + ("\r\n" + tail);
    DoneBytes(trailer, tail);
    ZeroLine(after, cleanEnd);
    ZeroSize(after, cleanEnd);
    FieldsBack(trailer, "\r\n" + tail, cleanEnd);
    LastLine(tail, cleanEnd);
    assert Delivered(trailer) + [] == Delivered(trailer);
  }

  lemma LastLine(tail: string, cleanEnd: bool)
    ensures ReadTrailers("\r\n" + tail, cleanEnd) == Received(true, "", [], tail)
  {
    hide ReadLine, IsCrlf;
    assert "\r\n" + tail == "" + "\r\n" + tail && "" + "\r\n" == "\r\n";
    CrlfBack("", tail, cleanEnd);
    OnlyCrlf("");
  }

  /**
   * Whatever is written, in however many pieces, and then finished, is delivered as one body, with the
   * trailers as `parse_header` reads them, and nothing after it is touched.
   */
  lemma RoundTrip(ws: seq<string>, trailer: seq<Field>, tail: string, cleanEnd: bool)
    requires Sizes(ws) && forall i :: 0 <= i < |trailer| ==> OneLine(trailer[i])
    ensures ReadChunked(Emitted(Writes(ws) + [Done(trailer)]) + tail, cleanEnd)
            == Received(true, Concat(ws), Delivered(trailer), tail)
  {
    hide ReadChunked, Emits, Concat, OneLine, Delivered;
    EmittedConcat(Writes(ws), [Done(trailer)]);
    OneCall(Done(trailer));
    var end := Emits(Done(trailer));
    assert Emitted(Writes(ws)) + end + tail == Emitted(Writes(ws)) + (end + tail);
    ChunksBack(ws, end + tail, cleanEnd);
    DoneBack(trailer, tail, cleanEnd);
    assert Concat(ws) + "" == Concat(ws);
  }

  /** Without the call that finishes it the reader never accepts the message, though it gets all of its data. */
  lemma Unfinished(ws: seq<string>, cleanEnd: bool)
    requires Sizes(ws)
    ensures ReadChunked(Emitted(Writes(ws)), cleanEnd) == Received(false, Concat(ws), [], "")
  {
    ChunksBack(ws, "", cleanEnd);
    assert Emitted(Writes(ws)) + "" == Emitted(Writes(ws)) && Concat(ws) + "" == Concat(ws);
  }

  // ---------- any calls of the sink ----------

  /** Lengths and trailer lines that the format can carry. */
  predicate CallOk(a: SinkCall) {
    match a
    case Write(d) => |d| < ULONG_MAX
    case Done(trailer) => forall i | 0 <= i < |trailer| :: OneLine(trailer[i])
  }

  /** The position of the first call that finishes, or the number of calls. */
  function FirstDone(calls: seq<SinkCall>): (n: nat)
    ensures n <= |calls| && (n < |calls| ==> calls[n].Done?)
    ensures forall i :: 0 <= i < n ==> calls[i].Write?
  {
    if calls == [] || calls[0].Done? then 0 else 1 + FirstDone(calls[1..])
  }

  function Data(calls: seq<SinkCall>): (ws: seq<string>)
    requires forall i :: 0 <= i < |calls| ==> calls[i].Write?
    ensures |ws| == |calls| && forall i :: 0 <= i < |ws| ==> ws[i] == calls[i].data
  {
    seq(|calls|, i requires 0 <= i < |calls| => calls[i].data)
  }

  /**
   * What a receiver makes of any calls, writes after the end and repeated ends included: the first call that
   * finishes makes it accept, with the writes before it as the body; without one it fails on all the data.
   */
  lemma ReadsEmitted(calls: seq<SinkCall>, cleanEnd: bool)
    requires forall i :: 0 <= i < |calls| ==> CallOk(calls[i])
    ensures var n := FirstDone(calls);
            ReadChunked(Emitted(calls), cleanEnd) ==
            if n < |calls| then Received(true, Concat(Data(calls[..n])), Delivered(calls[n].trailer), Emitted(calls[n + 1..]))
            else Received(false, Concat(Data(calls)), [], "")
  {
    hide ReadChunked, Emitted, Concat, Delivered, FirstDone, CallOk, Writes, Data;
    var n := FirstDone(calls);
    DataFits(calls, n);
    if n < |calls| {
      SplitAtDone(calls, n);
      EmittedConcat(Writes(Data(calls[..n])) + [Done(calls[n].trailer)], calls[n + 1..]);
      TrailerFits(calls[n]);
      RoundTrip(Data(calls[..n]), calls[n].trailer, Emitted(calls[n + 1..]), cleanEnd);
    } else {
      assert calls[..n] == calls;
      Unfinished(Data(calls), cleanEnd);
    }
  }

  lemma DataFits(calls: seq<SinkCall>, n: nat)
    requires n <= |calls| && forall i :: 0 <= i < |calls| ==> CallOk(calls[i])
    requires forall i :: 0 <= i < n ==> calls[i].Write?
    ensures Sizes(Data(calls[..n])) && Writes(Data(calls[..n])) == calls[..n]
  {
  }

  lemma TrailerFits(a: SinkCall)
    requires a.Done? && CallOk(a)
    ensures forall i :: 0 <= i < |a.trailer| ==> OneLine(a.trailer[i])
  {
  }

  lemma SplitAtDone(calls: seq<SinkCall>, n: nat)
    requires n < |calls| && calls[n].Done?
    ensures calls == calls[..n] + [Done(calls[n].trailer)] + calls[n + 1..]
  {
  }

  // ---------- which trailers come back unchanged ----------

  /** A field that `parse_header` reads as it was written. */
  predicate Plain(f: Field) {
    && ':' !in f.0
    && f.1 != "" && !IsBlank(f.1[0]) && !IsBlank(f.1[|f.1| - 1])
    && (EqualNoCase(f.0, "Location") || DecodedUrl(f.1, false) == f.1)
  }

  lemma {:induction false} ColonAt(a: string, b: string)
    ensures Colon(a + ":" + b) <= |a|
    ensures ':' !in a ==> Colon(a + ":" + b) == |a|
    ensures ':' in a ==> Colon(a + ":" + b) < |a|
  {
    var s := a + ":" + b;
    if a != "" && a[0] != ':' {
      assert s[1..] == a[1..] + ":" + b;
      ColonAt(a[1..], b);
    }
  }

  lemma {:induction false} TrimRightPrefix(s: string)
    ensures TrimRight(s) <= s
    ensures TrimRight(s) == s <==> s == "" || !IsBlank(s[|s| - 1])
    ensures TrimRight(s) != "" ==> !IsBlank(TrimRight(s)[|TrimRight(s)| - 1])
    decreases |s|
  {
    if s != "" && IsBlank(s[|s| - 1]) {
      TrimRightPrefix(s[..|s| - 1]);
    }
  }

  lemma {:induction false} TrimLeftSuffix(s: string)
    ensures |TrimLeft(s)| <= |s|
    ensures TrimLeft(s) == s[|s| - |TrimLeft(s)|..]
    ensures TrimLeft(s) != "" ==> !IsBlank(TrimLeft(s)[0])
    ensures s != "" && !IsBlank(s[0]) ==> TrimLeft(s) == s
  {
    if s != "" && IsBlank(s[0]) {
      TrimLeftSuffix(s[1..]);
    }
  }

  /** A plain field comes back. */
  lemma PlainComesBack(f: Field)
    requires Plain(f)
    ensures ParseField(f.0 + ": " + f.1) == Some(f)
  {
    hide TrimLeft, TrimRight, Colon, DecodedUrl, EqualNoCase;
    var s := f.0 + ": " + f.1;
    assert s[|s| - 1] == f.1[|f.1| - 1];
    TrimRightPrefix(s);
    assert s == f.0 + ":" + (" " + f.1);
    ColonAt(f.0, " " + f.1);
    assert s[|f.0| + 1..] == " " + f.1;
    TrimLeftSpace(f.1);
    TrimLeftSuffix(f.1);
    assert s[..|f.0|] == f.0;
  }

  lemma TrimLeftSpace(s: string)
    ensures TrimLeft(" " + s) == TrimLeft(s)
  {
    assert (" " + s)[1..] == s;
  }

  /** And no other field does. */
  lemma OnlyPlainComesBack(f: Field)
    requires ParseField(f.0 + ": " + f.1) == Some(f)
    ensures Plain(f)
  {
    hide TrimLeft, TrimRight, Colon, DecodedUrl, EqualNoCase;
    var s := f.0 + ": " + f.1;
    var t := TrimRight(s);
    TrimRightPrefix(s);
    assert s == f.0 + ":" + (" " + f.1);
    ColonAt(f.0, " " + f.1);
    PrefixColon(t, s);
    var n := Colon(t);
    assert n == |f.0|;
    var rest := t[n + 1..];
    var value := TrimLeft(rest);
    TrimLeftSuffix(rest);
    assert |f.1| <= |value|;
    if |value| < |rest| - 1 || |t| < |s| {
      assert false;
    }
    assert t == s && rest == " " + f.1;
    assert value == f.1;
  }

  lemma {:induction false} PrefixColon(t: string, s: string)
    requires t <= s
    ensures Colon(t) == if Colon(s) < |t| then Colon(s) else |t|
  {
    if t != "" && t[0] != ':' {
      PrefixColon(t[1..], s[1..]);
    }
  }

  lemma PlainExactly(f: Field)
    ensures ParseField(f.0 + ": " + f.1) == Some(f) <==> Plain(f)
  {
    hide ParseField, Plain;
    if Plain(f) {
      PlainComesBack(f);
    } else if ParseField(f.0 + ": " + f.1) == Some(f) {
      OnlyPlainComesBack(f);
      assert false;
    }
  }

  /** The trailers are delivered unchanged exactly when each of them is plain. */
  lemma {:induction false} DeliveredExactly(fs: seq<Field>)
    ensures |Delivered(fs)| <= |fs|
    ensures Delivered(fs) == fs <==> forall i :: 0 <= i < |fs| ==> Plain(fs[i])
    decreases |fs|
  {
    hide ParseField, Plain;
    if fs != [] {
      var init, last := fs[..|fs| - 1], fs[|fs| - 1];
      DeliveredExactly(init);
      PlainExactly(last);
      assert fs == init + [last];
      var d := Delivered(init);
      var one := Fields(ParseField(last.0 + ": " + last.1));
      if Delivered(fs) == fs {
        assert |d| == |init| && one == [last];
        assert d == (d + one)[..|d|] == init;
        assert forall i :: 0 <= i < |init| ==> Plain(init[i]);
        assert forall i :: 0 <= i < |fs| ==> Plain(fs[i]);
      } else {
        if Plain(last) {
          assert d != init;
          var i :| 0 <= i < |init| && !Plain(init[i]);
          assert fs[i] == init[i];
        }
      }
    }
  }
}
