/** `stream_line_reader`, `read_content_chunked` and `write_content_chunked` over their buffers and streams. */
module ChunkedStream {
  import opened Wrappers
  import opened Chunked

  const RECV_BUFSIZ: nat := 4096

  // ---------- reading ----------

  /** A stream to read from: each read takes as much as `sizes` allows, at the end it reports a clean end or an error. */
  class InStream {
    var incoming: string
    var sizes: seq<nat>
    const cleanEnd: bool

    constructor (incoming: string, sizes: seq<nat>, cleanEnd: bool)
      ensures this.incoming == incoming && this.cleanEnd == cleanEnd
    {
      this.incoming, this.sizes, this.cleanEnd := incoming, sizes, cleanEnd;
    }

    /** Any positive number of bytes up to `size`, or zero or less at the end. */
    method Read(size: nat) returns (n: int, buf: string)
      requires size > 0
      modifies this
      ensures old(incoming) == buf + incoming && n == if buf != "" then |buf| else if cleanEnd then 0 else -1
      ensures |buf| <= size && (buf == "" <==> old(incoming) == "")
    {
      if incoming == "" {
        return if cleanEnd then 0 else -1, "";
      }
      var most := if sizes == [] then size else sizes[0] + 1;
      if sizes != [] {
        sizes := sizes[1..];
      }
      var k := if most < size then most else size;
      if k > |incoming| {
        k := |incoming|;
      }
      buf := incoming[..k];
      incoming := incoming[k..];
      n := k;
    }
  }

  /** A line in a fixed buffer, moved to a growable one when it does not fit. */
  class StreamLineReader {
    const strm: InStream
    const fixedBuffer: array<char>
    var fixedBufferUsedSize: nat
    var glowableBuffer: string

    constructor (strm: InStream, fixedBuffer: array<char>)
      requires fixedBuffer.Length >= 2
      ensures this.strm == strm && this.fixedBuffer == fixedBuffer && Valid() && Line() == ""
    {
      this.strm, this.fixedBuffer := strm, fixedBuffer;
      fixedBufferUsedSize, glowableBuffer := 0, "";
    }

    /** The fixed buffer ends in a NUL, which `append` relies on. */
    ghost predicate Valid()
      reads this, fixedBuffer
    {
      && fixedBuffer.Length >= 2 && fixedBufferUsedSize < fixedBuffer.Length
      && (fixedBufferUsedSize > 0 ==> fixedBuffer[fixedBufferUsedSize] == 0 as char)
      && (glowableBuffer != "" ==> fixedBufferUsedSize == fixedBuffer.Length - 1)
    }

    /** `ptr()` and `size()`. */
    function Line(): string
      requires fixedBufferUsedSize <= fixedBuffer.Length
      reads this, fixedBuffer
    {
      if glowableBuffer == "" then fixedBuffer[..fixedBufferUsedSize] else glowableBuffer
    }

    method Append(c: char)
      requires Valid()
      modifies this, fixedBuffer
      ensures Valid() && Line() == old(Line()) + [c]
    {
      if fixedBufferUsedSize < fixedBuffer.Length - 1 {
        fixedBuffer[fixedBufferUsedSize] := c;
        fixedBufferUsedSize := fixedBufferUsedSize + 1;
        fixedBuffer[fixedBufferUsedSize] := 0 as char;
      } else {
        if glowableBuffer == "" {
          assert fixedBuffer[fixedBufferUsedSize] == 0 as char;
          glowableBuffer := fixedBuffer[..fixedBufferUsedSize];
        }
        glowableBuffer := glowableBuffer + [c];
      }
    }

    /** A line of any length, whichever of the two buffers it ends up in. */
    method GetLine() returns (ok: bool)
      requires Valid() && strm as object !in {this, fixedBuffer}
      modifies this, fixedBuffer, strm
      ensures Valid()
      ensures var l := ReadLine(old(strm.incoming), strm.cleanEnd);
              ok == l.ok && strm.incoming == l.rest && (ok ==> Line() == l.line)
    {
      hide ReadLine;
      fixedBufferUsedSize := 0;
      glowableBuffer := "";
      ghost var before := strm.incoming;
      ghost var taken := "";
      assert taken + strm.incoming == before;
      var i := 0;
      while true
        invariant Valid() && i == |taken| && Line() == taken && '\n' !in taken
        invariant before == taken + strm.incoming
        decreases |strm.incoming|
      {
        var n, byte := strm.Read(1);
        if n < 0 {
          EndOfLine(before, strm.cleanEnd);
          return false;
        } else if n == 0 {
          EndOfLine(before, strm.cleanEnd);
          return i > 0;
        }
        Append(byte[0]);
        if byte[0] == '\n' {
          FeedFound(before, taken, byte, strm.incoming, strm.cleanEnd);
          break;
        }
        taken := taken + [byte[0]];
        i := i + 1;
      }
      return true;
    }
  }

  lemma FeedFound(s: string, taken: string, byte: string, rest: string, cleanEnd: bool)
    requires s == taken + (byte + rest) && '\n' !in taken && byte == "\n"
    ensures ReadLine(s, cleanEnd) == Chunked.Line(true, taken + [byte[0]], rest)
  {
    hide ReadLine;
    assert s == taken + "\n" + rest;
    LineBack(taken, rest, cleanEnd);
  }

  /** A stream that ends before a line feed. */
  lemma {:induction false} EndOfLine(s: string, cleanEnd: bool)
    requires '\n' !in s
    ensures ReadLine(s, cleanEnd) == Chunked.Line(s != "" && cleanEnd, s, "")
  {
    if |s| > 1 {
      EndOfLine(s[1..], cleanEnd);
      assert s[..1] + s[1..] == s;
    }
  }

  /** `read_content_with_length`: everything is delivered, in pieces of the receive buffer's size at most. */
  method ReadContentWithLength(strm: InStream, len: nat) returns (ok: bool, body: string)
    modifies strm
    ensures ok <==> len <= |old(strm.incoming)|
    ensures if ok then |body| == len && old(strm.incoming) == body + strm.incoming
            else body == old(strm.incoming) && strm.incoming == ""
  {
    body := "";
    var r := 0;
    while r < len
      invariant r == |body| <= len && old(strm.incoming) == body + strm.incoming
    {
      var left := len - r;
      var n, buf := strm.Read(if left < RECV_BUFSIZ then left else RECV_BUFSIZ);
      if n <= 0 {
        assert body + "" == body;
        return false, body;
      }
      body := body + buf;
      r := r + n;
    }
    ok := true;
  }

  method GetHeader(line: string) returns (fields: seq<Field>)
    ensures fields == Fields(ParseField(WithoutEnd(line)))
  {
    fields := Fields(ParseField(WithoutEnd(line)));
  }

  /** The trailer part. */
  method ReadTrailerPart(reader: StreamLineReader) returns (ok: bool, headers: seq<Field>)
    requires reader.Valid() && reader.strm as object !in {reader, reader.fixedBuffer}
    modifies reader, reader.fixedBuffer, reader.strm
    ensures ReadTrailers(old(reader.strm.incoming), reader.strm.cleanEnd) == Received(ok, "", headers, reader.strm.incoming)
  {
    hide ReadLine, IsCrlf, ParseField, Fields, WithoutEnd;
    headers := [];
    ghost var clean := reader.strm.cleanEnd;
    ghost var before := reader.strm.incoming;
    ghost var start := before;
    ok := reader.GetLine();
    if !ok {
      return;
    }
    while !IsCrlf(reader.Line())
      invariant reader.Valid()
      invariant ReadLine(start, clean) == Chunked.Line(true, reader.Line(), reader.strm.incoming)
      invariant var r := ReadTrailers(start, clean);
                ReadTrailers(before, clean) == r.(headers := headers + r.headers)
      decreases |reader.strm.incoming|
    {
      var line := reader.Line();
      if |line| > HEADER_MAX_LENGTH {
        assert headers + [] == headers;
        return false, headers;
      }
      var fields := GetHeader(line);
      ghost var rest := reader.strm.incoming;
      TrailerNext(start, clean, headers, fields);
      headers := headers + fields;
      start := rest;
      ok := reader.GetLine();
      if !ok {
        assert headers + [] == headers;
        return;
      }
    }
    assert headers + [] == headers;
    ok := true;
  }

  lemma TrailerNext(s: string, cleanEnd: bool, headers: seq<Field>, fields: seq<Field>)
    requires var l := ReadLine(s, cleanEnd);
             l.ok && !IsCrlf(l.line) && |l.line| <= HEADER_MAX_LENGTH && fields == Fields(ParseField(WithoutEnd(l.line)))
    ensures var r := ReadTrailers(s, cleanEnd);
            var next := ReadTrailers(ReadLine(s, cleanEnd).rest, cleanEnd);
            r.(headers := headers + r.headers) == next.(headers := headers + fields + next.headers)
  {
    hide ReadLine, IsCrlf, ParseField, Fields, WithoutEnd;
    var next := ReadTrailers(ReadLine(s, cleanEnd).rest, cleanEnd);
    assert headers + (fields + next.headers) == headers + fields + next.headers;
  }

  /** `read_content_chunked`, with its 16-byte line buffer. */
  method ReadContentChunked(strm: InStream) returns (ok: bool, body: string, headers: seq<Field>)
    modifies strm
    ensures ReadChunked(old(strm.incoming), strm.cleanEnd) == Received(ok, body, headers, strm.incoming)
  {
    hide ReadLine, StrToUL, IsCrlf, ReadTrailers, ReadChunks;
    body, headers := "", [];
    ghost var clean := strm.cleanEnd;
    ghost var before := strm.incoming;
    var buf := new char[16];
    var reader := new StreamLineReader(strm, buf);
    ok := reader.GetLine();
    if !ok {
      return;
    }
    while true
      invariant reader.Valid() && reader.strm == strm && fresh(reader) && fresh(reader.fixedBuffer)
      invariant var r := ReadChunks(reader.Line(), strm.incoming, clean);
                ReadChunked(before, clean) == r.(body := body + r.body)
      invariant headers == []
      decreases |strm.incoming|
    {
      ghost var line, rest := reader.Line(), strm.incoming;
      var chunkLen := StrToUL(reader.Line());
      ChunkStep(line, rest, clean, body);
      if chunkLen == None || chunkLen.value == ULONG_MAX {
        return false, body, headers;
      }
      if chunkLen.value == 0 {
        break;
      }
      var data;
      ok, data := ReadContentWithLength(strm, chunkLen.value);
      body := body + data;
      if !ok {
        return;
      }
      assert rest[..|data|] == data && rest[|data|..] == strm.incoming;
      ok := reader.GetLine();
      if !ok {
        return;
      }
      if !IsCrlf(reader.Line()) {
        return false, body, headers;
      }
      ok := reader.GetLine();
      if !ok {
        return;
      }
    }
    ok, headers := ReadTrailerPart(reader);
  }

  /** One round of the loop. */
  lemma ChunkStep(size: string, s: string, cleanEnd: bool, body: string)
    ensures var r := ReadChunks(size, s, cleanEnd);
            var all := r.(body := body + r.body);
            match StrToUL(size)
            case None => all == Received(false, body, [], s)
            case Some(n) =>
              && (n == ULONG_MAX ==> all == Received(false, body, [], s))
              && (n == 0 ==> var t := ReadTrailers(s, cleanEnd); all == t.(body := body))
              && (0 < n < ULONG_MAX && |s| < n ==> all == Received(false, body + s, [], ""))
              && (0 < n < ULONG_MAX && |s| >= n ==>
                    var end := ReadLine(s[n..], cleanEnd);
                    var now := body + s[..n];
                    if !end.ok || !IsCrlf(end.line) then all == Received(false, now, [], end.rest)
                    else
                      var next := ReadLine(end.rest, cleanEnd);
                      if !next.ok then all == Received(false, now, [], next.rest)
                      else
                        var more := ReadChunks(next.line, next.rest, cleanEnd);
                        all == more.(body := now + more.body))
  {
    hide ReadLine, StrToUL, IsCrlf, ReadTrailers;
    assert body + "" == body;
    NoBodyInTrailers(s, cleanEnd);
  }

  lemma {:induction false} NoBodyInTrailers(s: string, cleanEnd: bool)
    ensures ReadTrailers(s, cleanEnd).body == ""
    decreases |s|
  {
    hide ReadLine, IsCrlf, ParseField;
    var l := ReadLine(s, cleanEnd);
    if l.ok {
      NoBodyInTrailers(l.rest, cleanEnd);
    }
  }
}
