/**
 * What the coroutines do when the peer goes away while a frame header is being read: they go on with what
 * has arrived and with memory that was never written, where the blocking socket stops.
 */
module AsyncWebSocketCut {
  import opened SmallNumbers
  import opened WebSocketFrame
  import opened WebSocketReader
  import opened AsyncWebSocket
  import opened AsyncWebSocketClosed

  // ---------- a transport whose peer has gone away ----------

  /** No read will give a byte any more. */
  predicate Drained(c: Conn) {
    c.schedule == [] || c.incoming == []
  }

  /** And no read will report a broken pipe: a closed peer stays closed. */
  predicate Quiet(c: Conn) {
    Drained(c) && forall i | 0 <= i < |c.schedule| :: !c.schedule[i].Broken?
  }

  lemma DrainedRead(c: Conn, n: nat)
    requires Drained(c) && n > 0
    ensures var r := Read(c, n);
            && !r.1.Got? && Drained(r.0) && r.0.incoming == c.incoming
            && (Quiet(c) ==> Quiet(r.0) && !r.1.BrokenPipe?)
  {
  }

  /** A read that returned zero leaves a drained transport. */
  lemma {:induction false} ZeroDrains(c: Conn, n: nat)
    ensures ReadExact(c, n).zero ==> Drained(ReadExact(c, n).c) && |ReadExact(c, n).bytes| < n
    decreases |c.schedule|
  {
    if n > 0 {
      var (next, r) := Read(c, n);
      if r.Got? {
        ZeroDrains(next, n - |r.bytes|);
      } else if r.Retry? {
        ZeroDrains(next, n);
      }
    }
  }

  lemma {:induction false} QuietExact(c: Conn, n: nat)
    requires Quiet(c) && n > 0
    ensures ReadExact(c, n).zero && ReadExact(c, n).bytes == [] && Quiet(ReadExact(c, n).c)
    decreases |c.schedule|
  {
    hide Read, Quiet;
    DrainedReadQuiet(c, n);
    if Read(c, n).1.Retry? {
      QuietExact(Read(c, n).0, n);
    }
  }

  lemma DrainedReadQuiet(c: Conn, n: nat)
    requires Quiet(c) && n > 0
    ensures Quiet(Read(c, n).0) && (Read(c, n).1.Retry? || Read(c, n).1.Zero?)
  {
    DrainedRead(c, n);
  }

  // ---------- the same outcome, as far as it can be seen ----------

  /** The run ends as `o` says, but for the reads it has made on a transport without bytes. */
  ghost predicate EndsAs(bufferSize: nat, junk: seq<Byte>, m: Machine, o: Outcome)
    requires |junk| == 8
  {
    exists c: Conn :: c.incoming == o.c.incoming && Stops(bufferSize, junk, m, o.(c := c))
  }

  lemma EndsAfter(bufferSize: nat, junk: seq<Byte>, a: Machine, b: Machine, o: Outcome)
    requires |junk| == 8 && Reaches(bufferSize, junk, a, b) && EndsAs(bufferSize, junk, b, o)
    ensures EndsAs(bufferSize, junk, a, o)
  {
    hide Reaches, Stops;
    var c: Conn :| c.incoming == o.c.incoming && Stops(bufferSize, junk, b, o.(c := c));
    StopsAfter(bufferSize, junk, a, b, o.(c := c));
  }

  lemma StopsEnds(bufferSize: nat, junk: seq<Byte>, m: Machine, o: Outcome)
    requires |junk| == 8 && Stops(bufferSize, junk, m, o)
    ensures EndsAs(bufferSize, junk, m, o)
  {
    hide Stops;
    assert o.(c := o.c) == o;
  }

  /** The machine fails in its next step. */
  lemma FailsHere(bufferSize: nat, junk: seq<Byte>, m: Machine, o: Outcome)
    requires |junk| == 8 && !o.finished
    requires var next := Step(bufferSize, junk, m);
             && next.action == Failed && next.lastOpcode == o.lastOpcode
             && next.events == o.events && next.c.incoming == o.c.incoming
    ensures EndsAs(bufferSize, junk, m, o)
  {
    hide Stops, Step;
    var c := Step(bufferSize, junk, m).c;
    StopsHere(bufferSize, junk, m, o.(c := c));
  }

  // ---------- inline reads ----------

  /** The machine after an inline read that ended with a zero. */
  function AfterZero(m: Machine, c: Conn): Machine
    requires ReadsInline(m)
  {
    if m.action == ReadMask then AtFrame(HandleAct, c, m.lastOpcode, m.events, m.h.(mask := m.buffer))
    else m.(c := c, action := if m.action == HeaderAct then OnBbRead else OnLenRead)
  }

  lemma ZeroStep(bufferSize: nat, junk: seq<Byte>, m: Machine)
    requires |junk| == 8 && ReadsInline(m) && m.filled < |m.buffer|
    ensures var r := Read(m.c, |m.buffer| - m.filled);
            && (r.1.Zero? ==> Step(bufferSize, junk, m) == AfterZero(m, r.0))
            && (r.1.Retry? ==> Step(bufferSize, junk, m) == m.(c := r.0))
            && (r.1.BrokenPipe? ==> Step(bufferSize, junk, m) == m.(c := r.0, action := Failed))
  {
    hide Read, Overwrite;
  }

  /** The outcome of a run that fails from where `m` is, with nothing more handed on. */
  function FailedFrom(m: Machine): Outcome {
    Outcome(false, m.c, m.lastOpcode, m.events)
  }

  /** An inline read on a drained transport goes on with its buffer as it is, or finds the pipe broken. */
  lemma {:induction false} InlineDrained(bufferSize: nat, junk: seq<Byte>, m: Machine) returns (c: Conn, failed: bool)
    requires |junk| == 8 && ReadsInline(m) && m.filled < |m.buffer| && Drained(m.c)
    ensures Drained(c) && c.incoming == m.c.incoming && (Quiet(m.c) ==> Quiet(c) && !failed)
    ensures if failed then EndsAs(bufferSize, junk, m, FailedFrom(m)) else Reaches(bufferSize, junk, m, AfterZero(m, c))
    decreases |m.c.schedule|
  {
    hide Read, Step, Reaches, EndsAs, Drained, Quiet, AfterZero;
    var left := |m.buffer| - m.filled;
    var (next, r) := Read(m.c, left);
    DrainedRead(m.c, left);
    ZeroStep(bufferSize, junk, m);
    OneStep(bufferSize, junk, m);
    if r.Retry? {
      var again := m.(c := next);
      c, failed := InlineDrained(bufferSize, junk, again);
      SameAfterZero(m, next, c);
      if failed {
        EndsAfter(bufferSize, junk, m, again, FailedFrom(again));
        SameEnd(bufferSize, junk, m, FailedFrom(again), FailedFrom(m));
      } else {
        ReachesTrans(bufferSize, junk, m, again, AfterZero(m, c));
      }
    } else if r.Zero? {
      c, failed := next, false;
    } else {
      c, failed := next, true;
      FailsHere(bufferSize, junk, m, FailedFrom(m));
    }
  }

  lemma SameAfterZero(m: Machine, next: Conn, c: Conn)
    requires ReadsInline(m)
    ensures AfterZero(m.(c := next), c) == AfterZero(m, c)
  {
  }

  lemma SameEnd(bufferSize: nat, junk: seq<Byte>, m: Machine, o: Outcome, p: Outcome)
    requires |junk| == 8 && EndsAs(bufferSize, junk, m, o)
    requires p == o.(c := p.c) && p.c.incoming == o.c.incoming
    ensures EndsAs(bufferSize, junk, m, p)
  {
    hide Stops;
    var c: Conn :| c.incoming == o.c.incoming && Stops(bufferSize, junk, m, o.(c := c));
    assert o.(c := c) == p.(c := c);
  }

  /** An inline read that gets some bytes and then a zero. */
  lemma {:induction false} InlineCut(bufferSize: nat, junk: seq<Byte>, m: Machine)
    requires |junk| == 8 && ReadsInline(m) && ReadExact(m.c, |m.buffer| - m.filled).zero
    ensures var e := ReadExact(m.c, |m.buffer| - m.filled);
            && m.filled + |e.bytes| < |m.buffer|
            && Reaches(bufferSize, junk, m, AfterZero(Partly(m, e.bytes), e.c))
    decreases |m.c.schedule|
  {
    hide Read, Step, Reaches, Overwrite, AfterZero, Partly;
    var left := |m.buffer| - m.filled;
    ZeroDrains(m.c, left);
    var e := ReadExact(m.c, left);
    var (c, r) := Read(m.c, left);
    var next := Step(bufferSize, junk, m);
    OneStep(bufferSize, junk, m);
    if r.Got? {
      InlineStep(bufferSize, junk, m);
      InlineCut(bufferSize, junk, next);
      PartlyMore(m, r.bytes, ReadExact(c, left - |r.bytes|).bytes, c, e.c);
      ReachesTrans(bufferSize, junk, m, next, AfterZero(Partly(m, e.bytes), e.c));
    } else if r.Retry? {
      InlineStep(bufferSize, junk, m);
      InlineCut(bufferSize, junk, next);
      PartlySame(m, c, e.bytes, e.c);
      ReachesTrans(bufferSize, junk, m, next, AfterZero(Partly(m, e.bytes), e.c));
    } else {
      ZeroStep(bufferSize, junk, m);
      PartlyNothing(m);
    }
  }

  /** The machine with some more bytes in its inline buffer. */
  function Partly(m: Machine, b: seq<Byte>): (r: Machine)
    requires m.filled + |b| <= |m.buffer|
    ensures r.action == m.action && |r.buffer| == |m.buffer| && r.filled == m.filled + |b|
  {
    m.(buffer := Overwrite(m.buffer, m.filled, b), filled := m.filled + |b|)
  }

  lemma PartlyMore(m: Machine, a: seq<Byte>, b: seq<Byte>, c: Conn, last: Conn)
    requires ReadsInline(m) && m.filled + |a| + |b| <= |m.buffer|
    ensures AfterZero(Partly(m.(c := c, buffer := Overwrite(m.buffer, m.filled, a), filled := m.filled + |a|), b), last)
            == AfterZero(Partly(m, a + b), last)
  {
    var x := Overwrite(m.buffer, m.filled, a);
    assert x[..m.filled + |a|] == m.buffer[..m.filled] + a;
    assert x[m.filled + |a| + |b|..] == m.buffer[m.filled + |a| + |b|..];
    assert Overwrite(x, m.filled + |a|, b) == Overwrite(m.buffer, m.filled, a + b);
  }

  lemma PartlySame(m: Machine, c: Conn, b: seq<Byte>, last: Conn)
    requires ReadsInline(m) && m.filled + |b| <= |m.buffer|
    ensures AfterZero(Partly(m.(c := c), b), last) == AfterZero(Partly(m, b), last)
  {
  }

  lemma PartlyNothing(m: Machine)
    requires ReadsInline(m)
    ensures Partly(m, []) == m
  {
    assert Overwrite(m.buffer, m.filled, []) == m.buffer;
  }

  // ---------- from a cut header to the frame ----------

  /**
   * From `m` the header coroutine comes to the frame with the header `found`, which has the flags, the opcode
   * and the length of `first`; or a read finds the pipe broken, which cannot be if `quiet`.
   */
  ghost predicate HeaderEnds(
    bufferSize: nat, junk: seq<Byte>, m: Machine, first: Header, quiet: bool, incoming: seq<Byte>,
    c: Conn, found: Header, failed: bool)
    requires |junk| == 8
  {
    && Drained(c) && c.incoming == incoming && (quiet ==> Quiet(c) && !failed)
    && HeaderOk(found) && found.fin == first.fin && found.opcode == first.opcode
    && found.payloadLength == first.payloadLength
    && if failed then EndsAs(bufferSize, junk, m, Outcome(false, c, m.lastOpcode, m.events))
       else Reaches(bufferSize, junk, m, AtFrame(HandleAct, c, m.lastOpcode, m.events, found))
  }

  lemma HeaderEndsAfter(
    bufferSize: nat, junk: seq<Byte>, a: Machine, b: Machine, first: Header, quiet: bool, incoming: seq<Byte>,
    c: Conn, found: Header, failed: bool)
    requires |junk| == 8 && Reaches(bufferSize, junk, a, b) && a.lastOpcode == b.lastOpcode && a.events == b.events
    requires HeaderEnds(bufferSize, junk, b, first, quiet, incoming, c, found, failed)
    ensures HeaderEnds(bufferSize, junk, a, first, quiet, incoming, c, found, failed)
  {
    hide Reaches, EndsAs, Drained, Quiet;
    if failed {
      EndsAfter(bufferSize, junk, a, b, Outcome(false, c, b.lastOpcode, b.events));
    } else {
      ReachesTrans(bufferSize, junk, a, b, AtFrame(HandleAct, c, b.lastOpcode, b.events, found));
    }
  }

  lemma FromMask(bufferSize: nat, junk: seq<Byte>, m: Machine) returns (c: Conn, found: Header, failed: bool)
    requires |junk| == 8 && m.action == ReadMask && m.filled < |m.buffer| && |m.buffer| == 4 && Drained(m.c)
    ensures HeaderEnds(bufferSize, junk, m, m.h, Quiet(m.c), m.c.incoming, c, found, failed)
  {
    hide Reaches, EndsAs, Drained, Quiet;
    c, failed := InlineDrained(bufferSize, junk, m);
    found := m.h.(mask := m.buffer);
    if failed {
      SameEnd(bufferSize, junk, m, FailedFrom(m), Outcome(false, c, m.lastOpcode, m.events));
    }
  }

  lemma FromLenRead(bufferSize: nat, junk: seq<Byte>, m: Machine) returns (c: Conn, found: Header, failed: bool)
    requires |junk| == 8 && m.action == OnLenRead && (m.lenType == 1 || |m.buffer| == 2 || |m.buffer| == 8)
    requires HeaderOk(ResolvedHeader(m)) && Drained(m.c)
    ensures HeaderEnds(bufferSize, junk, m, ResolvedHeader(m), Quiet(m.c), m.c.incoming, c, found, failed)
  {
    hide Step, Reaches, EndsAs, Drained, Quiet, ResolvedHeader;
    OnLenReadStep(bufferSize, junk, m);
    OneStep(bufferSize, junk, m);
    var next := Step(bufferSize, junk, m);
    if ResolvedHeader(m).hasMask {
      c, found, failed := FromMask(bufferSize, junk, next);
      HeaderEndsAfter(bufferSize, junk, m, next, ResolvedHeader(m), Quiet(m.c), m.c.incoming, c, found, failed);
    } else {
      c, found, failed := m.c, ResolvedHeader(m), false;
    }
  }

  lemma FromLength(bufferSize: nat, junk: seq<Byte>, m: Machine) returns (c: Conn, found: Header, failed: bool)
    requires |junk| == 8 && m.action == ReadLen && m.lenType != 1 && (|m.buffer| == 2 || |m.buffer| == 8)
    requires m.filled < |m.buffer| && HeaderOk(m.h) && Drained(m.c)
    ensures HeaderEnds(bufferSize, junk, m, ResolvedHeader(m), Quiet(m.c), m.c.incoming, c, found, failed)
  {
    hide Reaches, EndsAs, Drained, Quiet, Number, Signed;
    var last, broken := InlineDrained(bufferSize, junk, m);
    if broken {
      c, found, failed := last, ResolvedHeader(m), true;
      SameEnd(bufferSize, junk, m, FailedFrom(m), Outcome(false, c, m.lastOpcode, m.events));
    } else {
      var on := AfterZero(m, last);
      c, found, failed := FromLenRead(bufferSize, junk, on);
      HeaderEndsAfter(bufferSize, junk, m, on, ResolvedHeader(m), Quiet(on.c), m.c.incoming, c, found, failed);
    }
  }

  /** The header that two bytes begin, with a length that was never written. */
  function FromBytes(b: seq<Byte>, junk: seq<Byte>, h: Header): Header
    requires |b| == 2 && |junk| == 8
  {
    var (first, length1) := UnpackHeaderBits(Word16(b), h);
    var length :=
      if length1 < 126 then length1 as nat
      else if length1 == 126 then (LengthFits(junk[..2]); Signed(Number(junk[..2])))
      else (LengthFits(junk); Signed(Number(junk)));
    first.(payloadLength := length)
  }

  lemma FromBits(bufferSize: nat, junk: seq<Byte>, m: Machine) returns (c: Conn, found: Header, failed: bool)
    requires |junk| == 8 && m.action == OnBbRead && |m.buffer| == 2 && HeaderOk(m.h) && Drained(m.c)
    ensures HeaderEnds(bufferSize, junk, m, FromBytes(m.buffer, junk, m.h), Quiet(m.c), m.c.incoming, c, found, failed)
  {
    hide Step, Reaches, EndsAs, Drained, Quiet, UnpackHeaderBits, Word16, Number, Signed;
    OnBbReadStep(bufferSize, junk, m);
    OneStep(bufferSize, junk, m);
    var next := Step(bufferSize, junk, m);
    if next.action == OnLenRead {
      c, found, failed := FromLenRead(bufferSize, junk, next);
    } else {
      c, found, failed := FromLength(bufferSize, junk, next);
    }
    HeaderEndsAfter(bufferSize, junk, m, next, FromBytes(m.buffer, junk, m.h), Quiet(m.c), m.c.incoming, c, found, failed);
  }

  // ---------- where a header can be cut ----------

  /** What of a header has been read: some of the first two bytes, of the length, or of the mask. */
  datatype Cut =
    | InFirst(got: seq<Byte>)
    | InLength(first: Header, got: seq<Byte>, size: nat)
    | InMask(first: Header)

  function CutOf(c: Conn, h: Header): Cut {
    var bb := ReadExact(c, 2);
    if |bb.bytes| < 2 then InFirst(bb.bytes)
    else
      var (first, length1) := UnpackHeaderBits(Word16(bb.bytes), h);
      if length1 < 126 then InMask(first.(payloadLength := length1 as nat))
      else
        var k := if length1 == 126 then 2 else 8;
        var l := ReadExact(bb.c, k);
        if |l.bytes| < k then InLength(first, l.bytes, k)
        else
          LengthFits(l.bytes);
          InMask(first.(payloadLength := Signed(Number(l.bytes))))
  }

  predicate CutOk(cut: Cut) {
    match cut
    case InFirst(got) => |got| < 2
    case InLength(first, got, size) => (size == 2 || size == 8) && |got| < size
    case InMask(_) => true
  }

  /** The header as the coroutine takes it to be: what has arrived, completed by what the memory holds. */
  function Completed(cut: Cut, junk: seq<Byte>, h: Header): Header
    requires CutOk(cut) && |junk| == 8
  {
    match cut
    case InFirst(got) => FromBytes(got + junk[|got|..2], junk, h)
    case InLength(first, got, size) =>
      LengthFits(got + junk[|got|..size]);
      first.(payloadLength := Signed(Number(got + junk[|got|..size])))
    case InMask(first) => first
  }

  lemma CutIsOk(c: Conn, h: Header)
    ensures CutOk(CutOf(c, h))
  {
    hide ReadExact, UnpackHeaderBits, Word16, Number, Signed;
  }

  /** Before the first two bytes are complete. */
  lemma FirstCut(bufferSize: nat, junk: seq<Byte>, m: Machine) returns (c: Conn, found: Header, failed: bool)
    requires |junk| == 8 && m.action == HeaderAct && m.filled == 0 && m.buffer == junk[..2] && HeaderOk(m.h)
    requires ReadExact(m.c, 2).zero
    ensures var e := ReadExact(m.c, 2);
            && |e.bytes| < 2
            && HeaderEnds(bufferSize, junk, m, FromBytes(e.bytes + junk[|e.bytes|..2], junk, m.h),
                          Quiet(e.c), e.c.incoming, c, found, failed)
  {
    hide Reaches, ReadExact, FromBytes, HeaderEnds, Drained, Quiet;
    var e := ReadExact(m.c, 2);
    ZeroDrains(m.c, 2);
    InlineCut(bufferSize, junk, m);
    var on := AfterZero(Partly(m, e.bytes), e.c);
    assert on.buffer == e.bytes + junk[|e.bytes|..2];
    c, found, failed := FromBits(bufferSize, junk, on);
    HeaderEndsAfter(bufferSize, junk, m, on, FromBytes(on.buffer, junk, m.h), Quiet(e.c), e.c.incoming, c, found, failed);
  }

  /** With a complete length, in the mask. */
  lemma MaskCut(bufferSize: nat, junk: seq<Byte>, m: Machine) returns (c: Conn, found: Header, failed: bool)
    requires |junk| == 8 && m.action == OnLenRead && (m.lenType == 1 || |m.buffer| == 2 || |m.buffer| == 8)
    requires HeaderOk(ResolvedHeader(m)) && WebSocketReader.ReadMask(m.c, ResolvedHeader(m)).zero
    ensures var end := WebSocketReader.ReadMask(m.c, ResolvedHeader(m)).c;
            HeaderEnds(bufferSize, junk, m, ResolvedHeader(m), Quiet(end), end.incoming, c, found, failed)
  {
    hide Step, Reaches, ReadExact, ResolvedHeader, Drained, Quiet;
    var h := ResolvedHeader(m);
    OnLenReadStep(bufferSize, junk, m);
    OneStep(bufferSize, junk, m);
    var next := Step(bufferSize, junk, m);
    var e := ReadExact(m.c, 4);
    ZeroDrains(m.c, 4);
    InlineCut(bufferSize, junk, next);
    c, failed := e.c, false;
    found := h.(mask := Partly(next, e.bytes).buffer);
    ReachesTrans(bufferSize, junk, m, next, AtFrame(HandleAct, c, m.lastOpcode, m.events, found));
  }

  /** In the length. */
  lemma LengthCut(bufferSize: nat, junk: seq<Byte>, m: Machine, size: nat) returns (c: Conn, found: Header, failed: bool)
    requires |junk| == 8 && m.action == ReadLen && m.lenType != 1 && m.filled == 0 && (size == 2 || size == 8)
    requires m.buffer == junk[..size] && HeaderOk(m.h)
    requires ReadExact(m.c, size).zero
    ensures var e := ReadExact(m.c, size);
            && |e.bytes| < size
            && HeaderEnds(bufferSize, junk, m, Completed(InLength(m.h, e.bytes, size), junk, m.h),
                          Quiet(e.c), e.c.incoming, c, found, failed)
  {
    hide Reaches, ReadExact, HeaderEnds, Drained, Quiet, Number, Signed;
    var e := ReadExact(m.c, size);
    ZeroDrains(m.c, size);
    InlineCut(bufferSize, junk, m);
    var on := AfterZero(Partly(m, e.bytes), e.c);
    assert on.buffer == e.bytes + junk[|e.bytes|..size];
    c, found, failed := FromLenRead(bufferSize, junk, on);
    HeaderEndsAfter(bufferSize, junk, m, on, ResolvedHeader(on), Quiet(e.c), e.c.incoming, c, found, failed);
  }

  /** The inline buffer is filled, and the coroutine goes on. */
  lemma FilledReaches(bufferSize: nat, junk: seq<Byte>, m: Machine) returns (on: Machine)
    requires |junk| == 8 && (m.action == ReadLen || m.action == HeaderAct) && m.filled == 0
    requires |ReadExact(m.c, |m.buffer|).bytes| == |m.buffer|
    ensures var e := ReadExact(m.c, |m.buffer|);
            on == m.(c := e.c, buffer := e.bytes, filled := |m.buffer|,
                     action := if m.action == ReadLen then OnLenRead else OnBbRead)
    ensures Reaches(bufferSize, junk, m, on)
  {
    hide Step, Reaches, ReadExact, Stops;
    var e := ReadExact(m.c, |m.buffer|);
    InlineReads(bufferSize, junk, m);
    var full := Filled(m, e);
    assert full.buffer == e.bytes;
    FilledStep(bufferSize, junk, full);
    OneStep(bufferSize, junk, full);
    on := Step(bufferSize, junk, full);
    ReachesTrans(bufferSize, junk, m, full, on);
  }

  /** Behind the first two bytes. */
  lemma LaterCut(bufferSize: nat, junk: seq<Byte>, m: Machine, h: Header, k: nat)
    returns (c: Conn, found: Header, failed: bool)
    requires |junk| == 8 && HeaderOk(m.h) && m.action == ReadLen && m.lenType != 1 && m.filled == 0
    requires (k == 2 || k == 8) && m.buffer == junk[..k]
    requires WebSocketReader.ReadLength(m.c, m.h, if k == 2 then 126 else 127).zero
    ensures var end := WebSocketReader.ReadLength(m.c, m.h, if k == 2 then 126 else 127).c;
            var l := ReadExact(m.c, k);
            && (|l.bytes| == k ==> Number(l.bytes) < TWO_TO_THE_64)
            && HeaderEnds(bufferSize, junk, m,
                          if |l.bytes| < k then Completed(InLength(m.h, l.bytes, k), junk, h)
                          else m.h.(payloadLength := Signed(Number(l.bytes))),
                          Quiet(end), end.incoming, c, found, failed)
  {
    hide Step, Reaches, ReadExact, HeaderEnds, Drained, Quiet, Number, Signed, WebSocketReader.ReadMask;
    var l := ReadExact(m.c, k);
    if |l.bytes| < k {
      c, found, failed := LengthCut(bufferSize, junk, m, k);
    } else {
      LengthFits(l.bytes);
      var on := FilledReaches(bufferSize, junk, m);
      c, found, failed := MaskCut(bufferSize, junk, on);
      var end := WebSocketReader.ReadMask(on.c, ResolvedHeader(on)).c;
      HeaderEndsAfter(bufferSize, junk, m, on, ResolvedHeader(on), Quiet(end), end.incoming, c, found, failed);
    }
  }

  /** Behind the first two bytes, whatever length form they announce. */
  lemma CutBehindBits(bufferSize: nat, junk: seq<Byte>, m: Machine, c0: Conn, h: Header)
    returns (c: Conn, found: Header, failed: bool)
    requires |junk| == 8 && m.action == OnBbRead && |m.buffer| == 2 && m.h == h && HeaderOk(h)
    requires ReadExact(c0, 2).bytes == m.buffer && ReadExact(c0, 2).c == m.c
    requires ReadHeader(c0, h).zero
    ensures CutOk(CutOf(c0, h))
    ensures var end := ReadHeader(c0, h).c;
            HeaderEnds(bufferSize, junk, m, Completed(CutOf(c0, h), junk, h), Quiet(end), end.incoming, c, found, failed)
  {
    hide Step, Reaches, ReadExact, UnpackHeaderBits, Word16, HeaderEnds, Drained, Quiet, Number, Signed;
    hide WebSocketReader.ReadMask;
    CutIsOk(c0, h);
    OnBbReadStep(bufferSize, junk, m);
    OneStep(bufferSize, junk, m);
    var next := Step(bufferSize, junk, m);
    var end := ReadHeader(c0, h).c;
    if next.action == OnLenRead {
      c, found, failed := MaskCut(bufferSize, junk, next);
    } else {
      c, found, failed := LaterCut(bufferSize, junk, next, h, if next.lenType == 2 then 2 else 8);
    }
    HeaderEndsAfter(bufferSize, junk, m, next, Completed(CutOf(c0, h), junk, h), Quiet(end), end.incoming, c, found, failed);
  }

  /** The coroutine comes to the frame whose header is the completed one. */
  lemma CutReaches(bufferSize: nat, junk: seq<Byte>, c: Conn, lastOpcode: int, events: seq<Event>, h: Header)
    returns (last: Conn, found: Header, failed: bool)
    requires |junk| == 8 && HeaderOk(h) && h.opcode != OPCODE_CLOSE && ReadHeader(c, h).zero
    ensures CutOk(CutOf(c, h))
    ensures var end := ReadHeader(c, h).c;
            HeaderEnds(bufferSize, junk, AtFrame(ListenAct, c, lastOpcode, events, h), Completed(CutOf(c, h), junk, h),
                       Quiet(end), end.incoming, last, found, failed)
  {
    hide Reaches, ReadExact, UnpackHeaderBits, Word16, HeaderEnds, Drained, Quiet, Number, Signed, FromBytes, AfterZero;
    CutIsOk(c, h);
    var at := AtFrame(ListenAct, c, lastOpcode, events, h);
    var start := AtFrame(HeaderAct, c, lastOpcode, events, h).(buffer := junk[..2]);
    assert Step(bufferSize, junk, at) == start;
    OneStep(bufferSize, junk, at);
    hide Step;
    var bb := ReadExact(c, 2);
    var end := ReadHeader(c, h).c;
    var whole := Completed(CutOf(c, h), junk, h);
    if |bb.bytes| < 2 {
      last, found, failed := FirstCut(bufferSize, junk, start);
      HeaderEndsAfter(bufferSize, junk, at, start, whole, Quiet(end), end.incoming, last, found, failed);
    } else {
      var on := FilledReaches(bufferSize, junk, start);
      last, found, failed := CutBehindBits(bufferSize, junk, on, c, h);
      HeaderEndsAfter(bufferSize, junk, start, on, whole, Quiet(end), end.incoming, last, found, failed);
      HeaderEndsAfter(bufferSize, junk, at, start, whole, Quiet(end), end.incoming, last, found, failed);
    }
  }

  // ---------- the frame with the completed header ----------

  /** What a frame without a payload gives the listener. */
  function EmptyEvents(h: Header): seq<Event> {
    if IsControl(h.opcode) then [ControlEvent(h.opcode, [])]
    else if h.fin then [OnEnd(h.opcode)] else []
  }

  lemma {:induction false} PayloadDrained(bufferSize: nat, junk: seq<Byte>, m: Machine)
    requires |junk| == 8 && bufferSize > 0 && InPayload(m) && m.progress < m.h.payloadLength && m.action == ReadData
    requires Drained(m.c)
    ensures EndsAs(bufferSize, junk, m, FailedFrom(m))
    decreases |m.c.schedule|
  {
    hide Read, Step, Reaches, EndsAs, Drained;
    var left := m.h.payloadLength - m.progress;
    var n := if bufferSize > left then left else bufferSize;
    var (c, r) := Read(m.c, n);
    DrainedRead(m.c, n);
    DataStep(bufferSize, junk, m);
    OneStep(bufferSize, junk, m);
    var next := Step(bufferSize, junk, m);
    if r.Retry? {
      PayloadDrained(bufferSize, junk, next);
      EndsAfter(bufferSize, junk, m, next, FailedFrom(next));
      SameEnd(bufferSize, junk, m, FailedFrom(next), FailedFrom(m));
    } else if r.Zero? {
      OnDataReadStep(bufferSize, junk, next);
      FailsHere(bufferSize, junk, next, FailedFrom(m));
      EndsAfter(bufferSize, junk, m, next, FailedFrom(m));
    } else {
      FailsHere(bufferSize, junk, m, FailedFrom(m));
    }
  }

  /** A frame that is not admitted, or that waits for a payload, fails without a further call. */
  lemma FrameFails(bufferSize: nat, junk: seq<Byte>, c: Conn, lastOpcode: int, events: seq<Event>, h: Header)
    requires |junk| == 8 && bufferSize > 0 && HeaderOk(h) && Drained(c)
    requires Admits(lastOpcode, h.opcode) ==> h.payloadLength > 0
    ensures var last := if Admits(lastOpcode, h.opcode) then NextOpcode(lastOpcode, h.fin, h.opcode) else lastOpcode;
            EndsAs(bufferSize, junk, AtFrame(HandleAct, c, lastOpcode, events, h), Outcome(false, c, last, events))
  {
    hide Step, Reaches, EndsAs, Drained, Admits, NextOpcode, IsControl;
    var m := AtFrame(HandleAct, c, lastOpcode, events, h);
    HandleActStep(bufferSize, junk, m);
    OneStep(bufferSize, junk, m);
    var next := Step(bufferSize, junk, m);
    var o := Outcome(false, c, next.lastOpcode, events);
    if next.action == Failed {
      FailsHere(bufferSize, junk, m, o);
    } else {
      PayloadActStep(bufferSize, junk, next);
      OneStep(bufferSize, junk, next);
      var data := Step(bufferSize, junk, next);
      PayloadDrained(bufferSize, junk, data);
      EndsAfter(bufferSize, junk, next, data, o);
      EndsAfter(bufferSize, junk, m, next, o);
    }
  }

  /** A frame that is admitted and has no payload is handled, and the coroutines listen on. */
  lemma FrameEmpty(bufferSize: nat, junk: seq<Byte>, c: Conn, lastOpcode: int, events: seq<Event>, h: Header)
    requires |junk| == 8 && Admits(lastOpcode, h.opcode) && h.payloadLength <= 0
    ensures Reaches(bufferSize, junk, AtFrame(HandleAct, c, lastOpcode, events, h),
                    AtFrame(ListenAct, c, NextOpcode(lastOpcode, h.fin, h.opcode), events + EmptyEvents(h), h))
  {
    hide Step, Reaches, Admits, NextOpcode, IsControl, ControlEvent;
    var m := AtFrame(HandleAct, c, lastOpcode, events, h);
    HandleActStep(bufferSize, junk, m);
    OneStep(bufferSize, junk, m);
    var next := Step(bufferSize, junk, m);
    PayloadActStep(bufferSize, junk, next);
    OneStep(bufferSize, junk, next);
    ReachesTrans(bufferSize, junk, m, next, Step(bufferSize, junk, next));
  }

  // ---------- whether unwritten memory can make the frame empty ----------

  predicate AllZero(b: seq<Byte>) {
    forall i | 0 <= i < |b| :: b[i] == 0
  }

  /** Whether some memory completes the length to zero or, in eight bytes, to a negative number. */
  predicate MayBeEmpty(cut: Cut) {
    match cut
    case InFirst(_) => true
    case InLength(_, got, size) => AllZero(got) || (size == 8 && got != [] && got[0] >= 128)
    case InMask(first) => first.payloadLength <= 0
  }

  lemma {:induction false} NumberZero(b: seq<Byte>)
    ensures Number(b) == 0 <==> AllZero(b)
  {
    if b != [] {
      NumberZero(b[..|b| - 1]);
      ZeroByte(b[|b| - 1]);
      assert AllZero(b) <==> AllZero(b[..|b| - 1]) && b[|b| - 1] == 0 by {
        assert forall i :: 0 <= i < |b| - 1 ==> b[..|b| - 1][i] == b[i];
      }
    }
  }

  lemma {:induction false} NumberFront(b: seq<Byte>)
    requires b != []
    ensures b[0] as nat * Power256(|b| - 1) <= Number(b) < (b[0] as nat + 1) * Power256(|b| - 1)
  {
    var init := b[..|b| - 1];
    if init == [] {
      assert Number(b) == b[0] as nat;
      assert Power256(0) == 1;
    } else {
      NumberFront(init);
      var p := Power256(|init| - 1);
      assert Power256(|b| - 1) == 256 * p;
      FrontStep(b[0] as nat, p, Number(init), b[|b| - 1] as nat);
    }
  }

  lemma FrontStep(a: nat, p: nat, n: nat, last: nat)
    requires a * p <= n < (a + 1) * p && last < 256
    ensures a * (256 * p) <= 256 * n + last < (a + 1) * (256 * p)
  {
    assert a * (256 * p) == 256 * (a * p);
    assert (a + 1) * (256 * p) == 256 * ((a + 1) * p);
  }

  /** The first of eight bytes decides the sign. */
  lemma SignByte(b: seq<Byte>)
    requires |b| == 8
    ensures Number(b) >= TWO_TO_THE_63 <==> b[0] >= 128
  {
    hide Number, Power256;
    NumberFront(b);
    HighByte(b[0]);
    Seventh();
  }

  lemma Seventh()
    ensures Power256(7) == 0x100_0000_0000_0000
  {
    assert Power256(3) == 0x100_0000 && Power256(5) == 0x100_0000_0000;
  }

  /** Unless the length may be empty, it is positive whatever the memory holds. */
  lemma LengthCompleted(got: seq<Byte>, size: nat, rest: seq<Byte>)
    requires (size == 2 || size == 8) && |got| + |rest| == size
    ensures Number(got + rest) < TWO_TO_THE_64
    ensures !AllZero(got) && !(size == 8 && got != [] && got[0] >= 128) ==> Signed(Number(got + rest)) > 0
    ensures AllZero(rest) && (AllZero(got) || (size == 8 && got != [] && got[0] >= 128)) ==> Signed(Number(got + rest)) <= 0
  {
    hide Number;
    var b := got + rest;
    LengthFits(b);
    NumberZero(b);
    assert !AllZero(got) ==> !AllZero(b) by {
      assert forall i :: 0 <= i < |got| ==> b[i] == got[i];
    }
    if size == 8 {
      SignByte(b);
    } else {
      NumberBound(b);
      Powers();
    }
  }

  // ---------- exactly when a cut header does no harm ----------

  /** The flags and the opcode, once the first byte has arrived. */
  function Flags(cut: Cut, h: Header): Header {
    match cut
    case InFirst(got) => if |got| == 1 then UnpackHeaderBits(Word16([got[0], 0]), h).0 else h
    case InLength(first, _, _) => first
    case InMask(first) => first
  }

  /**
   * The coroutines are certain to fail as the blocking socket does: the opcode has arrived, and it is not
   * admitted, or it leaves `m_lastOpcode` alone and the frame is certain to wait for a payload.
   */
  predicate Certain(lastOpcode: int, cut: Cut, h: Header) {
    var f := Flags(cut, h);
    cut != InFirst([]) &&
    (!Admits(lastOpcode, f.opcode) || (NextOpcode(lastOpcode, f.fin, f.opcode) == lastOpcode && !MayBeEmpty(cut)))
  }

  lemma FirstByte(a: Byte, b: Byte, h: Header)
    ensures var f, g := UnpackHeaderBits(Word16([a, b]), h).0, UnpackHeaderBits(Word16([a, 0]), h).0;
            f.fin == g.fin && f.opcode == g.opcode
    ensures UnpackHeaderBits(Word16([a, 0]), h).1 == 0
  {
  }

  /** What has arrived of the flags and the opcode stays. */
  lemma CompletedFlags(cut: Cut, junk: seq<Byte>, h: Header)
    requires CutOk(cut) && cut != InFirst([]) && |junk| == 8
    ensures Completed(cut, junk, h).fin == Flags(cut, h).fin && Completed(cut, junk, h).opcode == Flags(cut, h).opcode
  {
    hide UnpackHeaderBits, Word16, Number, Signed;
    if cut.InFirst? {
      assert cut.got + junk[|cut.got|..2] == [cut.got[0], junk[1]];
      FirstByte(cut.got[0], junk[1], h);
    }
  }

  lemma CompletedLength(cut: Cut, junk: seq<Byte>, h: Header)
    requires CutOk(cut) && cut != InFirst([]) && |junk| == 8
    ensures !MayBeEmpty(cut) ==> Completed(cut, junk, h).payloadLength > 0
    ensures MayBeEmpty(cut) && AllZero(junk) ==> Completed(cut, junk, h).payloadLength <= 0
  {
    hide UnpackHeaderBits, Word16, Number, Signed;
    if cut.InFirst? {
      assert cut.got + junk[|cut.got|..2] == [cut.got[0], junk[1]];
      FirstByte(cut.got[0], 0, h);
      ByteZero();
    } else if cut.InLength? {
      LengthCompleted(cut.got, cut.size, junk[|cut.got|..cut.size]);
    }
  }

  lemma ByteZero()
    ensures (0 as Byte) as nat == 0
  {
    ZeroByte(0);
  }

  /** Whatever unwritten memory holds, the run ends as the blocking one. */
  lemma CertainAgrees(bufferSize: nat, junk: seq<Byte>, c: Conn, lastOpcode: int, events: seq<Event>, h: Header)
    requires |junk| == 8 && bufferSize > 0 && HeaderOk(h) && h.opcode != OPCODE_CLOSE && ReadHeader(c, h).zero
    requires Certain(lastOpcode, CutOf(c, h), h)
    ensures EndsAs(bufferSize, junk, AtFrame(ListenAct, c, lastOpcode, events, h),
                   Outcome(false, ReadHeader(c, h).c, lastOpcode, events))
  {
    hide Reaches, EndsAs, ReadHeader, CutOf, Completed, Admits, NextOpcode, MayBeEmpty, Drained, Quiet, Flags;
    var m := AtFrame(ListenAct, c, lastOpcode, events, h);
    var cut := CutOf(c, h);
    var last, found, failed := CutReaches(bufferSize, junk, c, lastOpcode, events, h);
    var o := Outcome(false, last, lastOpcode, events);
    CompletedFlags(cut, junk, h);
    CompletedLength(cut, junk, h);
    if !failed {
      FrameFails(bufferSize, junk, last, lastOpcode, events, found);
      EndsAfter(bufferSize, junk, m, AtFrame(HandleAct, last, lastOpcode, events, found), o);
    }
    SameEnd(bufferSize, junk, m, o, o.(c := ReadHeader(c, h).c));
  }

  // ---------- outcomes that exclude each other ----------

  /** A machine that has stopped, or one on the way with more calls made, excludes every other outcome. */
  lemma Excludes(bufferSize: nat, junk: seq<Byte>, m: Machine, g: Machine, o: Outcome)
    requires |junk| == 8 && Reaches(bufferSize, junk, m, g)
    requires |o.events| < |g.events|
    ensures !EndsAs(bufferSize, junk, m, o)
  {
    hide Reaches, Stops;
    if EndsAs(bufferSize, junk, m, o) {
      var c: Conn :| c.incoming == o.c.incoming && Stops(bufferSize, junk, m, o.(c := c));
      OneOutcome(bufferSize, junk, m, g, o.(c := c));
      assert false;
    }
  }

  /** Two outcomes of one run are the same. */
  lemma SameOutcome(bufferSize: nat, junk: seq<Byte>, m: Machine, o: Outcome, p: Outcome)
    requires |junk| == 8 && Stops(bufferSize, junk, m, o) && Stops(bufferSize, junk, m, p)
    ensures o.lastOpcode == p.lastOpcode
  {
    hide Step, Steps;
    var a: Machine :| Reaches(bufferSize, junk, m, a) && Shows(a, o);
    var b: Machine :| Reaches(bufferSize, junk, m, b) && Shows(b, p);
    var x: nat :| Steps(bufferSize, junk, m, x) == a;
    var y: nat :| Steps(bufferSize, junk, m, y) == b;
    if x <= y {
      StepsAdd(bufferSize, junk, m, x, y - x);
      StoppedStays(bufferSize, junk, a, y - x);
    } else {
      StepsAdd(bufferSize, junk, m, y, x - y);
      StoppedStays(bufferSize, junk, b, x - y);
    }
  }

  lemma OtherOpcode(bufferSize: nat, junk: seq<Byte>, m: Machine, o: Outcome, p: Outcome)
    requires |junk| == 8 && EndsAs(bufferSize, junk, m, p) && p.lastOpcode != o.lastOpcode
    ensures !EndsAs(bufferSize, junk, m, o)
  {
    hide Reaches, Stops;
    var c: Conn :| c.incoming == p.c.incoming && Stops(bufferSize, junk, m, p.(c := c));
    if EndsAs(bufferSize, junk, m, o) {
      var d: Conn :| d.incoming == o.c.incoming && Stops(bufferSize, junk, m, o.(c := d));
      SameOutcome(bufferSize, junk, m, o.(c := d), p.(c := c));
      assert false;
    }
  }

  // ---------- a run that never ends ----------

  const ZERO_JUNK: seq<Byte> := [0, 0, 0, 0, 0, 0, 0, 0]

  /** The header that is read over and over: a continuation without payload that is not final. */
  predicate EmptyContinuation(h: Header) {
    h.opcode == OPCODE_CONTINUATION && !h.fin && !h.hasMask && h.payloadLength == 0
  }

  /** The places of a run that reads such headers out of memory that holds zeros. */
  predicate Loops(m: Machine) {
    && Quiet(m.c) && m.lastOpcode >= 0 && m.progress == 0 && !m.short && HeaderOk(m.h)
    && match m.action
       case ListenAct => m.h.opcode != OPCODE_CLOSE
       case HeaderAct => m.buffer == [0, 0] && m.filled == 0
       case OnBbRead => m.buffer == [0, 0]
       case OnLenRead => m.lenType == 1 && EmptyContinuation(m.h)
       case HandleAct => EmptyContinuation(m.h)
       case PayloadAct => EmptyContinuation(m.h)
       case _ => false
  }

  lemma ZeroBits(h: Header)
    ensures var r := UnpackHeaderBits(Word16([0, 0]), h);
            r.1 == 0 && EmptyContinuation(r.0.(payloadLength := 0)) && r.0.mask == h.mask
  {
  }

  lemma LoopStep(bufferSize: nat, m: Machine)
    requires Loops(m)
    ensures Loops(Step(bufferSize, ZERO_JUNK, m))
  {
    hide Step, UnpackHeaderBits, Word16, Read, Quiet, Admits, NextOpcode, IsControl;
    match m.action {
      case ListenAct =>
        ListenStep(bufferSize, m);
      case HeaderAct =>
        DrainedReadQuiet(m.c, 2);
        ZeroStep(bufferSize, ZERO_JUNK, m);
      case OnBbRead =>
        ZeroBits(m.h);
        ByteZero();
        OnBbReadStep(bufferSize, ZERO_JUNK, m);
      case OnLenRead =>
        OnLenReadStep(bufferSize, ZERO_JUNK, m);
      case HandleAct =>
        HandleActStep(bufferSize, ZERO_JUNK, m);
        ContinuationAdmitted(m.lastOpcode);
      case PayloadAct =>
        PayloadActStep(bufferSize, ZERO_JUNK, m);
    }
  }

  lemma ListenStep(bufferSize: nat, m: Machine)
    requires m.action == ListenAct && m.h.opcode != OPCODE_CLOSE
    ensures Step(bufferSize, ZERO_JUNK, m) == AtFrame(HeaderAct, m.c, m.lastOpcode, m.events, m.h).(buffer := [0, 0])
  {
    assert ZERO_JUNK[..2] == [0, 0];
  }

  lemma ContinuationAdmitted(lastOpcode: int)
    ensures Admits(lastOpcode, OPCODE_CONTINUATION) <==> lastOpcode >= 0
    ensures NextOpcode(lastOpcode, false, OPCODE_CONTINUATION) == lastOpcode
    ensures !IsControl(OPCODE_CONTINUATION)
  {
  }

  lemma {:induction false} LoopsForEver(bufferSize: nat, m: Machine, n: nat)
    requires Loops(m)
    ensures Loops(Steps(bufferSize, ZERO_JUNK, m, n))
    decreases n
  {
    hide Step, Loops;
    if n > 0 {
      LoopStep(bufferSize, m);
      LoopsForEver(bufferSize, Step(bufferSize, ZERO_JUNK, m), n - 1);
    }
  }

  /** A run that comes to such a place has no outcome. */
  lemma NoOutcome(bufferSize: nat, m: Machine, g: Machine, o: Outcome)
    requires Reaches(bufferSize, ZERO_JUNK, m, g) && Loops(g)
    ensures !EndsAs(bufferSize, ZERO_JUNK, m, o)
  {
    hide Step, Steps;
    if EndsAs(bufferSize, ZERO_JUNK, m, o) {
      var c: Conn :| c.incoming == o.c.incoming && Stops(bufferSize, ZERO_JUNK, m, o.(c := c));
      var s: Machine :| Reaches(bufferSize, ZERO_JUNK, m, s) && Shows(s, o.(c := c));
      var x: nat :| Steps(bufferSize, ZERO_JUNK, m, x) == s;
      var y: nat :| Steps(bufferSize, ZERO_JUNK, m, y) == g;
      if x <= y {
        StepsAdd(bufferSize, ZERO_JUNK, m, x, y - x);
        StoppedStays(bufferSize, ZERO_JUNK, s, y - x);
      } else {
        StepsAdd(bufferSize, ZERO_JUNK, m, y, x - y);
        LoopsForEver(bufferSize, g, x - y);
      }
      assert false;
    }
  }

  // ---------- a memory that makes the difference ----------

  /** A frame without payload that gives the listener nothing and leaves `m_lastOpcode` alone is a continuation. */
  lemma OnlyContinuation(lastOpcode: int, h: Header)
    requires Admits(lastOpcode, h.opcode) && EmptyEvents(h) == [] && NextOpcode(lastOpcode, h.fin, h.opcode) == lastOpcode
    ensures h.opcode == OPCODE_CONTINUATION && !h.fin && lastOpcode >= 0
  {
  }

  lemma NoEventNoClose(h: Header)
    requires EmptyEvents(h) == []
    ensures h.opcode != OPCODE_CLOSE
  {
  }

  /** Nothing of the header has arrived. */
  lemma NothingDisagrees(bufferSize: nat, c: Conn, lastOpcode: int, events: seq<Event>, h: Header, o: Outcome)
    requires HeaderOk(h) && h.opcode != OPCODE_CLOSE && ReadExact(c, 2).zero && ReadExact(c, 2).bytes == []
    requires |o.events| <= |events|
    ensures !EndsAs(bufferSize, PONG_JUNK, AtFrame(ListenAct, c, lastOpcode, events, h), o)
  {
    hide Reaches, EndsAs, ReadExact;
    var m := AtFrame(ListenAct, c, lastOpcode, events, h);
    CloseDiverges(bufferSize, c, lastOpcode, events, h);
    var g :| Reaches(bufferSize, PONG_JUNK, m, g) && g.events == events + [OnPong([])];
    Excludes(bufferSize, PONG_JUNK, m, g, o);
  }

  /** The frame changes `m_lastOpcode`. */
  lemma OpcodeDisagrees(bufferSize: nat, m: Machine, c: Conn, h: Header, o: Outcome)
    requires bufferSize > 0 && HeaderOk(h) && Quiet(c)
    requires Reaches(bufferSize, PONG_JUNK, m, AtFrame(HandleAct, c, m.lastOpcode, m.events, h))
    requires Admits(m.lastOpcode, h.opcode) && NextOpcode(m.lastOpcode, h.fin, h.opcode) != m.lastOpcode
    requires o.lastOpcode == m.lastOpcode && o.events == m.events
    ensures !EndsAs(bufferSize, PONG_JUNK, m, o)
  {
    hide Reaches, EndsAs, Admits, NextOpcode, EmptyEvents, ReadExact;
    var handle := AtFrame(HandleAct, c, m.lastOpcode, m.events, h);
    var next := NextOpcode(m.lastOpcode, h.fin, h.opcode);
    if h.payloadLength > 0 {
      FrameFails(bufferSize, PONG_JUNK, c, m.lastOpcode, m.events, h);
      EndsAfter(bufferSize, PONG_JUNK, m, handle, Outcome(false, c, next, m.events));
      OtherOpcode(bufferSize, PONG_JUNK, m, o, Outcome(false, c, next, m.events));
    } else {
      var again := AtFrame(ListenAct, c, next, m.events + EmptyEvents(h), h);
      FrameEmpty(bufferSize, PONG_JUNK, c, m.lastOpcode, m.events, h);
      ReachesTrans(bufferSize, PONG_JUNK, m, handle, again);
      if EmptyEvents(h) != [] {
        Excludes(bufferSize, PONG_JUNK, m, again, o);
      } else {
        NoEventNoClose(h);
        QuietExact(c, 2);
        NothingDisagrees(bufferSize, c, next, again.events, h, o);
        NotBefore(bufferSize, PONG_JUNK, m, again, o);
      }
    }
  }

  /** What a later machine of the run does not end as, an earlier one does not. */
  lemma NotBefore(bufferSize: nat, junk: seq<Byte>, a: Machine, b: Machine, o: Outcome)
    requires |junk| == 8 && Reaches(bufferSize, junk, a, b) && !EndsAs(bufferSize, junk, b, o)
    ensures !EndsAs(bufferSize, junk, a, o)
  {
    hide Reaches, Stops;
    if EndsAs(bufferSize, junk, a, o) {
      var c: Conn :| c.incoming == o.c.incoming && Stops(bufferSize, junk, a, o.(c := c));
      StopsLater(bufferSize, junk, a, b, o.(c := c));
      assert false;
    }
  }

  lemma StopsLater(bufferSize: nat, junk: seq<Byte>, a: Machine, b: Machine, o: Outcome)
    requires |junk| == 8 && Reaches(bufferSize, junk, a, b) && Stops(bufferSize, junk, a, o)
    ensures Stops(bufferSize, junk, b, o)
  {
    hide Step, Steps;
    var s: Machine :| Reaches(bufferSize, junk, a, s) && Shows(s, o);
    var x: nat :| Steps(bufferSize, junk, a, x) == b;
    var y: nat :| Steps(bufferSize, junk, a, y) == s;
    if x <= y {
      StepsAdd(bufferSize, junk, a, x, y - x);
      assert Reaches(bufferSize, junk, b, s);
    } else {
      StepsAdd(bufferSize, junk, a, y, x - y);
      StoppedStays(bufferSize, junk, s, x - y);
      ReachesItself(bufferSize, junk, b);
    }
  }

  /** The frame is without payload and leaves `m_lastOpcode` alone. */
  lemma EmptyDisagrees(bufferSize: nat, m: Machine, c: Conn, h: Header, o: Outcome)
    requires HeaderOk(h) && Quiet(c)
    requires Reaches(bufferSize, ZERO_JUNK, m, AtFrame(HandleAct, c, m.lastOpcode, m.events, h))
    requires Admits(m.lastOpcode, h.opcode) && NextOpcode(m.lastOpcode, h.fin, h.opcode) == m.lastOpcode
    requires h.payloadLength <= 0 && o.events == m.events
    ensures !EndsAs(bufferSize, ZERO_JUNK, m, o)
  {
    hide Reaches, EndsAs, Admits, NextOpcode, EmptyEvents, Quiet;
    var handle := AtFrame(HandleAct, c, m.lastOpcode, m.events, h);
    var again := AtFrame(ListenAct, c, m.lastOpcode, m.events + EmptyEvents(h), h);
    FrameEmpty(bufferSize, ZERO_JUNK, c, m.lastOpcode, m.events, h);
    ReachesTrans(bufferSize, ZERO_JUNK, m, handle, again);
    if EmptyEvents(h) != [] {
      Excludes(bufferSize, ZERO_JUNK, m, again, o);
    } else {
      OnlyContinuation(m.lastOpcode, h);
      NoOutcome(bufferSize, m, again, o);
    }
  }

  /** Otherwise, if the closed peer stays closed, some memory makes the run end differently or not at all. */
  lemma UncertainDisagrees(bufferSize: nat, c: Conn, lastOpcode: int, events: seq<Event>, h: Header)
    returns (junk: seq<Byte>)
    requires bufferSize > 0 && HeaderOk(h) && h.opcode != OPCODE_CLOSE && ReadHeader(c, h).zero
    requires !Certain(lastOpcode, CutOf(c, h), h) && Quiet(ReadHeader(c, h).c)
    ensures |junk| == 8
    ensures !EndsAs(bufferSize, junk, AtFrame(ListenAct, c, lastOpcode, events, h),
                    Outcome(false, ReadHeader(c, h).c, lastOpcode, events))
  {
    hide Reaches, EndsAs, ReadHeader, CutOf, Completed, Admits, NextOpcode, MayBeEmpty, Drained, Quiet, Flags, EmptyEvents;
    var m := AtFrame(ListenAct, c, lastOpcode, events, h);
    var cut := CutOf(c, h);
    var o := Outcome(false, ReadHeader(c, h).c, lastOpcode, events);
    if cut == InFirst([]) {
      junk := PONG_JUNK;
      NothingRead(c, h);
      NothingDisagrees(bufferSize, c, lastOpcode, events, h, o);
    } else {
      var f := Flags(cut, h);
      junk := if NextOpcode(lastOpcode, f.fin, f.opcode) != lastOpcode then PONG_JUNK else ZERO_JUNK;
      var last, found, failed := CutReaches(bufferSize, junk, c, lastOpcode, events, h);
      CompletedFlags(cut, junk, h);
      CompletedLength(cut, junk, h);
      if NextOpcode(lastOpcode, f.fin, f.opcode) != lastOpcode {
        OpcodeDisagrees(bufferSize, m, last, found, o);
      } else {
        EmptyDisagrees(bufferSize, m, last, found, o);
      }
    }
  }

  lemma NothingRead(c: Conn, h: Header)
    requires CutOf(c, h) == InFirst([]) && ReadHeader(c, h).zero
    ensures ReadExact(c, 2).zero && ReadExact(c, 2).bytes == []
  {
    hide ReadExact, UnpackHeaderBits, Word16, Number, Signed;
  }

  // ---------- over whole runs ----------

  /** Where `listen` reads its last header, and what it has handed on before. */
  datatype Place = Place(c: Conn, h: Header, lastOpcode: int, events: seq<Event>)

  function LastHeader(c: Conn, h: Header, lastOpcode: int, bufferSize: nat): Place
    requires HeaderOk(h)
    decreases |c.schedule|
  {
    HeaderShrinks(c, h);
    var head := ReadHeader(c, h);
    if !head.ok then Place(c, h, lastOpcode, [])
    else
      var f := HandleFrame(head.c, head.h, lastOpcode, bufferSize);
      if !f.ok || head.h.opcode == OPCODE_CLOSE then Place(c, h, lastOpcode, [])
      else
        var p := LastHeader(f.c, head.h, f.lastOpcode, bufferSize);
        p.(events := f.events + p.events)
  }

  /** Both sockets come to the header at which the peer goes away. */
  lemma {:induction false} ReachesLastHeader(
    bufferSize: nat, junk: seq<Byte>, c: Conn, lastOpcode: int, events: seq<Event>, h: Header)
    requires |junk| == 8 && bufferSize > 0 && HeaderOk(h) && h.opcode != OPCODE_CLOSE
    requires Listen(c, h, lastOpcode, bufferSize).headerZero
    ensures var p := LastHeader(c, h, lastOpcode, bufferSize);
            && HeaderOk(p.h) && p.h.opcode != OPCODE_CLOSE && ReadHeader(p.c, p.h).zero
            && Listen(c, h, lastOpcode, bufferSize) == Listened(ReadHeader(p.c, p.h).c, false, true, p.lastOpcode, p.events)
            && Reaches(bufferSize, junk, AtFrame(ListenAct, c, lastOpcode, events, h),
                       AtFrame(ListenAct, p.c, p.lastOpcode, events + p.events, p.h))
    decreases |c.schedule|
  {
    hide Reaches, ReadHeader, HandleFrame;
    var m := AtFrame(ListenAct, c, lastOpcode, events, h);
    var head := ReadHeader(c, h);
    HeaderShrinks(c, h);
    if head.ok {
      var f := HandleFrame(head.c, head.h, lastOpcode, bufferSize);
      HeaderRefines(bufferSize, junk, c, lastOpcode, events, h);
      FrameRefines(bufferSize, junk, head.c, lastOpcode, events, head.h);
      ListenGoesOn(bufferSize, junk, c, lastOpcode, events, h);
      ReachesLastHeader(bufferSize, junk, f.c, f.lastOpcode, events + f.events, head.h);
      var p := LastHeader(f.c, head.h, f.lastOpcode, bufferSize);
      assert events + f.events + p.events == events + (f.events + p.events);
      ReachesTrans(bufferSize, junk, m, AtFrame(ListenAct, f.c, f.lastOpcode, events + f.events, head.h),
                   AtFrame(ListenAct, p.c, p.lastOpcode, events + (f.events + p.events), p.h));
    } else {
      assert events + [] == events;
      ReachesItself(bufferSize, junk, m);
    }
  }

  /** Whether the run is safe from unwritten memory. */
  predicate CertainRun(c: Conn, h: Header, lastOpcode: int, bufferSize: nat)
    requires HeaderOk(h)
  {
    var p := LastHeader(c, h, lastOpcode, bufferSize);
    !Listen(c, h, lastOpcode, bufferSize).headerZero || Certain(p.lastOpcode, CutOf(p.c, p.h), p.h)
  }

  /** On a certain run the coroutines end as `listen` does, whatever the transport does after its zero. */
  lemma CertainRunAgrees(bufferSize: nat, junk: seq<Byte>, c: Conn, lastOpcode: int, events: seq<Event>, h: Header)
    requires |junk| == 8 && bufferSize > 0 && HeaderOk(h) && h.opcode != OPCODE_CLOSE
    requires CertainRun(c, h, lastOpcode, bufferSize)
    ensures var r := Listen(c, h, lastOpcode, bufferSize);
            EndsAs(bufferSize, junk, AtFrame(ListenAct, c, lastOpcode, events, h),
                   Outcome(r.closed, r.c, r.lastOpcode, events + r.events))
  {
    hide Reaches, Stops, EndsAs, Listen, LastHeader, Certain, CutOf, ReadHeader;
    var r := Listen(c, h, lastOpcode, bufferSize);
    var m := AtFrame(ListenAct, c, lastOpcode, events, h);
    var o := Outcome(r.closed, r.c, r.lastOpcode, events + r.events);
    if r.headerZero {
      var p := LastHeader(c, h, lastOpcode, bufferSize);
      ReachesLastHeader(bufferSize, junk, c, lastOpcode, events, h);
      CertainAgrees(bufferSize, junk, p.c, p.lastOpcode, events + p.events, p.h);
      EndsAfter(bufferSize, junk, m, AtFrame(ListenAct, p.c, p.lastOpcode, events + p.events, p.h), o);
    } else {
      ListenRefines(bufferSize, junk, c, lastOpcode, events, h);
      StopsEnds(bufferSize, junk, m, o);
    }
  }

  /**
   * Over every transport on which a peer that has gone away stays away: the coroutines end as `listen` does,
   * with the same calls, whatever unwritten memory holds, exactly when no header was cut, or the cut one is
   * certain to fail.
   */
  lemma AgreesExactly(bufferSize: nat, c: Conn, lastOpcode: int, events: seq<Event>, h: Header)
    requires bufferSize > 0 && HeaderOk(h) && h.opcode != OPCODE_CLOSE
    requires Listen(c, h, lastOpcode, bufferSize).headerZero ==> Quiet(Listen(c, h, lastOpcode, bufferSize).c)
    ensures var r := Listen(c, h, lastOpcode, bufferSize);
            CertainRun(c, h, lastOpcode, bufferSize) <==>
              forall junk: seq<Byte> :: |junk| == 8 ==>
                EndsAs(bufferSize, junk, AtFrame(ListenAct, c, lastOpcode, events, h),
                       Outcome(r.closed, r.c, r.lastOpcode, events + r.events))
  {
    hide Reaches, Stops, EndsAs, Listen, LastHeader, Certain, CutOf, ReadHeader, Quiet;
    var r := Listen(c, h, lastOpcode, bufferSize);
    var m := AtFrame(ListenAct, c, lastOpcode, events, h);
    var o := Outcome(r.closed, r.c, r.lastOpcode, events + r.events);
    if CertainRun(c, h, lastOpcode, bufferSize) {
      forall junk: seq<Byte> | |junk| == 8 ensures EndsAs(bufferSize, junk, m, o) {
        CertainRunAgrees(bufferSize, junk, c, lastOpcode, events, h);
      }
    } else {
      var p := LastHeader(c, h, lastOpcode, bufferSize);
      var place := AtFrame(ListenAct, p.c, p.lastOpcode, events + p.events, p.h);
      ReachesLastHeader(bufferSize, PONG_JUNK, c, lastOpcode, events, h);
      var junk := UncertainDisagrees(bufferSize, p.c, p.lastOpcode, events + p.events, p.h);
      ReachesLastHeader(bufferSize, junk, c, lastOpcode, events, h);
      NotBefore(bufferSize, junk, m, place, o);
    }
  }

  // ---------- one byte ----------

  /** After exactly one byte all that counts is whether its opcode is admitted. */
  lemma OneByteExactly(bufferSize: nat, c: Conn, lastOpcode: int, events: seq<Event>, h: Header, b: Byte)
    requires bufferSize > 0 && HeaderOk(h) && h.opcode != OPCODE_CLOSE
    requires ReadExact(c, 2).zero && ReadExact(c, 2).bytes == [b] && Quiet(ReadExact(c, 2).c)
    ensures !Admits(lastOpcode, b & 15) <==>
              forall junk: seq<Byte> :: |junk| == 8 ==>
                EndsAs(bufferSize, junk, AtFrame(ListenAct, c, lastOpcode, events, h),
                       Outcome(false, ReadExact(c, 2).c, lastOpcode, events))
  {
    hide Reaches, Stops, EndsAs, ReadExact, Admits, NextOpcode, Quiet, UnpackHeaderBits, Word16;
    var m := AtFrame(ListenAct, c, lastOpcode, events, h);
    var o := Outcome(false, ReadExact(c, 2).c, lastOpcode, events);
    OneByteOpcode(b, h);
    assert CutOf(c, h) == InFirst([b]) && ReadHeader(c, h) == HeaderRead(ReadExact(c, 2).c, false, true, h);
    assert Certain(lastOpcode, InFirst([b]), h) <==> !Admits(lastOpcode, b & 15);
    hide CutOf, ReadHeader, Certain;
    if Certain(lastOpcode, CutOf(c, h), h) {
      forall junk: seq<Byte> | |junk| == 8 ensures EndsAs(bufferSize, junk, m, o) {
        CertainAgrees(bufferSize, junk, c, lastOpcode, events, h);
      }
    } else {
      var junk := UncertainDisagrees(bufferSize, c, lastOpcode, events, h);
    }
  }

  lemma OneByteOpcode(b: Byte, h: Header)
    ensures UnpackHeaderBits(Word16([b, 0]), h).0.opcode == b & 15
  {
  }

  // ---------- a peer that does not stay away ----------

  predicate Breaks(c: Conn) {
    Drained(c) && c.schedule != [] && c.schedule[0].Broken?
  }

  lemma BrokenInline(bufferSize: nat, junk: seq<Byte>, m: Machine)
    requires |junk| == 8 && ReadsInline(m) && m.filled < |m.buffer| && Breaks(m.c)
    ensures EndsAs(bufferSize, junk, m, FailedFrom(m))
  {
    hide EndsAs, Step;
    ZeroStep(bufferSize, junk, m);
    FailsHere(bufferSize, junk, m, FailedFrom(m));
  }

  /** A continuation that is not final, before a broken pipe: the coroutines fail, whatever the memory holds. */
  lemma BrokenAgrees(bufferSize: nat, junk: seq<Byte>, m: Machine)
    requires |junk| == 8 && bufferSize > 0 && m.action == OnBbRead && |m.buffer| == 2 && HeaderOk(m.h)
    requires m.lastOpcode >= 0 && Breaks(m.c)
    requires var f := UnpackHeaderBits(Word16(m.buffer), m.h).0; f.opcode == OPCODE_CONTINUATION && !f.fin
    ensures EndsAs(bufferSize, junk, m, FailedFrom(m))
  {
    hide Step, Reaches, EndsAs, Breaks, UnpackHeaderBits, Word16, ResolvedHeader, Admits, NextOpcode, IsControl;
    OnBbReadStep(bufferSize, junk, m);
    OneStep(bufferSize, junk, m);
    var next := Step(bufferSize, junk, m);
    if next.action == ReadLen {
      BrokenInline(bufferSize, junk, next);
    } else {
      KnownLength(next);
      OnLenReadStep(bufferSize, junk, next);
      OneStep(bufferSize, junk, next);
      var on := Step(bufferSize, junk, next);
      if next.h.hasMask {
        BrokenInline(bufferSize, junk, on);
      } else {
        BrokenFrame(bufferSize, junk, m.c, m.lastOpcode, m.events, next.h);
      }
      EndsAfter(bufferSize, junk, next, on, FailedFrom(m));
    }
    EndsAfter(bufferSize, junk, m, next, FailedFrom(m));
  }

  lemma KnownLength(m: Machine)
    requires m.lenType == 1
    ensures ResolvedHeader(m) == m.h
  {
  }

  lemma BrokenFrame(bufferSize: nat, junk: seq<Byte>, c: Conn, lastOpcode: int, events: seq<Event>, h: Header)
    requires |junk| == 8 && bufferSize > 0 && HeaderOk(h) && Breaks(c) && lastOpcode >= 0
    requires h.opcode == OPCODE_CONTINUATION && !h.fin
    ensures EndsAs(bufferSize, junk, AtFrame(HandleAct, c, lastOpcode, events, h), Outcome(false, c, lastOpcode, events))
  {
    hide Reaches, EndsAs, Admits, NextOpcode, IsControl, Breaks;
    var m := AtFrame(HandleAct, c, lastOpcode, events, h);
    var o := Outcome(false, c, lastOpcode, events);
    ContinuationAdmitted(lastOpcode);
    if h.payloadLength > 0 {
      BreaksDrained(c);
      FrameFails(bufferSize, junk, c, lastOpcode, events, h);
    } else {
      FrameEmpty(bufferSize, junk, c, lastOpcode, events, h);
      assert events + EmptyEvents(h) == events;
      var again := AtFrame(ListenAct, c, lastOpcode, events, h);
      var start := AtFrame(HeaderAct, c, lastOpcode, events, h).(buffer := junk[..2]);
      assert Step(bufferSize, junk, again) == start;
      hide Step;
      OneStep(bufferSize, junk, again);
      BrokenInline(bufferSize, junk, start);
      EndsAfter(bufferSize, junk, again, start, o);
      EndsAfter(bufferSize, junk, m, again, o);
    }
  }

  lemma BreaksDrained(c: Conn)
    requires Breaks(c)
    ensures Drained(c)
  {
  }

  /**
   * Why the exact statements ask for a peer that stays away: here one byte has arrived, its opcode is
   * admitted, and both sockets fail alike all the same, because a broken pipe follows the zero.
   */
  lemma BrokenPipeAfterZero(junk: seq<Byte>, h: Header)
    requires |junk| == 8 && HeaderOk(h) && h.opcode != OPCODE_CLOSE
    ensures var c := Conn([0], [Take(0), Take(0), Broken]);
            var e := ReadExact(c, 2);
            && e.zero && e.bytes == [0] && Admits(0, OPCODE_CONTINUATION)
            && EndsAs(1, junk, AtFrame(ListenAct, c, 0, [], h), Outcome(false, e.c, 0, []))
  {
    hide EndsAs, Reaches, Stops, UnpackHeaderBits, Word16;
    var c := Conn([0], [Take(0), Take(0), Broken]);
    var c1 := Conn([], [Take(0), Broken]);
    var c2 := Conn([], [Broken]);
    assert c.schedule[1..] == c1.schedule && c1.schedule[1..] == c2.schedule;
    assert c.incoming[..1] == c.incoming && c.incoming[1..] == [];
    assert Read(c, 2) == (c1, Got([0]));
    assert Read(c1, 1) == (c2, Zero);
    assert ReadExact(c1, 1) == Exact(c2, [], true);
    assert ReadExact(c, 2) == Exact(c2, [0], true);
    ContinuationAdmitted(0);
    var m := AtFrame(ListenAct, c, 0, [], h);
    var start := AtFrame(HeaderAct, c, 0, [], h).(buffer := junk[..2]);
    assert Step(1, junk, m) == start;
    hide Step, ReadExact, Read;
    OneStep(1, junk, m);
    InlineCut(1, junk, start);
    var on := AfterZero(Partly(start, [0]), c2);
    assert on.buffer == [0, junk[1]];
    ContinuationByte(junk[1], h);
    BrokenAgrees(1, junk, on);
    EndsAfter(1, junk, start, on, FailedFrom(on));
    EndsAfter(1, junk, m, start, FailedFrom(on));
  }

  lemma ContinuationByte(b: Byte, h: Header)
    ensures var f := UnpackHeaderBits(Word16([0, b]), h).0; f.opcode == OPCODE_CONTINUATION && !f.fin
  {
  }
}
