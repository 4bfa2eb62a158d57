/** The receiving side of the blocking `WebSocket`, as functions of what each read of the transport does. */
module WebSocketReader {
  import opened WebSocketFrame

  // ---------- the transport ----------

  /** What one `read` does: takes at most `extra + 1` bytes, has to be repeated, or reports a broken pipe. */
  datatype Grant = Take(extra: nat) | Again | Broken

  /** The bytes still to come and what the next reads will do; after the last of them the peer has closed. */
  datatype Conn = Conn(incoming: seq<Byte>, schedule: seq<Grant>)

  datatype IoResult = Got(bytes: seq<Byte>) | Retry | Zero | BrokenPipe

  function Min3(a: nat, b: nat, c: nat): nat {
    if a <= b && a <= c then a else if b <= c then b else c
  }

  /** `read`: any positive number of bytes up to `desired`, or no bytes and a reason. */
  function Read(c: Conn, desired: nat): (r: (Conn, IoResult))
    ensures r.1.Got? && desired > 0 ==> 0 < |r.1.bytes| <= desired && c.incoming == r.1.bytes + r.0.incoming
    ensures r.1.Got? || r.1.Retry? ==> |r.0.schedule| < |c.schedule|
    ensures !r.1.Got? ==> r.0.incoming == c.incoming
  {
    if c.schedule == [] then (c, Zero)
    else
      var next := c.(schedule := c.schedule[1..]);
      match c.schedule[0]
      case Again => (next, Retry)
      case Broken => (next, BrokenPipe)
      case Take(extra) =>
        if c.incoming == [] then (next, Zero)
        else
          var k := Min3(extra + 1, desired, |c.incoming|);
          (next.(incoming := c.incoming[k..]), Got(c.incoming[..k]))
  }

  /** What `readExactSizeDataSimple` got: fewer than `n` bytes if the transport failed, `zero` if it returned 0. */
  datatype Exact = Exact(c: Conn, bytes: seq<Byte>, zero: bool)

  function ReadExact(c: Conn, n: nat): (r: Exact)
    ensures |r.bytes| <= n
    ensures |r.c.schedule| <= |c.schedule|
    ensures |r.bytes| == n > 0 ==> |r.c.schedule| < |c.schedule|
    decreases |c.schedule|
  {
    if n == 0 then Exact(c, [], false)
    else
      match Read(c, n)
      case (next, Got(b)) =>
        var rest := ReadExact(next, n - |b|);
        Exact(rest.c, b + rest.bytes, rest.zero)
      case (next, Retry) => ReadExact(next, n)
      case (next, Zero) => Exact(next, [], true)
      case (next, BrokenPipe) => Exact(next, [], false)
  }

  // ---------- a frame ----------

  /** The result of `readFrameHeader`; `zero` says that it failed because the transport returned 0. */
  datatype HeaderRead = HeaderRead(c: Conn, ok: bool, zero: bool, h: Header)

  function ReadMask(c: Conn, h: Header): HeaderRead {
    if !h.hasMask then HeaderRead(c, true, false, h)
    else
      var m := ReadExact(c, 4);
      if |m.bytes| < 4 then HeaderRead(m.c, false, m.zero, h)
      else HeaderRead(m.c, true, false, h.(mask := m.bytes))
  }

  function ReadLength(c: Conn, h: Header, length1: Byte): HeaderRead {
    if length1 < 126 then ReadMask(c, h.(payloadLength := length1 as nat))
    else
      var k := if length1 == 126 then 2 else 8;
      var l := ReadExact(c, k);
      if |l.bytes| < k then HeaderRead(l.c, false, l.zero, h)
      else
        LengthFits(l.bytes);
        ReadMask(l.c, h.(payloadLength := Signed(Number(l.bytes))))
  }

  lemma LengthFits(b: seq<Byte>)
    requires |b| == 2 || |b| == 8
    ensures Number(b) < TWO_TO_THE_64
  {
    NumberBound(b);
    Powers();
  }

  function ReadHeader(c: Conn, h: Header): HeaderRead {
    var bb := ReadExact(c, 2);
    if |bb.bytes| < 2 then HeaderRead(bb.c, false, bb.zero, h)
    else
      var (first, length1) := UnpackHeaderBits(Word16(bb.bytes), h);
      ReadLength(bb.c, first, length1)
  }

  lemma MaskKeeps(c: Conn, h: Header)
    requires HeaderOk(h)
    ensures HeaderOk(ReadMask(c, h).h) && |ReadMask(c, h).c.schedule| <= |c.schedule|
  {
    hide ReadExact;
  }

  lemma HeaderShrinks(c: Conn, h: Header)
    requires HeaderOk(h)
    ensures HeaderOk(ReadHeader(c, h).h)
    ensures ReadHeader(c, h).ok ==> |ReadHeader(c, h).c.schedule| < |c.schedule|
  {
    hide ReadExact, ReadMask, UnpackHeaderBits, Number, Word16;
    var bb := ReadExact(c, 2);
    if |bb.bytes| == 2 {
      var (first, length1) := UnpackHeaderBits(Word16(bb.bytes), h);
      if length1 < 126 {
        MaskKeeps(bb.c, first.(payloadLength := length1 as nat));
      } else {
        var l := ReadExact(bb.c, if length1 == 126 then 2 else 8);
        if |l.bytes| == 2 || |l.bytes| == 8 {
          LengthFits(l.bytes);
          MaskKeeps(l.c, first.(payloadLength := Signed(Number(l.bytes))));
        }
      }
    }
  }

  /** The payload as it is handed on, one part for each successful read. */
  datatype PayloadRead = PayloadRead(c: Conn, ok: bool, parts: seq<seq<Byte>>)

  function ReadPayload(c: Conn, h: Header, progress: nat, bufferSize: nat): (r: PayloadRead)
    requires HeaderOk(h)
    ensures |r.c.schedule| <= |c.schedule|
    decreases |c.schedule|
  {
    if progress >= h.payloadLength then PayloadRead(c, true, [])
    else
      var left := h.payloadLength - progress;
      match Read(c, if bufferSize > left then left else bufferSize)
      case (next, Got(b)) =>
        var rest := ReadPayload(next, h, progress + |b|, bufferSize);
        PayloadRead(rest.c, rest.ok, [Coded(h, b, progress)] + rest.parts)
      case (next, Retry) => ReadPayload(next, h, progress, bufferSize)
      case (next, _) => PayloadRead(next, false, [])
  }

  // ---------- the listener ----------

  datatype Event =
    | OnRead(opcode: Byte, bytes: seq<Byte>)
    | OnEnd(opcode: Byte)
    | OnClose(code: nat, message: seq<Byte>)
    | OnPing(payload: seq<Byte>)
    | OnPong(payload: seq<Byte>)

  function ReadEvents(opcode: Byte, parts: seq<seq<Byte>>): (es: seq<Event>)
    ensures |es| == |parts| && forall i :: 0 <= i < |parts| ==> es[i] == OnRead(opcode, parts[i])
  {
    seq(|parts|, i requires 0 <= i < |parts| => OnRead(opcode, parts[i]))
  }

  function Join(parts: seq<seq<Byte>>): seq<Byte> {
    if parts == [] then [] else parts[0] + Join(parts[1..])
  }

  /** The state of the socket after one frame: `ok` is false when an exception was thrown. */
  datatype Handled = Handled(c: Conn, ok: bool, lastOpcode: int, events: seq<Event>)

  /** A data or continuation frame. */
  function HandleData(c: Conn, h: Header, lastOpcode: int, bufferSize: nat): Handled
    requires HeaderOk(h)
  {
    var p := ReadPayload(c, h, 0, bufferSize);
    Handled(p.c, p.ok, lastOpcode,
            ReadEvents(h.opcode, p.parts) + if p.ok && h.fin then [OnEnd(h.opcode)] else [])
  }

  function ControlEvent(opcode: Byte, payload: seq<Byte>): Event {
    if opcode == OPCODE_PING then OnPing(payload)
    else if opcode == OPCODE_PONG then OnPong(payload)
    else if |payload| >= 2 then OnClose(Number(payload[..2]), payload[2..])
    else OnClose(0, [])
  }

  /** A close, ping or pong frame; its payload is collected first. */
  function HandleControl(c: Conn, h: Header, lastOpcode: int, bufferSize: nat): Handled
    requires HeaderOk(h)
  {
    if h.payloadLength > 125 then Handled(c, false, lastOpcode, [])
    else
      var p := ReadPayload(c, h, 0, bufferSize);
      Handled(p.c, p.ok, lastOpcode, if p.ok then [ControlEvent(h.opcode, Join(p.parts))] else [])
  }

  predicate IsData(opcode: Byte) {
    opcode == OPCODE_TEXT || opcode == OPCODE_BINARY
  }

  predicate IsControl(opcode: Byte) {
    opcode == OPCODE_CLOSE || opcode == OPCODE_PING || opcode == OPCODE_PONG
  }

  /** Whether `handleFrame` goes on to the payload. */
  predicate Admits(lastOpcode: int, opcode: Byte) {
    if opcode == OPCODE_CONTINUATION then lastOpcode >= 0
    else if IsData(opcode) then lastOpcode != OPCODE_TEXT as int && lastOpcode != OPCODE_BINARY as int
    else IsControl(opcode)
  }

  /** `m_lastOpcode` once the frame has been admitted. */
  function NextOpcode(lastOpcode: int, fin: bool, opcode: Byte): int {
    if IsData(opcode) then if fin then -1 else opcode as int else lastOpcode
  }

  function HandleFrame(c: Conn, h: Header, lastOpcode: int, bufferSize: nat): (r: Handled)
    requires HeaderOk(h)
    ensures |r.c.schedule| <= |c.schedule|
  {
    if !Admits(lastOpcode, h.opcode) then Handled(c, false, lastOpcode, [])
    else
      var now := NextOpcode(lastOpcode, h.fin, h.opcode);
      if IsControl(h.opcode) then HandleControl(c, h, now, bufferSize) else HandleData(c, h, now, bufferSize)
  }

  /** What `listen` did; `closed` says it saw a close frame, `headerZero` that the peer left a header unfinished. */
  datatype Listened = Listened(c: Conn, closed: bool, headerZero: bool, lastOpcode: int, events: seq<Event>)

  function Listen(c: Conn, h: Header, lastOpcode: int, bufferSize: nat): Listened
    requires HeaderOk(h)
    decreases |c.schedule|
  {
    HeaderShrinks(c, h);
    var head := ReadHeader(c, h);
    if !head.ok then Listened(head.c, false, head.zero, lastOpcode, [])
    else
      var frame := HandleFrame(head.c, head.h, lastOpcode, bufferSize);
      if !frame.ok then Listened(frame.c, false, false, frame.lastOpcode, frame.events)
      else if head.h.opcode == OPCODE_CLOSE then Listened(frame.c, true, false, frame.lastOpcode, frame.events)
      else
        var rest := Listen(frame.c, head.h, frame.lastOpcode, bufferSize);
        rest.(events := frame.events + rest.events)
  }
}
