/** The blocking `WebSocket`: reading frames to a listener, and sending them. */
module WebSocket {
  import opened WebSocketFrame
  import opened WebSocketReader
  import opened WebSocketRoundTrip

  /** `Join` and `ReadEvents`, extended at the end. */
  lemma {:induction false} JoinLast(parts: seq<seq<Byte>>, b: seq<Byte>)
    ensures Join(parts + [b]) == Join(parts) + b
  {
    if parts == [] {
      assert [b][1..] == [];
    } else {
      assert (parts + [b])[1..] == parts[1..] + [b];
      JoinLast(parts[1..], b);
    }
  }

  lemma {:induction false} JoinConcat(a: seq<seq<Byte>>, b: seq<seq<Byte>>)
    ensures Join(a + b) == Join(a) + Join(b)
  {
    if a == [] {
      assert a + b == b;
    } else {
      assert (a + b)[1..] == a[1..] + b;
      JoinConcat(a[1..], b);
    }
  }

  lemma ReadEventsConcat(opcode: Byte, a: seq<seq<Byte>>, b: seq<seq<Byte>>)
    ensures ReadEvents(opcode, a + b) == ReadEvents(opcode, a) + ReadEvents(opcode, b)
  {
  }

  class WebSocket {
    const bufferSize: nat
    const maskOutgoingMessages: bool
    var connection: Conn
    var outgoing: seq<Byte>
    var lastOpcode: int
    var listening: bool
    /** The calls made to the listener so far. */
    var events: seq<Event>

    constructor (connection: Conn, bufferSize: nat, maskOutgoingMessages: bool)
      requires bufferSize > 0
      ensures this.connection == connection && this.bufferSize == bufferSize
      ensures this.maskOutgoingMessages == maskOutgoingMessages
      ensures lastOpcode == -1 && events == [] && outgoing == [] && !listening
    {
      this.connection := connection;
      this.bufferSize := bufferSize;
      this.maskOutgoingMessages := maskOutgoingMessages;
      outgoing, lastOpcode, listening, events := [], -1, false, [];
    }

    // ---------- receiving ----------

    method ReadSimple(desired: nat) returns (res: IoResult)
      modifies this`connection
      ensures (connection, res) == Read(old(connection), desired)
    {
      var r := Read(connection, desired);
      connection, res := r.0, r.1;
    }

    method ReadExactSizeDataSimple(n: nat) returns (bytes: seq<Byte>, ghost zero: bool)
      modifies this`connection
      ensures Exact(connection, bytes, zero) == ReadExact(old(connection), n)
    {
      hide Read;
      bytes, zero := [], false;
      while |bytes| < n
        invariant |bytes| <= n && !zero
        invariant var r := ReadExact(connection, n - |bytes|);
                  ReadExact(old(connection), n) == Exact(r.c, bytes + r.bytes, r.zero)
        decreases |connection.schedule|
      {
        var res := ReadSimple(n - |bytes|);
        if res.Got? {
          ghost var more := ReadExact(connection, n - |bytes| - |res.bytes|).bytes;
          assert bytes + (res.bytes + more) == bytes + res.bytes + more;
          bytes := bytes + res.bytes;
        } else if !res.Retry? {
          zero := res.Zero?;
          assert bytes + [] == bytes;
          return;
        }
      }
      assert bytes + [] == bytes;
    }

    method ReadFrameHeader(h: Header) returns (ok: bool, h': Header, ghost zero: bool)
      modifies this`connection
      ensures HeaderRead(connection, ok, zero, h') == ReadHeader(old(connection), h)
    {
      hide ReadExact, UnpackHeaderBits, ReadLength, Word16;
      var bb;
      bb, zero := ReadExactSizeDataSimple(2);
      if |bb| != 2 {
        return false, h, zero;
      }
      var unpacked := UnpackHeaderBits(Word16(bb), h);
      ok, h', zero := ReadRestOfHeader(unpacked.0, unpacked.1);
    }

    /** The length bytes, if any, and the mask bytes, if any. */
    method ReadRestOfHeader(h: Header, messageLen1: Byte) returns (ok: bool, h': Header, ghost zero: bool)
      modifies this`connection
      ensures HeaderRead(connection, ok, zero, h') == ReadLength(old(connection), h, messageLen1)
    {
      hide ReadExact, Number;
      h' := h;
      if messageLen1 < 126 {
        h' := h'.(payloadLength := messageLen1 as nat);
      } else {
        var k := if messageLen1 == 126 then 2 else 8;
        var messageLen;
        messageLen, zero := ReadExactSizeDataSimple(k);
        if |messageLen| != k {
          return false, h', zero;
        }
        LengthFits(messageLen);
        h' := h'.(payloadLength := Signed(Number(messageLen)));
      }
      if h'.hasMask {
        var mask;
        mask, zero := ReadExactSizeDataSimple(4);
        if |mask| != 4 {
          return false, h', zero;
        }
        h' := h'.(mask := mask);
      }
      return true, h', false;
    }

    /** The unmasking loop over one buffer. */
    method Decode(h: Header, buffer: seq<Byte>, progress: nat) returns (decoded: seq<Byte>)
      requires HeaderOk(h) && h.hasMask
      ensures decoded == Masked(buffer, h.mask, progress)
    {
      decoded := [];
      var i := 0;
      while i < |buffer|
        invariant 0 <= i <= |buffer| && |decoded| == i
        invariant forall k :: 0 <= k < i ==> decoded[k] == buffer[k] ^ h.mask[(k + progress) % 4]
      {
        decoded := decoded + [buffer[i] ^ h.mask[(i + progress) % 4]];
        i := i + 1;
      }
    }

    /** The body of the payload loop once bytes have arrived: unmask them, collect them or call the listener. */
    method HandOn(h: Header, short: bool, buffer: seq<Byte>, progress: nat, message: seq<Byte>,
                  ghost before: seq<Event>, ghost parts: seq<seq<Byte>>) returns (message': seq<Byte>)
      requires HeaderOk(h)
      requires message == if short then Join(parts) else []
      requires events == if short then before else before + ReadEvents(h.opcode, parts)
      modifies this`events
      ensures var now := parts + [Coded(h, buffer, progress)];
              (message' == if short then Join(now) else []) &&
              events == if short then before else before + ReadEvents(h.opcode, now)
    {
      hide ReadEvents, Join, Masked;
      var data := buffer;
      if h.hasMask {
        data := Decode(h, data, progress);
      }
      message' := message;
      if short {
        JoinLast(parts, data);
        message' := message' + data;
      } else {
        ReadEventsConcat(h.opcode, parts, [data]);
        OnePart(h.opcode, data);
        events := events + [OnRead(h.opcode, data)];
      }
    }

    /** `readPayload`: into `message` for a control frame, to the listener otherwise. */
    method ReceivePayload(h: Header, short: bool) returns (ok: bool, message: seq<Byte>)
      requires HeaderOk(h)
      modifies this`connection, this`events
      ensures var p := ReadPayload(old(connection), h, 0, bufferSize);
              if short && h.payloadLength > 125 then !ok && connection == old(connection) && events == old(events)
              else
                ok == p.ok && connection == p.c &&
                if short then message == Join(p.parts) && events == old(events)
                else events == old(events) + ReadEvents(h.opcode, p.parts) + if ok && h.fin then [OnEnd(h.opcode)] else []
    {
      hide ReadEvents, Join, ReadPayload;
      if short && h.payloadLength > 125 {
        return false, [];
      }
      ok, message := PayloadLoop(h, short);
      if ok && !short && h.fin {
        events := events + [OnEnd(h.opcode)];
      }
    }

    /** The loop of `readPayload`. */
    method PayloadLoop(h: Header, short: bool) returns (ok: bool, message: seq<Byte>)
      requires HeaderOk(h)
      modifies this`connection, this`events
      ensures var p := ReadPayload(old(connection), h, 0, bufferSize);
              ok == p.ok && connection == p.c && (message == if short then Join(p.parts) else []) &&
              events == if short then old(events) else old(events) + ReadEvents(h.opcode, p.parts)
    {
      ProgressStart(connection, h, bufferSize);
      hide ReadEvents, Join, Read, Coded, Progress, ReadPayload;
      ghost var before, start, parts := events, connection, [];
      message := [];
      var progress: nat := 0;
      NoParts(h.opcode);
      assert before + [] == before;
      while progress < h.payloadLength
        invariant Progress(start, h, bufferSize, connection, progress, parts)
        invariant message == if short then Join(parts) else []
        invariant events == if short then before else before + ReadEvents(h.opcode, parts)
        decreases |connection.schedule|
      {
        var desiredSize := bufferSize;
        if desiredSize > h.payloadLength - progress {
          desiredSize := h.payloadLength - progress;
        }
        ghost var c := connection;
        var res := ReadSimple(desiredSize);
        ProgressNext(start, h, bufferSize, c, progress, parts, desiredSize, connection, res);
        if res.Got? {
          message := HandOn(h, short, res.bytes, progress, message, before, parts);
          parts := parts + [Coded(h, res.bytes, progress)];
          progress := progress + |res.bytes|;
        } else if !res.Retry? {
          return false, message;
        }
      }
      ProgressEnd(start, h, bufferSize, connection, progress, parts);
      return true, message;
    }

    /** `handleFrame` */
    method HandleOne(h: Header) returns (ok: bool)
      requires HeaderOk(h)
      modifies this`connection, this`events, this`lastOpcode
      ensures var r := HandleFrame(old(connection), h, old(lastOpcode), bufferSize);
              connection == r.c && ok == r.ok && lastOpcode == r.lastOpcode && events == old(events) + r.events
    {
      hide ReadPayload, ReadEvents, Join, ControlEvent;
      if h.opcode == OPCODE_CONTINUATION {
        if lastOpcode < 0 {
          return false;
        }
        var none;
        ok, none := ReceivePayload(h, false);
      } else if h.opcode == OPCODE_TEXT || h.opcode == OPCODE_BINARY {
        var continues := CheckForContinuation(h);
        if !continues {
          return false;
        }
        var none;
        ok, none := ReceivePayload(h, false);
      } else if h.opcode == OPCODE_CLOSE || h.opcode == OPCODE_PING || h.opcode == OPCODE_PONG {
        var message;
        ok, message := ReceivePayload(h, true);
        if ok {
          events := events + [ControlEvent(h.opcode, message)];
        }
      } else {
        ok := false;
      }
    }

    method CheckForContinuation(h: Header) returns (continues: bool)
      modifies this`lastOpcode
      ensures continues <==> old(lastOpcode) != OPCODE_TEXT as int && old(lastOpcode) != OPCODE_BINARY as int
      ensures lastOpcode == if !continues then old(lastOpcode) else if h.fin then -1 else h.opcode as int
    {
      if lastOpcode == OPCODE_TEXT as int || lastOpcode == OPCODE_BINARY as int {
        return false;
      }
      if h.fin {
        lastOpcode := -1;
      } else {
        lastOpcode := h.opcode as int;
      }
      return true;
    }

    /** `listen`, for a listener that does not ask to stop; `h` is what the local header starts out as. */
    method ListenLoop(h: Header) returns (closed: bool)
      requires HeaderOk(h)
      modifies this`connection, this`events, this`lastOpcode, this`listening
      ensures var r := Listen(old(connection), h, old(lastOpcode), bufferSize);
              connection == r.c && closed == r.closed && lastOpcode == r.lastOpcode && events == old(events) + r.events
    {
      hide HandleFrame, ReadHeader;
      listening := true;
      var header := h;
      closed := false;
      assert events + Listen(connection, header, lastOpcode, bufferSize).events ==
             old(events) + Listen(old(connection), h, old(lastOpcode), bufferSize).events;
      while !closed
        invariant HeaderOk(header)
        invariant var r := Listen(old(connection), h, old(lastOpcode), bufferSize);
                  if closed then
                    connection == r.c && r.closed && lastOpcode == r.lastOpcode && events == old(events) + r.events
                  else
                    var q := Listen(connection, header, lastOpcode, bufferSize);
                    r.c == q.c && r.closed == q.closed && r.lastOpcode == q.lastOpcode &&
                    old(events) + r.events == events + q.events
        decreases |connection.schedule|, !closed
      {
        HeaderShrinks(connection, header);
        ghost var q := Listen(connection, header, lastOpcode, bufferSize);
        ghost var before := events;
        var ok;
        ghost var zero;
        ok, header, zero := ReadFrameHeader(header);
        if !ok {
          assert before + [] == before;
          return false;
        }
        ok := HandleOne(header);
        if !ok {
          return false;
        }
        closed := header.opcode == OPCODE_CLOSE;
        if !closed {
          ghost var more := Listen(connection, header, lastOpcode, bufferSize).events;
          ghost var now := events[|before|..];
          assert before + (now + more) == events + more;
        }
      }
    }

    // ---------- sending ----------

    method WriteFrameHeader(h: Header)
      requires HeaderOk(h) && h.payloadLength >= 0
      modifies this`outgoing
      ensures outgoing == old(outgoing) + HeaderBytes(h)
    {
      hide PackedBits, Bytes16, LengthField, NumberBytes;
      var bits, messageLengthScenario := PackHeaderBits(h);
      outgoing := outgoing + Bytes16(bits);
      if messageLengthScenario == 2 {
        outgoing := outgoing + NumberBytes(h.payloadLength, 2);
      } else if messageLengthScenario == 3 {
        outgoing := outgoing + NumberBytes(h.payloadLength, 8);
      }
      if h.hasMask {
        outgoing := outgoing + h.mask;
      }
    }

    /** `sendOneFrame`; `mask` are the random bytes drawn when messages are masked. */
    method SendOneFrame(fin: bool, opcode: Byte, message: seq<Byte>, mask: seq<Byte>)
      requires |mask| == 4 && |message| < TWO_TO_THE_63
      modifies this`outgoing
      ensures outgoing == old(outgoing) +
              FrameBytes(Header(fin, false, false, false, opcode, maskOutgoingMessages, |message|, mask), message)
    {
      hide HeaderBytes;
      var h := Header(fin, false, false, false, opcode, maskOutgoingMessages, |message|, mask);
      WriteFrameHeader(h);
      if |message| > 0 {
        if h.hasMask {
          var encoded := Decode(h, message, 0);
          outgoing := outgoing + encoded;
        } else {
          outgoing := outgoing + message;
        }
      }
    }

    method SendClose(code: nat, message: seq<Byte>, mask: seq<Byte>)
      requires |mask| == 4 && code < 65536 && |message| + 2 < TWO_TO_THE_63
      modifies this`outgoing
      ensures outgoing == old(outgoing) +
              FrameBytes(Header(true, false, false, false, OPCODE_CLOSE, maskOutgoingMessages, |message| + 2, mask),
                         ClosePayload(code, message))
    {
      SendOneFrame(true, OPCODE_CLOSE, NumberBytes(code, 2) + message, mask);
    }
  }

  // ---------- the payload loop ----------

  /** After `parts`, what is left of the payload is read from `c` on. */
  ghost predicate Progress(c0: Conn, h: Header, bufferSize: nat, c: Conn, progress: nat, parts: seq<seq<Byte>>) {
    HeaderOk(h) &&
    var p, q := ReadPayload(c0, h, 0, bufferSize), ReadPayload(c, h, progress, bufferSize);
    p.c == q.c && p.ok == q.ok && p.parts == parts + q.parts
  }

  lemma ProgressStart(c: Conn, h: Header, bufferSize: nat)
    requires HeaderOk(h)
    ensures Progress(c, h, bufferSize, c, 0, [])
  {
  }

  lemma ProgressNext(c0: Conn, h: Header, bufferSize: nat, c: Conn, progress: nat, parts: seq<seq<Byte>>,
                     desired: nat, next: Conn, r: IoResult)
    requires Progress(c0, h, bufferSize, c, progress, parts) && progress < h.payloadLength
    requires desired == if bufferSize > h.payloadLength - progress then h.payloadLength - progress else bufferSize
    requires (next, r) == Read(c, desired)
    ensures r.Got? ==> Progress(c0, h, bufferSize, next, progress + |r.bytes|, parts + [Coded(h, r.bytes, progress)])
    ensures r.Retry? ==> Progress(c0, h, bufferSize, next, progress, parts)
    ensures !r.Got? && !r.Retry? ==>
      ReadPayload(c0, h, 0, bufferSize) == PayloadRead(next, false, parts)
    ensures r.Got? || r.Retry? ==> |next.schedule| < |c.schedule|
  {
    hide Read, Coded;
    if r.Got? {
      var q := ReadPayload(next, h, progress + |r.bytes|, bufferSize);
      assert parts + ([Coded(h, r.bytes, progress)] + q.parts) == parts + [Coded(h, r.bytes, progress)] + q.parts;
    }
  }

  lemma ProgressEnd(c0: Conn, h: Header, bufferSize: nat, c: Conn, progress: nat, parts: seq<seq<Byte>>)
    requires Progress(c0, h, bufferSize, c, progress, parts) && progress >= h.payloadLength
    ensures ReadPayload(c0, h, 0, bufferSize) == PayloadRead(c, true, parts)
  {
  }

  lemma NoParts(opcode: Byte)
    ensures Join([]) == [] && ReadEvents(opcode, []) == []
  {
  }

  lemma OnePart(opcode: Byte, data: seq<Byte>)
    ensures ReadEvents(opcode, [data]) == [OnRead(opcode, data)]
  {
  }
}
