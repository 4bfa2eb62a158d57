/** Frames that were sent, read back through any partition of the bytes into reads. */
module WebSocketRoundTrip {
  import opened WebSocketFrame
  import opened WebSocketReader

  // ---------- a transport that delivers ----------

  function Takes(schedule: seq<Grant>): nat {
    if schedule == [] then 0 else (if schedule[0].Take? then 1 else 0) + Takes(schedule[1..])
  }

  /** No read fails, and there are reads enough for the bytes: any sizes, any number of retries between them. */
  predicate Delivers(c: Conn) {
    Takes(c.schedule) >= |c.incoming| && forall i | 0 <= i < |c.schedule| :: !c.schedule[i].Broken?
  }

  lemma ReadDelivers(c: Conn, desired: nat)
    requires Delivers(c) && desired > 0 && c.incoming != []
    ensures var (next, r) := Read(c, desired); Delivers(next) && (r.Got? || r.Retry?)
  {
    assert c.schedule != [];
    assert forall i :: 0 <= i < |c.schedule[1..]| ==> c.schedule[1..][i] == c.schedule[i + 1];
  }

  lemma {:induction false} ExactDelivers(c: Conn, n: nat)
    requires Delivers(c) && n <= |c.incoming|
    ensures var r := ReadExact(c, n);
            r.bytes == c.incoming[..n] && r.c.incoming == c.incoming[n..] && Delivers(r.c)
    decreases |c.schedule|
  {
    hide Delivers, Read;
    if n > 0 {
      ReadDelivers(c, n);
      var (next, r) := Read(c, n);
      if r.Got? {
        var b := r.bytes;
        ExactDelivers(next, n - |b|);
        assert c.incoming[..n] == b + next.incoming[..n - |b|];
        assert c.incoming[n..] == next.incoming[n - |b|..];
      } else {
        ExactDelivers(next, n);
      }
    }
  }

  /** The parts of a payload join to the payload, unmasked, and none of them is empty. */
  lemma {:induction false} PayloadDelivers(c: Conn, h: Header, data: seq<Byte>, rest: seq<Byte>, progress: nat, bufferSize: nat)
    requires HeaderOk(h) && Delivers(c) && bufferSize > 0
    requires progress <= |data| == h.payloadLength
    requires c.incoming == Coded(h, data, 0)[progress..] + rest
    ensures var r := ReadPayload(c, h, progress, bufferSize);
            r.ok && Join(r.parts) == data[progress..] && r.c.incoming == rest && Delivers(r.c) &&
            forall i :: 0 <= i < |r.parts| ==> r.parts[i] != []
    decreases |c.schedule|
  {
    hide Delivers, Read, Coded;
    var wire := Coded(h, data, 0);
    if progress == |data| {
      assert wire[progress..] == [];
    } else {
      var left := |data| - progress;
      var desired := if bufferSize > left then left else bufferSize;
      ReadDelivers(c, desired);
      var (next, r) := Read(c, desired);
      if r.Got? {
        var b := r.bytes;
        TakePart(h, data, rest, progress, b, next.incoming);
        PayloadDelivers(next, h, data, rest, progress + |b|, bufferSize);
        var tail := ReadPayload(next, h, progress + |b|, bufferSize);
        JoinFirst(Coded(h, b, progress), tail.parts);
        assert data[progress..] == data[progress..progress + |b|] + data[progress + |b|..];
      } else {
        PayloadDelivers(next, h, data, rest, progress, bufferSize);
      }
    }
  }

  lemma JoinFirst(a: seq<Byte>, parts: seq<seq<Byte>>)
    ensures Join([a] + parts) == a + Join(parts)
  {
    assert ([a] + parts)[1..] == parts;
  }

  lemma TakePart(h: Header, data: seq<Byte>, rest: seq<Byte>, progress: nat, b: seq<Byte>, incoming: seq<Byte>)
    requires HeaderOk(h) && progress + |b| <= |data|
    requires Coded(h, data, 0)[progress..] + rest == b + incoming
    ensures Coded(h, b, progress) == data[progress..progress + |b|]
    ensures incoming == Coded(h, data, 0)[progress + |b|..] + rest
  {
    hide Coded;
    var a, m, z := data[..progress], data[progress..progress + |b|], data[progress + |b|..];
    var wire := Coded(h, data, 0);
    assert data == a + (m + z);
    CodedSplit(h, a, m + z, 0);
    CodedSplit(h, m, z, progress);
    var now, later := Coded(h, m, progress), Coded(h, z, progress + |b|);
    assert wire[progress..] == now + later;
    assert wire[progress + |b|..] == later;
    assert b + incoming == now + (later + rest);
    assert b == (b + incoming)[..|b|] == now;
    assert incoming == (b + incoming)[|b|..];
    CodedTwice(h, m, progress);
  }

  lemma NumberSplit(n: nat, k: nat, bound: nat)
    requires Power256(k) == bound && n < bound
    ensures Number(NumberBytes(n, k)) == n && |NumberBytes(n, k)| == k
  {
    NumberBack(n, k);
  }

  lemma MaskDelivers(c: Conn, h: Header, mask: seq<Byte>, rest: seq<Byte>)
    requires Delivers(c) && |mask| == 4 && c.incoming == (if h.hasMask then mask else []) + rest
    ensures var r := ReadMask(c, h);
            r.ok && r.c.incoming == rest && Delivers(r.c) &&
            r.h == if h.hasMask then h.(mask := mask) else h
  {
    hide Delivers, ReadExact;
    if h.hasMask {
      ExactDelivers(c, 4);
      assert (mask + rest)[..4] == mask && (mask + rest)[4..] == rest;
    }
  }

  lemma LengthDelivers(c: Conn, h: Header, n: nat, mask: seq<Byte>, rest: seq<Byte>)
    requires Delivers(c) && |mask| == 4 && n < TWO_TO_THE_63
    requires c.incoming == LengthBytes(n) + ((if h.hasMask then mask else []) + rest)
    ensures var r := ReadLength(c, h, LengthField(n));
            var h' := h.(payloadLength := n);
            r.ok && r.c.incoming == rest && Delivers(r.c) &&
            r.h == if h.hasMask then h'.(mask := mask) else h'
  {
    hide Delivers, ReadExact, ReadMask, Number, NumberBytes, Power256;
    var more := (if h.hasMask then mask else []) + rest;
    Powers();
    if n < 126 {
      SmallNumbers.SevenBits(n);
      SmallNumbers.ByteBack(n);
      assert LengthBytes(n) + more == more;
      MaskDelivers(c, h.(payloadLength := n), mask, rest);
    } else {
      var k := if n < 65536 then 2 else 8;
      NumberSplit(n, k, if n < 65536 then 65536 else TWO_TO_THE_64);
      ExactDelivers(c, k);
      var l := ReadExact(c, k);
      assert (LengthBytes(n) + more)[..k] == LengthBytes(n) && (LengthBytes(n) + more)[k..] == more;
      MaskDelivers(l.c, h.(payloadLength := n), mask, rest);
    }
  }

  /** A header that was sent arrives; without a mask the mask bytes keep what they held. */
  lemma HeaderDelivers(c: Conn, sent: Header, h: Header, rest: seq<Byte>)
    requires Delivers(c) && HeaderOk(sent) && HeaderOk(h) && sent.payloadLength >= 0 && sent.opcode < 16
    requires c.incoming == HeaderBytes(sent) + rest
    ensures var r := ReadHeader(c, h);
            r.ok && r.c.incoming == rest && Delivers(r.c) &&
            r.h == if sent.hasMask then sent else sent.(mask := h.mask)
  {
    hide Delivers, ReadExact, ReadLength, PackedBits, LengthField, LengthBytes, UnpackHeaderBits, Bytes16, Word16;
    var n := sent.payloadLength;
    var field := LengthField(n);
    var bits := PackedBits(sent.fin, sent.rsv1, sent.rsv2, sent.rsv3, sent.opcode, sent.hasMask, field);
    var more := (if sent.hasMask then sent.mask else []) + rest;
    assert |Bytes16(bits)| == 2 by { TwoBytes(bits); }
    assert HeaderBytes(sent) + rest == Bytes16(bits) + (LengthBytes(n) + more);
    ExactDelivers(c, 2);
    var bb := ReadExact(c, 2);
    assert bb.bytes == Bytes16(bits) && bb.c.incoming == LengthBytes(n) + more;
    Word16Bytes(bits);
    FieldSmall(n);
    UnpackPacked(sent.fin, sent.rsv1, sent.rsv2, sent.rsv3, sent.opcode, sent.hasMask, field, h);
    var (first, length1) := UnpackHeaderBits(bits, h);
    LengthDelivers(bb.c, first, n, sent.mask, rest);
  }

  lemma TwoBytes(bits: bv16)
    ensures |Bytes16(bits)| == 2
  {
  }

  lemma FieldSmall(n: nat)
    ensures LengthField(n) < 128
  {
    if n < 126 { SmallNumbers.SevenBits(n); }
  }

  // ---------- messages ----------

  /** A frame as its sender means it; `mask` is drawn by the sender when it masks. */
  datatype Frame = Frame(fin: bool, opcode: Byte, payload: seq<Byte>, hasMask: bool, mask: seq<Byte>)

  predicate FrameOk(f: Frame) {
    |f.mask| == 4 && |f.payload| < TWO_TO_THE_63 && f.opcode < 16
  }

  function FrameHeader(f: Frame): (h: Header)
    requires FrameOk(f)
    ensures HeaderOk(h) && h.payloadLength == |f.payload|
  {
    Header(f.fin, false, false, false, f.opcode, f.hasMask, |f.payload|, f.mask)
  }

  function Wire(fs: seq<Frame>): seq<Byte>
    requires forall i | 0 <= i < |fs| :: FrameOk(fs[i])
  {
    if fs == [] then [] else FrameBytes(FrameHeader(fs[0]), fs[0].payload) + Wire(fs[1..])
  }

  /** What a listener has been told, message by message: the parts of a data message up to its end joined. */
  datatype Delivery =
    | Message(opcode: Byte, payload: seq<Byte>)
    | Closed(code: nat, text: seq<Byte>)
    | Pinged(bytes: seq<Byte>)
    | Ponged(bytes: seq<Byte>)

  function Deliveries(es: seq<Event>, begun: seq<Byte>): seq<Delivery> {
    if es == [] then []
    else
      match es[0]
      case OnRead(_, b) => Deliveries(es[1..], begun + b)
      case OnEnd(opcode) => [Message(opcode, begun)] + Deliveries(es[1..], [])
      case OnClose(code, m) => [Closed(code, m)] + Deliveries(es[1..], begun)
      case OnPing(p) => [Pinged(p)] + Deliveries(es[1..], begun)
      case OnPong(p) => [Ponged(p)] + Deliveries(es[1..], begun)
  }

  /** What one final frame delivers. */
  function Delivered(f: Frame): Delivery {
    if f.opcode == OPCODE_PING then Pinged(f.payload)
    else if f.opcode == OPCODE_PONG then Ponged(f.payload)
    else if f.opcode == OPCODE_CLOSE then
      if |f.payload| >= 2 then Closed(Number(f.payload[..2]), f.payload[2..]) else Closed(0, [])
    else Message(f.opcode, f.payload)
  }

  /** A frame that `listen` can take without a started fragmented message. */
  predicate SingleOk(f: Frame) {
    FrameOk(f) && f.fin &&
    if IsControl(f.opcode) then |f.payload| <= 125 else IsData(f.opcode)
  }

  lemma {:induction false} ReadEventsDeliver(opcode: Byte, parts: seq<seq<Byte>>, begun: seq<Byte>, more: seq<Event>)
    ensures Deliveries(ReadEvents(opcode, parts) + ([OnEnd(opcode)] + more), begun) ==
            [Message(opcode, begun + Join(parts))] + Deliveries(more, [])
  {
    var es := ReadEvents(opcode, parts) + ([OnEnd(opcode)] + more);
    if parts == [] {
      assert es == [OnEnd(opcode)] + more;
      assert es[1..] == more;
      assert begun + Join(parts) == begun;
    } else {
      assert es[1..] == ReadEvents(opcode, parts[1..]) + ([OnEnd(opcode)] + more);
      ReadEventsDeliver(opcode, parts[1..], begun + parts[0], more);
      assert begun + parts[0] + Join(parts[1..]) == begun + Join(parts);
    }
  }

  /** One frame, whatever follows it on the wire. */
  lemma FrameDelivers(c: Conn, h: Header, f: Frame, rest: seq<Byte>, lastOpcode: int, bufferSize: nat)
    requires Delivers(c) && HeaderOk(h) && SingleOk(f) && bufferSize > 0 && lastOpcode == -1
    requires c.incoming == FrameBytes(FrameHeader(f), f.payload) + rest
    ensures var head := ReadHeader(c, h);
            var r := HandleFrame(head.c, head.h, lastOpcode, bufferSize);
            head.ok && HeaderOk(head.h) && head.h.opcode == f.opcode &&
            r.ok && r.lastOpcode == -1 && r.c.incoming == rest && Delivers(r.c) &&
            forall more: seq<Event> :: Deliveries(r.events + more, []) == [Delivered(f)] + Deliveries(more, [])
  {
    hide Delivers, ReadHeader, ReadPayload, HeaderBytes, Coded, Number, Deliveries, ReadEvents;
    var sent := FrameHeader(f);
    assert c.incoming == HeaderBytes(sent) + (Coded(sent, f.payload, 0) + rest);
    HeaderDelivers(c, sent, h, Coded(sent, f.payload, 0) + rest);
    var head := ReadHeader(c, h);
    CodedSame(sent, head.h, f.payload);
    assert Coded(head.h, f.payload, 0)[0..] == Coded(head.h, f.payload, 0);
    PayloadDelivers(head.c, head.h, f.payload, rest, 0, bufferSize);
    var p := ReadPayload(head.c, head.h, 0, bufferSize);
    assert f.payload[0..] == f.payload;
    var r := HandleFrame(head.c, head.h, lastOpcode, bufferSize);
    forall more: seq<Event> ensures Deliveries(r.events + more, []) == [Delivered(f)] + Deliveries(more, []) {
      if IsControl(f.opcode) {
        ControlDelivers(f, more);
      } else {
        ReadEventsDeliver(f.opcode, p.parts, [], more);
        assert [] + Join(p.parts) == f.payload;
        assert r.events + more == ReadEvents(f.opcode, p.parts) + ([OnEnd(f.opcode)] + more);
      }
    }
  }

  lemma CodedSame(a: Header, b: Header, data: seq<Byte>)
    requires HeaderOk(a) && HeaderOk(b) && a.hasMask == b.hasMask && (a.hasMask ==> a.mask == b.mask)
    ensures Coded(a, data, 0) == Coded(b, data, 0)
  {
  }

  lemma ControlDelivers(f: Frame, more: seq<Event>)
    requires IsControl(f.opcode)
    ensures Deliveries([ControlEvent(f.opcode, f.payload)] + more, []) == [Delivered(f)] + Deliveries(more, [])
  {
    assert ([ControlEvent(f.opcode, f.payload)] + more)[1..] == more;
  }

  function DeliveredAll(fs: seq<Frame>): seq<Delivery> {
    if fs == [] then [] else [Delivered(fs[0])] + DeliveredAll(fs[1..])
  }

  /**
   * Any sequence of single-frame messages followed by a close, masked or not, read in any partition: the
   * listener gets exactly the payloads, in order, and `listen` stops at the close frame.
   */
  lemma {:induction false} ListenDelivers(
    c: Conn, h: Header, fs: seq<Frame>, close: Frame, after: seq<Byte>, bufferSize: nat)
    requires Delivers(c) && HeaderOk(h) && bufferSize > 0
    requires forall i | 0 <= i < |fs| :: FrameOk(fs[i])
    requires forall i | 0 <= i < |fs| :: SingleOk(fs[i]) && fs[i].opcode != OPCODE_CLOSE
    requires SingleOk(close) && close.opcode == OPCODE_CLOSE
    requires c.incoming == Wire(fs) + (FrameBytes(FrameHeader(close), close.payload) + after)
    ensures var r := Listen(c, h, -1, bufferSize);
            r.closed && r.lastOpcode == -1 && r.c.incoming == after &&
            Deliveries(r.events, []) == DeliveredAll(fs) + [Delivered(close)]
    decreases |fs|
  {
    hide Delivers, ReadHeader, HandleFrame, FrameBytes, Delivered, Deliveries;
    HeaderShrinks(c, h);
    if fs == [] {
      assert c.incoming == FrameBytes(FrameHeader(close), close.payload) + after;
      FrameDelivers(c, h, close, after, -1, bufferSize);
      var head := ReadHeader(c, h);
      var frame := HandleFrame(head.c, head.h, -1, bufferSize);
      assert frame.events + [] == frame.events;
      NoEvents();
    } else {
      var tail := Wire(fs[1..]) + (FrameBytes(FrameHeader(close), close.payload) + after);
      assert c.incoming == FrameBytes(FrameHeader(fs[0]), fs[0].payload) + tail;
      FrameDelivers(c, h, fs[0], tail, -1, bufferSize);
      var head := ReadHeader(c, h);
      var frame := HandleFrame(head.c, head.h, -1, bufferSize);
      ListenDelivers(frame.c, head.h, fs[1..], close, after, bufferSize);
    }
  }

  lemma NoEvents()
    ensures Deliveries([], []) == []
  {
  }

  /** The payload of `sendClose(code, message)`. */
  function ClosePayload(code: nat, message: seq<Byte>): seq<Byte> {
    NumberBytes(code, 2) + message
  }

  /** The status code and the text of a close frame arrive as they were sent. */
  lemma CloseCarriesCode(code: nat, message: seq<Byte>, f: Frame)
    requires code < 65536 && f.opcode == OPCODE_CLOSE && f.payload == ClosePayload(code, message)
    ensures Delivered(f) == Closed(code, message)
  {
    hide Number, NumberBytes;
    Powers();
    NumberSplit(code, 2, 65536);
    assert f.payload[..2] == NumberBytes(code, 2) && f.payload[2..] == message;
  }

  // ---------- fragmented messages ----------

  /** The frame sequences of section 5.4 of RFC 6455; `open` says that a fragmented message has begun. */
  predicate WellFormed(open: bool, fs: seq<Frame>)
    decreases |fs|
  {
    fs == [] ||
    (if IsControl(fs[0].opcode) then fs[0].fin && WellFormed(open, fs[1..])
     else if IsData(fs[0].opcode) then !open && WellFormed(!fs[0].fin, fs[1..])
     else fs[0].opcode == OPCODE_CONTINUATION && open && WellFormed(!fs[0].fin, fs[1..]))
  }

  /** Whether `handleFrame` admits all frames, from a given `m_lastOpcode`. */
  predicate AdmitsAll(lastOpcode: int, fs: seq<Frame>)
    decreases |fs|
  {
    fs == [] ||
    (Admits(lastOpcode, fs[0].opcode) && AdmitsAll(NextOpcode(lastOpcode, fs[0].fin, fs[0].opcode), fs[1..]))
  }

  predicate HasData(fs: seq<Frame>) {
    fs != [] && (IsData(fs[0].opcode) || HasData(fs[1..]))
  }

  /** A text or binary frame comes after a text or binary frame that was not final. */
  predicate DataAfterFragment(fs: seq<Frame>) {
    fs != [] &&
    ((IsData(fs[0].opcode) && !fs[0].fin && HasData(fs[1..])) || DataAfterFragment(fs[1..]))
  }

  lemma {:induction false} AfterFragment(open: bool, lastOpcode: int, fs: seq<Frame>)
    requires WellFormed(open, fs)
    requires lastOpcode == OPCODE_TEXT as int || lastOpcode == OPCODE_BINARY as int
    ensures AdmitsAll(lastOpcode, fs) <==> !HasData(fs)
    decreases |fs|
  {
    if fs != [] && !IsData(fs[0].opcode) {
      AfterFragment(if IsControl(fs[0].opcode) then open else !fs[0].fin, lastOpcode, fs[1..]);
    }
  }

  lemma {:induction false} NoDataNoFragment(fs: seq<Frame>)
    requires !HasData(fs)
    ensures !DataAfterFragment(fs)
  {
    if fs != [] { NoDataNoFragment(fs[1..]); }
  }

  /**
   * The socket takes a well-formed sequence of frames exactly when no text or binary frame follows a
   * fragmented message: the final continuation does not clear `m_lastOpcode`.
   */
  lemma {:induction false} FragmentsExactly(fs: seq<Frame>)
    requires WellFormed(false, fs)
    ensures AdmitsAll(-1, fs) <==> !DataAfterFragment(fs)
    decreases |fs|
  {
    if fs != [] {
      if IsData(fs[0].opcode) && !fs[0].fin {
        OpcodeNumbers(fs[0].opcode);
        AfterFragment(true, fs[0].opcode as int, fs[1..]);
        if !HasData(fs[1..]) { NoDataNoFragment(fs[1..]); }
      } else {
        FragmentsExactly(fs[1..]);
      }
    }
  }

  lemma OpcodeNumbers(opcode: Byte)
    requires IsData(opcode)
    ensures opcode as int == OPCODE_TEXT as int || opcode as int == OPCODE_BINARY as int
  {
  }

  /** A message in two fragments, then another message: legal, and refused. */
  lemma SecondMessageRefused()
    ensures var fs := [Frame(false, OPCODE_TEXT, [], false, [0, 0, 0, 0]),
                       Frame(true, OPCODE_CONTINUATION, [], false, [0, 0, 0, 0]),
                       Frame(true, OPCODE_TEXT, [], false, [0, 0, 0, 0])];
            WellFormed(false, fs) && !AdmitsAll(-1, fs)
  {
    var f0, f1, f2 := Frame(false, OPCODE_TEXT, [], false, [0, 0, 0, 0]),
                      Frame(true, OPCODE_CONTINUATION, [], false, [0, 0, 0, 0]),
                      Frame(true, OPCODE_TEXT, [], false, [0, 0, 0, 0]);
    var fs := [f0, f1, f2];
    assert fs[1..] == [f1, f2] && fs[1..][1..] == [f2] && fs[1..][1..][1..] == [];
    assert WellFormed(false, [f2]);
    assert WellFormed(true, [f1, f2]) by { assert [f1, f2][1..] == [f2]; }
    assert HasData(fs[1..]) by { assert HasData([f2]); }
    FragmentsExactly(fs);
  }
}
