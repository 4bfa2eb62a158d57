/** What `listen` makes of fragmented messages over a transport that delivers them. */
module WebSocketFragments {
  import opened WebSocketFrame
  import opened WebSocketReader
  import opened WebSocketRoundTrip

  /** A frame a peer may send: the payload of a control frame is short. */
  predicate Sendable(f: Frame) {
    FrameOk(f) && (IsControl(f.opcode) ==> f.fin && |f.payload| <= 125)
  }

  /** What has been collected of a message after the frame. */
  function Begun(f: Frame, begun: seq<Byte>): seq<Byte> {
    if IsControl(f.opcode) then begun else if f.fin then [] else begun + f.payload
  }

  /** What the listener is told of one frame: the end of a message has the opcode of its last frame. */
  function DeliveredFrame(f: Frame, begun: seq<Byte>): seq<Delivery> {
    if IsControl(f.opcode) then [Delivered(f)]
    else if f.fin then [Message(f.opcode, begun + f.payload)] else []
  }

  function DeliveredFrames(fs: seq<Frame>, begun: seq<Byte>): seq<Delivery>
    decreases |fs|
  {
    if fs == [] then [] else DeliveredFrame(fs[0], begun) + DeliveredFrames(fs[1..], Begun(fs[0], begun))
  }

  /** The frames up to the first that is refused. */
  function Admitted(lastOpcode: int, fs: seq<Frame>): seq<Frame>
    decreases |fs|
  {
    if fs == [] || !Admits(lastOpcode, fs[0].opcode) then []
    else [fs[0]] + Admitted(NextOpcode(lastOpcode, fs[0].fin, fs[0].opcode), fs[1..])
  }

  lemma {:induction false} PartsDeliver(opcode: Byte, parts: seq<seq<Byte>>, begun: seq<Byte>, more: seq<Event>)
    ensures Deliveries(ReadEvents(opcode, parts) + more, begun) == Deliveries(more, begun + Join(parts))
  {
    var es := ReadEvents(opcode, parts) + more;
    if parts == [] {
      assert es == more && begun + Join(parts) == begun;
    } else {
      assert es[1..] == ReadEvents(opcode, parts[1..]) + more;
      PartsDeliver(opcode, parts[1..], begun + parts[0], more);
      assert begun + parts[0] + Join(parts[1..]) == begun + Join(parts);
    }
  }

  lemma EndDelivers(opcode: Byte, begun: seq<Byte>, more: seq<Event>)
    ensures Deliveries([OnEnd(opcode)] + more, begun) == [Message(opcode, begun)] + Deliveries(more, [])
  {
    assert ([OnEnd(opcode)] + more)[1..] == more;
  }

  lemma ControlInBetween(f: Frame, begun: seq<Byte>, more: seq<Event>)
    requires IsControl(f.opcode)
    ensures Deliveries([ControlEvent(f.opcode, f.payload)] + more, begun) == [Delivered(f)] + Deliveries(more, begun)
  {
    assert ([ControlEvent(f.opcode, f.payload)] + more)[1..] == more;
  }

  /** The header of a frame on the wire is read, with its opcode and all else that matters. */
  lemma HeaderArrives(c: Conn, h: Header, f: Frame, rest: seq<Byte>)
    requires Delivers(c) && HeaderOk(h) && FrameOk(f)
    requires c.incoming == FrameBytes(FrameHeader(f), f.payload) + rest
    ensures var head := ReadHeader(c, h);
            && head.ok && HeaderOk(head.h) && head.h.opcode == f.opcode && head.h.fin == f.fin
            && head.h.payloadLength == |f.payload| && Delivers(head.c)
            && head.c.incoming == Coded(head.h, f.payload, 0) + rest
  {
    hide Delivers, ReadHeader, HeaderBytes, Coded;
    var sent := FrameHeader(f);
    assert c.incoming == HeaderBytes(sent) + (Coded(sent, f.payload, 0) + rest);
    HeaderDelivers(c, sent, h, Coded(sent, f.payload, 0) + rest);
    CodedSame(sent, ReadHeader(c, h).h, f.payload);
  }

  /** A frame that is admitted is handed on, in the middle of a message or not. */
  lemma FrameHandled(c: Conn, f: Frame, h: Header, rest: seq<Byte>, lastOpcode: int, begun: seq<Byte>, bufferSize: nat)
    requires Delivers(c) && HeaderOk(h) && Sendable(f) && bufferSize > 0 && Admits(lastOpcode, f.opcode)
    requires h.opcode == f.opcode && h.fin == f.fin && h.payloadLength == |f.payload|
    requires c.incoming == Coded(h, f.payload, 0) + rest
    ensures var r := HandleFrame(c, h, lastOpcode, bufferSize);
            && r.ok && r.lastOpcode == NextOpcode(lastOpcode, f.fin, f.opcode) && r.c.incoming == rest && Delivers(r.c)
            && forall more: seq<Event> ::
                 Deliveries(r.events + more, begun) == DeliveredFrame(f, begun) + Deliveries(more, Begun(f, begun))
  {
    hide Delivers, ReadPayload, Coded, Deliveries, ReadEvents, Delivered, ControlEvent, Admits, NextOpcode, IsControl;
    assert Coded(h, f.payload, 0)[0..] == Coded(h, f.payload, 0) && f.payload[0..] == f.payload;
    PayloadDelivers(c, h, f.payload, rest, 0, bufferSize);
    var p := ReadPayload(c, h, 0, bufferSize);
    var r := HandleFrame(c, h, lastOpcode, bufferSize);
    forall more: seq<Event>
      ensures Deliveries(r.events + more, begun) == DeliveredFrame(f, begun) + Deliveries(more, Begun(f, begun))
    {
      if IsControl(f.opcode) {
        ControlInBetween(f, begun, more);
      } else {
        var end := if f.fin then [OnEnd(f.opcode)] else [];
        assert r.events + more == ReadEvents(f.opcode, p.parts) + (end + more);
        PartsDeliver(f.opcode, p.parts, begun, end + more);
        EndDelivers(f.opcode, begun + f.payload, more);
        assert [] + more == more;
      }
    }
  }

  lemma NotHandled(c: Conn, h: Header, lastOpcode: int, bufferSize: nat)
    requires HeaderOk(h) && !Admits(lastOpcode, h.opcode)
    ensures HandleFrame(c, h, lastOpcode, bufferSize) == Handled(c, false, lastOpcode, [])
  {
    hide Admits;
  }

  /** Frames and a close, from any point of a message: `listen` hands on the frames up to the first that is refused. */
  lemma {:induction false} ListenFrames(
    c: Conn, h: Header, fs: seq<Frame>, close: Frame, after: seq<Byte>, lastOpcode: int, begun: seq<Byte>, bufferSize: nat)
    requires Delivers(c) && HeaderOk(h) && bufferSize > 0
    requires forall i | 0 <= i < |fs| :: FrameOk(fs[i])
    requires forall i | 0 <= i < |fs| :: Sendable(fs[i]) && fs[i].opcode != OPCODE_CLOSE
    requires Sendable(close) && close.opcode == OPCODE_CLOSE
    requires c.incoming == Wire(fs) + (FrameBytes(FrameHeader(close), close.payload) + after)
    ensures var r := Listen(c, h, lastOpcode, bufferSize);
            && (r.closed <==> AdmitsAll(lastOpcode, fs))
            && (r.closed ==> r.c.incoming == after)
            && Deliveries(r.events, begun) ==
                 DeliveredFrames(Admitted(lastOpcode, fs), begun) + if r.closed then [Delivered(close)] else []
    decreases |fs|
  {
    hide Delivers, ReadHeader, HandleFrame, FrameBytes, Delivered, Deliveries, Sendable, Admits, NextOpcode;
    hide DeliveredFrame, Begun;
    HeaderShrinks(c, h);
    var f := if fs == [] then close else fs[0];
    var tail := if fs == [] then after else Wire(fs[1..]) + (FrameBytes(FrameHeader(close), close.payload) + after);
    assert c.incoming == FrameBytes(FrameHeader(f), f.payload) + tail;
    assert Sendable(f) && FrameOk(f) by { SendableFits(f); }
    HeaderArrives(c, h, f, tail);
    var head := ReadHeader(c, h);
    var frame := HandleFrame(head.c, head.h, lastOpcode, bufferSize);
    if !Admits(lastOpcode, f.opcode) {
      CloseAdmitted(lastOpcode);
      NotHandled(head.c, head.h, lastOpcode, bufferSize);
      NoneDelivered(begun);
    } else {
      FrameHandled(head.c, f, head.h, tail, lastOpcode, begun, bufferSize);
      assert Deliveries(frame.events + [], begun) == DeliveredFrame(f, begun) + Deliveries([], Begun(f, begun));
      if fs == [] {
        CloseAdmitted(lastOpcode);
        CloseFrame(close, begun);
        NoneDelivered(Begun(f, begun));
        assert frame.events + [] == frame.events;
      } else {
        ListenFrames(frame.c, head.h, fs[1..], close, after, frame.lastOpcode, Begun(f, begun), bufferSize);
        var rest := Listen(frame.c, head.h, frame.lastOpcode, bufferSize);
        assert Deliveries(frame.events + rest.events, begun) ==
               DeliveredFrame(f, begun) + Deliveries(rest.events, Begun(f, begun));
        FirstAdmitted(lastOpcode, fs, begun);
      }
    }
  }

  lemma SendableFits(f: Frame)
    requires Sendable(f)
    ensures FrameOk(f)
  {
  }

  lemma CloseAdmitted(lastOpcode: int)
    ensures Admits(lastOpcode, OPCODE_CLOSE)
  {
  }

  lemma CloseFrame(close: Frame, begun: seq<Byte>)
    requires close.opcode == OPCODE_CLOSE
    ensures DeliveredFrame(close, begun) == [Delivered(close)]
  {
  }

  lemma NoneDelivered(begun: seq<Byte>)
    ensures Deliveries([], begun) == []
  {
  }

  lemma FirstAdmitted(lastOpcode: int, fs: seq<Frame>, begun: seq<Byte>)
    requires fs != [] && Admits(lastOpcode, fs[0].opcode)
    ensures DeliveredFrames(Admitted(lastOpcode, fs), begun) ==
            DeliveredFrame(fs[0], begun) +
            DeliveredFrames(Admitted(NextOpcode(lastOpcode, fs[0].fin, fs[0].opcode), fs[1..]), Begun(fs[0], begun))
  {
    hide Admits, NextOpcode, DeliveredFrame, Begun;
    var rest := Admitted(NextOpcode(lastOpcode, fs[0].fin, fs[0].opcode), fs[1..]);
    assert ([fs[0]] + rest)[1..] == rest;
  }

  lemma {:induction false} AllAdmitted(lastOpcode: int, fs: seq<Frame>)
    ensures AdmitsAll(lastOpcode, fs) <==> Admitted(lastOpcode, fs) == fs
    decreases |fs|
  {
    hide Admits, NextOpcode;
    if fs != [] && Admits(lastOpcode, fs[0].opcode) {
      AllAdmitted(NextOpcode(lastOpcode, fs[0].fin, fs[0].opcode), fs[1..]);
      assert fs == [fs[0]] + fs[1..];
      var rest := Admitted(NextOpcode(lastOpcode, fs[0].fin, fs[0].opcode), fs[1..]);
      assert ([fs[0]] + rest)[1..] == rest;
    }
  }

  /**
   * Over any transport that delivers a legal sequence of frames and a close: `listen` comes to the close
   * exactly when no text or binary frame follows a fragmented message, and then every message has been
   * delivered with its fragments joined.
   */
  lemma ListenFragmentsExactly(c: Conn, h: Header, fs: seq<Frame>, close: Frame, after: seq<Byte>, bufferSize: nat)
    requires Delivers(c) && HeaderOk(h) && bufferSize > 0 && WellFormed(false, fs)
    requires forall i | 0 <= i < |fs| :: FrameOk(fs[i])
    requires forall i | 0 <= i < |fs| :: Sendable(fs[i]) && fs[i].opcode != OPCODE_CLOSE
    requires Sendable(close) && close.opcode == OPCODE_CLOSE
    requires c.incoming == Wire(fs) + (FrameBytes(FrameHeader(close), close.payload) + after)
    ensures var r := Listen(c, h, -1, bufferSize);
            && (r.closed <==> !DataAfterFragment(fs))
            && (r.closed ==> r.c.incoming == after
                             && Deliveries(r.events, []) == DeliveredFrames(fs, []) + [Delivered(close)])
            && (!r.closed ==> Deliveries(r.events, []) == DeliveredFrames(Admitted(-1, fs), []))
  {
    hide Delivers, Listen, Wire, FrameBytes, Delivered, Deliveries, Sendable, DeliveredFrames, WellFormed, DataAfterFragment;
    ListenFrames(c, h, fs, close, after, -1, [], bufferSize);
    FragmentsExactly(fs);
    AllAdmitted(-1, fs);
    var some := DeliveredFrames(Admitted(-1, fs), []);
    assert some + [] == some;
  }
}
