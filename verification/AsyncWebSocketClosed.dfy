/**
 * What the coroutines do when the peer goes away between two frames: the inline read lets a zero through,
 * so the header coroutine goes on with memory that was never written, where the blocking socket stops.
 */
module AsyncWebSocketClosed {
  import opened WebSocketFrame
  import opened WebSocketReader
  import opened AsyncWebSocket

  /** Unwritten memory that reads as the header of an empty pong. */
  const PONG_JUNK: seq<Byte> := [0x8A, 0, 0, 0, 0, 0, 0, 0]

  /** The run ends because the transport returned zero before any byte of a next frame. */
  predicate ClosedBetweenFrames(c: Conn, h: Header, lastOpcode: int, bufferSize: nat)
    requires HeaderOk(h)
    decreases |c.schedule|
  {
    HeaderShrinks(c, h);
    var head := ReadHeader(c, h);
    if !head.ok then ReadExact(c, 2).zero && ReadExact(c, 2).bytes == []
    else
      var f := HandleFrame(head.c, head.h, lastOpcode, bufferSize);
      f.ok && head.h.opcode != OPCODE_CLOSE && ClosedBetweenFrames(f.c, head.h, f.lastOpcode, bufferSize)
  }

  function PongHeader(h: Header): Header {
    h.(fin := true, rsv1 := false, rsv2 := false, rsv3 := false, opcode := OPCODE_PONG, hasMask := false)
  }

  lemma PongBits(h: Header)
    ensures UnpackHeaderBits(Word16([0x8A, 0]), h) == (PongHeader(h), 0)
  {
  }

  /** A zero sends the header coroutine on with its buffer as it was. */
  lemma {:induction false} ZeroGoesOn(bufferSize: nat, m: Machine)
    requires m.action == HeaderAct && m.filled == 0 && |m.buffer| == 2
    requires ReadExact(m.c, 2).zero && ReadExact(m.c, 2).bytes == []
    ensures Reaches(bufferSize, PONG_JUNK, m, m.(c := ReadExact(m.c, 2).c, action := OnBbRead))
    decreases |m.c.schedule|
  {
    hide Read, Reaches;
    var next := Step(bufferSize, PONG_JUNK, m);
    var (c, r) := Read(m.c, 2);
    OneStep(bufferSize, PONG_JUNK, m);
    if r.Retry? {
      assert next == m.(c := c);
      hide Step;
      ZeroGoesOn(bufferSize, next);
      ReachesTrans(bufferSize, PONG_JUNK, m, next, m.(c := ReadExact(m.c, 2).c, action := OnBbRead));
    } else {
      assert r.Zero?;
    }
  }

  /** From there the coroutines deliver a pong that nobody sent. */
  lemma PongFromNothing(bufferSize: nat, m: Machine)
    requires m.action == OnBbRead && m.buffer == [0x8A, 0] && m.progress == 0 && m.message == []
    ensures exists g :: Reaches(bufferSize, PONG_JUNK, m, g) && g.events == m.events + [OnPong([])]
  {
    hide Step, Reaches, UnpackHeaderBits, Word16;
    var h := PongHeader(m.h).(payloadLength := 0);
    PongBits(m.h);
    OnBbReadStep(bufferSize, PONG_JUNK, m);
    var a := Step(bufferSize, PONG_JUNK, m);
    OneStep(bufferSize, PONG_JUNK, m);
    OnLenReadStep(bufferSize, PONG_JUNK, a);
    var b := Step(bufferSize, PONG_JUNK, a);
    OneStep(bufferSize, PONG_JUNK, a);
    ReachesTrans(bufferSize, PONG_JUNK, m, a, b);
    HandleActStep(bufferSize, PONG_JUNK, b);
    var p := Step(bufferSize, PONG_JUNK, b);
    OneStep(bufferSize, PONG_JUNK, b);
    ReachesTrans(bufferSize, PONG_JUNK, m, b, p);
    PayloadActStep(bufferSize, PONG_JUNK, p);
    var g := Step(bufferSize, PONG_JUNK, p);
    OneStep(bufferSize, PONG_JUNK, p);
    ReachesTrans(bufferSize, PONG_JUNK, m, p, g);
  }

  lemma CloseDiverges(bufferSize: nat, c: Conn, lastOpcode: int, events: seq<Event>, h: Header)
    requires HeaderOk(h) && h.opcode != OPCODE_CLOSE
    requires ReadExact(c, 2).zero && ReadExact(c, 2).bytes == []
    ensures exists g :: Reaches(bufferSize, PONG_JUNK, AtFrame(ListenAct, c, lastOpcode, events, h), g)
                        && g.events == events + [OnPong([])]
  {
    hide Reaches, ReadExact;
    var at := AtFrame(ListenAct, c, lastOpcode, events, h);
    var start := AtFrame(HeaderAct, c, lastOpcode, events, h).(buffer := PONG_JUNK[..2]);
    assert Step(bufferSize, PONG_JUNK, at) == start;
    hide Step;
    OneStep(bufferSize, PONG_JUNK, at);
    ZeroGoesOn(bufferSize, start);
    var on := start.(c := ReadExact(c, 2).c, action := OnBbRead);
    PongFromNothing(bufferSize, on);
    var g :| Reaches(bufferSize, PONG_JUNK, on, g) && g.events == on.events + [OnPong([])];
    ReachesTrans(bufferSize, PONG_JUNK, at, start, on);
    ReachesTrans(bufferSize, PONG_JUNK, at, on, g);
  }

  /** Every run that the peer ends between frames can go on with a pong after what the blocking socket delivers. */
  lemma {:induction false} ExtraPong(bufferSize: nat, c: Conn, lastOpcode: int, events: seq<Event>, h: Header)
    requires bufferSize > 0 && HeaderOk(h) && h.opcode != OPCODE_CLOSE
    requires ClosedBetweenFrames(c, h, lastOpcode, bufferSize)
    ensures exists g :: Reaches(bufferSize, PONG_JUNK, AtFrame(ListenAct, c, lastOpcode, events, h), g)
                        && g.events == events + Listen(c, h, lastOpcode, bufferSize).events + [OnPong([])]
    decreases |c.schedule|
  {
    hide Step, Reaches, ReadHeader, HandleFrame, ReadExact;
    var m := AtFrame(ListenAct, c, lastOpcode, events, h);
    var head := ReadHeader(c, h);
    HeaderShrinks(c, h);
    if head.ok {
      var f := HandleFrame(head.c, head.h, lastOpcode, bufferSize);
      var rest := Listen(f.c, head.h, f.lastOpcode, bufferSize);
      HeaderRefines(bufferSize, PONG_JUNK, c, lastOpcode, events, h);
      FrameRefines(bufferSize, PONG_JUNK, head.c, lastOpcode, events, head.h);
      ListenGoesOn(bufferSize, PONG_JUNK, c, lastOpcode, events, h);
      ExtraPong(bufferSize, f.c, f.lastOpcode, events + f.events, head.h);
      var again := AtFrame(ListenAct, f.c, f.lastOpcode, events + f.events, head.h);
      var g :| Reaches(bufferSize, PONG_JUNK, again, g) && g.events == events + f.events + rest.events + [OnPong([])];
      ReachesTrans(bufferSize, PONG_JUNK, m, again, g);
      assert events + f.events + rest.events == events + (f.events + rest.events);
    } else {
      assert events + [] == events;
      CloseDiverges(bufferSize, c, lastOpcode, events, h);
    }
  }

  // ---------- one run, one outcome ----------

  lemma {:induction false} EventsGrow(bufferSize: nat, junk: seq<Byte>, m: Machine, n: nat)
    requires |junk| == 8
    ensures |m.events| <= |Steps(bufferSize, junk, m, n).events|
    decreases n
  {
    if n > 0 {
      EventsGrow(bufferSize, junk, Step(bufferSize, junk, m), n - 1);
      StepGrows(bufferSize, junk, m);
    }
  }

  lemma StepGrows(bufferSize: nat, junk: seq<Byte>, m: Machine)
    requires |junk| == 8
    ensures |m.events| <= |Step(bufferSize, junk, m).events|
  {
    hide UnpackHeaderBits, Word16, Number, Signed, Read, Overwrite, Coded, Admits, NextOpcode, ControlEvent;
  }

  lemma {:induction false} StoppedStays(bufferSize: nat, junk: seq<Byte>, m: Machine, n: nat)
    requires |junk| == 8 && (m.action == Finished || m.action == Failed)
    ensures Steps(bufferSize, junk, m, n) == m
    decreases n
  {
    if n > 0 {
      assert Step(bufferSize, junk, m) == m;
      hide Step;
      StoppedStays(bufferSize, junk, m, n - 1);
    }
  }

  /** A run that stops has made at least the calls of every machine on the way. */
  lemma OneOutcome(bufferSize: nat, junk: seq<Byte>, m: Machine, g: Machine, o: Outcome)
    requires |junk| == 8 && Reaches(bufferSize, junk, m, g) && Stops(bufferSize, junk, m, o)
    ensures |g.events| <= |o.events|
  {
    hide Step, Steps;
    var x: nat :| Steps(bufferSize, junk, m, x) == g;
    var stop: Machine :| Reaches(bufferSize, junk, m, stop) && Shows(stop, o);
    var y: nat :| Steps(bufferSize, junk, m, y) == stop;
    if x <= y {
      StepsAdd(bufferSize, junk, m, x, y - x);
      EventsGrow(bufferSize, junk, g, y - x);
    } else {
      StepsAdd(bufferSize, junk, m, y, x - y);
      StoppedStays(bufferSize, junk, stop, x - y);
    }
  }

  lemma NotThatOutcome(bufferSize: nat, m: Machine, g: Machine, o: Outcome)
    requires Reaches(bufferSize, PONG_JUNK, m, g) && |o.events| < |g.events|
    ensures !Stops(bufferSize, PONG_JUNK, m, o)
  {
    hide Reaches, Stops;
    if Stops(bufferSize, PONG_JUNK, m, o) {
      OneOutcome(bufferSize, PONG_JUNK, m, g, o);
      assert false;
    }
  }

  /**
   * For every run that does not end inside a frame header: whatever unwritten memory holds, the coroutines
   * end as the blocking socket does, if and only if the peer did not close between two frames.
   */
  lemma ClosedExactly(bufferSize: nat, c: Conn, lastOpcode: int, events: seq<Event>, h: Header)
    requires bufferSize > 0 && HeaderOk(h) && h.opcode != OPCODE_CLOSE
    requires Listen(c, h, lastOpcode, bufferSize).headerZero ==> ClosedBetweenFrames(c, h, lastOpcode, bufferSize)
    ensures var r := Listen(c, h, lastOpcode, bufferSize);
            !ClosedBetweenFrames(c, h, lastOpcode, bufferSize) <==>
              forall junk: seq<Byte> :: |junk| == 8 ==>
                Stops(bufferSize, junk, AtFrame(ListenAct, c, lastOpcode, events, h),
                      Outcome(r.closed, r.c, r.lastOpcode, events + r.events))
  {
    hide Step, Steps, Reaches, Stops, Listen, ClosedBetweenFrames;
    var m := AtFrame(ListenAct, c, lastOpcode, events, h);
    var r := Listen(c, h, lastOpcode, bufferSize);
    var o := Outcome(r.closed, r.c, r.lastOpcode, events + r.events);
    if ClosedBetweenFrames(c, h, lastOpcode, bufferSize) {
      ExtraPong(bufferSize, c, lastOpcode, events, h);
      var g :| Reaches(bufferSize, PONG_JUNK, m, g) && g.events == events + r.events + [OnPong([])];
      NotThatOutcome(bufferSize, m, g, o);
      assert |PONG_JUNK| == 8;
    } else {
      forall junk: seq<Byte> | |junk| == 8 ensures Stops(bufferSize, junk, m, o) {
        ListenRefines(bufferSize, junk, c, lastOpcode, events, h);
      }
    }
  }
}
