/**
 * The coroutines of `AsyncWebSocket` as a step machine, against the blocking socket.
 * One step is one action of the coroutine that is running.
 */
module AsyncWebSocket {
  import opened WebSocketFrame
  import opened WebSocketReader

  /** The action to run next, named after the coroutine and its method. */
  datatype Action =
    | ListenAct
    | HeaderAct | OnBbRead | ReadLen | OnLenRead | ReadMask
    | HandleAct
    | PayloadAct | ReadData | OnDataRead
    | Finished | Failed

  /**
   * `c`, `lastOpcode` and `events` belong to the socket, `h` is the shared header. The other fields are
   * those of the coroutine objects: an inline buffer of which `filled` bytes have been read, the length
   * form, and of the payload coroutine the collected message, the progress and the bytes just read.
   */
  datatype Machine = Machine(
    action: Action, c: Conn, lastOpcode: int, events: seq<Event>, h: Header,
    buffer: seq<Byte>, filled: nat, lenType: nat,
    short: bool, message: seq<Byte>, progress: nat, data: seq<Byte>)

  /** A machine about to read a frame: no coroutine object of an earlier frame is left. */
  function AtFrame(action: Action, c: Conn, lastOpcode: int, events: seq<Event>, h: Header): Machine {
    Machine(action, c, lastOpcode, events, h, [], 0, 1, false, [], 0, [])
  }

  function Overwrite(buffer: seq<Byte>, at: nat, b: seq<Byte>): (r: seq<Byte>)
    requires at + |b| <= |buffer|
    ensures |r| == |buffer|
  {
    buffer[..at] + b + buffer[at + |b|..]
  }

  /** `readExactSizeDataAsyncInline(inlineData, next)`: on a zero the next action runs with what there is. */
  function ReadInline(m: Machine, next: Action): Machine {
    if m.filled >= |m.buffer| then m.(action := next)
    else
      match Read(m.c, |m.buffer| - m.filled)
      case (c, Got(b)) => m.(c := c, buffer := Overwrite(m.buffer, m.filled, b), filled := m.filled + |b|)
      case (c, Retry) => m.(c := c)
      case (c, Zero) => m.(c := c, action := next)
      case (c, BrokenPipe) => m.(c := c, action := Failed)
  }

  /** One action. `junk` is what memory that has not been written holds. */
  function Step(bufferSize: nat, junk: seq<Byte>, m: Machine): Machine
    requires |junk| == 8
  {
    match m.action
    case ListenAct =>
      if m.h.opcode != OPCODE_CLOSE
      then AtFrame(HeaderAct, m.c, m.lastOpcode, m.events, m.h).(buffer := junk[..2])
      else m.(action := Finished)
    case HeaderAct => ReadInline(m, OnBbRead)
    case OnBbRead =>
      if |m.buffer| != 2 then m
      else
        var (h, length1) := UnpackHeaderBits(Word16(m.buffer), m.h);
        if length1 < 126 then m.(h := h.(payloadLength := length1 as nat), lenType := 1, action := OnLenRead)
        else if length1 == 126 then m.(h := h, lenType := 2, buffer := junk[..2], filled := 0, action := ReadLen)
        else m.(h := h, lenType := 3, buffer := junk, filled := 0, action := ReadLen)
    case ReadLen => ReadInline(m, OnLenRead)
    case OnLenRead =>
      if m.lenType != 1 && |m.buffer| != 2 && |m.buffer| != 8 then m
      else
        var h := if m.lenType == 1 then m.h else
          (LengthFits(m.buffer); m.h.(payloadLength := Signed(Number(m.buffer))));
        if h.hasMask then m.(h := h, buffer := h.mask, filled := 0, action := ReadMask)
        else AtFrame(HandleAct, m.c, m.lastOpcode, m.events, h)
    case ReadMask =>
      var next := ReadInline(m, HandleAct);
      if next.action == HandleAct then AtFrame(HandleAct, next.c, next.lastOpcode, next.events, next.h.(mask := next.buffer))
      else next
    case HandleAct =>
      if !Admits(m.lastOpcode, m.h.opcode) then m.(action := Failed)
      else
        var last := NextOpcode(m.lastOpcode, m.h.fin, m.h.opcode);
        if IsControl(m.h.opcode) && m.h.payloadLength > 125 then m.(action := Failed, lastOpcode := last)
        else m.(action := PayloadAct, lastOpcode := last, short := IsControl(m.h.opcode))
    case PayloadAct =>
      if m.progress < m.h.payloadLength then m.(action := ReadData)
      else
        AtFrame(ListenAct, m.c, m.lastOpcode,
                m.events + (if m.short then [ControlEvent(m.h.opcode, m.message)]
                            else if m.h.fin then [OnEnd(m.h.opcode)] else []), m.h)
    case ReadData =>
      if m.progress >= m.h.payloadLength then m
      else
        var left := m.h.payloadLength - m.progress;
        (match Read(m.c, if bufferSize > left then left else bufferSize)
         case (c, Got(b)) => m.(c := c, data := b, action := OnDataRead)
         case (c, Retry) => m.(c := c)
         case (c, Zero) => m.(c := c, data := [], action := OnDataRead)
         case (c, BrokenPipe) => m.(c := c, action := Failed))
    case OnDataRead =>
      if m.data == [] || |m.h.mask| != 4 then m.(action := Failed)
      else
        var decoded := Coded(m.h, m.data, m.progress);
        var next := m.(progress := m.progress + |m.data|, data := [], action := PayloadAct);
        if m.short then next.(message := m.message + decoded)
        else next.(events := m.events + [OnRead(m.h.opcode, decoded)])
    case Finished => m
    case Failed => m
  }

  function Steps(bufferSize: nat, junk: seq<Byte>, m: Machine, n: nat): Machine
    requires |junk| == 8
    decreases n
  {
    if n == 0 then m else Steps(bufferSize, junk, Step(bufferSize, junk, m), n - 1)
  }

  ghost predicate Reaches(bufferSize: nat, junk: seq<Byte>, m: Machine, goal: Machine)
    requires |junk| == 8
  {
    exists n: nat :: Steps(bufferSize, junk, m, n) == goal
  }

  /** What the socket shows to the outside once it has stopped. */
  datatype Outcome = Outcome(finished: bool, c: Conn, lastOpcode: int, events: seq<Event>)

  predicate Shows(m: Machine, o: Outcome) {
    m.action == (if o.finished then Finished else Failed)
    && m.c == o.c && m.lastOpcode == o.lastOpcode && m.events == o.events
  }

  ghost predicate Stops(bufferSize: nat, junk: seq<Byte>, m: Machine, o: Outcome)
    requires |junk| == 8
  {
    exists g: Machine :: Reaches(bufferSize, junk, m, g) && Shows(g, o)
  }

  lemma {:induction false} StepsAdd(bufferSize: nat, junk: seq<Byte>, m: Machine, a: nat, b: nat)
    requires |junk| == 8
    ensures Steps(bufferSize, junk, m, a + b) == Steps(bufferSize, junk, Steps(bufferSize, junk, m, a), b)
    decreases a
  {
    hide Step;
    if a > 0 { StepsAdd(bufferSize, junk, Step(bufferSize, junk, m), a - 1, b); }
  }

  lemma ReachesItself(bufferSize: nat, junk: seq<Byte>, m: Machine)
    requires |junk| == 8
    ensures Reaches(bufferSize, junk, m, m)
  {
    hide Step;
    assert Steps(bufferSize, junk, m, 0) == m;
  }

  lemma ReachesTrans(bufferSize: nat, junk: seq<Byte>, a: Machine, b: Machine, c: Machine)
    requires |junk| == 8 && Reaches(bufferSize, junk, a, b) && Reaches(bufferSize, junk, b, c)
    ensures Reaches(bufferSize, junk, a, c)
  {
    hide Steps;
    var x: nat :| Steps(bufferSize, junk, a, x) == b;
    var y: nat :| Steps(bufferSize, junk, b, y) == c;
    StepsAdd(bufferSize, junk, a, x, y);
  }

  lemma ReachesStep(bufferSize: nat, junk: seq<Byte>, m: Machine, goal: Machine)
    requires |junk| == 8 && Reaches(bufferSize, junk, Step(bufferSize, junk, m), goal)
    ensures Reaches(bufferSize, junk, m, goal)
  {
    hide Step;
    var n: nat :| Steps(bufferSize, junk, Step(bufferSize, junk, m), n) == goal;
    assert Steps(bufferSize, junk, m, n + 1) == goal;
  }

  lemma OneStep(bufferSize: nat, junk: seq<Byte>, m: Machine)
    requires |junk| == 8
    ensures Reaches(bufferSize, junk, m, Step(bufferSize, junk, m))
  {
    hide Step, Reaches;
    ReachesItself(bufferSize, junk, Step(bufferSize, junk, m));
    ReachesStep(bufferSize, junk, m, Step(bufferSize, junk, m));
  }

  lemma StopsAfter(bufferSize: nat, junk: seq<Byte>, a: Machine, b: Machine, o: Outcome)
    requires |junk| == 8 && Reaches(bufferSize, junk, a, b) && Stops(bufferSize, junk, b, o)
    ensures Stops(bufferSize, junk, a, o)
  {
    hide Reaches, Shows;
    var g :| Reaches(bufferSize, junk, b, g) && Shows(g, o);
    ReachesTrans(bufferSize, junk, a, b, g);
  }

  lemma StopsHere(bufferSize: nat, junk: seq<Byte>, m: Machine, o: Outcome)
    requires |junk| == 8 && Shows(Step(bufferSize, junk, m), o)
    ensures Stops(bufferSize, junk, m, o)
  {
    hide Reaches, Shows, Step;
    OneStep(bufferSize, junk, m);
  }

  // ---------- reading an exact number of bytes ----------

  predicate ReadsInline(m: Machine) {
    (m.action == HeaderAct || m.action == ReadLen || m.action == ReadMask) && m.filled <= |m.buffer|
  }

  /** The machine whose inline buffer has been filled by `e`. */
  function Filled(m: Machine, e: Exact): Machine
    requires ReadsInline(m)
  {
    m.(c := e.c, buffer := m.buffer[..m.filled] + e.bytes, filled := |m.buffer|)
  }

  lemma InlineStep(bufferSize: nat, junk: seq<Byte>, m: Machine)
    requires |junk| == 8 && ReadsInline(m) && m.filled < |m.buffer|
    ensures var r := Read(m.c, |m.buffer| - m.filled);
            var next := Step(bufferSize, junk, m);
            && (r.1.Got? ==>
                  next == m.(c := r.0, buffer := Overwrite(m.buffer, m.filled, r.1.bytes), filled := m.filled + |r.1.bytes|))
            && (r.1.Retry? ==> next == m.(c := r.0))
            && (r.1.BrokenPipe? ==> next == m.(c := r.0, action := Failed))
  {
    hide Read, Overwrite;
  }

  lemma FilledGot(m: Machine, b: seq<Byte>, c: Conn, e: Exact)
    requires ReadsInline(m) && m.filled + |b| + |e.bytes| == |m.buffer|
    ensures Filled(m.(c := c, buffer := Overwrite(m.buffer, m.filled, b), filled := m.filled + |b|), e)
            == Filled(m, Exact(e.c, b + e.bytes, e.zero))
  {
    var over := Overwrite(m.buffer, m.filled, b);
    assert over[..m.filled + |b|] == m.buffer[..m.filled] + b;
    assert m.buffer[..m.filled] + b + e.bytes == m.buffer[..m.filled] + (b + e.bytes);
  }

  /** The inline read ends as `readExactSizeDataSimple` does, unless the transport returned zero. */
  lemma {:induction false} InlineReads(bufferSize: nat, junk: seq<Byte>, m: Machine)
    requires |junk| == 8 && ReadsInline(m)
    ensures var e := ReadExact(m.c, |m.buffer| - m.filled);
            if |e.bytes| == |m.buffer| - m.filled then Reaches(bufferSize, junk, m, Filled(m, e))
            else !e.zero ==> Stops(bufferSize, junk, m, Outcome(false, e.c, m.lastOpcode, m.events))
    decreases |m.c.schedule|, |m.buffer| - m.filled
  {
    hide Read, Step, Overwrite, Reaches, Stops;
    var left := |m.buffer| - m.filled;
    var next := Step(bufferSize, junk, m);
    if left == 0 {
      assert m.buffer[..m.filled] + [] == m.buffer;
      ReachesItself(bufferSize, junk, m);
    } else {
      InlineStep(bufferSize, junk, m);
      OneStep(bufferSize, junk, m);
      var (c, r) := Read(m.c, left);
      if r.Got? || r.Retry? {
        InlineReads(bufferSize, junk, next);
        InlineAgain(bufferSize, junk, m, next);
      } else if r.BrokenPipe? {
        StopsHere(bufferSize, junk, m, Outcome(false, c, m.lastOpcode, m.events));
      }
    }
  }

  /** From the next read to this one. */
  lemma InlineAgain(bufferSize: nat, junk: seq<Byte>, m: Machine, next: Machine)
    requires |junk| == 8 && ReadsInline(m) && m.filled < |m.buffer| && Reaches(bufferSize, junk, m, next)
    requires var r := Read(m.c, |m.buffer| - m.filled);
             || (r.1.Got? &&
                 next == m.(c := r.0, buffer := Overwrite(m.buffer, m.filled, r.1.bytes), filled := m.filled + |r.1.bytes|))
             || (r.1.Retry? && next == m.(c := r.0))
    requires var e := ReadExact(next.c, |next.buffer| - next.filled);
             if |e.bytes| == |next.buffer| - next.filled then Reaches(bufferSize, junk, next, Filled(next, e))
             else !e.zero ==> Stops(bufferSize, junk, next, Outcome(false, e.c, m.lastOpcode, m.events))
    ensures var e := ReadExact(m.c, |m.buffer| - m.filled);
            if |e.bytes| == |m.buffer| - m.filled then Reaches(bufferSize, junk, m, Filled(m, e))
            else !e.zero ==> Stops(bufferSize, junk, m, Outcome(false, e.c, m.lastOpcode, m.events))
  {
    hide Read, Overwrite, Reaches, Stops, Filled;
    var (c, r) := Read(m.c, |m.buffer| - m.filled);
    var e := ReadExact(next.c, |next.buffer| - next.filled);
    var whole := ReadExact(m.c, |m.buffer| - m.filled);
    if |e.bytes| == |next.buffer| - next.filled {
      if r.Got? {
        FilledGot(m, r.bytes, c, e);
      } else {
        SameFilled(m, c, e);
      }
      ReachesTrans(bufferSize, junk, m, next, Filled(m, whole));
    } else if !e.zero {
      StopsAfter(bufferSize, junk, m, next, Outcome(false, e.c, m.lastOpcode, m.events));
    }
  }

  lemma SameFilled(m: Machine, c: Conn, e: Exact)
    requires ReadsInline(m)
    ensures Filled(m.(c := c), e) == Filled(m, e)
  {
  }

  // ---------- a frame header ----------

  /** What a header read leads to: a frame to handle, a failure, or (after a zero) nothing that is claimed. */
  ghost predicate HeaderAgrees(bufferSize: nat, junk: seq<Byte>, m: Machine, r: HeaderRead)
    requires |junk| == 8
  {
    if r.ok then Reaches(bufferSize, junk, m, AtFrame(HandleAct, r.c, m.lastOpcode, m.events, r.h))
    else !r.zero ==> Stops(bufferSize, junk, m, Outcome(false, r.c, m.lastOpcode, m.events))
  }

  lemma HeaderAgreesAfter(bufferSize: nat, junk: seq<Byte>, a: Machine, b: Machine, r: HeaderRead)
    requires |junk| == 8 && Reaches(bufferSize, junk, a, b) && HeaderAgrees(bufferSize, junk, b, r)
    requires a.lastOpcode == b.lastOpcode && a.events == b.events
    ensures HeaderAgrees(bufferSize, junk, a, r)
  {
    hide Reaches, Stops;
    if r.ok {
      ReachesTrans(bufferSize, junk, a, b, AtFrame(HandleAct, r.c, b.lastOpcode, b.events, r.h));
    } else if !r.zero {
      StopsAfter(bufferSize, junk, a, b, Outcome(false, r.c, b.lastOpcode, b.events));
    }
  }

  /** The header once the length bytes have arrived. */
  function ResolvedHeader(m: Machine): Header
    requires m.lenType == 1 || |m.buffer| == 2 || |m.buffer| == 8
  {
    if m.lenType == 1 then m.h
    else
      LengthFits(m.buffer);
      m.h.(payloadLength := Signed(Number(m.buffer)))
  }

  lemma OnLenReadStep(bufferSize: nat, junk: seq<Byte>, m: Machine)
    requires |junk| == 8 && m.action == OnLenRead && (m.lenType == 1 || |m.buffer| == 2 || |m.buffer| == 8)
    ensures var h := ResolvedHeader(m);
            Step(bufferSize, junk, m) ==
              if h.hasMask then m.(h := h, buffer := h.mask, filled := 0, action := ReadMask)
              else AtFrame(HandleAct, m.c, m.lastOpcode, m.events, h)
  {
    hide Number, Signed;
  }

  lemma ReadMaskStep(bufferSize: nat, junk: seq<Byte>, m: Machine)
    requires |junk| == 8 && m.action == ReadMask && m.filled == |m.buffer|
    ensures Step(bufferSize, junk, m) == AtFrame(HandleAct, m.c, m.lastOpcode, m.events, m.h.(mask := m.buffer))
  {
  }

  lemma MaskAgrees(bufferSize: nat, junk: seq<Byte>, m: Machine)
    requires |junk| == 8 && m.action == OnLenRead && (m.lenType == 1 || |m.buffer| == 2 || |m.buffer| == 8)
    requires HeaderOk(ResolvedHeader(m))
    ensures HeaderAgrees(bufferSize, junk, m, WebSocketReader.ReadMask(m.c, ResolvedHeader(m)))
  {
    hide Step, Reaches, Stops, ReadExact, ResolvedHeader;
    var h := ResolvedHeader(m);
    OnLenReadStep(bufferSize, junk, m);
    OneStep(bufferSize, junk, m);
    var next := Step(bufferSize, junk, m);
    if h.hasMask {
      var e := ReadExact(m.c, 4);
      InlineReads(bufferSize, junk, next);
      if |e.bytes| == 4 {
        var full := Filled(next, e);
        assert full.buffer == e.bytes;
        ReadMaskStep(bufferSize, junk, full);
        OneStep(bufferSize, junk, full);
        ReachesTrans(bufferSize, junk, next, full, Step(bufferSize, junk, full));
      }
      HeaderAgreesAfter(bufferSize, junk, m, next, WebSocketReader.ReadMask(m.c, h));
    }
  }

  lemma FilledStep(bufferSize: nat, junk: seq<Byte>, m: Machine)
    requires |junk| == 8 && (m.action == ReadLen || m.action == HeaderAct) && m.filled == |m.buffer|
    ensures Step(bufferSize, junk, m) == m.(action := if m.action == ReadLen then OnLenRead else OnBbRead)
  {
  }

  /** From the length bytes on. */
  lemma LengthAgrees(bufferSize: nat, junk: seq<Byte>, m: Machine, k: nat)
    requires |junk| == 8 && m.action == ReadLen && m.filled == 0 && |m.buffer| == k && (k == 2 || k == 8)
    requires m.lenType != 1 && HeaderOk(m.h)
    ensures HeaderAgrees(bufferSize, junk, m, WebSocketReader.ReadLength(m.c, m.h, if k == 2 then 126 else 127))
  {
    hide Step, Reaches, Stops, ReadExact, WebSocketReader.ReadMask, Number, Signed;
    var e := ReadExact(m.c, k);
    InlineReads(bufferSize, junk, m);
    if |e.bytes| == k {
      var full := Filled(m, e);
      assert full.buffer == e.bytes;
      FilledStep(bufferSize, junk, full);
      OneStep(bufferSize, junk, full);
      var on := Step(bufferSize, junk, full);
      ReachesTrans(bufferSize, junk, m, full, on);
      MaskAgrees(bufferSize, junk, on);
      HeaderAgreesAfter(bufferSize, junk, m, on, WebSocketReader.ReadMask(e.c, ResolvedHeader(on)));
    }
  }

  lemma OnBbReadStep(bufferSize: nat, junk: seq<Byte>, m: Machine)
    requires |junk| == 8 && m.action == OnBbRead && |m.buffer| == 2
    ensures var (h, length1) := UnpackHeaderBits(Word16(m.buffer), m.h);
            Step(bufferSize, junk, m) ==
              if length1 < 126 then m.(h := h.(payloadLength := length1 as nat), lenType := 1, action := OnLenRead)
              else if length1 == 126 then m.(h := h, lenType := 2, buffer := junk[..2], filled := 0, action := ReadLen)
              else m.(h := h, lenType := 3, buffer := junk, filled := 0, action := ReadLen)
  {
    hide UnpackHeaderBits, Word16;
  }

  /** From the two first bytes on. */
  lemma BitsAgree(bufferSize: nat, junk: seq<Byte>, m: Machine)
    requires |junk| == 8 && m.action == OnBbRead && |m.buffer| == 2 && HeaderOk(m.h)
    ensures var (h, length1) := UnpackHeaderBits(Word16(m.buffer), m.h);
            HeaderAgrees(bufferSize, junk, m, WebSocketReader.ReadLength(m.c, h, length1))
  {
    hide Step, Reaches, Stops, ReadExact, WebSocketReader.ReadMask, HeaderAgrees, UnpackHeaderBits, Word16, Number, Signed;
    var (h, length1) := UnpackHeaderBits(Word16(m.buffer), m.h);
    OnBbReadStep(bufferSize, junk, m);
    OneStep(bufferSize, junk, m);
    var next := Step(bufferSize, junk, m);
    if length1 < 126 {
      MaskAgrees(bufferSize, junk, next);
    } else {
      LengthAgrees(bufferSize, junk, next, if length1 == 126 then 2 else 8);
    }
    HeaderAgreesAfter(bufferSize, junk, m, next, WebSocketReader.ReadLength(m.c, h, length1));
  }

  /** The header coroutine and `readFrameHeader` read the same header, unless the peer leaves it unfinished. */
  lemma HeaderRefines(bufferSize: nat, junk: seq<Byte>, c: Conn, lastOpcode: int, events: seq<Event>, h: Header)
    requires |junk| == 8 && HeaderOk(h) && h.opcode != OPCODE_CLOSE
    ensures HeaderAgrees(bufferSize, junk, AtFrame(ListenAct, c, lastOpcode, events, h), ReadHeader(c, h))
  {
    hide Reaches, Stops, ReadExact, WebSocketReader.ReadLength, UnpackHeaderBits, Word16;
    var at := AtFrame(ListenAct, c, lastOpcode, events, h);
    var start := AtFrame(HeaderAct, c, lastOpcode, events, h).(buffer := junk[..2]);
    assert Step(bufferSize, junk, at) == start;
    OneStep(bufferSize, junk, at);
    hide Step;
    var e := ReadExact(c, 2);
    InlineReads(bufferSize, junk, start);
    if |e.bytes| == 2 {
      var full := Filled(start, e);
      assert full.buffer == e.bytes;
      FilledStep(bufferSize, junk, full);
      OneStep(bufferSize, junk, full);
      var on := Step(bufferSize, junk, full);
      ReachesTrans(bufferSize, junk, start, full, on);
      BitsAgree(bufferSize, junk, on);
      HeaderAgreesAfter(bufferSize, junk, start, on, ReadHeader(c, h));
    }
    HeaderAgreesAfter(bufferSize, junk, at, start, ReadHeader(c, h));
  }

  // ---------- a payload ----------

  /** The events that reading the payload adds, given the message collected so far. */
  function PayloadEvents(m: Machine, p: PayloadRead): seq<Event> {
    if m.short then if p.ok then [ControlEvent(m.h.opcode, m.message + Join(p.parts))] else []
    else ReadEvents(m.h.opcode, p.parts) + if p.ok && m.h.fin then [OnEnd(m.h.opcode)] else []
  }

  ghost predicate FrameAgrees(bufferSize: nat, junk: seq<Byte>, m: Machine, r: Handled)
    requires |junk| == 8
  {
    if r.ok then Reaches(bufferSize, junk, m, AtFrame(ListenAct, r.c, r.lastOpcode, m.events + r.events, m.h))
    else Stops(bufferSize, junk, m, Outcome(false, r.c, r.lastOpcode, m.events + r.events))
  }

  lemma FrameAgreesAfter(bufferSize: nat, junk: seq<Byte>, a: Machine, b: Machine, more: seq<Event>, r: Handled)
    requires |junk| == 8 && Reaches(bufferSize, junk, a, b) && FrameAgrees(bufferSize, junk, b, r)
    requires b.events == a.events + more && a.h == b.h
    ensures FrameAgrees(bufferSize, junk, a, r.(events := more + r.events))
  {
    hide Reaches, Stops;
    assert a.events + (more + r.events) == b.events + r.events;
    if r.ok {
      ReachesTrans(bufferSize, junk, a, b, AtFrame(ListenAct, r.c, r.lastOpcode, b.events + r.events, b.h));
    } else {
      StopsAfter(bufferSize, junk, a, b, Outcome(false, r.c, r.lastOpcode, b.events + r.events));
    }
  }

  function PayloadHandled(m: Machine, p: PayloadRead): Handled {
    Handled(p.c, p.ok, m.lastOpcode, PayloadEvents(m, p))
  }

  /** Between two reads of the payload, or about to read. */
  predicate InPayload(m: Machine) {
    && HeaderOk(m.h)
    && (m.action == PayloadAct || (m.action == ReadData && m.progress < m.h.payloadLength))
  }

  /** The machine that has handed on the bytes `b`. */
  function HandedOn(m: Machine, c: Conn, b: seq<Byte>): Machine
    requires HeaderOk(m.h)
  {
    var decoded := Coded(m.h, b, m.progress);
    m.(c := c, progress := m.progress + |b|, data := [], action := PayloadAct,
       message := if m.short then m.message + decoded else m.message,
       events := if m.short then m.events else m.events + [OnRead(m.h.opcode, decoded)])
  }

  lemma DataStep(bufferSize: nat, junk: seq<Byte>, m: Machine)
    requires |junk| == 8 && InPayload(m) && m.action == ReadData
    ensures var left := m.h.payloadLength - m.progress;
            var r := Read(m.c, if bufferSize > left then left else bufferSize);
            var next := Step(bufferSize, junk, m);
            && (r.1.Got? ==> next == m.(c := r.0, data := r.1.bytes, action := OnDataRead))
            && (r.1.Retry? ==> next == m.(c := r.0))
            && (r.1.Zero? ==> next == m.(c := r.0, data := [], action := OnDataRead))
            && (r.1.BrokenPipe? ==> next == m.(c := r.0, action := Failed))
  {
    hide Read;
  }

  lemma OnDataReadStep(bufferSize: nat, junk: seq<Byte>, m: Machine)
    requires |junk| == 8 && HeaderOk(m.h) && m.action == OnDataRead
    ensures Step(bufferSize, junk, m) ==
            if m.data == [] then m.(action := Failed) else HandedOn(m, m.c, m.data)
  {
    hide Coded;
  }

  lemma PayloadActStep(bufferSize: nat, junk: seq<Byte>, m: Machine)
    requires |junk| == 8 && m.action == PayloadAct
    ensures var ends := if m.short then [ControlEvent(m.h.opcode, m.message)]
                        else if m.h.fin then [OnEnd(m.h.opcode)] else [];
            Step(bufferSize, junk, m) ==
              if m.progress < m.h.payloadLength then m.(action := ReadData)
              else AtFrame(ListenAct, m.c, m.lastOpcode, m.events + ends, m.h)
  {
    hide ControlEvent;
  }

  /** What a further part adds to the events, whichever way they are collected. */
  lemma PayloadEventsMore(m: Machine, c: Conn, b: seq<Byte>, p: PayloadRead)
    requires HeaderOk(m.h)
    ensures var part := Coded(m.h, b, m.progress);
            PayloadEvents(m, p.(parts := [part] + p.parts))
            == (if m.short then [] else [OnRead(m.h.opcode, part)]) + PayloadEvents(HandedOn(m, c, b), p)
  {
    hide Coded, ControlEvent;
    var part := Coded(m.h, b, m.progress);
    assert ([part] + p.parts)[1..] == p.parts;
    assert m.message + (part + Join(p.parts)) == m.message + part + Join(p.parts);
    assert ReadEvents(m.h.opcode, [part] + p.parts) == [OnRead(m.h.opcode, part)] + ReadEvents(m.h.opcode, p.parts);
  }

  /** The payload coroutine reads and hands on what `readPayload` does, whatever the reads give. */
  lemma {:induction false} PayloadRefines(bufferSize: nat, junk: seq<Byte>, m: Machine)
    requires |junk| == 8 && bufferSize > 0 && InPayload(m)
    ensures FrameAgrees(bufferSize, junk, m, PayloadHandled(m, ReadPayload(m.c, m.h, m.progress, bufferSize)))
    decreases |m.c.schedule|, m.action == PayloadAct
  {
    hide Step, Reaches, Stops, Read, ReadPayload, PayloadEvents, FrameAgrees, HandedOn;
    var p := ReadPayload(m.c, m.h, m.progress, bufferSize);
    var next := Step(bufferSize, junk, m);
    OneStep(bufferSize, junk, m);
    if m.progress >= m.h.payloadLength {
      PayloadEnds(bufferSize, junk, m);
    } else if m.action == PayloadAct {
      PayloadActStep(bufferSize, junk, m);
      PayloadRefines(bufferSize, junk, next);
      SamePayloadEvents(m, m.c, ReadData, p);
      FrameAgreesAfter(bufferSize, junk, m, next, [], PayloadHandled(next, p));
      NothingBefore(PayloadHandled(next, p));
    } else {
      DataStep(bufferSize, junk, m);
      var left := m.h.payloadLength - m.progress;
      var (c, r) := Read(m.c, if bufferSize > left then left else bufferSize);
      if r.Got? {
        OnDataReadStep(bufferSize, junk, next);
        SameHandedOn(m, c, r.bytes);
        var on := HandedOn(m, c, r.bytes);
        HandedOnKeeps(m, c, r.bytes);
        OneStep(bufferSize, junk, next);
        ReachesTrans(bufferSize, junk, m, next, on);
        PayloadRefines(bufferSize, junk, on);
        PayloadGot(bufferSize, junk, m, on);
      } else if r.Retry? {
        PayloadRefines(bufferSize, junk, next);
        PayloadRetry(bufferSize, m);
        SamePayloadEvents(m, c, ReadData, p);
        FrameAgreesAfter(bufferSize, junk, m, next, [], PayloadHandled(next, p));
        NothingBefore(PayloadHandled(next, p));
      } else {
        PayloadFails(bufferSize, junk, m);
      }
    }
  }

  lemma NothingBefore(r: Handled)
    ensures r.(events := [] + r.events) == r
  {
    assert [] + r.events == r.events;
  }

  lemma SamePayloadEvents(m: Machine, c: Conn, action: Action, p: PayloadRead)
    ensures PayloadEvents(m.(c := c, action := action), p) == PayloadEvents(m, p)
  {
  }

  lemma SameHandedOn(m: Machine, c: Conn, b: seq<Byte>)
    requires HeaderOk(m.h)
    ensures HandedOn(m.(c := c, data := b, action := OnDataRead), c, b) == HandedOn(m, c, b)
  {
    hide Coded;
  }

  lemma HandedOnKeeps(m: Machine, c: Conn, b: seq<Byte>)
    requires HeaderOk(m.h)
    ensures var on := HandedOn(m, c, b);
            && on.action == PayloadAct && on.h == m.h && on.c == c && on.progress == m.progress + |b|
            && on.lastOpcode == m.lastOpcode
            && on.events == m.events + if m.short then [] else [OnRead(m.h.opcode, Coded(m.h, b, m.progress))]
  {
    hide Coded;
  }

  lemma PayloadEnds(bufferSize: nat, junk: seq<Byte>, m: Machine)
    requires |junk| == 8 && InPayload(m) && m.progress >= m.h.payloadLength
    ensures FrameAgrees(bufferSize, junk, m, PayloadHandled(m, ReadPayload(m.c, m.h, m.progress, bufferSize)))
  {
    hide Step, Reaches, ControlEvent;
    PayloadActStep(bufferSize, junk, m);
    OneStep(bufferSize, junk, m);
    var p := ReadPayload(m.c, m.h, m.progress, bufferSize);
    assert p == PayloadRead(m.c, true, []);
    assert m.message + Join(p.parts) == m.message;
    assert ReadEvents(m.h.opcode, p.parts) == [];
    assert PayloadEvents(m, p) == if m.short then [ControlEvent(m.h.opcode, m.message)]
                                  else if m.h.fin then [OnEnd(m.h.opcode)] else [];
  }

  lemma PayloadRetry(bufferSize: nat, m: Machine)
    requires InPayload(m) && m.progress < m.h.payloadLength
    ensures var left := m.h.payloadLength - m.progress;
            var r := Read(m.c, if bufferSize > left then left else bufferSize);
            r.1.Retry? ==> ReadPayload(m.c, m.h, m.progress, bufferSize) == ReadPayload(r.0, m.h, m.progress, bufferSize)
  {
    hide Read, Coded;
  }

  lemma PayloadGot(bufferSize: nat, junk: seq<Byte>, m: Machine, on: Machine)
    requires |junk| == 8 && InPayload(m) && m.progress < m.h.payloadLength
    requires var left := m.h.payloadLength - m.progress;
             var r := Read(m.c, if bufferSize > left then left else bufferSize);
             r.1.Got? && on == HandedOn(m, r.0, r.1.bytes)
    requires Reaches(bufferSize, junk, m, on)
    requires FrameAgrees(bufferSize, junk, on, PayloadHandled(on, ReadPayload(on.c, on.h, on.progress, bufferSize)))
    ensures FrameAgrees(bufferSize, junk, m, PayloadHandled(m, ReadPayload(m.c, m.h, m.progress, bufferSize)))
  {
    hide Step, Reaches, Read, FrameAgrees, Coded, PayloadEvents, HandedOn;
    var left := m.h.payloadLength - m.progress;
    var (c, r) := Read(m.c, if bufferSize > left then left else bufferSize);
    HandedOnKeeps(m, c, r.bytes);
    var rest := ReadPayload(on.c, on.h, on.progress, bufferSize);
    PayloadEventsMore(m, c, r.bytes, rest);
    FrameAgreesAfter(bufferSize, junk, m, on, if m.short then [] else [OnRead(m.h.opcode, Coded(m.h, r.bytes, m.progress))],
                     PayloadHandled(on, rest));
  }

  lemma PayloadFails(bufferSize: nat, junk: seq<Byte>, m: Machine)
    requires |junk| == 8 && InPayload(m) && m.action == ReadData
    requires var left := m.h.payloadLength - m.progress;
             var r := Read(m.c, if bufferSize > left then left else bufferSize);
             r.1.Zero? || r.1.BrokenPipe?
    ensures FrameAgrees(bufferSize, junk, m, PayloadHandled(m, ReadPayload(m.c, m.h, m.progress, bufferSize)))
  {
    hide Step, Reaches, Stops, Read, Coded, ControlEvent;
    DataStep(bufferSize, junk, m);
    OneStep(bufferSize, junk, m);
    var next := Step(bufferSize, junk, m);
    var p := ReadPayload(m.c, m.h, m.progress, bufferSize);
    assert m.events + PayloadEvents(m, p) == m.events;
    var o := Outcome(false, p.c, m.lastOpcode, m.events);
    if next.action == OnDataRead {
      OnDataReadStep(bufferSize, junk, next);
      StopsHere(bufferSize, junk, next, o);
      StopsAfter(bufferSize, junk, m, next, o);
    } else {
      StopsHere(bufferSize, junk, m, o);
    }
  }

  // ---------- a frame, and the whole run ----------

  lemma HandleActStep(bufferSize: nat, junk: seq<Byte>, m: Machine)
    requires |junk| == 8 && m.action == HandleAct
    ensures var last := NextOpcode(m.lastOpcode, m.h.fin, m.h.opcode);
            Step(bufferSize, junk, m) ==
              if !Admits(m.lastOpcode, m.h.opcode) then m.(action := Failed)
              else if IsControl(m.h.opcode) && m.h.payloadLength > 125 then m.(action := Failed, lastOpcode := last)
              else m.(action := PayloadAct, lastOpcode := last, short := IsControl(m.h.opcode))
  {
    hide Admits, NextOpcode, IsControl;
  }

  lemma HandledAsPayload(m: Machine, bufferSize: nat)
    requires HeaderOk(m.h) && Admits(m.lastOpcode, m.h.opcode) && m.message == []
    requires m.short == IsControl(m.h.opcode) && (m.short ==> m.h.payloadLength <= 125)
    ensures var last := NextOpcode(m.lastOpcode, m.h.fin, m.h.opcode);
            HandleFrame(m.c, m.h, m.lastOpcode, bufferSize)
            == PayloadHandled(m.(lastOpcode := last), ReadPayload(m.c, m.h, 0, bufferSize))
  {
    hide Admits, NextOpcode, IsControl, ReadPayload, ControlEvent;
    var p := ReadPayload(m.c, m.h, 0, bufferSize);
    assert [] + Join(p.parts) == Join(p.parts);
  }

  lemma FrameRefines(bufferSize: nat, junk: seq<Byte>, c: Conn, lastOpcode: int, events: seq<Event>, h: Header)
    requires |junk| == 8 && bufferSize > 0 && HeaderOk(h)
    ensures FrameAgrees(bufferSize, junk, AtFrame(HandleAct, c, lastOpcode, events, h), HandleFrame(c, h, lastOpcode, bufferSize))
  {
    hide Step, Reaches, Stops, Admits, NextOpcode, IsControl, ReadPayload, PayloadEvents;
    var m := AtFrame(HandleAct, c, lastOpcode, events, h);
    var r := HandleFrame(c, h, lastOpcode, bufferSize);
    HandleActStep(bufferSize, junk, m);
    OneStep(bufferSize, junk, m);
    var next := Step(bufferSize, junk, m);
    if next.action == Failed {
      assert events + [] == events;
      StopsHere(bufferSize, junk, m, Outcome(false, c, r.lastOpcode, events));
    } else {
      PayloadRefines(bufferSize, junk, next);
      HandledAsPayload(m.(short := IsControl(h.opcode)), bufferSize);
      var p := ReadPayload(c, h, 0, bufferSize);
      SamePayload(m, next, p);
      FrameAgreesAfter(bufferSize, junk, m, next, [], PayloadHandled(next, p));
      NothingBefore(PayloadHandled(next, p));
    }
  }

  lemma SamePayload(m: Machine, next: Machine, p: PayloadRead)
    requires next == m.(action := PayloadAct, lastOpcode := next.lastOpcode, short := next.short)
    ensures PayloadHandled(next, p) == PayloadHandled(m.(lastOpcode := next.lastOpcode, short := next.short), p)
  {
  }

  /**
   * The coroutines refine the blocking socket: over the same incoming bytes and the same results of the
   * reads they make the same calls to the listener and end in the same state, unless the transport
   * returned zero inside a frame header.
   */
  lemma {:induction false} ListenRefines(
    bufferSize: nat, junk: seq<Byte>, c: Conn, lastOpcode: int, events: seq<Event>, h: Header)
    requires |junk| == 8 && bufferSize > 0 && HeaderOk(h) && h.opcode != OPCODE_CLOSE
    ensures var r := Listen(c, h, lastOpcode, bufferSize);
            !r.headerZero ==>
              Stops(bufferSize, junk, AtFrame(ListenAct, c, lastOpcode, events, h),
                    Outcome(r.closed, r.c, r.lastOpcode, events + r.events))
    decreases |c.schedule|
  {
    hide Step, Reaches, Stops, ReadHeader, HandleFrame;
    var m := AtFrame(ListenAct, c, lastOpcode, events, h);
    var head := ReadHeader(c, h);
    HeaderShrinks(c, h);
    HeaderRefines(bufferSize, junk, c, lastOpcode, events, h);
    if head.ok {
      var handle := AtFrame(HandleAct, head.c, lastOpcode, events, head.h);
      var f := HandleFrame(head.c, head.h, lastOpcode, bufferSize);
      FrameRefines(bufferSize, junk, head.c, lastOpcode, events, head.h);
      if !f.ok {
        StopsAfter(bufferSize, junk, m, handle, Outcome(false, f.c, f.lastOpcode, events + f.events));
      } else {
        ListenGoesOn(bufferSize, junk, c, lastOpcode, events, h);
        if head.h.opcode != OPCODE_CLOSE {
          ListenRefines(bufferSize, junk, f.c, f.lastOpcode, events + f.events, head.h);
          ListenJoins(bufferSize, junk, c, lastOpcode, events, h);
        }
      }
    } else {
      assert events + [] == events;
    }
  }

  /** After a frame the machine is back at `ListenAct`; a close frame ends the run. */
  lemma ListenGoesOn(bufferSize: nat, junk: seq<Byte>, c: Conn, lastOpcode: int, events: seq<Event>, h: Header)
    requires |junk| == 8 && HeaderOk(h)
    requires var head := ReadHeader(c, h);
             && head.ok && HeaderOk(head.h)
             && HeaderAgrees(bufferSize, junk, AtFrame(ListenAct, c, lastOpcode, events, h), head)
             && HandleFrame(head.c, head.h, lastOpcode, bufferSize).ok
             && FrameAgrees(bufferSize, junk, AtFrame(HandleAct, head.c, lastOpcode, events, head.h),
                            HandleFrame(head.c, head.h, lastOpcode, bufferSize))
    ensures var head := ReadHeader(c, h);
            var f := HandleFrame(head.c, head.h, lastOpcode, bufferSize);
            && Reaches(bufferSize, junk, AtFrame(ListenAct, c, lastOpcode, events, h),
                       AtFrame(ListenAct, f.c, f.lastOpcode, events + f.events, head.h))
            && (head.h.opcode == OPCODE_CLOSE ==>
                  Stops(bufferSize, junk, AtFrame(ListenAct, c, lastOpcode, events, h),
                        Outcome(true, f.c, f.lastOpcode, events + f.events)))
  {
    hide Reaches, Stops, ReadHeader, HandleFrame;
    var m := AtFrame(ListenAct, c, lastOpcode, events, h);
    var head := ReadHeader(c, h);
    var f := HandleFrame(head.c, head.h, lastOpcode, bufferSize);
    var handle := AtFrame(HandleAct, head.c, lastOpcode, events, head.h);
    var again := AtFrame(ListenAct, f.c, f.lastOpcode, events + f.events, head.h);
    ReachesTrans(bufferSize, junk, m, handle, again);
    if head.h.opcode == OPCODE_CLOSE {
      assert Step(bufferSize, junk, again) == again.(action := Finished);
      hide Step;
      var o := Outcome(true, f.c, f.lastOpcode, events + f.events);
      StopsHere(bufferSize, junk, again, o);
      StopsAfter(bufferSize, junk, m, again, o);
    }
  }

  lemma ListenJoins(bufferSize: nat, junk: seq<Byte>, c: Conn, lastOpcode: int, events: seq<Event>, h: Header)
    requires |junk| == 8 && HeaderOk(h)
    requires var head := ReadHeader(c, h);
             && head.ok && HeaderOk(head.h) && head.h.opcode != OPCODE_CLOSE
             && var f := HandleFrame(head.c, head.h, lastOpcode, bufferSize);
             && f.ok
             && Reaches(bufferSize, junk, AtFrame(ListenAct, c, lastOpcode, events, h),
                        AtFrame(ListenAct, f.c, f.lastOpcode, events + f.events, head.h))
             && var rest := Listen(f.c, head.h, f.lastOpcode, bufferSize);
             !rest.headerZero ==>
               Stops(bufferSize, junk, AtFrame(ListenAct, f.c, f.lastOpcode, events + f.events, head.h),
                     Outcome(rest.closed, rest.c, rest.lastOpcode, events + f.events + rest.events))
    ensures var r := Listen(c, h, lastOpcode, bufferSize);
            !r.headerZero ==>
              Stops(bufferSize, junk, AtFrame(ListenAct, c, lastOpcode, events, h),
                    Outcome(r.closed, r.c, r.lastOpcode, events + r.events))
  {
    hide Reaches, Stops, ReadHeader, HandleFrame;
    var head := ReadHeader(c, h);
    var f := HandleFrame(head.c, head.h, lastOpcode, bufferSize);
    var rest := Listen(f.c, head.h, f.lastOpcode, bufferSize);
    if !rest.headerZero {
      assert events + f.events + rest.events == events + (f.events + rest.events);
      StopsAfter(bufferSize, junk, AtFrame(ListenAct, c, lastOpcode, events, h),
                 AtFrame(ListenAct, f.c, f.lastOpcode, events + f.events, head.h),
                 Outcome(rest.closed, rest.c, rest.lastOpcode, events + f.events + rest.events));
    }
  }
}
