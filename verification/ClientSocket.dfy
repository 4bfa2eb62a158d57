/**
 * Who may touch the socket of a `ClientImpl`: `send`, `send_`, `stop` and the closing inside
 * `process_request`, as a state machine over any number of threads. A step is one critical section of the
 * socket mutex, or taking or releasing the recursive request mutex.
 */
module ClientSocket {
  import opened Wrappers

  type Thread = nat

  /** Where a `send_` is: before it registers, past that, or returned; `again` is `SSLPeerCouldBeClosed_`. */
  datatype Phase = Entering | InFlight | Returned(ret: bool, again: bool)

  /** A call of `send`, at its first or second `send_`. */
  datatype Frame = Frame(phase: Phase, second: bool)

  /**
   * `owner` and `depth` are the request mutex. `socket` is the socket in use, `shut` whether it has been shut
   * down, `sockets` how many have been opened. `failed` says that an assertion of the source did not hold.
   */
  datatype Client = Client(
    owner: Option<Thread>, depth: nat, stacks: map<Thread, seq<Frame>>,
    inFlight: int, fromThread: Option<Thread>, shouldClose: bool,
    socket: Option<nat>, shut: bool, sockets: nat, failed: bool)

  /** How connecting goes: a failed handshake closes what was just opened. */
  datatype Connect = Connected | Refused | HandshakeFailed

  datatype Step =
    | Begin(thread: Thread)
    | Register(thread: Thread, alive: bool, connect: Connect)
    | CloseOnResponse(thread: Thread)
    | Exit(thread: Thread, ret: bool, closeConnection: bool, again: bool)
    | Leave(thread: Thread)
    | Stop(thread: Thread)

  function Init(): Client {
    Client(None, 0, map[], 0, None, false, None, false, 0, false)
  }

  function Stack(c: Client, t: Thread): seq<Frame> {
    if t in c.stacks then c.stacks[t] else []
  }

  predicate TopIs(c: Client, t: Thread, phase: Phase) {
    var s := Stack(c, t);
    s != [] && s[|s| - 1].phase == phase
  }

  function WithTop(c: Client, t: Thread, f: Frame): Client
    requires Stack(c, t) != []
  {
    var s := Stack(c, t);
    c.(stacks := c.stacks[t := s[..|s| - 1] + [f]])
  }

  /**
   * A nested `send` comes from a request that is being processed: a redirect, digest authentication, a callback.
   * Any open socket may look alive, also one that was shut down with bytes unread.
   */
  predicate Enabled(c: Client, s: Step) {
    match s
    case Begin(t) => (c.owner == None || c.owner == Some(t)) && (Stack(c, t) == [] || TopIs(c, t, InFlight))
    case Register(t, alive, _) => TopIs(c, t, Entering) && (alive ==> c.socket.Some?)
    case CloseOnResponse(t) => TopIs(c, t, InFlight)
    case Exit(t, ret, _, again) => TopIs(c, t, InFlight) && (again ==> !ret)
    case Leave(t) => Stack(c, t) != [] && Stack(c, t)[|Stack(c, t)| - 1].phase.Returned?
    case Stop(_) => true
  }

  /** The condition that `shutdown_ssl` and `close_socket` assert. */
  predicate MayClose(c: Client, t: Thread) {
    c.inFlight == 0 || c.fromThread == Some(t)
  }

  function Asserted(c: Client, holds: bool): Client {
    c.(failed := c.failed || !holds)
  }

  /** `shutdown_ssl`, `shutdown_socket`, `close_socket` */
  function Closed(c: Client, t: Thread): Client {
    Asserted(c, MayClose(c, t)).(socket := None, shut := false)
  }

  function Opened(c: Client): Client {
    c.(socket := Some(c.sockets), sockets := c.sockets + 1, shut := false)
  }

  /** The first critical section of `send_`. */
  function RegisterStep(c: Client, t: Thread, alive: bool, connect: Connect): Client
    requires Enabled(c, Register(t, alive, connect))
  {
    var second := Stack(c, t)[|Stack(c, t)| - 1].second;
    var unmarked := c.(shouldClose := false);
    var usable := if c.socket.Some? && !alive then Closed(unmarked, t) else unmarked;
    if !alive && connect == Refused then WithTop(usable, t, Frame(Returned(false, false), second))
    else if !alive && connect == HandshakeFailed then
      WithTop(Closed(Opened(usable), t), t, Frame(Returned(false, false), second))
    else
      var ready := if alive then usable else Opened(usable);
      var checked := Asserted(ready, ready.inFlight > 1 ==> ready.fromThread == Some(t));
      WithTop(checked.(inFlight := checked.inFlight + 1, fromThread := Some(t)), t, Frame(InFlight, second))
  }

  /** The critical section at the end of `send_`. */
  function ExitStep(c: Client, t: Thread, ret: bool, closeConnection: bool, again: bool): Client
    requires Enabled(c, Exit(t, ret, closeConnection, again))
  {
    var second := Stack(c, t)[|Stack(c, t)| - 1].second;
    var less := c.(inFlight := c.inFlight - 1);
    var left := if less.inFlight <= 0 then Asserted(less, less.inFlight == 0).(fromThread := None) else less;
    var done := if c.shouldClose || closeConnection || !ret then Closed(left, t) else left;
    WithTop(done, t, Frame(Returned(ret, again), second))
  }

  function Next(c: Client, s: Step): Client
    requires Enabled(c, s)
  {
    match s
    case Begin(t) =>
      c.(owner := Some(t), depth := c.depth + 1, stacks := c.stacks[t := Stack(c, t) + [Frame(Entering, false)]])
    case Register(t, alive, connect) => RegisterStep(c, t, alive, connect)
    case CloseOnResponse(t) => Closed(c, t)
    case Exit(t, ret, closeConnection, again) => ExitStep(c, t, ret, closeConnection, again)
    case Leave(t) =>
      var st := Stack(c, t);
      var top := st[|st| - 1];
      if top.phase.again && !top.second then WithTop(c, t, Frame(Entering, true))
      else
        c.(stacks := c.stacks[t := st[..|st| - 1]], depth := if c.depth == 0 then 0 else c.depth - 1,
           owner := if c.depth <= 1 then None else c.owner)
    case Stop(t) =>
      if c.inFlight > 0 then c.(shut := c.shut || c.socket.Some?, shouldClose := true) else Closed(c, t)
  }

  predicate IsRun(c: Client, steps: seq<Step>)
    decreases |steps|
  {
    steps == [] || (Enabled(c, steps[0]) && IsRun(Next(c, steps[0]), steps[1..]))
  }

  function After(c: Client, steps: seq<Step>): Client
    requires IsRun(c, steps)
    decreases |steps|
  {
    if steps == [] then c else After(Next(c, steps[0]), steps[1..])
  }

  // ---------- what every step keeps ----------

  /** The `send_` frames of a stack that are past registration. */
  function Registered(s: seq<Frame>): nat {
    if s == [] then 0 else Registered(s[..|s| - 1]) + if s[|s| - 1].phase == InFlight then 1 else 0
  }

  /** Only the thread with the request mutex has frames, as many as the mutex is deep. */
  ghost predicate Owned(c: Client) {
    && (c.owner == None <==> c.depth == 0)
    && (forall t: Thread :: Stack(c, t) != [] ==> c.owner == Some(t))
    && (c.owner.Some? ==> |Stack(c, c.owner.value)| == c.depth)
  }

  function OwnerStack(c: Client): seq<Frame> {
    if c.owner.Some? then Stack(c, c.owner.value) else []
  }

  /** The in-flight count is the number of registered frames, and the recorded thread is theirs. */
  predicate Counted(c: Client) {
    && c.inFlight == Registered(OwnerStack(c))
    && c.fromThread == if c.inFlight > 0 then c.owner else None
  }

  ghost predicate Inv(c: Client) {
    Owned(c) && Counted(c) && !c.failed
  }

  lemma RegisteredPush(s: seq<Frame>, f: Frame)
    ensures Registered(s + [f]) == Registered(s) + if f.phase == InFlight then 1 else 0
  {
    assert (s + [f])[..|s|] == s;
  }

  lemma TopCounts(c: Client, t: Thread)
    requires Stack(c, t) != []
    ensures var s := Stack(c, t);
            Registered(s) == Registered(s[..|s| - 1]) + if s[|s| - 1].phase == InFlight then 1 else 0
  {
  }

  /** Changing the top frame changes one stack at one place. */
  lemma WithTopKeeps(c: Client, t: Thread, f: Frame)
    requires Owned(c) && Stack(c, t) != []
    ensures var d := WithTop(c, t, f);
            && Owned(d) && c.owner == Some(t) && d.owner == c.owner
            && Registered(OwnerStack(d)) == Registered(Stack(c, t)[..|Stack(c, t)| - 1]) + if f.phase == InFlight then 1 else 0
  {
    hide Registered;
    var s := Stack(c, t);
    var d := WithTop(c, t, f);
    RegisteredPush(s[..|s| - 1], f);
    forall u: Thread | u != t ensures Stack(d, u) == [] {
      assert Stack(c, u) == [];
    }
  }

  /** All that the invariant looks at, but for the stacks' tops and the counts. */
  predicate Alike(c: Client, d: Client) {
    && d.owner == c.owner && d.depth == c.depth && d.stacks == c.stacks
    && d.inFlight == c.inFlight && d.fromThread == c.fromThread && !d.failed
  }

  lemma ClosedAlike(c: Client, t: Thread)
    requires MayClose(c, t) && !c.failed
    ensures Alike(c, Closed(c, t))
  {
  }

  lemma AlikeTop(c: Client, d: Client, t: Thread, f: Frame)
    requires Inv(c) && Alike(c, d) && Stack(c, t) != []
    ensures Inv(c) && Owned(WithTop(d, t, f))
    ensures Registered(OwnerStack(WithTop(d, t, f)))
            == Registered(Stack(c, t)[..|Stack(c, t)| - 1]) + if f.phase == InFlight then 1 else 0
  {
    hide Registered, Owned;
    SameFrames(c, d);
    assert Stack(d, t) == Stack(c, t);
    WithTopKeeps(d, t, f);
  }

  lemma RegisterKeeps(c: Client, t: Thread, alive: bool, connect: Connect)
    requires Inv(c) && Enabled(c, Register(t, alive, connect))
    ensures Inv(Next(c, Register(t, alive, connect)))
  {
    hide Registered, Owned, Closed;
    TopCounts(c, t);
    OwnerIs(c, t);
    var second := Stack(c, t)[|Stack(c, t)| - 1].second;
    var unmarked := c.(shouldClose := false);
    ClosedAlike(unmarked, t);
    var usable := if c.socket.Some? && !alive then Closed(unmarked, t) else unmarked;
    assert Alike(c, usable);
    var d := Next(c, Register(t, alive, connect));
    if !alive && connect == Refused {
      AlikeTop(c, usable, t, Frame(Returned(false, false), second));
    } else if !alive && connect == HandshakeFailed {
      ClosedAlike(Opened(usable), t);
      AlikeTop(c, Closed(Opened(usable), t), t, Frame(Returned(false, false), second));
    } else {
      var ready := if alive then usable else Opened(usable);
      AlikeTop(c, ready, t, Frame(InFlight, second));
      SameFrames(WithTop(ready, t, Frame(InFlight, second)), d);
    }
  }

  lemma OwnerIs(c: Client, t: Thread)
    requires Owned(c) && Stack(c, t) != []
    ensures c.owner == Some(t) && OwnerStack(c) == Stack(c, t)
  {
  }

  lemma SameFrames(c: Client, d: Client)
    ensures Owned(c) && d.owner == c.owner && d.depth == c.depth && d.stacks == c.stacks ==>
              Owned(d) && OwnerStack(d) == OwnerStack(c)
  {
    if d.owner == c.owner && d.depth == c.depth && d.stacks == c.stacks {
      assert forall t: Thread :: Stack(d, t) == Stack(c, t);
    }
  }

  lemma ExitKeeps(c: Client, t: Thread, ret: bool, closeConnection: bool, again: bool)
    requires Inv(c) && Enabled(c, Exit(t, ret, closeConnection, again))
    ensures Inv(Next(c, Exit(t, ret, closeConnection, again)))
  {
    hide Registered, Owned;
    TopCounts(c, t);
    var f := Frame(Returned(ret, again), Stack(c, t)[|Stack(c, t)| - 1].second);
    WithTopKeeps(c, t, f);
    SameFrames(WithTop(c, t, f), Next(c, Exit(t, ret, closeConnection, again)));
  }

  lemma BeginKeeps(c: Client, t: Thread)
    requires Inv(c) && Enabled(c, Begin(t))
    ensures Inv(Next(c, Begin(t)))
  {
    hide Registered;
    var d := Next(c, Begin(t));
    RegisteredPush(Stack(c, t), Frame(Entering, false));
    forall u: Thread | u != t ensures Stack(d, u) == [] {
      assert Stack(c, u) == [];
    }
    RegisteredEmpty();
  }

  lemma LeaveKeeps(c: Client, t: Thread)
    requires Inv(c) && Enabled(c, Leave(t))
    ensures Inv(Next(c, Leave(t)))
  {
    hide Registered;
    var d := Next(c, Leave(t));
    TopCounts(c, t);
    WithTopKeeps(c, t, Frame(Entering, true));
    forall u: Thread | u != t ensures Stack(d, u) == [] {
      assert Stack(c, u) == [];
    }
    RegisteredEmpty();
  }

  lemma RegisteredEmpty()
    ensures Registered([]) == 0
  {
  }

  /** Every step of every thread keeps the ownership, and no assertion fails in it. */
  lemma StepKeeps(c: Client, s: Step)
    requires Inv(c) && Enabled(c, s)
    ensures Inv(Next(c, s))
  {
    match s {
      case Begin(t) => BeginKeeps(c, t);
      case Register(t, alive, connect) => RegisterKeeps(c, t, alive, connect);
      case CloseOnResponse(t) =>
        TopCounts(c, t);
        SameFrames(c, Next(c, s));
      case Exit(t, ret, closeConnection, again) => ExitKeeps(c, t, ret, closeConnection, again);
      case Leave(t) => LeaveKeeps(c, t);
      case Stop(t) => SameFrames(c, Next(c, s));
    }
  }

  lemma {:induction false} RunKeeps(c: Client, steps: seq<Step>)
    requires Inv(c) && IsRun(c, steps)
    ensures Inv(After(c, steps))
    decreases |steps|
  {
    hide Inv, Enabled, Next;
    if steps != [] {
      StepKeeps(c, steps[0]);
      RunKeeps(Next(c, steps[0]), steps[1..]);
    }
  }

  // ---------- over whole runs ----------

  /** In every interleaving the in-flight count is exact, one thread has all the frames, and no assertion fails. */
  lemma OwnershipAlways(steps: seq<Step>)
    requires IsRun(Init(), steps)
    ensures var c := After(Init(), steps);
            && !c.failed
            && (forall t: Thread, u: Thread :: Stack(c, t) != [] && Stack(c, u) != [] ==> t == u)
            && (forall t: Thread :: Stack(c, t) != [] ==> c.owner == Some(t) && c.inFlight == Registered(Stack(c, t)))
            && (c.inFlight > 0 ==> c.fromThread.Some? && Stack(c, c.fromThread.value) != [])
  {
    hide IsRun, After, Enabled, Next;
    RegisteredEmpty();
    RunKeeps(Init(), steps);
    hide Registered;
    var c := After(Init(), steps);
    if c.inFlight > 0 && OwnerStack(c) == [] {
      RegisteredEmpty();
      assert false;
    }
  }

  /** While a request is in flight no other thread closes its socket or replaces it. */
  lemma OthersLeaveSocket(steps: seq<Step>, s: Step)
    requires IsRun(Init(), steps) && Enabled(After(Init(), steps), s)
    requires After(Init(), steps).inFlight > 0 && After(Init(), steps).fromThread != Some(s.thread)
    ensures Next(After(Init(), steps), s).socket == After(Init(), steps).socket
    ensures Next(After(Init(), steps), s).inFlight == After(Init(), steps).inFlight
  {
    hide IsRun, After, Registered;
    RunKeeps(Init(), steps) by { RegisteredEmpty(); }
    var c := After(Init(), steps);
    assert Stack(c, s.thread) == [];
  }

  // ---------- what stop achieves ----------

  /** A `send_` that gets past its registration: on the socket there is, or on a new one. */
  predicate Registers(s: Step) {
    s.Register? && (s.alive || s.connect == Connected)
  }

  predicate NoneRegisters(steps: seq<Step>) {
    forall i | 0 <= i < |steps| :: !Registers(steps[i])
  }

  /** The socket is closed, or marked to be closed by a request in flight. */
  predicate Stopping(c: Client) {
    c.socket == None || (c.inFlight > 0 && c.shouldClose)
  }

  /** In every state of the run, the first and the last included. */
  predicate StoppingThroughout(c: Client, steps: seq<Step>)
    requires IsRun(c, steps)
    decreases |steps|
  {
    Stopping(c) && (steps == [] || StoppingThroughout(Next(c, steps[0]), steps[1..]))
  }

  /** A step undoes a stop exactly when a `send_` registers in it; one that fails to connect does no harm. */
  lemma StoppingStep(c: Client, s: Step)
    requires Inv(c) && Enabled(c, s) && Stopping(c)
    ensures Stopping(Next(c, s)) <==> !Registers(s)
  {
    hide Registered, Owned, Stack;
  }

  lemma {:induction false} StoppingRun(c: Client, steps: seq<Step>)
    requires Inv(c) && IsRun(c, steps) && Stopping(c)
    ensures StoppingThroughout(c, steps) <==> NoneRegisters(steps)
    decreases |steps|
  {
    hide Inv, Enabled, Next, Stopping, Registers;
    if steps != [] {
      StepKeeps(c, steps[0]);
      StoppingStep(c, steps[0]);
      var rest := steps[1..];
      assert NoneRegisters(steps) <==> !Registers(steps[0]) && NoneRegisters(rest) by {
        assert forall i :: 0 <= i < |rest| ==> rest[i] == steps[i + 1];
        assert forall i :: 0 < i < |steps| ==> steps[i] == rest[i - 1];
      }
      if Stopping(Next(c, steps[0])) {
        StoppingRun(Next(c, steps[0]), rest);
      } else {
        NotThroughout(Next(c, steps[0]), rest);
      }
    }
  }

  lemma NotThroughout(c: Client, steps: seq<Step>)
    requires IsRun(c, steps) && !Stopping(c)
    ensures !StoppingThroughout(c, steps)
  {
    hide IsRun, Stopping;
  }

  lemma {:induction false} StoppingAtTheEnd(c: Client, steps: seq<Step>)
    requires IsRun(c, steps) && StoppingThroughout(c, steps)
    ensures Stopping(After(c, steps))
    decreases |steps|
  {
    hide Enabled, Next, Stopping;
    if steps != [] {
      StoppingAtTheEnd(Next(c, steps[0]), steps[1..]);
    }
  }

  lemma StopStops(c: Client, t: Thread)
    ensures Stopping(Next(c, Stop(t)))
  {
  }

  /** From a `stop` on, the socket stays closed or marked to be closed exactly as long as no `send_` registers. */
  lemma StopHoldsExactly(before: seq<Step>, t: Thread, steps: seq<Step>)
    requires IsRun(Init(), before) && IsRun(Next(After(Init(), before), Stop(t)), steps)
    ensures StoppingThroughout(Next(After(Init(), before), Stop(t)), steps) <==> NoneRegisters(steps)
  {
    hide IsRun, After, Next, Registered;
    RegisteredEmpty();
    RunKeeps(Init(), before);
    var c := After(Init(), before);
    StepKeeps(c, Stop(t));
    StopStops(c, t);
    StoppingRun(Next(c, Stop(t)), steps);
  }

  /** So after `stop` the socket is closed as soon as no request is in flight, if no `send_` has registered since. */
  lemma StopCloses(before: seq<Step>, t: Thread, steps: seq<Step>)
    requires IsRun(Init(), before)
    requires var c := After(Init(), before);
             IsRun(Next(c, Stop(t)), steps) && NoneRegisters(steps) && After(Next(c, Stop(t)), steps).inFlight == 0
    ensures After(Next(After(Init(), before), Stop(t)), steps).socket == None
  {
    hide IsRun, After, Next, NoneRegisters, StoppingThroughout;
    var c := After(Init(), before);
    StopHoldsExactly(before, t, steps);
    StoppingAtTheEnd(Next(c, Stop(t)), steps);
  }

  lemma BeginStack(c: Client, t: Thread)
    requires Enabled(c, Begin(t))
    ensures var d := Next(c, Begin(t));
            && TopIs(d, t, Entering)
            && d == c.(owner := Some(t), depth := c.depth + 1, stacks := c.stacks[t := Stack(c, t) + [Frame(Entering, false)]])
  {
  }

  /** What a `send_` that reconnects leaves behind does not depend on the marks that `stop` makes. */
  lemma ReconnectForgets(c: Client, t: Thread, shut: bool, shouldClose: bool)
    requires TopIs(c, t, Entering)
    ensures Next(c.(shut := shut, shouldClose := shouldClose), Register(t, false, Connected))
            == Next(c, Register(t, false, Connected))
    ensures Next(c, Register(t, false, Connected)).socket.Some? && !Next(c, Register(t, false, Connected)).shut
    ensures !Next(c, Register(t, false, Connected)).shouldClose
  {
    hide WithTop;
    ConnectedStep(c, t);
    ConnectedStep(c.(shut := shut, shouldClose := shouldClose), t);
    WithTopFields(Reconnected(c, t), t, Frame(InFlight, Stack(c, t)[|Stack(c, t)| - 1].second));
  }

  /** The fields after a registration that connects. */
  function Reconnected(c: Client, t: Thread): Client {
    c.(inFlight := c.inFlight + 1, fromThread := Some(t), shouldClose := false,
       socket := Some(c.sockets), sockets := c.sockets + 1, shut := false,
       failed := c.failed || (c.socket.Some? && !MayClose(c, t)) || (c.inFlight > 1 && c.fromThread != Some(t)))
  }

  lemma ConnectedStep(c: Client, t: Thread)
    requires TopIs(c, t, Entering)
    ensures Next(c, Register(t, false, Connected)) ==
            WithTop(Reconnected(c, t), t, Frame(InFlight, Stack(c, t)[|Stack(c, t)| - 1].second))
  {
    hide WithTop;
  }

  lemma WithTopFields(c: Client, t: Thread, f: Frame)
    requires Stack(c, t) != []
    ensures var d := WithTop(c, t, f); d.socket == c.socket && d.shut == c.shut && d.shouldClose == c.shouldClose
  {
  }

  /**
   * With a nested request in between, a stop is forgotten: a redirect that reconnects after it leads to the
   * very state that it would have led to without it, with an open socket and nothing marked.
   */
  lemma StopForgotten(before: seq<Step>, t: Thread, u: Thread)
    requires IsRun(Init(), before) && TopIs(After(Init(), before), t, InFlight)
    ensures var c := After(Init(), before);
            var steps := [Begin(t), Register(t, false, Connected)];
            && IsRun(Next(c, Stop(u)), steps) && IsRun(c, steps)
            && After(Next(c, Stop(u)), steps) == After(c, steps)
            && After(c, steps).socket.Some? && !After(c, steps).shut && !After(c, steps).shouldClose
  {
    hide IsRun, After, Registered;
    RegisteredEmpty();
    RunKeeps(Init(), before);
    var c := After(Init(), before);
    var stopped := Next(c, Stop(u));
    TopCounts(c, t);
    assert c.owner == Some(t) && c.inFlight > 0;
    assert Stack(stopped, t) == Stack(c, t);
    hide Next, Enabled;
    BeginTwice(c, stopped, t);
  }

  lemma BeginTwice(c: Client, stopped: Client, t: Thread)
    requires Enabled(c, Begin(t)) && Enabled(stopped, Begin(t))
    requires stopped == c.(shut := stopped.shut, shouldClose := stopped.shouldClose)
    ensures var steps := [Begin(t), Register(t, false, Connected)];
            && IsRun(stopped, steps) && IsRun(c, steps)
            && After(stopped, steps) == After(c, steps)
            && After(c, steps).socket.Some? && !After(c, steps).shut && !After(c, steps).shouldClose
  {
    hide Next, Enabled;
    BeginStack(c, t);
    BeginStack(stopped, t);
    var d := Next(c, Begin(t));
    ReconnectForgets(d, t, stopped.shut, stopped.shouldClose);
    TwoSteps(c, t);
    TwoSteps(stopped, t);
  }

  lemma TwoSteps(c: Client, t: Thread)
    requires Enabled(c, Begin(t))
    ensures var steps := [Begin(t), Register(t, false, Connected)];
            IsRun(c, steps) && After(c, steps) == Next(Next(c, Begin(t)), Register(t, false, Connected))
  {
    var steps := [Begin(t), Register(t, false, Connected)];
    BeginStack(c, t);
    assert steps[1..] == [steps[1]] && [steps[1]][1..] == [];
    var d := Next(c, Begin(t));
    assert Enabled(d, steps[1]);
    hide Next, Enabled;
    var e := Next(d, steps[1]);
    assert IsRun(e, []) && After(e, []) == e;
    assert IsRun(d, [steps[1]]) && After(d, [steps[1]]) == e;
  }
}
