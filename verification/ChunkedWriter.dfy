/** `write_content_chunked`: the data sink and the loop that calls the content provider, with no compression. */
module ChunkedWriter {
  import opened Chunked
  import opened ChunkedRoundTrip
  import opened ChunkedStream

  /** The sink over a stream that takes `capacity` bytes and no more. */
  class DataSink {
    const capacity: nat
    var out: string
    var offset: nat
    var dataAvailable: bool
    var ok: bool

    constructor (capacity: nat)
      ensures this.capacity == capacity && Valid() && out == "" && ok && dataAvailable
    {
      this.capacity := capacity;
      out, offset, dataAvailable, ok := "", 0, true, true;
    }

    /** A failed write has filled the stream. */
    predicate Valid()
      reads this
    {
      |out| <= capacity && (!ok ==> |out| == capacity)
    }

    predicate IsWritable()
      reads this
    {
      |out| < capacity
    }

    method WriteData(d: string) returns (done: bool)
      requires |out| <= capacity
      modifies this`out
      ensures out == Cut(old(out) + d, capacity) && done == (|old(out)| + |d| <= capacity)
    {
      done := |out| + |d| <= capacity;
      out := if done then out + d else out + d[..capacity - |out|];
    }

    /** `data_sink.write` */
    method Write(d: string) returns (r: bool)
      requires Valid()
      modifies this
      ensures Valid() && r == ok
      ensures out == Cut(old(out) + Emits(SinkCall.Write(d)), capacity)
      ensures ok == (old(ok) && |old(out)| + |Emits(SinkCall.Write(d))| <= capacity)
      ensures if old(ok) then dataAvailable == (d != "") && offset == old(offset) + |d|
              else dataAvailable == old(dataAvailable) && offset == old(offset)
    {
      hide Hex;
      if ok {
        dataAvailable := |d| > 0;
        offset := offset + |d|;
        var payload := d;
        if payload != "" {
          var chunk := Hex(|payload|) + "\r\n" + payload + "\r\n";
          if !IsWritable() {
            ok := false;
          } else {
            ok := WriteData(chunk);
          }
        }
      }
      r := ok;
    }

    /** `done_with_trailer`, which goes on after a write that failed. */
    method DoneWithTrailer(trailer: seq<Field>)
      requires Valid()
      modifies this
      ensures Valid()
      ensures out == Cut(old(out) + Emits(Done(trailer)), capacity)
      ensures ok == (old(ok) && |old(out)| + |Emits(Done(trailer))| <= capacity)
      ensures if old(ok) then !dataAvailable else dataAvailable == old(dataAvailable)
      ensures offset == old(offset)
    {
      hide FieldLine, FieldLines, Cut, Emits;
      DoneEmits(trailer);
      if !ok {
        FullStays(out, Emits(Done(trailer)), capacity);
        return;
      }
      dataAvailable := false;
      ghost var before, sent := out, "0\r\n";
      NothingSent(before, capacity);
      Emit("0\r\n", before, "");
      NoLines();
      var i := 0;
      while i < |trailer|
        invariant 0 <= i <= |trailer| && Valid() && !dataAvailable && offset == old(offset)
        invariant sent == "0\r\n" + FieldLines(trailer[..i])
        invariant out == Cut(before + sent, capacity) && ok == (|before| + |sent| <= capacity)
      {
        var line := FieldLine(trailer[i]);
        Emit(line, before, sent);
        LinesNext(trailer, i);
        sent := sent + line;
        assert sent == "0\r\n" + FieldLines(trailer[..i + 1]);
        i := i + 1;
      }
      assert trailer[..i] == trailer;
      Emit("\r\n", before, sent);
    }

    /** One `write_data` of `done_with_trailer`, after `sent`. */
    method Emit(d: string, ghost before: string, ghost sent: string)
      requires Valid() && |before| <= capacity
      requires out == Cut(before + sent, capacity) && ok == (|before| + |sent| <= capacity)
      modifies this`out, this`ok
      ensures Valid()
      ensures out == Cut(before + (sent + d), capacity) && ok == (|before| + |sent + d| <= capacity)
    {
      hide Cut;
      var done := WriteData(d);
      CutMore(before, sent, d, capacity);
      CutLength(before + sent, capacity);
      CutLength(before + (sent + d), capacity);
      if !done {
        ok := false;
      }
    }

    /** What one call of the content provider does with the sink. */
    method Provide(calls: seq<SinkCall>)
      requires Valid()
      modifies this
      ensures Valid()
      ensures out == Cut(old(out) + Emitted(calls), capacity)
      ensures ok == (old(ok) && |old(out)| + |Emitted(calls)| <= capacity)
      ensures ok ==> dataAvailable == if calls == [] then old(dataAvailable) else Available(calls)
    {
      hide Emits, Emitted;
      NoneEmitted();
      var i := 0;
      while i < |calls|
        invariant 0 <= i <= |calls| && Valid()
        invariant out == Cut(old(out) + Emitted(calls[..i]), capacity)
        invariant ok == (old(ok) && |old(out)| + |Emitted(calls[..i])| <= capacity)
        invariant ok ==> dataAvailable == if i == 0 then old(dataAvailable) else Available(calls[..i])
      {
        EmittedNext(calls, i);
        CutMore(old(out), Emitted(calls[..i]), Emits(calls[i]), capacity);
        match calls[i] {
          case Write(d) => var r := Write(d);
          case Done(trailer) => DoneWithTrailer(trailer);
        }
        assert calls[..i + 1][|calls[..i + 1]| - 1] == calls[i];
        i := i + 1;
      }
      assert calls[..i] == calls;
    }
  }

  lemma DoneEmits(trailer: seq<Field>)
    ensures Emits(Done(trailer)) == "0\r\n" + FieldLines(trailer) + "\r\n"
  {
  }

  lemma FullStays(out: string, more: string, capacity: nat)
    requires |out| == capacity
    ensures Cut(out + more, capacity) == out
    ensures |out| + |more| <= capacity ==> more == ""
  {
  }

  lemma NothingSent(out: string, capacity: nat)
    requires |out| <= capacity
    ensures Cut(out + "", capacity) == out && "" + "0\r\n" == "0\r\n"
  {
    assert out + "" == out;
  }

  lemma CutLength(s: string, capacity: nat)
    ensures |Cut(s, capacity)| == if |s| <= capacity then |s| else capacity
  {
  }

  lemma NoneEmitted()
    ensures Emitted([]) == ""
  {
  }

  lemma NoLines()
    ensures FieldLines([]) == ""
  {
  }

  lemma LinesNext(fs: seq<Field>, i: nat)
    requires i < |fs|
    ensures FieldLines(fs[..i + 1]) == FieldLines(fs[..i]) + FieldLine(fs[i])
  {
    hide FieldLine;
    assert fs[..i + 1][..i] == fs[..i];
  }

  lemma EmittedNext(calls: seq<SinkCall>, i: nat)
    requires i < |calls|
    ensures Emitted(calls[..i + 1]) == Emitted(calls[..i]) + Emits(calls[i])
  {
    hide Emits;
    assert calls[..i + 1][..i] == calls[..i];
  }

  /** A full stream stays as it is. */
  lemma CutMore(a: string, b: string, c: string, capacity: nat)
    requires |a| <= capacity
    ensures Cut(Cut(a + b, capacity) + c, capacity) == Cut(a + (b + c), capacity)
    ensures a + (b + c) == a + b + c
  {
    assert a + (b + c) == a + b + c;
  }

  // ---------- the loop ----------

  /** One call of the content provider. */
  datatype Provided = Provided(calls: seq<SinkCall>, result: bool)

  datatype WriteError = Success | WriteFailed | Canceled

  function AllCalls(script: seq<Provided>): seq<SinkCall> {
    if script == [] then [] else AllCalls(script[..|script| - 1]) + script[|script| - 1].calls
  }

  predicate AllTrue(script: seq<Provided>) {
    forall i | 0 <= i < |script| :: script[i].result
  }

  lemma AllCallsNext(script: seq<Provided>, i: nat)
    requires i < |script|
    ensures AllCalls(script[..i + 1]) == AllCalls(script[..i]) + script[i].calls
  {
    assert script[..i + 1][..i] == script[..i];
  }

  lemma {:induction false} EmittedGrows(script: seq<Provided>, i: nat)
    requires i <= |script|
    ensures |Emitted(AllCalls(script[..i]))| <= |Emitted(AllCalls(script))|
    decreases |script| - i
  {
    hide Emitted;
    if i < |script| {
      AllCallsNext(script, i);
      EmittedConcat(AllCalls(script[..i]), script[i].calls);
      EmittedGrows(script, i + 1);
    } else {
      assert script[..i] == script;
    }
  }

  /**
   * `write_content_chunked`: calls the provider while data is available, and stops after the last call of
   * `script`, when the server shuts down. `n` is the number of calls.
   */
  method WriteContentChunked(sink: DataSink, script: seq<Provided>) returns (error: WriteError, n: nat)
    requires sink.Valid() && sink.out == "" && sink.ok && sink.dataAvailable
    modifies sink
    ensures n <= |script| && sink.out == Cut(Emitted(AllCalls(script[..n])), sink.capacity)
    ensures error == Success ==>
              && sink.out == Emitted(AllCalls(script[..n])) && AllTrue(script[..n])
              && (n < |script| ==> !Available(AllCalls(script[..n])))
    ensures forall k :: 0 <= k < n ==> Available(AllCalls(script[..k]))
    ensures AllTrue(script) && |Emitted(AllCalls(script))| < sink.capacity ==> error == Success
  {
    hide Emitted, AllCalls, Available;
    n := 0;
    NoneEmitted();
    NoCalls(script);
    while sink.dataAvailable && n < |script|
      invariant 0 <= n <= |script| && sink.Valid() && sink.ok
      invariant sink.out == Emitted(AllCalls(script[..n])) && AllTrue(script[..n])
      invariant sink.dataAvailable == Available(AllCalls(script[..n]))
      invariant forall k :: 0 <= k < n ==> Available(AllCalls(script[..k]))
      decreases |script| - n
    {
      EmittedGrows(script, n);
      EmittedGrows(script, n + 1);
      if !sink.IsWritable() {
        return WriteFailed, n;
      }
      AllCallsNext(script, n);
      EmittedConcat(AllCalls(script[..n]), script[n].calls);
      AvailableNext(AllCalls(script[..n]), script[n].calls);
      sink.Provide(script[n].calls);
      n := n + 1;
      if !script[n - 1].result {
        return Canceled, n;
      } else if !sink.ok {
        return WriteFailed, n;
      }
    }
    error := Success;
  }

  lemma NoCalls(script: seq<Provided>)
    ensures AllCalls(script[..0]) == [] && Available([])
  {
  }

  lemma AvailableNext(a: seq<SinkCall>, b: seq<SinkCall>)
    ensures Available(a + b) == if b == [] then Available(a) else Available(b)
  {
    if b == [] {
      assert a + b == a;
    }
  }

  // ---------- sending and receiving ----------

  predicate ScriptOk(script: seq<Provided>) {
    forall i, j | 0 <= i < |script| && 0 <= j < |script[i].calls| :: CallOk(script[i].calls[j])
  }

  lemma {:induction false} CallsOk(script: seq<Provided>)
    requires ScriptOk(script)
    ensures forall i :: 0 <= i < |AllCalls(script)| ==> CallOk(AllCalls(script)[i])
    decreases |script|
  {
    hide CallOk;
    if script != [] {
      CallsOk(script[..|script| - 1]);
    }
  }

  /**
   * Sends what any provider does with the sink and receives it, however the stream is read. When the sender
   * reports success, the receiver accepts exactly if one of the calls made has finished the message; the
   * body is what was written before the first such call, and without one everything that was written.
   * `script` ends when the server shuts down.
   */
  method SendAndReceive(script: seq<Provided>, capacity: nat, sizes: seq<nat>, cleanEnd: bool)
    returns (sent: WriteError, n: nat, ok: bool, body: string, headers: seq<Field>)
    requires ScriptOk(script)
    ensures n <= |script|
    ensures forall k :: 0 <= k < n ==> Available(AllCalls(script[..k]))
    ensures sent == Success && n < |script| ==> !Available(AllCalls(script[..n]))
    ensures AllTrue(script) && |Emitted(AllCalls(script))| < capacity ==> sent == Success
    ensures sent == Success ==>
              var calls := AllCalls(script[..n]);
              var first := FirstDone(calls);
              && (ok <==> exists i :: 0 <= i < |calls| && calls[i].Done?)
              && body == Concat(Data(calls[..first]))
              && (ok ==> headers == Delivered(calls[first].trailer))
  {
    hide Emitted, AllCalls, Available, Concat, Delivered, CallOk, FirstDone, Data;
    var sink := new DataSink(capacity);
    sent, n := WriteContentChunked(sink, script);
    var strm := new InStream(sink.out, sizes, cleanEnd);
    ok, body, headers := ReadContentChunked(strm);
    if sent == Success {
      ghost var calls := AllCalls(script[..n]);
      CallsOk(script[..n]);
      ReadsEmitted(calls, cleanEnd);
      assert FirstDone(calls) == |calls| ==> calls[..FirstDone(calls)] == calls;
    }
  }

  /** A provider call that leaves data available: it does not end with an empty write. */
  predicate KeepsGoing(ws: seq<string>) {
    ws == [] || ws[|ws| - 1] != ""
  }

  /** A provider that writes and then, in a last call, finishes. */
  function Script(pieces: seq<seq<string>>, trailer: seq<Field>): seq<Provided> {
    WriteCalls(pieces) + [Provided([Done(trailer)], true)]
  }

  function WriteCalls(pieces: seq<seq<string>>): (s: seq<Provided>)
    ensures |s| == |pieces| && forall i :: 0 <= i < |s| ==> s[i] == Provided(Writes(pieces[i]), true)
  {
    seq(|pieces|, i requires 0 <= i < |pieces| => Provided(Writes(pieces[i]), true))
  }

  function Flat(pieces: seq<seq<string>>): seq<string> {
    if pieces == [] then [] else Flat(pieces[..|pieces| - 1]) + pieces[|pieces| - 1]
  }

  lemma {:induction false} FlatCalls(pieces: seq<seq<string>>)
    ensures AllCalls(WriteCalls(pieces)) == Writes(Flat(pieces))
    decreases |pieces|
  {
    if pieces != [] {
      var init, last := pieces[..|pieces| - 1], pieces[|pieces| - 1];
      FlatCalls(init);
      assert WriteCalls(pieces)[..|pieces| - 1] == WriteCalls(init);
      assert Writes(Flat(init) + last) == Writes(Flat(init)) + Writes(last);
    }
  }

  /** What the first `n` calls do, for calls that only write. */
  lemma ScriptWrites(pieces: seq<seq<string>>, trailer: seq<Field>, n: nat)
    requires n <= |pieces|
    ensures |Script(pieces, trailer)| == |pieces| + 1
    ensures AllCalls(Script(pieces, trailer)[..n]) == Writes(Flat(pieces[..n]))
  {
    hide AllCalls, Flat, Writes, Script, WriteCalls;
    ScriptPrefix(pieces, trailer, n);
    FlatCalls(pieces[..n]);
  }

  lemma WholeScript(pieces: seq<seq<string>>, trailer: seq<Field>)
    ensures |Script(pieces, trailer)| == |pieces| + 1
    ensures AllCalls(Script(pieces, trailer)) == Writes(Flat(pieces)) + [Done(trailer)]
  {
    hide AllCalls, Flat, Writes, Script, WriteCalls;
    ScriptWrites(pieces, trailer, |pieces|);
    ScriptPrefix(pieces, trailer, |pieces|);
    var script := Script(pieces, trailer);
    AllCallsNext(script, |pieces|);
    assert pieces[..|pieces|] == pieces && script[..|pieces| + 1] == script;
  }

  lemma ScriptPrefix(pieces: seq<seq<string>>, trailer: seq<Field>, n: nat)
    requires n <= |pieces|
    ensures |Script(pieces, trailer)| == |pieces| + 1
    ensures Script(pieces, trailer)[..n] == WriteCalls(pieces[..n])
    ensures Script(pieces, trailer)[|pieces|].calls == [Done(trailer)]
  {
    hide Writes;
  }

  lemma {:induction false} StillAvailable(pieces: seq<seq<string>>)
    requires forall i :: 0 <= i < |pieces| ==> KeepsGoing(pieces[i])
    ensures Available(Writes(Flat(pieces)))
    decreases |pieces|
  {
    if pieces != [] {
      var init, last := pieces[..|pieces| - 1], pieces[|pieces| - 1];
      StillAvailable(init);
      assert Writes(Flat(init) + last) == Writes(Flat(init)) + Writes(last);
      AvailableNext(Writes(Flat(init)), Writes(last));
    }
  }

  lemma NoLongerAvailable(pieces: seq<seq<string>>, i: nat)
    requires i < |pieces| && !KeepsGoing(pieces[i])
    ensures !Available(Writes(Flat(pieces[..i + 1])))
  {
    var init, last := pieces[..i], pieces[i];
    assert pieces[..i + 1][..i] == init;
    assert Writes(Flat(init) + last) == Writes(Flat(init)) + Writes(last);
    AvailableNext(Writes(Flat(init)), Writes(last));
  }

  lemma KeptGoing(pieces: seq<seq<string>>, trailer: seq<Field>, n: nat)
    requires n <= |pieces| + 1
    requires forall k :: 0 <= k < n ==> Available(AllCalls(Script(pieces, trailer)[..k]))
    ensures forall i :: 0 <= i < |pieces| && i + 1 < n ==> KeepsGoing(pieces[i])
  {
    hide Available, AllCalls, KeepsGoing, Flat, Writes, Script;
    forall i | 0 <= i < |pieces| && i + 1 < n ensures KeepsGoing(pieces[i]) {
      ScriptWrites(pieces, trailer, i + 1);
      if !KeepsGoing(pieces[i]) {
        NoLongerAvailable(pieces, i);
      }
    }
  }

  /** The last of the calls made is the one that ends with an empty write. */
  lemma StoppedBy(pieces: seq<seq<string>>, n: nat)
    requires n <= |pieces| && !Available(Writes(Flat(pieces[..n])))
    requires forall i :: 0 <= i < |pieces| && i + 1 < n ==> KeepsGoing(pieces[i])
    ensures n > 0 && !KeepsGoing(pieces[n - 1])
  {
    hide Available, KeepsGoing, Flat, Writes;
    if n == 0 || KeepsGoing(pieces[n - 1]) {
      StillAvailable(pieces[..n]);
      assert false;
    }
  }

  lemma ScriptFits(pieces: seq<seq<string>>, trailer: seq<Field>)
    requires forall i :: 0 <= i < |pieces| ==> Sizes(pieces[i])
    requires forall i :: 0 <= i < |trailer| ==> OneLine(trailer[i])
    ensures ScriptOk(Script(pieces, trailer)) && AllTrue(Script(pieces, trailer))
  {
    hide OneLine;
    var script := Script(pieces, trailer);
    forall i, j | 0 <= i < |script| && 0 <= j < |script[i].calls| ensures CallOk(script[i].calls[j]) {
      if i < |pieces| {
        assert script[i] == WriteCalls(pieces)[i];
      }
    }
  }

  lemma OnlyWrites(ws: seq<string>)
    ensures FirstDone(Writes(ws)) == |ws| && Data(Writes(ws)[..|ws|]) == ws
    ensures forall i :: 0 <= i < |Writes(ws)| ==> !Writes(ws)[i].Done?
  {
    hide FirstDone;
    assert Writes(ws)[..|ws|] == Writes(ws);
    assert Data(Writes(ws)) == ws;
  }

  lemma WritesThenDone(ws: seq<string>, trailer: seq<Field>)
    ensures var calls := Writes(ws) + [Done(trailer)];
            && |calls| == |ws| + 1 && FirstDone(calls) == |ws| && Data(calls[..|ws|]) == ws && calls[|ws|] == Done(trailer)
  {
    hide FirstDone;
    var calls := Writes(ws) + [Done(trailer)];
    assert calls[|ws|] == Done(trailer);
    assert forall i :: 0 <= i < |ws| ==> calls[i] == Write(ws[i]);
    assert Data(calls[..|ws|]) == ws;
  }

  /**
   * Sends what a provider writes and receives it, however the stream is read. The receiver accepts the
   * message exactly when no provider call ends with an empty write: such a call ends the message without
   * its last chunk, and the sender does not notice.
   */
  method Transfer(pieces: seq<seq<string>>, trailer: seq<Field>, capacity: nat, sizes: seq<nat>, cleanEnd: bool)
    returns (sent: WriteError, ok: bool, body: string, headers: seq<Field>)
    requires forall i :: 0 <= i < |pieces| ==> Sizes(pieces[i])
    requires forall i :: 0 <= i < |trailer| ==> OneLine(trailer[i])
    requires |Emitted(AllCalls(Script(pieces, trailer)))| < capacity
    ensures sent == Success
    ensures ok <==> forall i :: 0 <= i < |pieces| ==> KeepsGoing(pieces[i])
    ensures ok ==> body == Concat(Flat(pieces)) && headers == Delivered(trailer)
    ensures forall i :: 0 <= i < |pieces| && !KeepsGoing(pieces[i]) && (forall k :: 0 <= k < i ==> KeepsGoing(pieces[k]))
              ==> body == Concat(Flat(pieces[..i + 1]))
  {
    hide Emitted, AllCalls, Available, Flat, Concat, Delivered, OneLine, Sizes, KeepsGoing, Writes, Data, FirstDone;
    var script := Script(pieces, trailer);
    var n;
    ScriptFits(pieces, trailer);
    sent, n, ok, body, headers := SendAndReceive(script, capacity, sizes, cleanEnd);
    WholeScript(pieces, trailer);
    KeptGoing(pieces, trailer, n);
    if n <= |pieces| {
      ScriptWrites(pieces, trailer, n);
      OnlyWrites(Flat(pieces[..n]));
      StoppedBy(pieces, n);
    } else {
      assert script[..n] == script;
      WritesThenDone(Flat(pieces), trailer);
    }
  }
}
