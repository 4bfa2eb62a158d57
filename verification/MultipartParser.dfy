/** `MultipartFormDataParser`: a resumable state machine over a compacting buffer. */
module MultipartParser {
  import opened MultipartHeader

  const HEADER_MAX_LENGTH: nat := 8192
  const FILE_MAX_COUNT: nat := 1024
  const CRLF := "\r\n"

  datatype Item = Item(name: string, content: string, filename: string, contentType: string)

  function DashBoundaryCrlf(boundary: string): (s: string)
    ensures |s| == |boundary| + 4
  {
    "--" + boundary + CRLF
  }

  function CrlfDashBoundary(boundary: string): (s: string)
    ensures |s| == |boundary| + 4
  {
    CRLF + "--" + boundary
  }

  // ---------- searching ----------

  predicate OccursAt(d: string, s: string, i: nat) {
    i + |s| <= |d| && d[i..i + |s|] == s
  }

  /** The first occurrence of `s`, or the size of `d` when there is none. */
  function Find(d: string, s: string): (r: nat)
    requires s != []
    ensures r <= |d|
    ensures r < |d| ==> OccursAt(d, s, r) && r + |s| <= |d|
    ensures forall i: nat :: i < r ==> !OccursAt(d, s, i)
    ensures r == |d| ==> forall i: nat :: !OccursAt(d, s, i)
  {
    FindFrom(d, s, 0)
  }

  function FindFrom(d: string, s: string, i: nat): (r: nat)
    requires s != [] && i <= |d|
    ensures i <= r <= |d|
    ensures r < |d| ==> OccursAt(d, s, r)
    ensures forall k: nat :: i <= k < r ==> !OccursAt(d, s, k)
    ensures r == |d| ==> forall k: nat :: i <= k ==> !OccursAt(d, s, k)
    decreases |d| - i
  {
    if i == |d| then i
    else if OccursAt(d, s, i) then i
    else FindFrom(d, s, i + 1)
  }

  lemma NoMatchAt(d: string, s: string, i: nat)
    requires s != [] && i < |d| && d[i] != s[0]
    ensures !OccursAt(d, s, i)
  {
  }

  lemma FindIs(d: string, s: string, r: nat)
    requires s != [] && r <= |d|
    requires r < |d| ==> OccursAt(d, s, r)
    requires forall i: nat :: i < r ==> !OccursAt(d, s, i)
    ensures Find(d, s) == r
  {
  }

  // ---------- the state machine on plain data ----------

  /** The parser's fields, the unread bytes, and what the callbacks have collected. */
  datatype Cfg = Cfg(state: nat, data: string, file: FileInfo, valid: bool, items: seq<Item>)

  /** Another turn of the loop, or a return from `parse`. */
  datatype Outcome = Continue(cfg: Cfg) | Stop(cfg: Cfg, ok: bool)

  /** The content callback. */
  function AppendContent(items: seq<Item>, text: string): seq<Item> {
    if items == [] then items
    else
      var last := items[|items| - 1];
      items[..|items| - 1] + [last.(content := last.content + text)]
  }

  function NewItem(file: FileInfo): Item {
    Item(file.name, "", file.filename, file.contentType)
  }

  function StepOpening(boundary: string, cfg: Cfg): Outcome {
    var opening := DashBoundaryCrlf(boundary);
    var d := cfg.data[Find(cfg.data, opening)..];
    if |opening| > |d| then Stop(cfg.(data := d), true)
    else if !(opening <= d) then Stop(cfg.(data := d), false)
    else Continue(cfg.(data := d[|opening|..], state := 1))
  }

  /** The header loop of state 2. */
  function StepHeaders(cfg: Cfg): Outcome
    decreases |cfg.data|
  {
    var pos := Find(cfg.data, CRLF);
    if pos >= |cfg.data| then Stop(cfg, true)
    else if pos == 0 then
      if |cfg.items| >= FILE_MAX_COUNT then Stop(cfg.(valid := false), false)
      else Continue(cfg.(items := cfg.items + [NewItem(cfg.file)], data := cfg.data[2..], state := 3))
    else
      match ParseHeader(cfg.data[..pos], cfg.file)
      case None => Stop(cfg.(valid := false), false)
      case Some(file) => StepHeaders(cfg.(file := file, data := cfg.data[pos + 2..]))
  }

  function StepBody(boundary: string, cfg: Cfg): Outcome {
    var delimiter := CrlfDashBoundary(boundary);
    if |delimiter| > |cfg.data| then Stop(cfg, true)
    else
      var pos := Find(cfg.data, delimiter);
      if pos < |cfg.data| then
        Continue(cfg.(items := AppendContent(cfg.items, cfg.data[..pos]),
                      data := cfg.data[pos + |delimiter|..], state := 4))
      else
        var len := |cfg.data| - |delimiter|;
        Stop(if len > 0
             then cfg.(items := AppendContent(cfg.items, cfg.data[..len]), data := cfg.data[len..])
             else cfg, true)
  }

  function StepBoundary(cfg: Cfg): Outcome {
    if 2 > |cfg.data| then Stop(cfg, true)
    else if CRLF <= cfg.data then Continue(cfg.(data := cfg.data[2..], state := 1))
    else if 4 > |cfg.data| then Stop(cfg, true)
    else if "--\r\n" <= cfg.data then Continue(cfg.(valid := true, data := []))
    else Stop(cfg, true)
  }

  function Step(boundary: string, cfg: Cfg): Outcome
    requires cfg.data != []
  {
    match cfg.state
    case 0 => StepOpening(boundary, cfg)
    case 1 => Continue(cfg.(file := NO_INFO, state := 2))
    case 2 =>
      if Find(cfg.data, CRLF) > HEADER_MAX_LENGTH then Stop(cfg, false) else StepHeaders(cfg)
    case 3 => StepBody(boundary, cfg)
    case _ => StepBoundary(cfg)
  }

  function Measure(cfg: Cfg): nat {
    2 * |cfg.data| + if cfg.state == 1 then 1 else 0
  }

  lemma HeadersWait(cfg: Cfg)
    requires Find(cfg.data, CRLF) >= |cfg.data|
    ensures StepHeaders(cfg) == Stop(cfg, true)
  {
    hide Find, ParseHeader;
  }

  lemma HeadersTurn(cfg: Cfg)
    ensures var pos := Find(cfg.data, CRLF);
            (pos < |cfg.data| ==> pos + 2 <= |cfg.data|) &&
            (pos == 0 && pos < |cfg.data| ==>
              StepHeaders(cfg) ==
              if |cfg.items| >= FILE_MAX_COUNT then Stop(cfg.(valid := false), false)
              else Continue(cfg.(items := cfg.items + [NewItem(cfg.file)], data := cfg.data[2..], state := 3))) &&
            (0 < pos < |cfg.data| ==>
              StepHeaders(cfg) ==
              if ParseHeader(cfg.data[..pos], cfg.file).None? then Stop(cfg.(valid := false), false)
              else StepHeaders(cfg.(file := ParseHeader(cfg.data[..pos], cfg.file).value, data := cfg.data[pos + 2..])))
  {
    hide Find, ParseHeader;
  }

  lemma {:induction false} HeadersShrink(cfg: Cfg)
    ensures StepHeaders(cfg).Continue? ==>
            |StepHeaders(cfg).cfg.data| < |cfg.data| && StepHeaders(cfg).cfg.state == 3
    decreases |cfg.data|
  {
    hide Find, ParseHeader;
    var pos := Find(cfg.data, CRLF);
    if 0 < pos < |cfg.data| && ParseHeader(cfg.data[..pos], cfg.file).Some? {
      HeadersShrink(cfg.(file := ParseHeader(cfg.data[..pos], cfg.file).value, data := cfg.data[pos + 2..]));
    }
  }

  lemma StepShrinks(boundary: string, cfg: Cfg)
    requires cfg.data != []
    ensures Step(boundary, cfg).Continue? ==> Measure(Step(boundary, cfg).cfg) < Measure(cfg)
  {
    hide Find, StepHeaders, ParseHeader;
    HeadersShrink(cfg);
  }

  /** `parse` once the new bytes are in the buffer. */
  function Run(boundary: string, cfg: Cfg): (Cfg, bool)
    decreases Measure(cfg)
  {
    if cfg.data == [] then (cfg, true)
    else
      StepShrinks(boundary, cfg);
      match Step(boundary, cfg)
      case Continue(next) => Run(boundary, next)
      case Stop(last, ok) => (last, ok)
  }

  // ---------- the object ----------

  class MultipartFormDataParser {
    const boundary: string
    var state: nat
    var isValid: bool
    var file: FileInfo
    var buf: string
    var bufSpos: nat
    var bufEpos: nat
    /** What `req.files` holds after the callbacks made so far. */
    var items: seq<Item>

    predicate Valid()
      reads this
    {
      bufSpos <= bufEpos <= |buf|
    }

    function BufSize(): nat
      requires Valid()
      reads this
    {
      bufEpos - bufSpos
    }

    /** The unread bytes. */
    ghost function Data(): string
      requires Valid()
      reads this
    {
      buf[bufSpos..bufEpos]
    }

    ghost function Config(): Cfg
      requires Valid()
      reads this
    {
      Cfg(state, Data(), file, isValid, items)
    }

    constructor (boundary: string)
      ensures Valid() && this.boundary == boundary
      ensures Config() == Cfg(0, [], NO_INFO, false, [])
    {
      this.boundary := boundary;
      state, isValid, file, buf, bufSpos, bufEpos, items := 0, false, NO_INFO, [], 0, 0, [];
    }

    /** `start_with` on the buffer from `spos`. */
    method StartWith(spos: nat, s: string) returns (b: bool)
      requires Valid() && bufSpos <= spos <= bufEpos
      ensures b <==> s <= buf[spos..bufEpos]
    {
      if bufEpos - spos < |s| {
        return false;
      }
      var i := 0;
      while i < |s|
        invariant 0 <= i <= |s|
        invariant forall k :: 0 <= k < i ==> buf[spos + k] == s[k]
      {
        if buf[spos + i] != s[i] {
          return false;
        }
        i := i + 1;
      }
      return true;
    }

    method BufFind(s: string) returns (r: nat)
      requires Valid() && s != []
      ensures r == Find(Data(), s)
    {
      hide Find, FindFrom;
      var c := s[0];
      var off := bufSpos;
      while off < bufEpos
        invariant bufSpos <= off <= bufEpos
        invariant forall i: nat :: i < off - bufSpos ==> !OccursAt(Data(), s, i)
      {
        var pos := off;
        while pos < bufEpos && buf[pos] != c
          invariant off <= pos <= bufEpos
          invariant forall i: nat :: i < pos - bufSpos ==> !OccursAt(Data(), s, i)
        {
          NoMatchAt(Data(), s, pos - bufSpos);
          pos := pos + 1;
        }
        if pos == bufEpos {
          FindIs(Data(), s, BufSize());
          return BufSize();
        }
        var remainingSize := bufEpos - pos;
        if |s| > remainingSize {
          FindIs(Data(), s, BufSize());
          return BufSize();
        }
        var here := StartWith(pos, s);
        assert here <==> OccursAt(Data(), s, pos - bufSpos) by {
          assert Data()[pos - bufSpos..pos - bufSpos + |s|] == buf[pos..bufEpos][..|s|];
        }
        if here {
          FindIs(Data(), s, pos - bufSpos);
          return pos - bufSpos;
        }
        off := pos + 1;
      }
      FindIs(Data(), s, BufSize());
      return BufSize();
    }

    method BufHead(l: nat) returns (head: string)
      requires Valid() && l <= BufSize()
      ensures head == Data()[..l]
    {
      head := buf[bufSpos..bufSpos + l];
    }

    method BufErase(size: nat)
      requires Valid() && size <= BufSize()
      modifies this`bufSpos
      ensures Valid() && Data() == old(Data())[size..]
    {
      bufSpos := bufSpos + size;
    }

    /** Moves the unread bytes to the front, in place. */
    method Compact()
      requires Valid()
      modifies this`buf, this`bufSpos, this`bufEpos
      ensures Valid() && bufSpos == 0 && Data() == old(Data())
    {
      var remainingSize := BufSize();
      if remainingSize > 0 && bufSpos > 0 {
        var i := 0;
        while i < remainingSize
          invariant 0 <= i <= remainingSize
          invariant bufSpos == old(bufSpos) && bufEpos == old(bufEpos) && |buf| == |old(buf)|
          invariant forall k :: 0 <= k < i ==> buf[k] == old(buf)[bufSpos + k]
          invariant forall k :: bufSpos + i <= k < bufEpos ==> buf[k] == old(buf)[k]
        {
          buf := buf[i := buf[bufSpos + i]];
          i := i + 1;
        }
      }
      bufSpos := 0;
      bufEpos := remainingSize;
    }

    /** The unread bytes move to the front and the new ones go behind them. */
    method BufAppend(data: string)
      requires Valid()
      modifies this`buf, this`bufSpos, this`bufEpos
      ensures Valid() && Data() == old(Data()) + data
    {
      Compact();
      ghost var before := Data();
      if bufEpos + |data| > |buf| {
        buf := buf + seq(bufEpos + |data| - |buf|, _ => 0 as char);
      }
      assert buf[..bufEpos] == before;
      var i := 0;
      while i < |data|
        invariant 0 <= i <= |data|
        invariant bufSpos == 0 && bufEpos == |before| && bufEpos + |data| <= |buf|
        invariant buf[..bufEpos] == before
        invariant forall k :: 0 <= k < i ==> buf[bufEpos + k] == data[k]
      {
        buf := buf[bufEpos + i := data[i]];
        i := i + 1;
      }
      bufEpos := bufEpos + |data|;
    }

    method BufStartWith(s: string) returns (b: bool)
      requires Valid()
      ensures b <==> s <= Data()
    {
      b := StartWith(bufSpos, s);
    }

    /** One turn of the loop; `done` says that `parse` returns `ok`. */
    method OneStep() returns (done: bool, ok: bool)
      requires Valid() && Data() != []
      modifies this
      ensures Valid()
      ensures (if done then Stop(Config(), ok) else Continue(Config())) == Step(boundary, old(Config()))
    {
      hide Find, ParseHeader, StepOpening, StepHeaders, StepBody, StepBoundary;
      done, ok := false, true;
      match state {
        case 0 =>
          done, ok := Opening();
        case 1 =>
          file := NO_INFO;
          state := 2;
        case 2 =>
          var pos := BufFind(CRLF);
          if pos > HEADER_MAX_LENGTH {
            return true, false;
          }
          done, ok := Headers();
        case 3 =>
          done, ok := Body();
        case _ =>
          done, ok := Boundary();
      }
    }

    /** State 0. */
    method Opening() returns (done: bool, ok: bool)
      requires Valid()
      modifies this
      ensures Valid()
      ensures (if done then Stop(Config(), ok) else Continue(Config())) == StepOpening(boundary, old(Config()))
    {
      hide Find, DashBoundaryCrlf, OccursAt;
      var opening := DashBoundaryCrlf(boundary);
      var pos := BufFind(opening);
      BufErase(pos);
      if |opening| > BufSize() {
        return true, true;
      }
      var starts := BufStartWith(opening);
      if !starts {
        return true, false;
      }
      BufErase(|opening|);
      state := 1;
      return false, true;
    }

    /** State 3. */
    method Body() returns (done: bool, ok: bool)
      requires Valid()
      modifies this
      ensures Valid()
      ensures (if done then Stop(Config(), ok) else Continue(Config())) == StepBody(boundary, old(Config()))
    {
      hide Find, CrlfDashBoundary, OccursAt, AppendContent;
      var delimiter := CrlfDashBoundary(boundary);
      if |delimiter| > BufSize() {
        return true, true;
      }
      var pos := BufFind(delimiter);
      if pos < BufSize() {
        var content := BufHead(pos);
        ContentCallback(content);
        BufErase(pos + |delimiter|);
        state := 4;
        return false, true;
      }
      var len := BufSize() - |delimiter|;
      if len > 0 {
        var content := BufHead(len);
        ContentCallback(content);
        BufErase(len);
      }
      return true, true;
    }

    /** State 4. */
    method Boundary() returns (done: bool, ok: bool)
      requires Valid()
      modifies this
      ensures Valid()
      ensures (if done then Stop(Config(), ok) else Continue(Config())) == StepBoundary(old(Config()))
    {
      if 2 > BufSize() {
        return true, true;
      }
      var next := BufStartWith(CRLF);
      if next {
        BufErase(2);
        state := 1;
        return false, true;
      }
      if 4 > BufSize() {
        return true, true;
      }
      var last := BufStartWith("--\r\n");
      if !last {
        return true, true;
      }
      BufErase(4);
      isValid := true;
      BufErase(BufSize());
      return false, true;
    }

    /** The header callback: a new file, unless there are too many. */
    method HeaderCallback() returns (accepted: bool)
      modifies this`items
      ensures accepted <==> |old(items)| < FILE_MAX_COUNT
      ensures items == if accepted then old(items) + [NewItem(file)] else old(items)
    {
      accepted := |items| < FILE_MAX_COUNT;
      if accepted {
        items := items + [NewItem(file)];
      }
    }

    method ContentCallback(text: string)
      modifies this`items
      ensures items == AppendContent(old(items), text)
    {
      if items != [] {
        var last := items[|items| - 1];
        items := items[..|items| - 1] + [last.(content := last.content + text)];
      }
    }

    /** The inner loop of state 2. */
    method Headers() returns (done: bool, ok: bool)
      requires Valid()
      modifies this
      ensures Valid()
      ensures (if done then Stop(Config(), ok) else Continue(Config())) == StepHeaders(old(Config()))
    {
      hide Find, ParseHeader, StepHeaders, OccursAt;
      var pos := BufFind(CRLF);
      while pos < BufSize()
        invariant Valid() && pos == Find(Data(), CRLF)
        invariant StepHeaders(Config()) == StepHeaders(old(Config()))
        decreases BufSize()
      {
        HeadersTurn(Config());
        if pos == 0 {
          var accepted := HeaderCallback();
          if !accepted {
            isValid := false;
            return true, false;
          }
          BufErase(2);
          state := 3;
          return false, true;
        }
        var header := BufHead(pos);
        var parsed := ParseHeader(header, file);
        if parsed.None? {
          isValid := false;
          return true, false;
        }
        file := parsed.value;
        BufErase(pos + 2);
        pos := BufFind(CRLF);
      }
      HeadersWait(Config());
      return true, true;
    }

    /** `parse(buf, n, ...)` */
    method Parse(data: string) returns (ok: bool)
      requires Valid()
      modifies this
      ensures Valid()
      ensures (Config(), ok) == Run(boundary, old(Config()).(data := old(Data()) + data))
    {
      hide Step;
      BufAppend(data);
      ok := true;
      while BufSize() > 0
        invariant Valid()
        invariant Run(boundary, Config()) == Run(boundary, old(Config()).(data := old(Data()) + data))
        decreases Measure(Config())
      {
        StepShrinks(boundary, Config());
        var done;
        done, ok := OneStep();
        if done {
          return ok;
        }
      }
      return true;
    }
  }
}
