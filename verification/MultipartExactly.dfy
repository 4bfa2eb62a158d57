/**
 * The other half of the multipart round trip: once the opening boundary line has been lost, the parser
 * never gives the serialized items back, whatever the contents pretend to be.
 */
module MultipartExactly {
  import opened MultipartHeader
  import opened MultipartParser
  import opened MultipartRoundTrip
  import opened MultipartText

  // ---------- items that cannot become the right ones any more ----------

  /** Item `i` is not the one it should be, and will not become it: only the last item of state 3 is still open. */
  predicate WrongAt(all: seq<Item>, cfg: Cfg, i: nat)
    requires i < |cfg.items| && i < |all|
  {
    var a, b := all[i], cfg.items[i];
    b.(content := a.content) != a || ((i + 1 < |cfg.items| || cfg.state != 3) && b.content != a.content)
  }

  predicate Spoilt(all: seq<Item>, cfg: Cfg) {
    |cfg.items| > |all| || exists i: nat | i < |cfg.items| && i < |all| :: WrongAt(all, cfg, i)
  }

  /** What a turn does to the items: the last content grows in state 3, an item comes with state 3. */
  ghost predicate ItemsStep(cfg: Cfg, next: Cfg) {
    if cfg.state == 3 then exists text: string :: next.items == AppendContent(cfg.items, text)
    else
      || (next.items == cfg.items && next.state != 3)
      || (|next.items| == |cfg.items| + 1 && next.items[..|cfg.items|] == cfg.items && next.state == 3)
  }

  lemma SpoiltStays(all: seq<Item>, cfg: Cfg, next: Cfg)
    requires Spoilt(all, cfg) && ItemsStep(cfg, next)
    ensures Spoilt(all, next)
  {
    if |next.items| <= |all| {
      var i: nat :| i < |cfg.items| && i < |all| && WrongAt(all, cfg, i);
      WrongStays(all, cfg, next, i);
    }
  }

  lemma WrongStays(all: seq<Item>, cfg: Cfg, next: Cfg, i: nat)
    requires i < |cfg.items| && i < |all| && WrongAt(all, cfg, i) && ItemsStep(cfg, next)
    ensures i < |next.items| && WrongAt(all, next, i)
  {
    if cfg.state == 3 {
      var text :| next.items == AppendContent(cfg.items, text);
      assert i + 1 < |cfg.items| ==> next.items[i] == cfg.items[i];
    } else if next.items != cfg.items {
      assert next.items[i] == next.items[..|cfg.items|][i];
    }
  }

  lemma NothingAppended(items: seq<Item>)
    ensures AppendContent(items, "") == items
  {
    if items != [] {
      var last := items[|items| - 1];
      assert last.content + "" == last.content;
      assert items[..|items| - 1] + [last] == items;
    }
  }

  lemma {:induction false} HeadersItems(cfg: Cfg)
    requires cfg.state == 2
    ensures ItemsStep(cfg, StepHeaders(cfg).cfg)
    decreases |cfg.data|
  {
    hide Find, ParseHeader, StepHeaders;
    var pos := Find(cfg.data, CRLF);
    HeadersWaitOrTurn(cfg);
    if 0 < pos < |cfg.data| && ParseHeader(cfg.data[..pos], cfg.file).Some? {
      HeadersItems(cfg.(file := ParseHeader(cfg.data[..pos], cfg.file).value, data := cfg.data[pos + 2..]));
    }
  }

  lemma HeadersWaitOrTurn(cfg: Cfg)
    ensures var pos := Find(cfg.data, CRLF);
            && (pos >= |cfg.data| ==> StepHeaders(cfg) == Stop(cfg, true))
            && (pos < |cfg.data| ==> pos + 2 <= |cfg.data| && cfg.data[pos..pos + 2] == CRLF)
            && (pos == 0 && pos < |cfg.data| ==>
                  StepHeaders(cfg) ==
                  if |cfg.items| >= FILE_MAX_COUNT then Stop(cfg.(valid := false), false)
                  else Continue(cfg.(items := cfg.items + [NewItem(cfg.file)], data := cfg.data[2..], state := 3)))
            && (0 < pos < |cfg.data| ==>
                  StepHeaders(cfg) ==
                  if ParseHeader(cfg.data[..pos], cfg.file).None? then Stop(cfg.(valid := false), false)
                  else StepHeaders(cfg.(file := ParseHeader(cfg.data[..pos], cfg.file).value, data := cfg.data[pos + 2..])))
  {
    hide Find, ParseHeader, StepHeaders;
    HeadersTurn(cfg);
    if Find(cfg.data, CRLF) >= |cfg.data| {
      HeadersWait(cfg);
    }
  }

  lemma StepItems(boundary: string, cfg: Cfg)
    requires cfg.data != [] && cfg.state <= 4
    ensures ItemsStep(cfg, Step(boundary, cfg).cfg)
  {
    hide Find, StepHeaders, AppendContent;
    NothingAppended(cfg.items);
    if cfg.state == 2 {
      HeadersItems(cfg);
    }
  }

  // ---------- places from which the items cannot be read any more ----------

  ghost predicate BadLine(boundary: string, all: seq<Item>, cfg: Cfg, t: string) {
    && |cfg.items| < |all| && Before(Serialize(all, boundary), t, CRLF)
    && (|t| < |BodyAt(all, |cfg.items|, boundary)|
        || (cfg.items == [] && all[0].contentType != [] && (cfg.state == 2 ==> cfg.file == NO_INFO)
            && t == CRLF + BodyAt(all, 0, boundary)))
  }

  /** `p` is the content delivered so far. */
  ghost predicate BadContent(boundary: string, all: seq<Item>, cfg: Cfg, p: string, t: string) {
    var whole := p + t;
    var d := CrlfDashBoundary(boundary);
    && 0 < |cfg.items| <= |all|
    && EndsWith(Serialize(all, boundary), whole)
    && |whole| + 2 < |BodyAt(all, |cfg.items| - 1, boundary)|
    && Before(Serialize(all, boundary), whole, CRLF + CRLF)
    && (p != [] ==> |p| + |d| <= |whole|)
    && forall i: nat :: i < |p| ==> !OccursAt(whole, d, i)
  }

  /** `t` is what is left of the text: unread, or still to come. */
  ghost predicate BadPlace(boundary: string, all: seq<Item>, cfg: Cfg, t: string) {
    && EndsWith(Serialize(all, boundary), t)
    && match cfg.state
       case 0 => cfg.items == [] && |t| < |Serialize(all, boundary)|
       case 1 => BadLine(boundary, all, cfg, t)
       case 2 => BadLine(boundary, all, cfg, t)
       case 3 => cfg.items != [] && BadContent(boundary, all, cfg, cfg.items[|cfg.items| - 1].content, t)
       case 4 => |cfg.items| < |all| && |t| < |BodyAt(all, |cfg.items|, boundary)| + 2
       case _ => false
  }

  ghost predicate Bad(boundary: string, all: seq<Item>, cfg: Cfg, rest: string) {
    cfg.state <= 4 && (Spoilt(all, cfg) || BadPlace(boundary, all, cfg, cfg.data + rest))
  }

  /** In state 3 the parser has used up all delimiters that have arrived. */
  predicate Settled(boundary: string, cfg: Cfg) {
    cfg.state == 3 ==> Find(cfg.data, CrlfDashBoundary(boundary)) == |cfg.data|
  }

  ghost predicate StaysBad(boundary: string, all: seq<Item>, o: Outcome, rest: string) {
    match o
    case Continue(cfg) => Bad(boundary, all, cfg, rest)
    case Stop(cfg, ok) => ok ==> Bad(boundary, all, cfg, rest) && Settled(boundary, cfg)
  }

  // ---------- one turn ----------

  /** Taking bytes from the front of what has arrived. */
  lemma Cut(data: string, rest: string, m: nat, n: nat)
    requires m <= n <= |data|
    ensures (data + rest)[n..] == data[n..] + rest && (data + rest)[m..n] == data[m..n]
  {
  }

  lemma Fits(data: string, d: string, pos: nat)
    requires OccursAt(data, d, pos)
    ensures pos + |d| <= |data|
  {
  }

  lemma OpeningBad(boundary: string, all: seq<Item>, cfg: Cfg, rest: string)
    requires ItemsOk(all, boundary) && all != [] && cfg.state == 0 && cfg.data != []
    requires BadPlace(boundary, all, cfg, cfg.data + rest)
    ensures StaysBad(boundary, all, StepOpening(boundary, cfg), rest)
  {
    hide Find, ItemsOk, Serialize, BodyText, DashBoundaryCrlf, Spoilt, EndsWith, BadLine;
    var o := DashBoundaryCrlf(boundary);
    var pos := Find(cfg.data, o);
    var d := cfg.data[pos..];
    Cut(cfg.data, rest, pos, pos);
    EndsDropped(Serialize(all, boundary), cfg.data + rest, pos);
    if |o| <= |d| && o <= d {
      OpeningTaken(boundary, all, cfg, cfg.(data := d[|o|..], state := 1), rest, pos);
    }
  }

  lemma OpeningTaken(boundary: string, all: seq<Item>, cfg: Cfg, next: Cfg, rest: string, pos: nat)
    requires ItemsOk(all, boundary) && all != [] && cfg.items == [] && next.items == [] && next.state == 1
    requires EndsWith(Serialize(all, boundary), cfg.data + rest) && |cfg.data + rest| < |Serialize(all, boundary)|
    requires var o := DashBoundaryCrlf(boundary);
             pos + |o| <= |cfg.data| && o <= cfg.data[pos..] && next.data == cfg.data[pos..][|o|..]
    ensures EndsWith(Serialize(all, boundary), next.data + rest)
    ensures BadLine(boundary, all, next, next.data + rest)
  {
    hide ItemsOk, Serialize, BodyText, DashBoundaryCrlf, EndsWith, Before;
    var o := DashBoundaryCrlf(boundary);
    var text := Serialize(all, boundary);
    var t := cfg.data + rest;
    Cut(cfg.data, rest, pos, pos + |o|);
    assert cfg.data[pos..][|o|..] == cfg.data[pos + |o|..];
    assert cfg.data[pos..pos + |o|] == o;
    LaterOpening(all, boundary, t, pos);
    EndsDropped(text, t, pos + |o|);
    OpeningLine(boundary, t, pos);
    DroppedBefore(text, t, pos + |o|, CRLF);
  }

  lemma OpeningLine(boundary: string, t: string, pos: nat)
    requires OccursAt(t, DashBoundaryCrlf(boundary), pos)
    ensures var end := pos + |DashBoundaryCrlf(boundary)|; 2 <= end <= |t| && t[end - 2..end] == CRLF
  {
    var o := DashBoundaryCrlf(boundary);
    assert t[pos..pos + |o|][|o| - 2..] == t[pos + |o| - 2..pos + |o|];
  }

  /** A header line is read, or the empty line: state 2 with the line end at `pos`. */
  lemma LineBad(boundary: string, all: seq<Item>, cfg: Cfg, rest: string, file: FileInfo)
    requires ItemsOk(all, boundary) && all != [] && cfg.state == 2
    requires BadPlace(boundary, all, cfg, cfg.data + rest)
    requires Find(cfg.data, CRLF) < |cfg.data|
    ensures var pos := Find(cfg.data, CRLF);
            && pos + 2 <= |cfg.data|
            && (pos > 0 ==> Bad(boundary, all, cfg.(file := file, data := cfg.data[pos + 2..]), rest))
            && (pos == 0 ==>
                  Bad(boundary, all, cfg.(items := cfg.items + [NewItem(cfg.file)], data := cfg.data[2..], state := 3), rest))
  {
    hide Find, ItemsOk, Serialize, BodyText, Spoilt, BadContent, NewItem;
    var text := Serialize(all, boundary);
    var pos := Find(cfg.data, CRLF);
    var t := cfg.data + rest;
    Fits(cfg.data, CRLF, pos);
    Cut(cfg.data, rest, pos, pos + 2);
    EndsDropped(text, t, pos + 2);
    if pos > 0 {
      DroppedBefore(text, t, pos + 2, CRLF);
      EmptyLineFirst(cfg.data, rest, BodyAt(all, 0, boundary));
    } else {
      var next := cfg.(items := cfg.items + [NewItem(cfg.file)], data := cfg.data[2..], state := 3);
      if |t| < |BodyAt(all, |cfg.items|, boundary)| {
        BeforeMore(text, t, CRLF, 2, CRLF);
        assert next.items[|next.items| - 1].content == "" by { NewItemEmpty(cfg.file); }
        EmptyContent(boundary, all, next, t[2..]);
      } else {
        NoType(all, cfg, next);
      }
    }
  }

  lemma EmptyLineFirst(data: string, rest: string, body: string)
    requires |data| >= 2
    ensures data + rest == CRLF + body ==> Find(data, CRLF) == 0
  {
    hide Find;
    if data + rest == CRLF + body {
      assert data[..2] == (data + rest)[..2];
      assert OccursAt(data, CRLF, 0);
      FindIs(data, CRLF, 0);
    }
  }

  lemma NewItemEmpty(file: FileInfo)
    ensures NewItem(file).content == ""
  {
  }

  lemma EmptyContent(boundary: string, all: seq<Item>, next: Cfg, t: string)
    requires 0 < |next.items| <= |all| && next.items[|next.items| - 1].content == "" && next.state == 3
    requires EndsWith(Serialize(all, boundary), t) && Before(Serialize(all, boundary), t, CRLF + CRLF)
    requires |t| + 2 < |BodyAt(all, |next.items| - 1, boundary)|
    ensures BadPlace(boundary, all, next, t)
  {
    hide Serialize, BodyText;
    assert "" + t == t;
  }

  /** An item without the content type that the first item has. */
  lemma NoType(all: seq<Item>, cfg: Cfg, next: Cfg)
    requires all != [] && all[0].contentType != [] && cfg.file == NO_INFO && next.items == [NewItem(cfg.file)]
    ensures Spoilt(all, next)
  {
    assert WrongAt(all, next, 0);
  }

  lemma {:induction false} HeadersBad(boundary: string, all: seq<Item>, cfg: Cfg, rest: string)
    requires ItemsOk(all, boundary) && all != [] && cfg.state == 2
    requires Bad(boundary, all, cfg, rest) && !Spoilt(all, cfg)
    ensures StaysBad(boundary, all, StepHeaders(cfg), rest)
    decreases |cfg.data|
  {
    hide Find, ParseHeader, StepHeaders, ItemsOk, BadPlace, Spoilt;
    var pos := Find(cfg.data, CRLF);
    HeadersWaitOrTurn(cfg);
    if pos < |cfg.data| {
      var parsed := ParseHeader(cfg.data[..pos], cfg.file);
      var file := if parsed.Some? then parsed.value else cfg.file;
      LineBad(boundary, all, cfg, rest, file);
      if pos > 0 && ParseHeader(cfg.data[..pos], cfg.file).Some? {
        SameItems(all, cfg, cfg.(file := file, data := cfg.data[pos + 2..]));
        HeadersBad(boundary, all, cfg.(file := file, data := cfg.data[pos + 2..]), rest);
      }
    }
  }

  lemma SameItems(all: seq<Item>, cfg: Cfg, next: Cfg)
    requires cfg.items == next.items && cfg.state == next.state && !Spoilt(all, cfg)
    ensures !Spoilt(all, next)
  {
    if Spoilt(all, next) {
      var i: nat :| i < |next.items| && i < |all| && WrongAt(all, next, i);
      assert WrongAt(all, cfg, i);
      assert false;
    }
  }

  /** An occurrence in the content and what follows is one in the unread bytes, if it has arrived. */
  lemma OccursInData(p: string, data: string, rest: string, d: string, i: nat)
    requires |p| <= i && i + |d| <= |p| + |data|
    ensures OccursAt(p + (data + rest), d, i) <==> OccursAt(data, d, i - |p|)
  {
    assert (p + (data + rest))[i..i + |d|] == data[i - |p|..i - |p| + |d|];
  }

  /** The first delimiter in the unread bytes is the first behind the start of the content. */
  lemma FoundInWhole(p: string, data: string, rest: string, d: string)
    requires d != [] && Find(data, d) < |data|
    requires forall i: nat :: i < |p| ==> !OccursAt(p + (data + rest), d, i)
    ensures Find(p + (data + rest), d) == |p| + Find(data, d)
  {
    hide Find, OccursAt;
    var whole := p + (data + rest);
    var pos := Find(data, d);
    Fits(data, d, pos);
    OccursInData(p, data, rest, d, |p| + pos);
    forall i: nat | i < |p| + pos ensures !OccursAt(whole, d, i) {
      if i >= |p| {
        OccursInData(p, data, rest, d, i);
      }
    }
    FindIs(whole, d, |p| + pos);
  }

  lemma NotInFlushed(p: string, data: string, rest: string, d: string)
    requires d != [] && |d| <= |data| && Find(data, d) == |data|
    requires forall i: nat :: i < |p| ==> !OccursAt(p + (data + rest), d, i)
    ensures forall i: nat :: i < |p| + |data| - |d| ==> !OccursAt(p + (data + rest), d, i)
  {
    hide Find, OccursAt;
    forall i: nat | i < |p| + |data| - |d| ensures !OccursAt(p + (data + rest), d, i) {
      if i >= |p| {
        OccursInData(p, data, rest, d, i);
      }
    }
  }

  lemma LastAppended(items: seq<Item>, text: string)
    requires items != []
    ensures var next := AppendContent(items, text);
            && |next| == |items|
            && next[|next| - 1].content == items[|items| - 1].content + text
  {
  }

  lemma ClosedWrong(all: seq<Item>, next: Cfg)
    requires 0 < |next.items| <= |all| && next.state == 4
    requires next.items[|next.items| - 1].content != all[|next.items| - 1].content
    ensures Spoilt(all, next)
  {
    assert WrongAt(all, next, |next.items| - 1);
  }

  lemma BodyBad(boundary: string, all: seq<Item>, cfg: Cfg, rest: string)
    requires ItemsOk(all, boundary) && all != [] && cfg.state == 3
    requires BadPlace(boundary, all, cfg, cfg.data + rest)
    ensures StaysBad(boundary, all, StepBody(boundary, cfg), rest)
  {
    hide Find, ItemsOk, Serialize, BodyText, Spoilt, CrlfDashBoundary, AppendContent, EndsWith, Before, OccursAt;
    var d := CrlfDashBoundary(boundary);
    if |d| > |cfg.data| {
      NoneInShort(cfg.data, d);
    } else if Find(cfg.data, d) < |cfg.data| {
      BodyCloses(boundary, all, cfg, rest);
    } else {
      BodyFlushes(boundary, all, cfg, rest);
    }
  }

  lemma NoneInShort(data: string, d: string)
    requires |data| < |d|
    ensures Find(data, d) == |data|
  {
    hide Find;
    FindIs(data, d, |data|);
  }

  lemma BodyCloses(boundary: string, all: seq<Item>, cfg: Cfg, rest: string)
    requires ItemsOk(all, boundary) && all != [] && cfg.state == 3
    requires BadPlace(boundary, all, cfg, cfg.data + rest)
    requires |CrlfDashBoundary(boundary)| <= |cfg.data| && Find(cfg.data, CrlfDashBoundary(boundary)) < |cfg.data|
    ensures StaysBad(boundary, all, StepBody(boundary, cfg), rest)
  {
    hide Find, ItemsOk, Serialize, BodyText, Spoilt, AppendContent, Before, OccursAt;
    var d := CrlfDashBoundary(boundary);
    var text := Serialize(all, boundary);
    var k := |cfg.items| - 1;
    var p := cfg.items[k].content;
    var t := cfg.data + rest;
    var whole := p + t;
    var pos := Find(cfg.data, d);
    FoundInWhole(p, cfg.data, rest, d);
    Fits(cfg.data, d, pos);
    FirstDelimiter(all, k, boundary, whole, |p| + pos);
    assert whole[..|p| + pos] == p + cfg.data[..pos];
    var next := cfg.(items := AppendContent(cfg.items, cfg.data[..pos]), data := cfg.data[pos + |d|..], state := 4);
    LastAppended(cfg.items, cfg.data[..pos]);
    Cut(cfg.data, rest, pos, pos + |d|);
    EndsDropped(text, t, pos + |d|);
    if whole[..|p| + pos] != all[k].content {
      ClosedWrong(all, next);
    }
  }

  lemma BodyFlushes(boundary: string, all: seq<Item>, cfg: Cfg, rest: string)
    requires ItemsOk(all, boundary) && all != [] && cfg.state == 3
    requires BadPlace(boundary, all, cfg, cfg.data + rest)
    requires |CrlfDashBoundary(boundary)| <= |cfg.data| && Find(cfg.data, CrlfDashBoundary(boundary)) == |cfg.data|
    ensures StaysBad(boundary, all, StepBody(boundary, cfg), rest)
  {
    hide Find, ItemsOk, Serialize, BodyText, Spoilt, AppendContent, BadContent, EndsWith, CrlfDashBoundary;
    var d := CrlfDashBoundary(boundary);
    var len := |cfg.data| - |d|;
    if len > 0 {
      var p := cfg.items[|cfg.items| - 1].content;
      var next := cfg.(items := AppendContent(cfg.items, cfg.data[..len]), data := cfg.data[len..]);
      LastAppended(cfg.items, cfg.data[..len]);
      FlushedContent(boundary, all, cfg, next, p, rest);
      Cut(cfg.data, rest, len, len);
      EndsDropped(Serialize(all, boundary), cfg.data + rest, len);
      NoneLater(cfg.data, d, len);
    }
  }

  /** Moving bytes from the unread to the delivered ones. */
  lemma FlushedContent(boundary: string, all: seq<Item>, cfg: Cfg, next: Cfg, p: string, rest: string)
    requires BadContent(boundary, all, cfg, p, cfg.data + rest) && |next.items| == |cfg.items|
    requires var d := CrlfDashBoundary(boundary); |d| < |cfg.data| && Find(cfg.data, d) == |cfg.data|
    requires next.data == cfg.data[|cfg.data| - (|boundary| + 4)..]
    ensures BadContent(boundary, all, next, p + cfg.data[..|cfg.data| - (|boundary| + 4)], next.data + rest)
  {
    hide Find, Serialize, BodyText, EndsWith, Before, OccursAt, CrlfDashBoundary;
    var d := CrlfDashBoundary(boundary);
    NotInFlushed(p, cfg.data, rest, d);
    Moved(p, cfg.data, rest, |cfg.data| - |d|);
  }

  lemma Moved(p: string, data: string, rest: string, len: nat)
    requires len <= |data|
    ensures p + data[..len] + (data[len..] + rest) == p + (data + rest)
  {
  }

  lemma NoneLater(data: string, d: string, len: nat)
    requires d != [] && len <= |data| && Find(data, d) == |data|
    ensures Find(data[len..], d) == |data[len..]|
  {
    hide Find, OccursAt;
    forall i: nat ensures !OccursAt(data[len..], d, i) {
      OccursLater(data, d, len, i);
    }
    FindIs(data[len..], d, |data[len..]|);
  }

  lemma OccursLater(data: string, d: string, len: nat, i: nat)
    requires len <= |data| && !OccursAt(data, d, len + i)
    ensures !OccursAt(data[len..], d, i)
  {
    if i + |d| <= |data[len..]| {
      assert data[len..][i..i + |d|] == data[len + i..len + i + |d|];
    }
  }

  lemma BoundaryBad(boundary: string, all: seq<Item>, cfg: Cfg, rest: string)
    requires ItemsOk(all, boundary) && all != [] && cfg.state == 4
    requires BadPlace(boundary, all, cfg, cfg.data + rest)
    ensures StaysBad(boundary, all, StepBoundary(cfg), rest)
  {
    hide ItemsOk, Serialize, BodyText, Spoilt;
    var text := Serialize(all, boundary);
    var t := cfg.data + rest;
    if 2 <= |cfg.data| && CRLF <= cfg.data {
      assert t[2..] == cfg.data[2..] + rest && t[0..2] == CRLF;
      EndsDropped(text, t, 2);
      DroppedBefore(text, t, 2, CRLF);
    } else if 4 <= |cfg.data| && "--\r\n" <= cfg.data {
      assert t[|cfg.data|..] == [] + rest;
      EndsDropped(text, t, |cfg.data|);
    }
  }

  /** No turn of the loop leads back to where the items could still be read. */
  lemma StepBad(boundary: string, all: seq<Item>, cfg: Cfg, rest: string)
    requires ItemsOk(all, boundary) && all != [] && cfg.data != []
    requires Bad(boundary, all, cfg, rest)
    ensures StaysBad(boundary, all, Step(boundary, cfg), rest)
  {
    hide Find, ItemsOk, BadPlace, Spoilt, StepOpening, StepHeaders, StepBody, StepBoundary, ItemsStep;
    if Spoilt(all, cfg) {
      StepItems(boundary, cfg);
      SpoiltStays(all, cfg, Step(boundary, cfg).cfg);
      StepSettles(boundary, cfg);
    } else if cfg.state == 0 {
      OpeningBad(boundary, all, cfg, rest);
    } else if cfg.state == 1 {
      NewEntryBad(boundary, all, cfg, rest);
    } else if cfg.state == 2 {
      HeadersBad(boundary, all, cfg, rest);
    } else if cfg.state == 3 {
      BodyBad(boundary, all, cfg, rest);
    } else {
      BoundaryBad(boundary, all, cfg, rest);
    }
  }

  lemma NewEntryBad(boundary: string, all: seq<Item>, cfg: Cfg, rest: string)
    requires cfg.state == 1 && BadPlace(boundary, all, cfg, cfg.data + rest)
    ensures BadPlace(boundary, all, cfg.(file := NO_INFO, state := 2), cfg.data + rest)
  {
    hide Serialize, BodyText;
  }

  lemma StepSettles(boundary: string, cfg: Cfg)
    requires cfg.data != [] && cfg.state <= 4
    ensures Step(boundary, cfg).cfg.state <= 4
    ensures Step(boundary, cfg).Stop? ==> Settled(boundary, Step(boundary, cfg).cfg)
  {
    hide Find, StepHeaders, AppendContent;
    var d := CrlfDashBoundary(boundary);
    if cfg.state == 2 {
      HeadersShrink(cfg);
      HeadersStay(cfg);
    } else if cfg.state == 3 {
      if |d| > |cfg.data| {
        NoneInShort(cfg.data, d);
      } else if Find(cfg.data, d) == |cfg.data| {
        NoneLater(cfg.data, d, |cfg.data| - |d|);
      }
    }
  }

  lemma {:induction false} HeadersStay(cfg: Cfg)
    requires cfg.state == 2
    ensures StepHeaders(cfg).Stop? ==> StepHeaders(cfg).cfg.state == 2
    decreases |cfg.data|
  {
    hide Find, ParseHeader, StepHeaders;
    var pos := Find(cfg.data, CRLF);
    HeadersWaitOrTurn(cfg);
    if 0 < pos < |cfg.data| && ParseHeader(cfg.data[..pos], cfg.file).Some? {
      HeadersStay(cfg.(file := ParseHeader(cfg.data[..pos], cfg.file).value, data := cfg.data[pos + 2..]));
    }
  }

  // ---------- all pieces ----------

  lemma {:induction false} RunBad(boundary: string, all: seq<Item>, cfg: Cfg, rest: string)
    requires ItemsOk(all, boundary) && all != []
    requires Bad(boundary, all, cfg, rest)
    ensures var (last, ok) := Run(boundary, cfg); ok ==> Bad(boundary, all, last, rest) && Settled(boundary, last)
    decreases Measure(cfg)
  {
    hide Bad, Step, ItemsOk, Measure, CrlfDashBoundary;
    if cfg.data != [] {
      StepShrinks(boundary, cfg);
      StepBad(boundary, all, cfg, rest);
      if Step(boundary, cfg).Continue? {
        RunBad(boundary, all, Step(boundary, cfg).cfg, rest);
      }
    }
  }

  lemma BadMore(boundary: string, all: seq<Item>, cfg: Cfg, piece: string, rest: string)
    requires Bad(boundary, all, cfg, piece + rest)
    ensures Bad(boundary, all, cfg.(data := cfg.data + piece), rest)
  {
    hide Serialize, BodyText;
    var filled := cfg.(data := cfg.data + piece);
    assert cfg.data + (piece + rest) == filled.data + rest;
    if Spoilt(all, cfg) && |cfg.items| <= |all| {
      var i: nat :| i < |cfg.items| && i < |all| && WrongAt(all, cfg, i);
      assert WrongAt(all, filled, i);
    }
  }

  lemma {:induction false} FeedBad(boundary: string, all: seq<Item>, cfg: Cfg, pieces: seq<string>)
    requires ItemsOk(all, boundary) && all != []
    requires Bad(boundary, all, cfg, Flatten(pieces)) && Settled(boundary, cfg)
    ensures var (last, ok) := FeedAll(boundary, cfg, pieces); ok ==> last.items != all
    decreases |pieces|
  {
    hide Run, ItemsOk, Bad, Settled;
    if pieces == [] {
      BadAtTheEnd(boundary, all, cfg);
    } else {
      var filled := cfg.(data := cfg.data + pieces[0]);
      BadMore(boundary, all, cfg, pieces[0], Flatten(pieces[1..]));
      RunBad(boundary, all, filled, Flatten(pieces[1..]));
      if Run(boundary, filled).1 {
        FeedBad(boundary, all, Run(boundary, filled).0, pieces[1..]);
      }
    }
  }

  lemma BadAtTheEnd(boundary: string, all: seq<Item>, cfg: Cfg)
    requires ItemsOk(all, boundary) && all != []
    requires Bad(boundary, all, cfg, []) && Settled(boundary, cfg)
    ensures cfg.items != all
  {
    hide Serialize, BodyText, ItemsOk, Find;
    if !Spoilt(all, cfg) && cfg.state == 3 && |cfg.items| == |all| {
      OpenAtTheEnd(boundary, all, cfg);
    }
  }

  lemma OpenAtTheEnd(boundary: string, all: seq<Item>, cfg: Cfg)
    requires ItemsOk(all, boundary) && all != []
    requires cfg.state == 3 && BadPlace(boundary, all, cfg, cfg.data + []) && Settled(boundary, cfg) && |cfg.items| == |all|
    ensures cfg.items[|all| - 1].content != all[|all| - 1].content
  {
    hide Serialize, BodyText, ItemsOk, Find, OccursAt, Occurs;
    var p := cfg.items[|all| - 1].content;
    var whole := p + (cfg.data + []);
    NoneInWhole(p, cfg.data, CrlfDashBoundary(boundary));
    NeverClosed(all, boundary, whole, p);
  }

  lemma NoneInWhole(p: string, data: string, d: string)
    requires d != [] && Find(data, d) == |data|
    requires forall i: nat :: i < |p| ==> !OccursAt(p + (data + []), d, i)
    ensures !Occurs(p + (data + []), d)
  {
    hide Find, OccursAt;
    var whole := p + (data + []);
    forall i: nat | i < |whole| + 1 ensures !OccursAt(whole, d, i) {
      if i >= |p| && i + |d| <= |whole| {
        OccursInData(p, data, [], d, i);
      } else if i + |d| > |whole| {
        TooFar(whole, d, i);
      }
    }
  }

  lemma TooFar(whole: string, d: string, i: nat)
    requires i + |d| > |whole|
    ensures !OccursAt(whole, d, i)
  {
  }

  /** A first piece that is too short leaves nothing to start from. */
  lemma {:induction false} ShortNeverReads(items: seq<Item>, boundary: string, pieces: seq<string>)
    requires ItemsOk(items, boundary) && items != []
    requires Flatten(pieces) == Serialize(items, boundary)
    requires !FirstPieceHolds(pieces, |DashBoundaryCrlf(boundary)|)
    ensures var (last, ok) := FeedAll(boundary, START, pieces); ok ==> last.items != items
    decreases |pieces|
  {
    hide Run, ItemsOk, Serialize, DashBoundaryCrlf;
    if pieces != [] {
      var rest := pieces[1..];
      assert [pieces[0]] + rest == pieces;
      if pieces[0] == [] {
        EmptyPiece(boundary);
        ShortNeverReads(items, boundary, rest);
      } else {
        ShortFirstPieceIsLost(boundary, pieces[0], rest);
        StartLost(items, boundary, pieces[0], Flatten(rest));
        FeedBad(boundary, items, START, rest);
      }
    }
  }

  lemma StartLost(items: seq<Item>, boundary: string, piece: string, rest: string)
    requires piece != [] && piece + rest == Serialize(items, boundary)
    ensures Bad(boundary, items, START, rest)
  {
    hide Serialize;
    assert START.data + rest == rest;
    assert (piece + rest)[|piece|..] == rest;
  }

  /**
   * The serialized items come back, whatever the pieces, exactly when the first piece that is not empty
   * holds the whole opening boundary line.
   */
  lemma RoundTripExactly(items: seq<Item>, boundary: string, pieces: seq<string>)
    requires ItemsOk(items, boundary) && items != []
    requires Flatten(pieces) == Serialize(items, boundary)
    ensures (var (last, ok) := FeedAll(boundary, START, pieces); ok && last.valid && last.items == items)
            <==> FirstPieceHolds(pieces, |DashBoundaryCrlf(boundary)|)
  {
    hide FeedAll, ItemsOk, Serialize, DashBoundaryCrlf, FirstPieceHolds;
    if FirstPieceHolds(pieces, |DashBoundaryCrlf(boundary)|) {
      RoundTrip(items, boundary, pieces);
    } else {
      ShortNeverReads(items, boundary, pieces);
    }
  }

  /** The same of the object's methods, fed with the pieces of what the serializer wrote. */
  method ParseExactly(items: seq<Item>, boundary: string, pieces: seq<string>)
    returns (body: string, parsed: seq<Item>, valid: bool, ok: bool)
    requires ItemsOk(items, boundary) && items != []
    requires Flatten(pieces) == Serialize(items, boundary)
    ensures body == Flatten(pieces)
    ensures (ok && valid && parsed == items) <==> FirstPieceHolds(pieces, |boundary| + 4)
  {
    hide FeedAll, ItemsOk, Serialize, FirstPieceHolds, Flatten;
    body := SerializeLoop(items, boundary);
    parsed, valid, ok := ParsePieces(boundary, pieces);
    RoundTripExactly(items, boundary, pieces);
  }
}
