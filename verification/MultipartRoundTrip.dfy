/** Serializing items and parsing them back, however the bytes are cut into pieces. */
module MultipartRoundTrip {
  import opened Wrappers
  import opened MultipartHeader
  import opened MultipartParser

  // ---------- the serializer ----------

  /** `is_multipart_boundary_chars_valid`, and not empty. */
  predicate BoundaryOk(boundary: string) {
    boundary != [] &&
    forall i | 0 <= i < |boundary| ::
      'a' <= boundary[i] <= 'z' || 'A' <= boundary[i] <= 'Z' || '0' <= boundary[i] <= '9' ||
      boundary[i] == '-' || boundary[i] == '_'
  }

  function ItemBegin(item: Item, boundary: string): string {
    "--" + boundary + "\r\n" +
    DispositionLine(item.name, item.filename) + "\r\n" +
    (if item.contentType != [] then ContentTypeLine(item.contentType) + "\r\n" else "") +
    "\r\n"
  }

  function SerializeItems(items: seq<Item>, boundary: string): string {
    if items == [] then ""
    else ItemBegin(items[0], boundary) + (items[0].content + "\r\n") + SerializeItems(items[1..], boundary)
  }

  lemma SerializeNext(items: seq<Item>, boundary: string)
    requires items != []
    ensures SerializeItems(items, boundary) ==
            ItemBegin(items[0], boundary) + (items[0].content + "\r\n") + SerializeItems(items[1..], boundary)
  {
  }

  /** `serialize_multipart_formdata` */
  method SerializeLoop(items: seq<Item>, boundary: string) returns (body: string)
    ensures body == Serialize(items, boundary)
  {
    hide ItemBegin, SerializeItems;
    body := "";
    var i := 0;
    assert items[0..] == items;
    while i < |items|
      invariant 0 <= i <= |items|
      invariant body + SerializeItems(items[i..], boundary) == SerializeItems(items, boundary)
    {
      SerializeNext(items[i..], boundary);
      assert items[i..][1..] == items[i + 1..];
      Regroup(body, ItemBegin(items[i], boundary), items[i].content + "\r\n", SerializeItems(items[i + 1..], boundary));
      body := body + ItemBegin(items[i], boundary);
      body := body + (items[i].content + "\r\n");
      i := i + 1;
    }
    assert items[i..] == [];
    SerializeNone(boundary);
    body := body + ("--" + boundary + "--\r\n");
  }

  lemma SerializeNone(boundary: string)
    ensures SerializeItems([], boundary) == ""
  {
  }

  lemma Regroup(a: string, b: string, c: string, d: string)
    ensures a + (b + c + d) == a + b + c + d
  {
  }

  function Serialize(items: seq<Item>, boundary: string): string {
    SerializeItems(items, boundary) + ("--" + boundary + "--\r\n")
  }

  /** An item the format can carry. */
  predicate ItemOk(item: Item, boundary: string) {
    && Quotable(item.name) && Quotable(item.filename)
    && Trimmed(item.contentType) && NoLineEnd(item.contentType)
    && |DispositionLine(item.name, item.filename)| < HEADER_MAX_LENGTH
    && |ContentTypeLine(item.contentType)| < HEADER_MAX_LENGTH
    && !Occurs(item.content, CrlfDashBoundary(boundary))
  }

  predicate NoLineEnd(s: string) {
    forall i | 0 <= i < |s| :: s[i] != '\r' && s[i] != '\n'
  }

  predicate Occurs(d: string, s: string) {
    exists i: nat | i < |d| + 1 :: OccursAt(d, s, i)
  }

  predicate ItemsOk(items: seq<Item>, boundary: string) {
    && BoundaryOk(boundary) && |items| <= FILE_MAX_COUNT
    && forall i | 0 <= i < |items| :: ItemOk(items[i], boundary)
  }

  // ---------- the same text, from the parser's side ----------

  function HeaderLines(item: Item): (lines: seq<string>)
    ensures 1 <= |lines| <= 2
  {
    [DispositionLine(item.name, item.filename)] +
    if item.contentType != [] then [ContentTypeLine(item.contentType)] else []
  }

  /** Header lines, the empty line, and what follows it. */
  function HeaderText(lines: seq<string>, rest: string): string {
    if lines == [] then CRLF + rest else lines[0] + CRLF + HeaderText(lines[1..], rest)
  }

  /** What follows a delimiter. */
  function AfterDelimiter(items: seq<Item>, boundary: string): string
    decreases |items|, 1
  {
    if items == [] then "--\r\n" else CRLF + Entry(items, boundary)
  }

  /** What follows the opening boundary line of the first item. */
  function Entry(items: seq<Item>, boundary: string): string
    requires items != []
    decreases |items|, 0
  {
    HeaderText(HeaderLines(items[0]), BodyText(items[0].content, items[1..], boundary))
  }

  function BodyText(content: string, items: seq<Item>, boundary: string): string
    decreases |items|, 2
  {
    content + CrlfDashBoundary(boundary) + AfterDelimiter(items, boundary)
  }

  lemma BodyForm(content: string, items: seq<Item>, boundary: string)
    ensures content + "\r\n" + ("--" + boundary + AfterDelimiter(items, boundary)) == BodyText(content, items, boundary)
  {
    hide AfterDelimiter;
    assert CrlfDashBoundary(boundary) == "\r\n" + ("--" + boundary);
  }

  lemma ItemForm(item: Item, boundary: string, body: string)
    ensures ItemBegin(item, boundary) + body == "--" + boundary + (CRLF + HeaderText(HeaderLines(item), body))
  {
    hide HeaderText, HeaderLines;
    HeaderForm(item, body);
  }

  lemma {:induction false} SerializeForm(items: seq<Item>, boundary: string)
    ensures Serialize(items, boundary) == "--" + boundary + AfterDelimiter(items, boundary)
  {
    hide ItemBegin, HeaderText, HeaderLines, BodyText;
    if items == [] {
      assert Serialize(items, boundary) == "--" + boundary + "--\r\n";
    } else {
      SerializeForm(items[1..], boundary);
      var item, rest := items[0], Serialize(items[1..], boundary);
      var body := item.content + "\r\n" + rest;
      assert Serialize(items, boundary) == ItemBegin(item, boundary) + body;
      BodyForm(item.content, items[1..], boundary);
      ItemForm(item, boundary, body);
    }
  }

  lemma HeaderForm(item: Item, rest: string)
    ensures HeaderText(HeaderLines(item), rest) ==
            DispositionLine(item.name, item.filename) + "\r\n" +
            (if item.contentType != [] then ContentTypeLine(item.contentType) + "\r\n" else "") +
            "\r\n" + rest
  {
    hide DispositionLine, ContentTypeLine;
    var lines := HeaderLines(item);
    assert HeaderText([], rest) == CRLF + rest;
    if item.contentType != [] {
      assert lines[1..] == [ContentTypeLine(item.contentType)];
      assert lines[1..][1..] == [];
      assert HeaderText(lines[1..], rest) == lines[1] + CRLF + (CRLF + rest);
      assert HeaderText(lines, rest) == lines[0] + CRLF + (lines[1] + CRLF + (CRLF + rest));
    } else {
      assert lines[1..] == [];
      assert HeaderText(lines, rest) == lines[0] + CRLF + (CRLF + rest);
    }
  }

  // ---------- searching in the part of the text that has arrived ----------

  /** A pattern that cannot overlap itself: its first character occurs nowhere else in it. */
  predicate NoOverlap(s: string) {
    s != [] && forall i | 0 < i < |s| :: s[i] != s[0]
  }

  lemma OccursEarlier(d: string, rest: string, u: string, more: string, s: string, i: nat)
    requires OccursAt(d, s, i) && i + |s| <= |u| && d + rest == u + more
    ensures OccursAt(u, s, i)
  {
    assert u[i..i + |s|] == (u + more)[i..i + |s|];
    assert d[i..i + |s|] == (d + rest)[i..i + |s|];
  }

  lemma OccursAcross(d: string, rest: string, u: string, s: string, more: string, i: nat)
    requires OccursAt(d, s, i) && i < |u| < i + |s| && d + rest == u + s + more
    ensures s[|u| - i] == s[0]
  {
    var k := |u| - i;
    assert s[k] == d[i..i + |s|][k] == d[|u|] == (d + rest)[|u|];
    assert (u + s + more)[|u|] == s[0];
  }

  /**
   * The text is `u`, the pattern, and more; `u` does not hold the pattern; `d` is what has arrived of it.
   * Then the first occurrence in `d` is where the pattern was put, or the pattern has not arrived yet.
   */
  lemma FindInPrefix(d: string, rest: string, u: string, s: string, more: string)
    requires NoOverlap(s) && !Occurs(u, s) && d + rest == u + s + more
    ensures Find(d, s) == if |u| + |s| <= |d| then |u| else |d|
  {
    hide Find;
    var text := u + s + more;
    forall i: nat | i < |u| && OccursAt(d, s, i) ensures false {
      if i + |s| <= |u| {
        OccursEarlier(d, rest, u, s + more, s, i);
      } else {
        OccursAcross(d, rest, u, s, more, i);
      }
    }
    if |u| + |s| <= |d| {
      assert d[|u|..|u| + |s|] == (d + rest)[|u|..|u| + |s|] == text[|u|..|u| + |s|] == s;
      FindIs(d, s, |u|);
    } else {
      FindIs(d, s, |d|);
    }
  }

  lemma CrlfNoOverlap()
    ensures NoOverlap(CRLF)
  {
  }

  lemma DelimiterNoOverlap(boundary: string)
    requires BoundaryOk(boundary)
    ensures NoOverlap(CrlfDashBoundary(boundary))
  {
    var s := CrlfDashBoundary(boundary);
    forall i | 0 < i < |s| ensures s[i] != s[0] {
      if i >= 4 { assert s[i] == boundary[i - 4]; }
    }
  }

  // ---------- where the parser stands in the text ----------

  /** What the header lines read so far have filled in. */
  function FileAt(item: Item, k: nat): FileInfo {
    if k == 0 then NO_INFO
    else FileInfo(item.name, item.filename, if k == 1 then "" else item.contentType)
  }

  /** An item of which `n` bytes of content have been delivered. */
  function Partial(item: Item, n: nat): Item
    requires n <= |item.content|
  {
    item.(content := item.content[..n])
  }

  ghost predicate InHeaders(boundary: string, all: seq<Item>, cfg: Cfg, rest: string, k: nat) {
    var n := |cfg.items|;
    n < |all| && cfg.items == all[..n] && cfg.state == 2 && !cfg.valid &&
    var lines := HeaderLines(all[n]);
    k <= |lines| && cfg.file == FileAt(all[n], k) &&
    cfg.data + rest == HeaderText(lines[k..], BodyText(all[n].content, all[n + 1..], boundary))
  }

  ghost predicate InBody(boundary: string, all: seq<Item>, cfg: Cfg, rest: string) {
    0 < |cfg.items| <= |all| && cfg.state == 3 && !cfg.valid &&
    var n := |cfg.items| - 1;
    var done := |cfg.items[n].content|;
    cfg.items[..n] == all[..n] && done <= |all[n].content| && cfg.items[n] == Partial(all[n], done) &&
    cfg.data + rest == BodyText(all[n].content[done..], all[n + 1..], boundary)
  }

  /** `cfg.data` has arrived and is unread, `rest` is still to come, and the items before are in. */
  ghost predicate Good(boundary: string, all: seq<Item>, cfg: Cfg, rest: string) {
    match cfg.state
    case 1 =>
      !cfg.valid && |cfg.items| < |all| && cfg.items == all[..|cfg.items|] &&
      cfg.data + rest == Entry(all[|cfg.items|..], boundary)
    case 2 => exists k :: InHeaders(boundary, all, cfg, rest, k)
    case 3 => InBody(boundary, all, cfg, rest)
    case 4 =>
      !cfg.valid && |cfg.items| <= |all| && cfg.items == all[..|cfg.items|] &&
      cfg.data + rest == AfterDelimiter(all[|cfg.items|..], boundary)
    case _ => false
  }

  predicate Finished(all: seq<Item>, cfg: Cfg) {
    cfg.valid && cfg.data == [] && cfg.items == all
  }

  /** A turn of the loop goes on in the right place, or waits for bytes that are really missing. */
  ghost predicate Advances(boundary: string, all: seq<Item>, o: Outcome, rest: string) {
    match o
    case Continue(cfg) => Good(boundary, all, cfg, rest) || (rest == [] && Finished(all, cfg))
    case Stop(cfg, ok) => ok && Good(boundary, all, cfg, rest) && rest != []
  }

  // ---------- header lines ----------

  lemma LineOk(item: Item, boundary: string, k: nat)
    requires ItemOk(item, boundary) && k < |HeaderLines(item)|
    ensures var line := HeaderLines(item)[k];
            line != [] && |line| < HEADER_MAX_LENGTH && !Occurs(line, CRLF) &&
            ParseHeader(line, FileAt(item, k)) == Some(FileAt(item, k + 1))
  {
    hide ParseHeader;
    var line := HeaderLines(item)[k];
    if k == 0 {
      ParseDispositionLine(item.name, item.filename, NO_INFO);
      DispositionLineNoCr(item.name, item.filename);
    } else {
      ParseContentTypeLine(item.contentType, FileAt(item, 1));
      ContentTypeLineNoCr(item.contentType);
    }
    NoCrNoCrlf(line);
  }

  lemma DispositionLineNoCr(name: string, filename: string)
    requires Quotable(name) && Quotable(filename)
    ensures '\r' !in DispositionLine(name, filename)
  {
    NoCr(name);
    NoCr(filename);
  }

  lemma NoCr(s: string)
    requires Quotable(s)
    ensures '\r' !in s
  {
  }

  lemma ContentTypeLineNoCr(contentType: string)
    requires NoLineEnd(contentType)
    ensures '\r' !in ContentTypeLine(contentType)
  {
  }

  lemma NoCrNoCrlf(line: string)
    requires '\r' !in line
    ensures !Occurs(line, CRLF)
  {
    forall i: nat | i < |line| ensures !OccursAt(line, CRLF, i) {
      assert line[i] in line;
      NoMatchAt(line, CRLF, i);
    }
  }

  lemma NothingOccursInEmpty(s: string)
    requires s != []
    ensures !Occurs([], s)
  {
  }

  lemma HeaderTextSplit(lines: seq<string>, k: nat, rest: string)
    requires k < |lines|
    ensures HeaderText(lines[k..], rest) == lines[k] + CRLF + HeaderText(lines[k + 1..], rest)
  {
    assert lines[k..][1..] == lines[k + 1..];
  }

  /** The part of the text that has arrived, once a prefix of the text is read. */
  lemma DropRead(data: string, rest: string, read: string, more: string)
    requires data + rest == read + more && |read| <= |data|
    ensures data[|read|..] + rest == more && data[..|read|] == read
  {
    assert data[|read|..] + rest == (data + rest)[|read|..];
    assert data[..|read|] == (data + rest)[..|read|];
  }

  // ---------- every turn of the loop advances ----------

  lemma {:induction false} HeadersAdvance(boundary: string, all: seq<Item>, cfg: Cfg, rest: string, k: nat)
    requires ItemsOk(all, boundary) && InHeaders(boundary, all, cfg, rest, k)
    ensures Advances(boundary, all, StepHeaders(cfg), rest)
    decreases |cfg.data|
  {
    hide Find, ParseHeader, HeaderText, HeaderLines, BodyText, ItemOk, Good, StepHeaders, Occurs;
    var n := |cfg.items|;
    var lines := HeaderLines(all[n]);
    var body := BodyText(all[n].content, all[n + 1..], boundary);
    CrlfNoOverlap();
    if k == |lines| {
      assert lines[k..] == [];
      HeadersEnd(boundary, all, cfg, rest);
    } else {
      LineOk(all[n], boundary, k);
      HeaderTextSplit(lines, k, body);
      var more := HeaderText(lines[k + 1..], body);
      FindInPrefix(cfg.data, rest, lines[k], CRLF, more);
      HeadersTurn(cfg);
      if |lines[k]| + 2 <= |cfg.data| {
        assert lines[k] + CRLF + more == (lines[k] + CRLF) + more;
        DropRead(cfg.data, rest, lines[k] + CRLF, more);
        assert cfg.data[..|lines[k]|] == lines[k];
        var next := cfg.(file := FileAt(all[n], k + 1), data := cfg.data[|lines[k]| + 2..]);
        HeadersAdvance(boundary, all, next, rest, k + 1);
      } else {
        HeadersWait(cfg);
        assert Good(boundary, all, cfg, rest) by { GoodInHeaders(boundary, all, cfg, rest, k); }
      }
    }
  }

  lemma GoodInHeaders(boundary: string, all: seq<Item>, cfg: Cfg, rest: string, k: nat)
    requires InHeaders(boundary, all, cfg, rest, k)
    ensures Good(boundary, all, cfg, rest)
  {
  }

  lemma HeadersEnd(boundary: string, all: seq<Item>, cfg: Cfg, rest: string)
    requires ItemsOk(all, boundary) && |cfg.items| < |all|
    requires InHeaders(boundary, all, cfg, rest, |HeaderLines(all[|cfg.items|])|)
    ensures Advances(boundary, all, StepHeaders(cfg), rest)
  {
    hide Find, ParseHeader, BodyText, ItemOk, StepHeaders, Occurs;
    var n := |cfg.items|;
    var lines := HeaderLines(all[n]);
    var body := BodyText(all[n].content, all[n + 1..], boundary);
    assert lines[|lines|..] == [];
    CrlfNoOverlap();
    NothingOccursInEmpty(CRLF);
    assert CRLF + body == [] + CRLF + body;
    FindInPrefix(cfg.data, rest, [], CRLF, body);
    HeadersTurn(cfg);
    if 2 <= |cfg.data| {
      DropRead(cfg.data, rest, CRLF, body);
      var next := StepHeaders(cfg).cfg;
      assert next.items[n] == Partial(all[n], 0);
      assert next.items[..n] == all[..n];
      assert all[n].content[0..] == all[n].content;
      assert InBody(boundary, all, next, rest);
    } else {
      HeadersWait(cfg);
      GoodInHeaders(boundary, all, cfg, rest, |lines|);
    }
  }

  lemma SuffixFree(content: string, s: string, n: nat)
    requires n <= |content| && !Occurs(content, s)
    ensures !Occurs(content[n..], s)
  {
    forall i: nat | i < |content[n..]| + 1 ensures !OccursAt(content[n..], s, i) {
      assert !OccursAt(content, s, n + i);
      if i + |s| <= |content[n..]| {
        assert content[n..][i..i + |s|] == content[n + i..n + i + |s|];
      }
    }
  }

  lemma BodyAdvance(boundary: string, all: seq<Item>, cfg: Cfg, rest: string)
    requires ItemsOk(all, boundary) && InBody(boundary, all, cfg, rest)
    ensures Advances(boundary, all, StepBody(boundary, cfg), rest)
  {
    hide Find, CrlfDashBoundary, AfterDelimiter, Occurs, Good, AppendContent;
    var n := |cfg.items| - 1;
    var done := |cfg.items[n].content|;
    var left := all[n].content[done..];
    var delimiter := CrlfDashBoundary(boundary);
    var more := AfterDelimiter(all[n + 1..], boundary);
    assert ItemOk(all[n], boundary);
    DelimiterNoOverlap(boundary);
    SuffixFree(all[n].content, delimiter, done);
    FindInPrefix(cfg.data, rest, left, delimiter, more);
    if |left| + |delimiter| <= |cfg.data| {
      BodyEnds(boundary, all, cfg, rest);
    } else if |delimiter| < |cfg.data| {
      BodyGoesOn(boundary, all, cfg, rest, |cfg.data| - |delimiter|);
    } else {
      assert Good(boundary, all, cfg, rest) by { GoodInBody(boundary, all, cfg, rest); }
    }
  }

  lemma GoodInBody(boundary: string, all: seq<Item>, cfg: Cfg, rest: string)
    requires InBody(boundary, all, cfg, rest)
    ensures Good(boundary, all, cfg, rest)
  {
  }

  lemma BodyEnds(boundary: string, all: seq<Item>, cfg: Cfg, rest: string)
    requires InBody(boundary, all, cfg, rest)
    requires |all[|cfg.items| - 1].content[|cfg.items[|cfg.items| - 1].content|..]| + |CrlfDashBoundary(boundary)| <= |cfg.data|
    ensures var left := all[|cfg.items| - 1].content[|cfg.items[|cfg.items| - 1].content|..];
            Good(boundary, all,
                 cfg.(items := AppendContent(cfg.items, cfg.data[..|left|]),
                      data := cfg.data[|left| + |CrlfDashBoundary(boundary)|..], state := 4), rest)
  {
    hide CrlfDashBoundary, AfterDelimiter, AppendContent, InHeaders, Entry;
    var n := |cfg.items| - 1;
    var done := |cfg.items[n].content|;
    var left := all[n].content[done..];
    var delimiter := CrlfDashBoundary(boundary);
    DropRead(cfg.data, rest, left + delimiter, AfterDelimiter(all[n + 1..], boundary));
    assert (left + delimiter)[..|left|] == left;
    assert cfg.data[..|left|] == left;
    Delivered(all, cfg.items, left);
  }

  lemma BodyGoesOn(boundary: string, all: seq<Item>, cfg: Cfg, rest: string, len: nat)
    requires InBody(boundary, all, cfg, rest)
    requires len <= |cfg.data| && len <= |all[|cfg.items| - 1].content[|cfg.items[|cfg.items| - 1].content|..]|
    ensures Good(boundary, all, cfg.(items := AppendContent(cfg.items, cfg.data[..len]), data := cfg.data[len..]), rest)
  {
    hide CrlfDashBoundary, AfterDelimiter, AppendContent, InHeaders, Entry;
    var n := |cfg.items| - 1;
    var done := |cfg.items[n].content|;
    var left := all[n].content[done..];
    var now, later := left[..len], left[len..];
    var tail := CrlfDashBoundary(boundary) + AfterDelimiter(all[n + 1..], boundary);
    assert left == now + later;
    assert cfg.data + rest == now + (later + tail);
    DropRead(cfg.data, rest, now, later + tail);
    Delivered(all, cfg.items, now);
    assert later == all[n].content[done + len..];
  }

  /** Delivering the next bytes of the content extends the part that is in. */
  lemma Delivered(all: seq<Item>, items: seq<Item>, text: string)
    requires 0 < |items| <= |all|
    requires var n := |items| - 1;
             var done := |items[n].content|;
             items[..n] == all[..n] && done + |text| <= |all[n].content| && items[n] == Partial(all[n], done) &&
             text == all[n].content[done..done + |text|]
    ensures var n := |items| - 1;
            var done := |items[n].content|;
            var after := AppendContent(items, text);
            |after| == |items| && after[..n] == all[..n] &&
            after[n] == Partial(all[n], done + |text|) && |after[n].content| == done + |text| &&
            (done + |text| == |all[n].content| ==> after == all[..n + 1])
  {
    var n := |items| - 1;
    var done := |items[n].content|;
    var after := AppendContent(items, text);
    assert all[n].content[..done] + text == all[n].content[..done + |text|];
    assert after[..n] == items[..n];
    if done + |text| == |all[n].content| {
      assert after[n] == all[n];
      assert after == after[..n] + [after[n]];
      assert all[..n + 1] == all[..n] + [all[n]];
    }
  }

  lemma BoundaryAdvance(boundary: string, all: seq<Item>, cfg: Cfg, rest: string)
    requires ItemsOk(all, boundary) && cfg.state == 4 && Good(boundary, all, cfg, rest)
    ensures Advances(boundary, all, StepBoundary(cfg), rest)
  {
    hide Entry;
    var n := |cfg.items|;
    if n < |all| {
      assert all[n..] != [];
      var more := Entry(all[n..], boundary);
      if 2 <= |cfg.data| {
        DropRead(cfg.data, rest, CRLF, more);
      } else {
        EntryLong(all[n..], boundary);
      }
    } else {
      assert all[n..] == [];
      assert all[..n] == all;
      assert |cfg.data| + |rest| == 4;
      if 2 <= |cfg.data| {
        assert cfg.data[0] == (cfg.data + rest)[0] == '-';
        assert !(CRLF <= cfg.data);
      }
      if 4 <= |cfg.data| {
        assert cfg.data == cfg.data + rest;
      }
    }
  }

  lemma EntryLong(items: seq<Item>, boundary: string)
    requires items != []
    ensures |Entry(items, boundary)| > 2
  {
    hide DispositionLine, BodyText;
    HeaderTextLong(HeaderLines(items[0])[1..], BodyText(items[0].content, items[1..], boundary));
  }

  lemma {:induction false} HeaderTextLong(lines: seq<string>, rest: string)
    ensures |HeaderText(lines, rest)| >= 2
  {
    if lines != [] { HeaderTextLong(lines[1..], rest); }
  }

  lemma StepAdvances(boundary: string, all: seq<Item>, cfg: Cfg, rest: string)
    requires ItemsOk(all, boundary) && Good(boundary, all, cfg, rest) && cfg.data != []
    ensures Advances(boundary, all, Step(boundary, cfg), rest)
  {
    hide StepHeaders, StepBody, StepBoundary, Find, ItemsOk, BodyText, HeaderText, HeaderLines, AfterDelimiter;
    if cfg.state == 1 {
      var n := |cfg.items|;
      var next := cfg.(file := NO_INFO, state := 2);
      assert all[n..][0] == all[n] && all[n..][1..] == all[n + 1..];
      assert HeaderLines(all[n])[0..] == HeaderLines(all[n]);
      assert InHeaders(boundary, all, next, rest, 0);
      GoodInHeaders(boundary, all, next, rest, 0);
    } else if cfg.state == 2 {
      var k :| InHeaders(boundary, all, cfg, rest, k);
      FirstLineShort(boundary, all, cfg, rest, k);
      HeadersAdvance(boundary, all, cfg, rest, k);
    } else if cfg.state == 3 {
      BodyAdvance(boundary, all, cfg, rest);
    } else {
      BoundaryAdvance(boundary, all, cfg, rest);
    }
  }

  /** The check at the head of state 2 lets the lines of a proper item through. */
  lemma FirstLineShort(boundary: string, all: seq<Item>, cfg: Cfg, rest: string, k: nat)
    requires ItemsOk(all, boundary) && InHeaders(boundary, all, cfg, rest, k)
    ensures Find(cfg.data, CRLF) <= HEADER_MAX_LENGTH
  {
    hide Find, HeaderText, HeaderLines, BodyText, Occurs, ItemOk, ParseHeader;
    var n := |cfg.items|;
    var lines := HeaderLines(all[n]);
    var body := BodyText(all[n].content, all[n + 1..], boundary);
    CrlfNoOverlap();
    if k == |lines| {
      assert lines[k..] == [];
      HeaderTextEnd(body);
      NothingOccursInEmpty(CRLF);
      assert CRLF + body == [] + CRLF + body;
      FindInPrefix(cfg.data, rest, [], CRLF, body);
    } else {
      LineOk(all[n], boundary, k);
      HeaderTextSplit(lines, k, body);
      FindInPrefix(cfg.data, rest, lines[k], CRLF, HeaderText(lines[k + 1..], body));
    }
  }

  lemma HeaderTextEnd(rest: string)
    ensures HeaderText([], rest) == CRLF + rest
  {
  }

  /**
   * The length check lets a header line through at every cut of its bytes exactly when the line is shorter
   * than the limit: a line of the very limit is refused by a cut between the two characters of its end.
   */
  lemma LineLimitExactly(line: string)
    requires '\r' !in line
    ensures |line| < HEADER_MAX_LENGTH <==>
              forall k: nat :: k <= |line| + 2 ==> Find((line + CRLF)[..k], CRLF) <= HEADER_MAX_LENGTH
  {
    hide Find;
    forall k: nat | k <= |line| + 2
      ensures Find((line + CRLF)[..k], CRLF) == if k == |line| + 2 then |line| else k
    {
      FindInCut(line, k);
    }
    if |line| >= HEADER_MAX_LENGTH {
      assert Find((line + CRLF)[..|line| + 1], CRLF) == |line| + 1;
    }
  }

  lemma FindInCut(line: string, k: nat)
    requires '\r' !in line && k <= |line| + 2
    ensures Find((line + CRLF)[..k], CRLF) == if k == |line| + 2 then |line| else k
  {
    hide Find;
    var text := line + CRLF;
    assert text[..k] + text[k..] == line + CRLF + [];
    CrlfNoOverlap();
    NoCrNoCrlf(line);
    FindInPrefix(text[..k], text[k..], line, CRLF, []);
  }

  /** A good place is one where something is still missing. */
  lemma GoodIsNotTheEnd(boundary: string, all: seq<Item>, cfg: Cfg, rest: string)
    requires Good(boundary, all, cfg, rest)
    ensures cfg.data + rest != []
  {
    hide DispositionLine, AfterDelimiter, InHeaders;
    if cfg.state == 1 {
      EntryLong(all[|cfg.items|..], boundary);
    } else if cfg.state == 2 {
      var k :| InHeaders(boundary, all, cfg, rest, k);
      HeadersNotEmpty(boundary, all, cfg, rest, k);
    } else if cfg.state == 4 {
      DelimiterNotEmpty(all[|cfg.items|..], boundary);
    }
  }

  lemma HeadersNotEmpty(boundary: string, all: seq<Item>, cfg: Cfg, rest: string, k: nat)
    requires InHeaders(boundary, all, cfg, rest, k)
    ensures cfg.data + rest != []
  {
    hide BodyText, HeaderLines;
  }

  lemma DelimiterNotEmpty(items: seq<Item>, boundary: string)
    ensures AfterDelimiter(items, boundary) != []
  {
  }

  /** One call of `parse`, wherever the pieces are cut. */
  lemma {:induction false} RunAdvances(boundary: string, all: seq<Item>, cfg: Cfg, rest: string)
    requires ItemsOk(all, boundary)
    requires Good(boundary, all, cfg, rest) || (rest == [] && Finished(all, cfg))
    ensures var (last, ok) := Run(boundary, cfg);
            ok && if rest == [] then Finished(all, last) else Good(boundary, all, last, rest)
    decreases Measure(cfg)
  {
    hide Good, Step, ItemsOk, Measure;
    if cfg.data == [] {
      if Good(boundary, all, cfg, rest) { GoodIsNotTheEnd(boundary, all, cfg, rest); }
    } else {
      StepShrinks(boundary, cfg);
      StepAdvances(boundary, all, cfg, rest);
      if Step(boundary, cfg).Continue? {
        RunAdvances(boundary, all, Step(boundary, cfg).cfg, rest);
      }
    }
  }

  // ---------- all pieces ----------

  const START := Cfg(0, [], NO_INFO, false, [])

  /** The calls of `parse` for the pieces of a body, up to one that fails. */
  function FeedAll(boundary: string, cfg: Cfg, pieces: seq<string>): (Cfg, bool)
    decreases |pieces|
  {
    if pieces == [] then (cfg, true)
    else
      var (next, ok) := Run(boundary, cfg.(data := cfg.data + pieces[0]));
      if !ok then (next, false) else FeedAll(boundary, next, pieces[1..])
  }

  function Flatten(pieces: seq<string>): string {
    if pieces == [] then "" else pieces[0] + Flatten(pieces[1..])
  }

  /** The first piece that is not empty has at least `n` bytes. */
  predicate FirstPieceHolds(pieces: seq<string>, n: nat) {
    pieces != [] && if pieces[0] == [] then FirstPieceHolds(pieces[1..], n) else |pieces[0]| >= n
  }

  lemma {:induction false} FeedAdvances(boundary: string, all: seq<Item>, cfg: Cfg, pieces: seq<string>)
    requires ItemsOk(all, boundary)
    requires if Flatten(pieces) == [] then Finished(all, cfg) else Good(boundary, all, cfg, Flatten(pieces))
    ensures var (last, ok) := FeedAll(boundary, cfg, pieces); ok && Finished(all, last)
    decreases |pieces|
  {
    hide Run, ItemsOk;
    if pieces != [] {
      var rest := Flatten(pieces[1..]);
      var filled := cfg.(data := cfg.data + pieces[0]);
      assert cfg.data + Flatten(pieces) == filled.data + rest;
      if Flatten(pieces) != [] {
        MoreData(boundary, all, cfg, pieces[0], rest);
      }
      RunAdvances(boundary, all, filled, rest);
      FeedAdvances(boundary, all, Run(boundary, filled).0, pieces[1..]);
    }
  }

  lemma MoreData(boundary: string, all: seq<Item>, cfg: Cfg, piece: string, rest: string)
    requires Good(boundary, all, cfg, piece + rest)
    ensures Good(boundary, all, cfg.(data := cfg.data + piece), rest)
  {
    var filled := cfg.(data := cfg.data + piece);
    assert cfg.data + (piece + rest) == filled.data + rest;
    if cfg.state == 2 {
      var k :| InHeaders(boundary, all, cfg, piece + rest, k);
      assert InHeaders(boundary, all, filled, rest, k);
    }
  }

  lemma FindAtFront(d: string, s: string)
    requires s != [] && s <= d
    ensures Find(d, s) == 0
  {
    assert OccursAt(d, s, 0);
    FindIs(d, s, 0);
  }

  /** State 0, when the whole opening line is there. */
  lemma OpeningFound(boundary: string, d: string)
    requires DashBoundaryCrlf(boundary) <= d
    ensures Run(boundary, START.(data := d)) ==
            Run(boundary, Cfg(1, d[|DashBoundaryCrlf(boundary)|..], NO_INFO, false, []))
  {
    hide Find, DashBoundaryCrlf;
    FindAtFront(d, DashBoundaryCrlf(boundary));
    assert d[0..] == d;
    StepShrinks(boundary, START.(data := d));
  }

  /**
   * Whatever the pieces, if the first of them holds the opening line, `parse` accepts them all,
   * ends valid and has made exactly the callbacks for the serialized items.
   */
  lemma {:induction false} RoundTrip(items: seq<Item>, boundary: string, pieces: seq<string>)
    requires ItemsOk(items, boundary) && items != []
    requires Flatten(pieces) == Serialize(items, boundary)
    requires FirstPieceHolds(pieces, |DashBoundaryCrlf(boundary)|)
    ensures var (last, ok) := FeedAll(boundary, START, pieces);
            ok && last.valid && last.items == items
    decreases |pieces|
  {
    hide Run, ItemsOk, Serialize, Entry, DashBoundaryCrlf, AfterDelimiter;
    var rest := Flatten(pieces[1..]);
    if pieces[0] == [] {
      EmptyPiece(boundary);
      RoundTrip(items, boundary, pieces[1..]);
    } else {
      var opening := DashBoundaryCrlf(boundary);
      OpeningForm(items, boundary);
      DropRead(pieces[0], rest, opening, Entry(items, boundary));
      OpeningFound(boundary, pieces[0]);
      var cfg := Cfg(1, pieces[0][|opening|..], NO_INFO, false, []);
      assert items[0..] == items;
      assert Good(boundary, items, cfg, rest);
      RunAdvances(boundary, items, cfg, rest);
      assert START.data + pieces[0] == pieces[0];
      FeedAdvances(boundary, items, Run(boundary, cfg).0, pieces[1..]);
    }
  }

  lemma OpeningForm(items: seq<Item>, boundary: string)
    requires items != []
    ensures Serialize(items, boundary) == DashBoundaryCrlf(boundary) + Entry(items, boundary)
  {
    hide Entry, Serialize;
    SerializeForm(items, boundary);
  }

  lemma EmptyPiece(boundary: string)
    ensures Run(boundary, START.(data := START.data + [])) == (START, true)
  {
  }

  /** The methods of the parser object, fed piece by piece. */
  method ParsePieces(boundary: string, pieces: seq<string>) returns (items: seq<Item>, valid: bool, ok: bool)
    ensures (ok, items, valid) ==
            (FeedAll(boundary, START, pieces).1, FeedAll(boundary, START, pieces).0.items,
             FeedAll(boundary, START, pieces).0.valid)
  {
    hide Run;
    var parser := new MultipartFormDataParser(boundary);
    ok := true;
    var i := 0;
    assert pieces[0..] == pieces;
    while i < |pieces|
      invariant 0 <= i <= |pieces|
      invariant fresh(parser) && parser.Valid() && parser.boundary == boundary
      invariant FeedAll(boundary, START, pieces) == FeedAll(boundary, parser.Config(), pieces[i..])
    {
      ghost var before := parser.Config();
      assert pieces[i..][1..] == pieces[i + 1..];
      ok := parser.Parse(pieces[i]);
      if !ok {
        return parser.items, parser.isValid, false;
      }
      i := i + 1;
    }
    return parser.items, parser.isValid, true;
  }

  // ---------- when the opening line is cut ----------

  lemma ShorterNeverHolds(d: string, s: string)
    requires s != [] && |d| < |s|
    ensures Find(d, s) == |d|
  {
    FindIs(d, s, |d|);
  }

  /** State 0 erases a piece that does not hold the opening line: the rest is parsed as if it had never come. */
  lemma ShortFirstPieceIsLost(boundary: string, piece: string, pieces: seq<string>)
    requires |piece| < |DashBoundaryCrlf(boundary)|
    ensures FeedAll(boundary, START, [piece] + pieces) == FeedAll(boundary, START, pieces)
  {
    hide Find, DashBoundaryCrlf;
    var cfg := START.(data := piece);
    assert START.data + piece == piece;
    if piece != [] {
      ShorterNeverHolds(piece, DashBoundaryCrlf(boundary));
      assert piece[|piece|..] == [];
      assert Step(boundary, cfg) == Stop(START, true);
    }
    assert ([piece] + pieces)[1..] == pieces;
  }
}
