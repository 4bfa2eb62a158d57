/** Where delimiters and opening lines can be in serialized items: not inside a header, nor too early. */
module MultipartText {
  import opened MultipartHeader
  import opened MultipartParser
  import opened MultipartRoundTrip

  // ---------- places in the text, counted from its end ----------

  predicate EndsWith(text: string, t: string) {
    |t| <= |text| && text[|text| - |t|..] == t
  }

  /** What stands right before the end `t` of the text. */
  predicate Before(text: string, t: string, s: string) {
    |s| + |t| <= |text| && text[|text| - |t| - |s|..|text| - |t|] == s
  }

  /** The text from the content of item `k` on. */
  function BodyAt(all: seq<Item>, k: nat, boundary: string): string
    requires k < |all|
  {
    BodyText(all[k].content, all[k + 1..], boundary)
  }

  lemma EndsShorter(text: string, a: string, b: string)
    requires EndsWith(text, a) && EndsWith(text, b) && |a| <= |b|
    ensures EndsWith(b, a)
  {
    assert text[|text| - |b|..][|b| - |a|..] == text[|text| - |a|..];
  }

  lemma EndsTransitive(text: string, b: string, a: string)
    requires EndsWith(text, b) && EndsWith(b, a)
    ensures EndsWith(text, a)
  {
    assert text[|text| - |b|..][|b| - |a|..] == text[|text| - |a|..];
  }

  lemma EndsDropped(text: string, t: string, n: nat)
    requires EndsWith(text, t) && n <= |t|
    ensures EndsWith(text, t[n..])
  {
    assert text[|text| - |t|..][n..] == text[|text| - |t| + n..];
  }

  /** What was dropped stands before what is left. */
  lemma DroppedBefore(text: string, t: string, n: nat, s: string)
    requires EndsWith(text, t) && |s| <= n <= |t| && t[n - |s|..n] == s
    ensures Before(text, t[n..], s)
  {
    assert text[|text| - |t|..][n - |s|..n] == text[|text| - |t| + n - |s|..|text| - |t| + n];
  }

  lemma BeforeMore(text: string, t: string, a: string, n: nat, b: string)
    requires EndsWith(text, t) && Before(text, t, a) && n == |b| && n <= |t| && t[..n] == b
    ensures Before(text, t[n..], a + b)
  {
    var at := |text| - |t|;
    assert text[at - |a|..at + n] == text[at - |a|..at] + text[at..at + n];
    assert text[at..at + n] == text[at..][..n];
  }

  lemma {:induction false} HeaderTextEnds(lines: seq<string>, rest: string)
    ensures EndsWith(HeaderText(lines, rest), rest)
    ensures |HeaderText(lines, rest)| >= |rest| + 2
  {
    if lines != [] {
      HeaderTextEnds(lines[1..], rest);
      var more := HeaderText(lines[1..], rest);
      assert EndsWith(lines[0] + CRLF + more, more);
      EndsTransitive(lines[0] + CRLF + more, more, rest);
    }
  }

  lemma AfterForm(all: seq<Item>, k: nat, boundary: string)
    requires k < |all|
    ensures AfterDelimiter(all[k..], boundary) == CRLF + HeaderText(HeaderLines(all[k]), BodyAt(all, k, boundary))
    ensures BodyAt(all, k, boundary) == all[k].content + CrlfDashBoundary(boundary) + AfterDelimiter(all[k + 1..], boundary)
  {
    hide HeaderText, HeaderLines;
    assert all[k..][0] == all[k] && all[k..][1..] == all[k + 1..];
  }

  /** Every item's content, up to the end, is an end of the text. */
  lemma {:induction false} BodyEnds(all: seq<Item>, k: nat, boundary: string)
    requires k < |all|
    ensures EndsWith(Serialize(all, boundary), BodyAt(all, k, boundary))
    ensures EndsWith(Serialize(all, boundary), AfterDelimiter(all[k..], boundary))
  {
    hide HeaderText, HeaderLines, BodyText, Serialize, AfterDelimiter;
    var text := Serialize(all, boundary);
    var body := BodyAt(all, k, boundary);
    var after := AfterDelimiter(all[k..], boundary);
    if k == 0 {
      SerializeForm(all, boundary);
      assert all[0..] == all;
    } else {
      BodyEnds(all, k - 1, boundary);
      AfterForm(all, k - 1, boundary);
      assert EndsWith(BodyAt(all, k - 1, boundary), after);
      EndsTransitive(text, BodyAt(all, k - 1, boundary), after);
    }
    AfterForm(all, k, boundary);
    HeaderTextEnds(HeaderLines(all[k]), body);
    assert EndsWith(after, HeaderText(HeaderLines(all[k]), body));
    EndsTransitive(after, HeaderText(HeaderLines(all[k]), body), body);
    EndsTransitive(text, after, body);
  }

  /** The text ends with the closing boundary line. */
  lemma CloseEnds(all: seq<Item>, boundary: string)
    requires all != []
    ensures EndsWith(Serialize(all, boundary), CrlfDashBoundary(boundary) + "--\r\n")
    ensures BodyAt(all, |all| - 1, boundary) == all[|all| - 1].content + (CrlfDashBoundary(boundary) + "--\r\n")
  {
    hide BodyText, Serialize;
    var k := |all| - 1;
    BodyEnds(all, k, boundary);
    AfterForm(all, k, boundary);
    assert all[k + 1..] == [];
    var close := CrlfDashBoundary(boundary) + "--\r\n";
    assert BodyAt(all, k, boundary) == all[k].content + close;
    EndsTransitive(Serialize(all, boundary), BodyAt(all, k, boundary), close);
  }

  // ---------- where the delimiter can be ----------

  lemma PartHolds(c: string, u: string, s: string)
    requires EndsWith(c, u) && !Occurs(c, s)
    ensures !Occurs(u, s)
  {
    if Occurs(u, s) {
      var i: nat :| i < |u| + 1 && OccursAt(u, s, i);
      var j := |c| - |u| + i;
      assert c[|c| - |u|..][i..i + |s|] == c[j..j + |s|];
      assert OccursAt(c, s, j);
      assert false;
    }
  }

  /** The lines of a header, without the empty line, after a delimiter. */
  function HeaderPart(item: Item, boundary: string): string {
    CrlfDashBoundary(boundary) + CRLF + DispositionLine(item.name, item.filename) + CRLF +
    if item.contentType != [] then ContentTypeLine(item.contentType) + CRLF else ""
  }

  lemma LinesStart(item: Item)
    ensures DispositionLine(item.name, item.filename) != "" && ContentTypeLine(item.contentType) != ""
    ensures DispositionLine(item.name, item.filename)[0] == 'C' && ContentTypeLine(item.contentType)[0] == 'C'
  {
  }

  lemma LinesNoCr(item: Item, boundary: string)
    requires ItemOk(item, boundary)
    ensures '\r' !in DispositionLine(item.name, item.filename) && '\r' !in ContentTypeLine(item.contentType)
  {
    hide Occurs;
  }

  /** Carriage returns end the delimiter's line and the header lines, and stand nowhere else. */
  lemma ReturnPlaces(item: Item, boundary: string, y: nat)
    requires BoundaryOk(boundary) && ItemOk(item, boundary) && 1 <= y < |HeaderPart(item, boundary)|
    ensures var d := |boundary| + 4;
            var l0 := |DispositionLine(item.name, item.filename)|;
            HeaderPart(item, boundary)[y] == '\r' ==>
              y == d || y == d + 2 + l0 || (item.contentType != [] && y == d + 4 + l0 + |ContentTypeLine(item.contentType)|)
  {
    hide DispositionLine, ContentTypeLine, ItemOk;
    LinesNoCr(item, boundary);
    DelimiterNoOverlap(boundary);
    var d := CrlfDashBoundary(boundary);
    var l0, l1 := DispositionLine(item.name, item.filename), ContentTypeLine(item.contentType);
    var x := HeaderPart(item, boundary);
    var at := |d| + 4 + |l0|;
    if y < |d| {
      assert x[y] == d[y];
    } else if |d| + 1 < y < |d| + 2 + |l0| {
      assert x[y] == l0[y - |d| - 2];
    } else if at <= y < |x| - 2 {
      assert x == (d + CRLF + l0 + CRLF) + (l1 + CRLF);
      assert x[y] == l1[y - at];
    }
  }

  /** After a delimiter and its line, no line of the header starts with a dash. */
  lemma NoDashInHeader(item: Item, boundary: string, y: nat)
    requires BoundaryOk(boundary) && ItemOk(item, boundary)
    requires 1 <= y && y + 2 < |HeaderPart(item, boundary)| && HeaderPart(item, boundary)[y] == '\r'
    ensures HeaderPart(item, boundary)[y + 2] == 'C'
  {
    hide DispositionLine, ContentTypeLine, ItemOk;
    LinesStart(item);
    ReturnPlaces(item, boundary, y);
    var d := CrlfDashBoundary(boundary);
    var l0, l1 := DispositionLine(item.name, item.filename), ContentTypeLine(item.contentType);
    var x := HeaderPart(item, boundary);
    if y == |d| {
      assert x[y + 2] == l0[0];
    } else {
      assert x == (d + CRLF + l0 + CRLF) + (l1 + CRLF);
      assert x[y + 2] == l1[0];
    }
  }

  /** The header of an item after a delimiter: the part that ends before the empty line, and the rest. */
  lemma DelimitedForm(all: seq<Item>, k: nat, boundary: string)
    requires k < |all|
    ensures CrlfDashBoundary(boundary) + AfterDelimiter(all[k..], boundary)
            == HeaderPart(all[k], boundary) + (CRLF + BodyAt(all, k, boundary))
  {
    hide DispositionLine, ContentTypeLine, BodyText;
    AfterForm(all, k, boundary);
    HeaderForm(all[k], BodyAt(all, k, boundary));
  }

  /** A delimiter found behind the true one begins so late that its entry begins inside the next content. */
  lemma LaterDelimiter(all: seq<Item>, k: nat, boundary: string, whole: string, j: nat)
    requires ItemsOk(all, boundary) && k <= |all|
    requires var w := CrlfDashBoundary(boundary) + AfterDelimiter(all[k..], boundary);
             EndsWith(w, whole) && |whole| < |w|
    requires OccursAt(whole, CrlfDashBoundary(boundary), j)
    ensures k < |all| && |whole| - j - (|boundary| + 4) < |BodyAt(all, k, boundary)| + 2
  {
    hide HeaderPart, ItemOk, AfterDelimiter, BodyText;
    var d := CrlfDashBoundary(boundary);
    var w := d + AfterDelimiter(all[k..], boundary);
    var y := |w| - |whole| + j;
    assert w[y..y + |d|] == whole[j..j + |d|] == d by {
      assert w[|w| - |whole|..][j..j + |d|] == w[y..y + |d|];
    }
    assert w[y] == d[0] == '\r' && w[y + 2] == d[2] == '-' by {
      assert w[y] == w[y..y + |d|][0] && w[y + 2] == w[y..y + |d|][2];
    }
    if k == |all| {
      assert all[k..] == [];
      AfterNothing(boundary);
      NotAtTheEnd(boundary, y);
      assert false;
    } else {
      DelimitedForm(all, k, boundary);
      var part := HeaderPart(all[k], boundary);
      if y + 2 < |part| {
        assert ItemOk(all[k], boundary);
        assert w[y] == part[y] && w[y + 2] == part[y + 2];
        NoDashInHeader(all[k], boundary, y);
        assert false;
      }
    }
  }

  lemma AfterNothing(boundary: string)
    ensures AfterDelimiter([], boundary) == "--\r\n"
  {
  }

  lemma NotAtTheEnd(boundary: string, y: nat)
    requires BoundaryOk(boundary) && 1 <= y <= 4
    ensures (CrlfDashBoundary(boundary) + AfterDelimiter([], boundary))[y] != '\r'
  {
    DelimiterNoOverlap(boundary);
    var d := CrlfDashBoundary(boundary);
    assert (d + AfterDelimiter([], boundary))[y] == d[y];
  }

  /**
   * From a place behind the start of content `k` on, the first delimiter closes a text other than that
   * content, or begins so late that the next entry begins inside the next content.
   */
  lemma FirstDelimiter(all: seq<Item>, k: nat, boundary: string, whole: string, j: nat)
    requires ItemsOk(all, boundary) && k < |all|
    requires EndsWith(Serialize(all, boundary), whole) && |whole| < |BodyAt(all, k, boundary)|
    requires j < |whole| && j == Find(whole, CrlfDashBoundary(boundary))
    ensures whole[..j] != all[k].content
            || (k + 1 < |all| && |whole| - j - (|boundary| + 4) < |BodyAt(all, k + 1, boundary)| + 2)
  {
    hide AfterDelimiter, BodyText, Serialize, Find, ItemOk;
    var d := CrlfDashBoundary(boundary);
    var after := AfterDelimiter(all[k + 1..], boundary);
    var body := BodyAt(all, k, boundary);
    AfterForm(all, k, boundary);
    BodyEnds(all, k, boundary);
    EndsShorter(Serialize(all, boundary), whole, body);
    if |whole| >= |d| + |after| {
      var u := whole[..|whole| - |d| - |after|];
      InContent(all[k].content, d, after, whole, u);
      assert ItemOk(all[k], boundary);
      ContentFree(all[k], boundary);
      PartHolds(all[k].content, u, d);
      DelimiterNoOverlap(boundary);
      assert whole + [] == whole;
      FindInPrefix(whole, [], u, d, after);
    } else {
      assert EndsWith(body, d + after) by {
        assert body == all[k].content + (d + after);
      }
      EndsShorter(body, whole, d + after);
      LaterDelimiter(all, k + 1, boundary, whole, j);
    }
  }

  lemma ContentFree(item: Item, boundary: string)
    requires ItemOk(item, boundary)
    ensures !Occurs(item.content, CrlfDashBoundary(boundary))
  {
  }

  lemma InContent(c: string, d: string, after: string, whole: string, u: string)
    requires EndsWith(c + d + after, whole) && |d| + |after| <= |whole| < |c + d + after|
    requires u == whole[..|whole| - |d| - |after|]
    ensures whole == u + d + after && EndsWith(c, u) && |u| < |c|
  {
    var body := c + d + after;
    var x := |body| - |whole|;
    assert body[x..] == c[x..] + d + after;
    assert whole == c[x..] + d + after;
  }

  // ---------- where the opening line can be ----------

  /** Characters of a boundary are neither quotes nor line ends. */
  lemma LastOfOpening(boundary: string)
    requires BoundaryOk(boundary)
    ensures var o := DashBoundaryCrlf(boundary);
            o[|o| - 2] == '\r' && o[|o| - 3] != '"' && o[|o| - 3] != '\n'
  {
    var o := DashBoundaryCrlf(boundary);
    assert o[|o| - 3] == boundary[|boundary| - 1];
  }

  /** The text but for its first two characters is a delimiter's header part, an empty line and the body. */
  lemma TextForm(all: seq<Item>, boundary: string)
    requires all != []
    ensures CRLF + Serialize(all, boundary) == HeaderPart(all[0], boundary) + (CRLF + BodyAt(all, 0, boundary))
  {
    hide AfterDelimiter, HeaderPart, BodyText, Serialize;
    SerializeForm(all, boundary);
    assert all[0..] == all;
    DelimitedForm(all, 0, boundary);
    assert CRLF + ("--" + boundary + AfterDelimiter(all, boundary)) == CrlfDashBoundary(boundary) + AfterDelimiter(all, boundary);
  }

  /** Behind the start of the text, an opening line ends behind the first header, or with its content type. */
  lemma LaterOpening(all: seq<Item>, boundary: string, t: string, i: nat)
    requires ItemsOk(all, boundary) && all != []
    requires EndsWith(Serialize(all, boundary), t) && |t| < |Serialize(all, boundary)|
    requires OccursAt(t, DashBoundaryCrlf(boundary), i)
    ensures var after := t[i + |DashBoundaryCrlf(boundary)|..];
            |after| < |BodyAt(all, 0, boundary)|
            || (after == CRLF + BodyAt(all, 0, boundary) && all[0].contentType != [])
  {
    hide HeaderPart, ItemOk, ItemsOk, BodyText, Serialize, OccursAt, DashBoundaryCrlf;
    OccursFits(t, DashBoundaryCrlf(boundary), i);
    var o := DashBoundaryCrlf(boundary);
    var text := CRLF + Serialize(all, boundary);
    var body := BodyAt(all, 0, boundary);
    TextForm(all, boundary);
    EndsTransitive(text, Serialize(all, boundary), t);
    var after := t[i + |o|..];
    OpeningEnds(text, t, i, boundary, all);
    if |after| >= |body| {
      var e := |text| - |after| - 2;
      FirstOk(all, boundary);
      ReturnInText(all, boundary, e);
      PartThenBody(text, HeaderPart(all[0], boundary), CRLF + body, after);
    }
  }

  lemma OccursFits(d: string, s: string, i: nat)
    requires OccursAt(d, s, i)
    ensures i + |s| <= |d|
  {
  }

  lemma FirstOk(all: seq<Item>, boundary: string)
    requires ItemsOk(all, boundary) && all != []
    ensures BoundaryOk(boundary) && ItemOk(all[0], boundary)
  {
  }

  lemma PartThenBody(text: string, part: string, body: string, after: string)
    requires text == part + body && EndsWith(text, after) && |after| == |body|
    ensures after == body
  {
  }

  lemma OpeningEnds(text: string, t: string, i: nat, boundary: string, all: seq<Item>)
    requires ItemsOk(all, boundary) && EndsWith(text, t) && OccursAt(t, DashBoundaryCrlf(boundary), i)
    ensures var after := t[i + |DashBoundaryCrlf(boundary)|..];
            var e := |text| - |after| - 2;
            && EndsWith(text, after) && e >= |text| - |t| + |boundary| + 2
            && text[e] == '\r' && text[e - 1] != '"' && text[e - 1] != '\n'
  {
    hide DashBoundaryCrlf;
    var o := DashBoundaryCrlf(boundary);
    var after := t[i + |o|..];
    EndsDropped(text, t, i + |o|);
    LastOfOpening(boundary);
    var at := |text| - |t| + i;
    assert t[i..i + |o|][|o| - 2] == t[i + |o| - 2] == text[|text| - |t|..][i + |o| - 2] == text[at + |o| - 2];
    assert t[i..i + |o|][|o| - 3] == t[i + |o| - 3] == text[|text| - |t|..][i + |o| - 3] == text[at + |o| - 3];
  }

  /** The only return in the header that follows a boundary character ends the content type. */
  lemma ReturnInText(all: seq<Item>, boundary: string, e: nat)
    requires BoundaryOk(boundary) && all != [] && ItemOk(all[0], boundary)
    requires var text := HeaderPart(all[0], boundary) + (CRLF + BodyAt(all, 0, boundary));
             && |boundary| + 4 < e && e <= |HeaderPart(all[0], boundary)|
             && text[e] == '\r' && text[e - 1] != '"' && text[e - 1] != '\n'
    ensures e == |HeaderPart(all[0], boundary)| - 2 && all[0].contentType != []
  {
    hide DispositionLine, ContentTypeLine, ItemOk, BodyText;
    var item := all[0];
    var part := HeaderPart(item, boundary);
    var text := part + (CRLF + BodyAt(all, 0, boundary));
    PartShape(item, boundary);
    assert text[|part| - 1] == part[|part| - 1];
    if e < |part| {
      assert text[e] == part[e] && text[e - 1] == part[e - 1];
      ReturnPlaces(item, boundary, e);
    }
  }

  lemma PartShape(item: Item, boundary: string)
    ensures var x := HeaderPart(item, boundary);
            var l0 := |DispositionLine(item.name, item.filename)|;
            && l0 > 0 && x[|x| - 1] == '\n' && x[|boundary| + 6 + l0 - 1] == '"'
            && (item.contentType == [] ==> |x| == |boundary| + 8 + l0)
            && (item.contentType != [] ==> |x| == |boundary| + 10 + l0 + |ContentTypeLine(item.contentType)|)
  {
    LastQuote(item);
    hide DispositionLine, ContentTypeLine;
    var l0 := DispositionLine(item.name, item.filename);
    var x := HeaderPart(item, boundary);
    assert x[|boundary| + 6 + |l0| - 1] == l0[|l0| - 1];
  }

  lemma LastQuote(item: Item)
    ensures var l := DispositionLine(item.name, item.filename);
            l != "" && l[|l| - 1] == '"'
  {
  }

  // ---------- a last item that is never closed ----------

  /**
   * From a place behind an empty line and behind the start of the last content, without a delimiter in what
   * follows: the content delivered so far is not the last content.
   */
  lemma NeverClosed(all: seq<Item>, boundary: string, whole: string, p: string)
    requires ItemsOk(all, boundary) && all != []
    requires EndsWith(Serialize(all, boundary), whole) && |whole| + 2 < |BodyAt(all, |all| - 1, boundary)|
    requires Before(Serialize(all, boundary), whole, CRLF + CRLF)
    requires !Occurs(whole, CrlfDashBoundary(boundary))
    requires p <= whole && (p != [] ==> |p| + |boundary| + 4 <= |whole|)
    ensures p != all[|all| - 1].content
  {
    hide BodyText, Serialize, ItemOk, Occurs;
    var d := CrlfDashBoundary(boundary);
    var close := d + "--\r\n";
    var text := Serialize(all, boundary);
    var c := all[|all| - 1].content;
    CloseEnds(all, boundary);
    BodyEnds(all, |all| - 1, boundary);
    WholeIsShort(text, close, whole, d);
    EndsShorter(text, whole, close);
    BeforeInClose(text, close, whole);
    CloseReturns(boundary, |close| - |whole|);
    LineBeforeClose(text, c, close, whole);
    DashesFirst(boundary, whole, p);
  }

  lemma WholeIsShort(text: string, close: string, whole: string, d: string)
    requires EndsWith(text, close) && EndsWith(text, whole) && close == d + "--\r\n" && !Occurs(whole, d)
    ensures |whole| < |close|
  {
    hide Occurs;
    if |whole| >= |close| {
      EndsShorter(text, close, whole);
      HoldsDelimiter(whole, d, "--\r\n");
      assert false;
    }
  }

  /** Of what follows the last CRLF at most the two dashes can have been delivered. */
  lemma DashesFirst(boundary: string, whole: string, p: string)
    requires EndsWith(CrlfDashBoundary(boundary) + "--\r\n", whole) && |whole| == |boundary| + 6
    requires p <= whole && (p != [] ==> |p| + |boundary| + 4 <= |whole|)
    ensures p != [] ==> p[|p| - 1] == '-'
  {
    var close := CrlfDashBoundary(boundary) + "--\r\n";
    assert whole == close[2..];
    assert close[2] == '-' && close[3] == '-';
  }

  lemma HoldsDelimiter(whole: string, d: string, more: string)
    requires EndsWith(whole, d + more)
    ensures Occurs(whole, d)
  {
    var i := |whole| - |d + more|;
    assert whole[i..][..|d|] == whole[i..i + |d|] == d;
    assert OccursAt(whole, d, i);
  }

  /** The characters right before `whole`, as far as they lie in the closing line. */
  lemma BeforeInClose(text: string, close: string, whole: string)
    requires EndsWith(text, close) && EndsWith(close, whole) && |whole| < |close| && Before(text, whole, CRLF + CRLF)
    ensures var x := |close| - |whole|;
            && close[x - 1] == '\n'
            && (x >= 2 ==> close[x - 2] == '\r') && (x >= 3 ==> close[x - 3] == '\n')
  {
    var x, at := |close| - |whole|, |text| - |whole|;
    var b := text[at - 4..at];
    assert b == CRLF + CRLF;
    assert text[|text| - |close|..][x - 1] == text[at - 1] == b[3];
    if x >= 2 { assert text[|text| - |close|..][x - 2] == text[at - 2] == b[2]; }
    if x >= 3 { assert text[|text| - |close|..][x - 3] == text[at - 3] == b[1]; }
  }

  /** In the closing line a place behind CRLF, not behind two of them, is the one behind its start. */
  lemma CloseReturns(boundary: string, x: nat)
    requires BoundaryOk(boundary)
    requires var close := CrlfDashBoundary(boundary) + "--\r\n";
             && 1 <= x <= |close| && close[x - 1] == '\n'
             && (x >= 2 ==> close[x - 2] == '\r') && (x >= 3 ==> close[x - 3] == '\n')
    ensures x == 2
  {
    CloseShape(boundary);
  }

  lemma CloseShape(boundary: string)
    requires BoundaryOk(boundary)
    ensures var close := CrlfDashBoundary(boundary) + "--\r\n";
            && close[0] == '\r' && close[|close| - 3] == '-'
            && forall y :: 0 < y < |close| - 2 ==> close[y] != '\r'
  {
    var d := CrlfDashBoundary(boundary);
    var close := d + "--\r\n";
    DelimiterNoOverlap(boundary);
    assert forall y :: 0 < y < |d| ==> close[y] == d[y];
  }

  /** If the closing line follows CRLF, the last content ends with a line end or is empty. */
  lemma LineBeforeClose(text: string, c: string, close: string, whole: string)
    requires EndsWith(text, c + close) && EndsWith(close, whole) && |close| == |whole| + 2
    requires Before(text, whole, CRLF + CRLF)
    ensures c != [] ==> c[|c| - 1] == '\n'
  {
    if c != [] {
      var at := |text| - |whole|;
      assert text[at - 4..at][1] == text[at - 3];
      assert text[|text| - |c + close|..][|c| - 1] == text[at - 3];
    }
  }
}
