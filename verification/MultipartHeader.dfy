/** The header lines of a multipart item: the serializer's lines and the parser's matchers. */
module MultipartHeader {
  import opened Wrappers

  /** The parts of `MultipartFormData` a header block fills in. */
  datatype FileInfo = FileInfo(name: string, filename: string, contentType: string)

  const NO_INFO := FileInfo("", "", "")

  // ---------- characters ----------

  function Lower(c: char): char {
    if 'A' <= c <= 'Z' then c + 32 as char else c
  }

  predicate IsSpace(c: char) {
    c == ' ' || (9 as char <= c <= 13 as char)
  }

  predicate IsBlank(c: char) {
    c == ' ' || c == '\t'
  }

  /** `start_with_case_ignore`. */
  predicate StartsNoCase(a: string, b: string) {
    |a| >= |b| && forall i | 0 <= i < |b| :: Lower(a[i]) == Lower(b[i])
  }

  function SkipSpaces(s: string): string {
    if s != [] && IsSpace(s[0]) then SkipSpaces(s[1..]) else s
  }

  predicate AllSpaces(s: string) {
    forall i | 0 <= i < |s| :: IsSpace(s[i])
  }

  /** `trim_copy`: spaces and tabs only. */
  function TrimLeft(s: string): string {
    if s != [] && IsBlank(s[0]) then TrimLeft(s[1..]) else s
  }

  function TrimRight(s: string): string {
    if s != [] && IsBlank(s[|s| - 1]) then TrimRight(s[..|s| - 1]) else s
  }

  function TrimCopy(s: string): string {
    TrimRight(TrimLeft(s))
  }

  // ---------- the Content-Disposition expression ----------
  // ^Content-Disposition:\s*form-data;\s*name="(.*?)"(?:;\s*filename="(.*?)")?(?:;\s*filename\*=\S+)?\s*$

  /** `(?:;\s*filename\*=\S+)?\s*$` */
  predicate MatchEnd(s: string) {
    AllSpaces(s) ||
    (s != [] && s[0] == ';' &&
     var r := SkipSpaces(s[1..]);
     StartsNoCase(r, "filename*=") &&
     r[10..] != [] && !IsSpace(r[10]) &&
     AllSpaces(SkipWord(r[10..])))
  }

  function SkipWord(s: string): string {
    if s != [] && !IsSpace(s[0]) then SkipWord(s[1..]) else s
  }

  /** `(.*?)"` and the rest, with `k` characters captured at least; `.` does not match a line end. */
  function LazyFilename(s: string, k: nat): Option<string>
    decreases |s| - k
  {
    if k >= |s| then None
    else if s[k] == '"' && MatchEnd(s[k + 1..]) then Some(s[..k])
    else if s[k] == '\r' || s[k] == '\n' then None
    else LazyFilename(s, k + 1)
  }

  /** What follows the name's closing quote: the captured file name, if the rest matches at all. */
  function MatchFilename(s: string): Option<string> {
    var given :=
      if s != [] && s[0] == ';' && StartsNoCase(SkipSpaces(s[1..]), "filename=\"")
      then LazyFilename(SkipSpaces(s[1..])[10..], 0) else None;
    if given.Some? then given
    else if MatchEnd(s) then Some("")
    else None
  }

  function LazyName(s: string, k: nat): Option<(string, string)>
    decreases |s| - k
  {
    if k >= |s| then None
    else if s[k] == '"' && MatchFilename(s[k + 1..]).Some? then Some((s[..k], MatchFilename(s[k + 1..]).value))
    else if s[k] == '\r' || s[k] == '\n' then None
    else LazyName(s, k + 1)
  }

  function MatchDisposition(h: string): Option<(string, string)> {
    if !StartsNoCase(h, "Content-Disposition:") then None
    else
      var r := SkipSpaces(h[20..]);
      if !StartsNoCase(r, "form-data;") then None
      else
        var q := SkipSpaces(r[10..]);
        if !StartsNoCase(q, "name=\"") then None
        else LazyName(q[6..], 0)
  }

  /** One header line in state 2; `None` is a line the parser rejects. */
  function ParseHeader(header: string, file: FileInfo): Option<FileInfo> {
    if StartsNoCase(header, "content-type:") then
      Some(file.(contentType := TrimCopy(header[13..])))
    else
      match MatchDisposition(header)
      case Some(m) => Some(file.(name := m.0, filename := m.1))
      case None => None
  }

  // ---------- the serializer's lines ----------

  function DispositionLine(name: string, filename: string): string {
    "Content-Disposition: form-data; name=\"" + name + "\"" +
    if filename != [] then "; filename=\"" + filename + "\"" else ""
  }

  function ContentTypeLine(contentType: string): string {
    "Content-Type: " + contentType
  }

  /** A name the quoted form can carry. */
  predicate Quotable(s: string) {
    forall i | 0 <= i < |s| :: s[i] != '"' && s[i] != '\r' && s[i] != '\n'
  }

  predicate Trimmed(s: string) {
    s != [] ==> !IsBlank(s[0]) && !IsBlank(s[|s| - 1])
  }

  lemma StartsWithItself(p: string, rest: string)
    ensures StartsNoCase(p + rest, p)
    ensures (p + rest)[|p|..] == rest
  {
  }

  lemma {:induction false} LazyFilenameFinds(name: string, k: nat)
    requires Quotable(name) && k <= |name|
    ensures LazyFilename(name + "\"", k) == Some(name)
    decreases |name| - k
  {
    var s := name + "\"";
    if k == |name| {
      assert s[k + 1..] == [];
      assert s[..k] == name;
    } else {
      assert s[k] == name[k];
      LazyFilenameFinds(name, k + 1);
    }
  }

  lemma {:induction false} LazyNameFinds(name: string, rest: string, k: nat)
    requires Quotable(name) && k <= |name| && MatchFilename(rest).Some?
    ensures LazyName(name + "\"" + rest, k) == Some((name, MatchFilename(rest).value))
    decreases |name| - k
  {
    var s := name + "\"" + rest;
    if k == |name| {
      assert s[k + 1..] == rest;
      assert s[..k] == name;
    } else {
      assert s[k] == name[k];
      LazyNameFinds(name, rest, k + 1);
    }
  }

  lemma MatchWrittenFilename(filename: string)
    requires Quotable(filename)
    ensures MatchFilename(if filename != [] then "; filename=\"" + filename + "\"" else "") == Some(filename)
  {
    if filename != [] {
      var s := "; filename=\"" + filename + "\"";
      var p := "filename=\"";
      assert s[1..] == " " + (p + (filename + "\""));
      assert SkipSpaces(s[1..]) == p + (filename + "\"") by {
        assert s[1..][1..] == p + (filename + "\"");
        assert !IsSpace((p + (filename + "\""))[0]);
      }
      StartsWithItself(p, filename + "\"");
      LazyFilenameFinds(filename, 0);
    }
  }

  lemma SkipOneSpace(s: string)
    requires s != [] && !IsSpace(s[0])
    ensures SkipSpaces(" " + s) == s
  {
    assert (" " + s)[1..] == s;
  }

  lemma MatchParts(name: string, filename: string, tail: string)
    requires Quotable(name) && MatchFilename(tail) == Some(filename)
    ensures MatchDisposition("Content-Disposition:" + (" " + ("form-data;" + (" " + ("name=\"" + (name + "\"" + tail)))))) ==
            Some((name, filename))
  {
    hide LazyName, MatchFilename, StartsNoCase;
    var r2 := name + "\"" + tail;
    var r1 := "name=\"" + r2;
    var r0 := "form-data;" + (" " + r1);
    StartsWithItself("Content-Disposition:", " " + r0);
    SkipOneSpace(r0);
    StartsWithItself("form-data;", " " + r1);
    SkipOneSpace(r1);
    StartsWithItself("name=\"", r2);
    LazyNameFinds(name, tail, 0);
  }

  lemma NotContentType(rest: string)
    ensures !StartsNoCase("Content-Disposition:" + rest, "content-type:")
  {
    assert ("Content-Disposition:" + rest)[8] == 'D';
    assert Lower('D') == 'd' && Lower("content-type:"[8]) == 't';
  }

  /** The parser reads back the names the serializer wrote. */
  lemma ParseDispositionLine(name: string, filename: string, file: FileInfo)
    requires Quotable(name) && Quotable(filename)
    ensures ParseHeader(DispositionLine(name, filename), file) ==
            Some(file.(name := name, filename := filename))
  {
    hide MatchDisposition, StartsNoCase, MatchFilename;
    var tail := if filename != [] then "; filename=\"" + filename + "\"" else "";
    var rest := " " + ("form-data;" + (" " + ("name=\"" + (name + "\"" + tail))));
    assert DispositionLine(name, filename) == "Content-Disposition:" + rest;
    MatchWrittenFilename(filename);
    MatchParts(name, filename, tail);
    NotContentType(rest);
  }

  lemma TrimLeftStops(s: string)
    requires Trimmed(s)
    ensures TrimLeft(" " + s) == s
  {
    assert (" " + s)[1..] == s;
  }

  /** The parser reads back the content type the serializer wrote. */
  lemma ParseContentTypeLine(contentType: string, file: FileInfo)
    requires Trimmed(contentType)
    ensures ParseHeader(ContentTypeLine(contentType), file) == Some(file.(contentType := contentType))
  {
    var p := "Content-Type:";
    var line := ContentTypeLine(contentType);
    assert line == p + (" " + contentType);
    StartsWithItself(p, " " + contentType);
    assert StartsNoCase(line, "content-type:") by { LowerCaseName(line); }
    TrimLeftStops(contentType);
  }

  lemma LowerCaseName(line: string)
    requires |line| >= 13 && line[..13] == "Content-Type:"
    ensures StartsNoCase(line, "content-type:")
  {
    forall i | 0 <= i < 13 ensures Lower(line[i]) == Lower("content-type:"[i]) {
      assert line[i] == "Content-Type:"[i];
    }
  }
}
