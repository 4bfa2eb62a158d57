/** Percent coding of query values: `encode_query_param` and `decode_url`. */
module UrlCoding {
  import opened Wrappers

  /** Text that came in as bytes. */
  predicate Bytes(s: string) {
    forall i | 0 <= i < |s| :: s[i] as int < 256
  }

  /** `static_cast<char>` of a number. */
  function ByteChar(n: nat): char {
    (n % 256) as char
  }

  // ---------- hexadecimal digits ----------

  predicate IsHex(c: char) {
    '0' <= c <= '9' || 'A' <= c <= 'F' || 'a' <= c <= 'f'
  }

  function HexDigit(c: char): (v: nat)
    requires IsHex(c)
    ensures v < 16
  {
    if '0' <= c <= '9' then c as nat - '0' as nat
    else if 'A' <= c <= 'F' then c as nat - 'A' as nat + 10
    else c as nat - 'a' as nat + 10
  }

  function UpperHex(v: nat): (c: char)
    requires v < 16
    ensures IsHex(c) && HexDigit(c) == v
  {
    if v < 10 then ('0' as nat + v) as char else ('A' as nat + v - 10) as char
  }

  /** The number that `count` digits from position `i` add to `val`. */
  function HexAt(s: string, i: nat, count: nat, val: nat): Option<nat>
    decreases count
  {
    if count == 0 then Some(val)
    else if i >= |s| || !IsHex(s[i]) then None
    else HexAt(s, i + 1, count - 1, 16 * val + HexDigit(s[i]))
  }

  method FromHexToI(s: string, i: nat, count: nat) returns (ok: bool, val: nat)
    requires count > 0
    ensures (if ok then Some(val) else None) == HexAt(s, i, count, 0)
  {
    val := 0;
    if i >= |s| {
      return false, val;
    }
    var j: nat, left: nat := i, count;
    while left > 0
      invariant HexAt(s, i, count, 0) == HexAt(s, j, left, val)
      decreases left
    {
      if j >= |s| || !IsHex(s[j]) {
        return false, val;
      }
      val := val * 16 + HexDigit(s[j]);
      j, left := j + 1, left - 1;
    }
    return true, val;
  }

  /** `to_utf8`: no bytes for a surrogate. */
  function Utf8(code: nat): (s: string)
    ensures |s| <= 4
  {
    if code < 0x80 then [ByteChar(code)]
    else if code < 0x800 then [ByteChar(0xC0 + code / 64), ByteChar(0x80 + code % 64)]
    else if code < 0xD800 || 0xE000 <= code < 0x10000 then
      [ByteChar(0xE0 + code / 4096), ByteChar(0x80 + code / 64 % 64), ByteChar(0x80 + code % 64)]
    else if 0x10000 <= code < 0x110000 then
      [ByteChar(0xF0 + code / 0x40000), ByteChar(0x80 + code / 4096 % 64),
       ByteChar(0x80 + code / 64 % 64), ByteChar(0x80 + code % 64)]
    else []
  }

  // ---------- coding and decoding ----------

  predicate Unreserved(c: char) {
    'a' <= c <= 'z' || 'A' <= c <= 'Z' || '0' <= c <= '9' ||
    c == '-' || c == '_' || c == '.' || c == '!' || c == '~' || c == '*' || c == '\'' || c == '(' || c == ')'
  }

  /** One byte of the value: itself, or a percent sign and two upper-case digits. */
  function EncodedByte(c: char): string {
    if Unreserved(c) then [c]
    else ['%', UpperHex(c as nat % 256 / 16), UpperHex(c as nat % 16)]
  }

  function EncodedParam(value: string): string {
    if value == [] then [] else EncodedParam(value[..|value| - 1]) + EncodedByte(value[|value| - 1])
  }

  method EncodeQueryParam(value: string) returns (escaped: string)
    ensures escaped == EncodedParam(value)
  {
    escaped := [];
    var i := 0;
    while i < |value|
      invariant 0 <= i <= |value| && escaped == EncodedParam(value[..i])
    {
      assert value[..i + 1][..i] == value[..i];
      if Unreserved(value[i]) {
        escaped := escaped + [value[i]];
      } else {
        escaped := escaped + ['%', UpperHex(value[i] as nat % 256 / 16), UpperHex(value[i] as nat % 16)];
      }
      i := i + 1;
    }
    assert value[..|value|] == value;
  }

  /** What one escape or character at the start of `s` stands for, and how much of `s` it takes. */
  function DecodedHead(s: string, plus: bool): (r: (string, nat))
    requires s != []
    ensures 1 <= r.1 && |r.0| <= r.1
  {
    if s[0] == '%' && 1 < |s| then
      if s[1] == 'u' then
        match HexAt(s, 2, 4, 0)
        case Some(v) => (Utf8(v), 6)
        case None => ("%", 1)
      else
        match HexAt(s, 1, 2, 0)
        case Some(v) => ([ByteChar(v)], 3)
        case None => ("%", 1)
    else if plus && s[0] == '+' then (" ", 1)
    else ([s[0]], 1)
  }

  function DecodedUrl(s: string, plus: bool): (r: string)
    ensures |r| <= |s|
    decreases |s|
  {
    if s == [] then []
    else
      DecodedHeadFits(s, plus);
      var (head, n) := DecodedHead(s, plus);
      head + DecodedUrl(s[n..], plus)
  }

  lemma {:induction false} HexAtFits(s: string, i: nat, count: nat, val: nat)
    ensures HexAt(s, i, count, val).Some? && count > 0 ==> i + count <= |s|
    decreases count
  {
    if count > 0 && i < |s| && IsHex(s[i]) {
      HexAtFits(s, i + 1, count - 1, 16 * val + HexDigit(s[i]));
    }
  }

  lemma DecodedHeadFits(s: string, plus: bool)
    requires s != []
    ensures DecodedHead(s, plus).1 <= |s|
  {
    HexAtFits(s, 2, 4, 0);
    HexAtFits(s, 1, 2, 0);
  }

  method DecodeUrl(s: string, convertPlusToSpace: bool) returns (result: string)
    ensures result == DecodedUrl(s, convertPlusToSpace)
  {
    hide HexAt, Utf8, DecodedUrl;
    result := [];
    var i := 0;
    assert s[0..] == s;
    while i < |s|
      invariant 0 <= i <= |s|
      invariant DecodedUrl(s, convertPlusToSpace) == result + DecodedUrl(s[i..], convertPlusToSpace)
    {
      ghost var before, at := result, i;
      DecodedHeadFits(s[i..], convertPlusToSpace);
      if s[i] == '%' && i + 1 < |s| {
        if s[i + 1] == 'u' {
          HexAtFrom(s, i, 2, 4, 0);
          var ok, val := FromHexToI(s, i + 2, 4);
          if ok {
            result := result + Utf8(val);
            i := i + 5;
          } else {
            result := result + [s[i]];
          }
        } else {
          HexAtFrom(s, i, 1, 2, 0);
          var ok, val := FromHexToI(s, i + 1, 2);
          if ok {
            result := result + [ByteChar(val)];
            i := i + 2;
          } else {
            result := result + [s[i]];
          }
        }
      } else if convertPlusToSpace && s[i] == '+' {
        result := result + [' '];
      } else {
        result := result + [s[i]];
      }
      i := i + 1;
      DecodeNext(s, at, i, convertPlusToSpace, before, result);
    }
    NothingToDecode(s[i..], convertPlusToSpace);
  }

  lemma DecodeNext(s: string, at: nat, i: nat, plus: bool, before: string, result: string)
    requires at < i <= |s| && DecodedHead(s[at..], plus).1 == i - at
    requires result == before + DecodedHead(s[at..], plus).0
    ensures before + DecodedUrl(s[at..], plus) == result + DecodedUrl(s[i..], plus)
  {
    hide DecodedHead;
    assert s[at..][i - at..] == s[i..];
    assert before + (DecodedHead(s[at..], plus).0 + DecodedUrl(s[i..], plus)) == result + DecodedUrl(s[i..], plus);
  }

  lemma {:induction false} HexAtFrom(s: string, at: nat, i: nat, count: nat, val: nat)
    requires at <= |s|
    ensures HexAt(s, at + i, count, val) == HexAt(s[at..], i, count, val)
    decreases count
  {
    if count > 0 && at + i < |s| && IsHex(s[at + i]) {
      HexAtFrom(s, at, i + 1, count - 1, 16 * val + HexDigit(s[at + i]));
    }
  }

  // ---------- decoding inverts coding ----------

  lemma {:induction false} EncodedParamConcat(a: string, b: string)
    ensures EncodedParam(a + b) == EncodedParam(a) + EncodedParam(b)
    decreases |b|
  {
    if b == [] {
      assert a + b == a;
    } else {
      assert (a + b)[..|a + b| - 1] == a + b[..|b| - 1];
      EncodedParamConcat(a, b[..|b| - 1]);
    }
  }

  lemma HexPair(s: string, i: nat)
    requires i + 2 <= |s| && IsHex(s[i]) && IsHex(s[i + 1])
    ensures HexAt(s, i, 2, 0) == Some(16 * HexDigit(s[i]) + HexDigit(s[i + 1]))
  {
    assert HexAt(s, i, 2, 0) == HexAt(s, i + 1, 1, HexDigit(s[i]));
    assert HexAt(s, i + 1, 1, HexDigit(s[i])) == HexAt(s, i + 2, 0, 16 * HexDigit(s[i]) + HexDigit(s[i + 1]));
  }

  /** One coded byte is read back, whatever follows it. */
  lemma DecodedByte(c: char, rest: string, plus: bool)
    requires c as int < 256
    ensures var s := EncodedByte(c) + rest;
            DecodedHead(s, plus) == ([c], |EncodedByte(c)|) && s[|EncodedByte(c)|..] == rest
  {
    hide HexAt, Utf8;
    var s := EncodedByte(c) + rest;
    if !Unreserved(c) {
      HexPair(s, 1);
    }
  }

  /** `decode_url` undoes `encode_query_param` on every byte string, whatever it does with plus signs. */
  lemma {:induction false} DecodeEncoded(v: string, plus: bool)
    requires Bytes(v)
    ensures DecodedUrl(EncodedParam(v), plus) == v
  {
    hide EncodedByte, DecodedHead;
    if v != [] {
      var rest := EncodedParam(v[1..]);
      assert [v[0]] + v[1..] == v;
      EncodedParamConcat([v[0]], v[1..]);
      assert [v[0]][..0] == [];
      assert EncodedParam([v[0]]) == EncodedByte(v[0]);
      DecodedByte(v[0], rest, plus);
      DecodeEncoded(v[1..], plus);
    }
  }

  /** The characters a coded value is made of. */
  lemma {:induction false} EncodedChars(v: string)
    requires Bytes(v)
    ensures forall i :: 0 <= i < |EncodedParam(v)| ==> Unreserved(EncodedParam(v)[i]) || EncodedParam(v)[i] == '%'
  {
    if v != [] {
      EncodedChars(v[..|v| - 1]);
    }
  }

  /** Without escapes and plus signs nothing is decoded. */
  lemma {:induction false} NothingToDecode(s: string, plus: bool)
    requires '%' !in s && (plus ==> '+' !in s)
    ensures DecodedUrl(s, plus) == s
  {
    hide HexAt, Utf8;
    if s != [] {
      NothingToDecode(s[1..], plus);
    }
  }
}
