/** `base64_encode` against section 4 of RFC 4648. */
module Base64 {
  import opened Wrappers

  type Byte = bv8

  /** A group of six bits. */
  type Sextet = b: bv8 | b < 64

  /** `A` to `Z`, `a` to `z`, `0` to `9`, `+` and `/`. */
  function SymbolAt(i: nat): (c: char)
    requires i < 64
  {
    if i < 26 then 'A' + i as char
    else if i < 52 then 'a' + (i - 26) as char
    else if i < 62 then '0' + (i - 52) as char
    else if i == 62 then '+' else '/'
  }

  function Symbol(x: Sextet): (c: char) {
    SymbolAt(x as nat)
  }

  // ---------- the standard: groups of three bytes, four characters each ----------

  function Top6(a: Byte): Sextet { a >> 2 }
  function Mid1(a: Byte, b: Byte): Sextet { ((a & 3) << 4) | (b >> 4) }
  function Mid2(b: Byte, c: Byte): Sextet { ((b & 15) << 2) | (c >> 6) }
  function Low6(c: Byte): Sextet { c & 63 }

  function Group(a: Byte, b: Byte, c: Byte): string {
    [Symbol(Top6(a)), Symbol(Mid1(a, b)), Symbol(Mid2(b, c)), Symbol(Low6(c))]
  }

  /** The last one or two bytes, with zero bits added and the padding. */
  function Tail(s: seq<Byte>): string
    requires |s| < 3
  {
    if |s| == 0 then ""
    else if |s| == 1 then [Symbol(Top6(s[0])), Symbol(Mid1(s[0], 0)), '=', '=']
    else [Symbol(Top6(s[0])), Symbol(Mid1(s[0], s[1])), Symbol(Mid2(s[1], 0)), '=']
  }

  function Encoded(s: seq<Byte>): string {
    if |s| < 3 then Tail(s) else Group(s[0], s[1], s[2]) + Encoded(s[3..])
  }

  // ---------- the encoder ----------

  /** The sextet that starts `shift` bits up in the accumulator. */
  function Bits(val: bv32, shift: nat): Sextet
    requires shift <= 32
  {
    ((val >> shift) & 63) as bv8
  }

  function Shifted(val: bv32, c: Byte): bv32 {
    (val << 8) + (c as bv32)
  }

  /** The last byte is all that matters of the accumulator, even after it has wrapped. */
  predicate Holds(val: bv32, c: Byte) {
    val & 255 == c as bv32
  }

  lemma ShiftedBits(val: bv32, last: Byte, c: Byte)
    requires Holds(val, last)
    ensures var next := Shifted(val, c);
            && Holds(next, c)
            && Bits(next, 2) == Top6(c) && Bits(next, 4) == Mid1(last, c)
            && Bits(next, 6) == Mid2(last, c) && Bits(next, 0) == Low6(c)
  {
  }

  lemma TailBits(val: bv32, last: Byte)
    requires Holds(val, last)
    ensures Bits(val << 8, 4) == Mid1(last, 0) && Bits(val << 8, 6) == Mid2(last, 0)
  {
  }

  /** The symbols written before the group of the last bytes is complete. */
  function Begun(rest: seq<Byte>): string
    requires |rest| < 3
  {
    if |rest| == 0 then ""
    else if |rest| == 1 then [Symbol(Top6(rest[0]))]
    else [Symbol(Top6(rest[0])), Symbol(Mid1(rest[0], rest[1]))]
  }

  lemma {:induction false} EncodedConcat(a: seq<Byte>, b: seq<Byte>)
    requires |a| % 3 == 0
    ensures Encoded(a + b) == Encoded(a) + Encoded(b)
  {
    hide Group, Tail;
    if a == [] {
      assert a + b == b;
      NoTail();
    } else {
      assert (a + b)[3..] == a[3..] + b;
      EncodedConcat(a[3..], b);
    }
  }

  lemma NoTail()
    ensures Tail([]) == ""
  {
  }

  /** The next symbols: one for each byte, and a second for every third. */
  function Next(rest: seq<Byte>, c: Byte): string
    requires |rest| < 3
  {
    if |rest| == 0 then [Symbol(Top6(c))]
    else if |rest| == 1 then [Symbol(Mid1(rest[0], c))]
    else [Symbol(Mid2(rest[1], c)), Symbol(Low6(c))]
  }

  /** The length of the whole groups among `n` bytes. */
  function Whole(n: nat): (k: nat)
    ensures k <= n < k + 3 && k % 3 == 0
  {
    n - n % 3
  }

  lemma WholeNext(n: nat)
    ensures Whole(n + 1) == if n - Whole(n) == 2 then n + 1 else Whole(n)
    ensures n % 3 == n - Whole(n)
  {
  }

  /** What has been written after `s`. */
  function Written(s: seq<Byte>): string {
    var k := Whole(|s|);
    Encoded(s[..k]) + Begun(s[k..])
  }

  lemma WrittenNext(s: seq<Byte>, c: Byte)
    ensures Written(s + [c]) == Written(s) + Next(s[Whole(|s|)..], c)
  {
    hide Encoded, Whole, Begun, Next;
    var k := Whole(|s|);
    var rest := s[k..];
    var t := s + [c];
    WholeNext(|s|);
    if |rest| == 2 {
      assert t == s[..k] + [rest[0], rest[1], c] && t[..k + 3] == t && t[k + 3..] == [];
      EncodedConcat(s[..k], [rest[0], rest[1], c]);
      OneGroup(rest[0], rest[1], c);
      GroupParts(rest, c);
      NoneBegun();
    } else {
      assert t[..k] == s[..k] && t[k..] == rest + [c];
      BegunNext(rest, c);
    }
  }

  lemma NoneBegun()
    ensures Begun([]) == ""
  {
  }

  lemma BegunNext(rest: seq<Byte>, c: Byte)
    requires |rest| < 2
    ensures Begun(rest + [c]) == Begun(rest) + Next(rest, c)
  {
    hide Symbol, Top6, Mid1;
  }

  lemma GroupParts(rest: seq<Byte>, c: Byte)
    requires |rest| == 2
    ensures Group(rest[0], rest[1], c) == Begun(rest) + Next(rest, c)
  {
    hide Symbol, Top6, Mid1, Mid2, Low6;
  }

  lemma OneGroup(a: Byte, b: Byte, c: Byte)
    ensures Encoded([a, b, c]) == Group(a, b, c)
  {
    hide Group;
    assert [a, b, c][3..] == [];
    NoTail();
  }

  /** What closes the encoding: the last bits and the padding. */
  function Closing(rest: seq<Byte>): string
    requires |rest| < 3
  {
    if |rest| == 0 then ""
    else if |rest| == 1 then [Symbol(Mid1(rest[0], 0)), '=', '=']
    else [Symbol(Mid2(rest[1], 0)), '=']
  }

  lemma WrittenEnd(s: seq<Byte>)
    ensures Encoded(s) == Written(s) + Closing(s[Whole(|s|)..])
  {
    hide Encoded, Whole, Begun, Closing;
    var k := Whole(|s|);
    var rest := s[k..];
    assert s == s[..k] + rest;
    EncodedConcat(s[..k], rest);
    TailEnd(rest);
    Regroup(Encoded(s[..k]), Begun(rest), Closing(rest));
  }

  lemma Regroup(a: string, b: string, c: string)
    ensures a + (b + c) == a + b + c
  {
  }

  lemma TailEnd(rest: seq<Byte>)
    requires |rest| < 3
    ensures Encoded(rest) == Begun(rest) + Closing(rest)
  {
    hide Symbol, Top6, Mid1, Mid2, Encoded;
    ShortEncoded(rest);
  }

  lemma ShortEncoded(rest: seq<Byte>)
    requires |rest| < 3
    ensures Encoded(rest) == Tail(rest)
  {
    hide Tail;
  }

  lemma {:induction false} EncodedLength(s: seq<Byte>)
    ensures |Encoded(s)| == (|s| + 2) / 3 * 4 && |Encoded(s)| % 4 == 0
  {
    hide Symbol;
    if |s| >= 3 {
      EncodedLength(s[3..]);
    }
  }

  lemma ClosingPadding(rest: seq<Byte>)
    requires |rest| < 3
    ensures |Closing(rest)| < 4 && (rest != [] <==> Closing(rest) != [])
    ensures forall k :: 0 < k < |Closing(rest)| ==> Closing(rest)[k] == '='
  {
    hide Symbol;
  }

  /** The symbol for the bits left over. */
  lemma ClosingBits(val: bv32, s: seq<Byte>)
    requires HoldsLast(val, s) && Whole(|s|) < |s|
    ensures var rest := s[Whole(|s|)..];
            Closing(rest) != [] && Closing(rest)[0] == Symbol(Bits(val << 8, 2 * |rest| + 2))
  {
    hide Holds, Bits, Mid1, Mid2, Symbol, Whole;
    var rest := s[Whole(|s|)..];
    assert rest[|rest| - 1] == s[|s| - 1];
    TailBits(val, s[|s| - 1]);
  }

  /** The accumulator holds the last byte read, if there is one. */
  predicate HoldsLast(val: bv32, s: seq<Byte>) {
    s != [] ==> Holds(val, s[|s| - 1])
  }

  /** The sextets that one more byte completes are the ones that `Next` writes. */
  lemma NextBits(val: bv32, s: seq<Byte>, c: Byte)
    requires HoldsLast(val, s)
    ensures var rest := s[Whole(|s|)..];
            var next := Shifted(val, c);
            && HoldsLast(next, s + [c])
            && Next(rest, c) == [Symbol(Bits(next, 2 * |rest| + 2))] + if |rest| == 2 then [Symbol(Bits(next, 0))] else []
  {
    hide Holds, Shifted, Bits, Top6, Mid1, Mid2, Low6, Symbol, Whole;
    if s == [] {
      NothingHeld(val);
      ShiftedBits(val, (val & 255) as bv8, c);
    } else {
      ShiftedBits(val, s[|s| - 1], c);
    }
  }

  /** The inner loop: six bits out while there are that many. */
  method PushBits(val: bv32, valb: int, out: string) returns (valb': int, out': string)
    requires -6 <= valb <= 6 && valb % 2 == 0
    ensures valb' == if valb < 0 then valb else if valb < 6 then valb - 6 else -6
    ensures out' == out + if valb < 0 then [] else if valb < 6 then [Symbol(Bits(val, valb))]
                          else [Symbol(Bits(val, 6)), Symbol(Bits(val, 0))]
  {
    hide Symbol, Bits;
    valb', out' := valb, out;
    ghost var first := if valb < 0 then 0 else valb;
    while valb' >= 0
      invariant valb' <= valb && (valb' - valb) % 6 == 0
      invariant valb' == valb ==> out' == out
      invariant valb' == valb - 6 ==> out' == out + [Symbol(Bits(val, first))]
      invariant valb' == valb - 12 ==> valb == 6 && out' == out + [Symbol(Bits(val, 6)), Symbol(Bits(val, 0))]
      invariant valb' >= -6 && valb' >= valb - 12
    {
      out' := out' + [Symbol(Bits(val, valb'))];
      valb' := valb' - 6;
    }
  }

  /** `base64_encode`: a 32-bit accumulator, and six bits out whenever there are that many. */
  method Base64Encode(s: seq<Byte>) returns (out: string)
    ensures out == Encoded(s)
    ensures |out| == (|s| + 2) / 3 * 4
  {
    hide Written, Encoded, Symbol, Bits, Shifted, HoldsLast, Next, Whole, Closing;
    out := "";
    var val: bv32, valb := 0, -6;
    var i := 0;
    NothingWritten(val);
    while i < |s|
      invariant 0 <= i <= |s| && out == Written(s[..i]) && valb == 2 * (i - Whole(i)) - 6
      invariant HoldsLast(val, s[..i])
    {
      assert s[..i + 1] == s[..i] + [s[i]];
      WrittenNext(s[..i], s[i]);
      WholeNext(i);
      NextBits(val, s[..i], s[i]);
      val := Shifted(val, s[i]);
      valb := valb + 8;
      valb, out := PushBits(val, valb, out);
      i := i + 1;
    }
    assert s[..i] == s;
    WrittenEnd(s);
    EncodedLength(s);
    if valb > -6 {
      ClosingBits(val, s);
      ClosingPadding(s[Whole(|s|)..]);
      out := out + [Symbol(Bits(val << 8, valb + 8))];
    } else {
      ClosingPadding([]);
    }
    while |out| % 4 != 0
      invariant |out| <= |Encoded(s)| && out == Encoded(s)[..|out|]
      invariant forall k :: |out| <= k < |Encoded(s)| ==> Encoded(s)[k] == '='
      invariant |Encoded(s)| - |out| < 4
      decreases |Encoded(s)| - |out|
    {
      out := out + ['='];
    }
  }
  lemma NothingWritten(val: bv32)
    ensures Written([]) == "" && HoldsLast(val, [])
  {
    NoTail();
  }

  lemma NothingHeld(val: bv32)
    ensures Holds(val, (val & 255) as bv8)
  {
  }

  // ---------- the way back ----------

  /** The position of a symbol in the alphabet. */
  function Position(c: char): (r: Option<nat>)
    ensures r.Some? ==> r.value < 64
  {
    if 'A' <= c <= 'Z' then Some(c as int - 'A' as int)
    else if 'a' <= c <= 'z' then Some(c as int - 'a' as int + 26)
    else if '0' <= c <= '9' then Some(c as int - '0' as int + 52)
    else if c == '+' then Some(62)
    else if c == '/' then Some(63)
    else None
  }

  /** The sextet of a symbol. */
  function Value(c: char): Option<Sextet> {
    match Position(c)
    case Some(i) => Some(i as bv8)
    case None => None
  }

  /** A group of four characters; padding only at its end. */
  function DecodedGroup(g: string): Option<seq<Byte>>
    requires |g| == 4
  {
    var w, x, y, z := Value(g[0]), Value(g[1]), Value(g[2]), Value(g[3]);
    if w == None || x == None then None
    else if g[2] == '=' && g[3] == '=' then Some([Join1(w.value, x.value)])
    else if y == None then None
    else if g[3] == '=' then Some([Join1(w.value, x.value), Join2(x.value, y.value)])
    else if z == None then None
    else Some([Join1(w.value, x.value), Join2(x.value, y.value), Join3(y.value, z.value)])
  }

  function Join1(w: Sextet, x: Sextet): Byte { (w << 2) | (x >> 4) }
  function Join2(x: Sextet, y: Sextet): Byte { ((x & 15) << 4) | (y >> 2) }
  function Join3(y: Sextet, z: Sextet): Byte { ((y & 3) << 6) | z }

  function Decoded(t: string): Option<seq<Byte>>
    decreases |t|
  {
    if t == [] then Some([])
    else if |t| < 4 then None
    else
      match (DecodedGroup(t[..4]), Decoded(t[4..]))
      case (Some(a), Some(b)) => Some(a + b)
      case _ => None
  }

  lemma JoinSplit(a: Byte, b: Byte, c: Byte)
    ensures Join1(Top6(a), Mid1(a, b)) == a && Join2(Mid1(a, b), Mid2(b, c)) == b && Join3(Mid2(b, c), Low6(c)) == c
  {
  }

  lemma SextetNumber(x: Sextet)
    ensures 0 <= x as nat < 64 && (x as nat) as bv8 == x
  {
  }

  lemma ValueAt(i: nat)
    requires i < 64
    ensures Position(SymbolAt(i)) == Some(i) && SymbolAt(i) != '='
  {
  }

  lemma ValueSymbol(x: Sextet)
    ensures Value(Symbol(x)) == Some(x) && Symbol(x) != '='
  {
    hide Position, SymbolAt;
    SextetNumber(x);
    ValueAt(x as nat);
  }

  lemma GroupBack(a: Byte, b: Byte, c: Byte)
    ensures DecodedGroup(Group(a, b, c)) == Some([a, b, c])
    ensures DecodedGroup([Symbol(Top6(a)), Symbol(Mid1(a, 0)), '=', '=']) == Some([a])
    ensures DecodedGroup([Symbol(Top6(a)), Symbol(Mid1(a, b)), Symbol(Mid2(b, 0)), '=']) == Some([a, b])
  {
    hide Symbol, Value, Top6, Mid1, Mid2, Low6, Join1, Join2, Join3;
    ValueSymbol(Top6(a));
    ValueSymbol(Mid1(a, b));
    ValueSymbol(Mid1(a, 0));
    ValueSymbol(Mid2(b, c));
    ValueSymbol(Mid2(b, 0));
    ValueSymbol(Low6(c));
    JoinSplit(a, b, c);
    JoinSplit(a, b, 0);
    JoinSplit(a, 0, 0);
  }

  lemma DecodedFirst(g: string, t: string)
    requires |g| == 4
    ensures Decoded(g + t) ==
            if DecodedGroup(g).Some? && Decoded(t).Some? then Some(DecodedGroup(g).value + Decoded(t).value) else None
  {
    hide DecodedGroup;
    assert (g + t)[..4] == g && (g + t)[4..] == t;
  }

  /** Decoding by the standard gives the input back. */
  lemma {:induction false} DecodeEncoded(s: seq<Byte>)
    ensures Decoded(Encoded(s)) == Some(s)
  {
    hide DecodedGroup, Group, Symbol, Decoded, Top6, Mid1, Mid2, Low6;
    NothingDecoded();
    if |s| >= 3 {
      GroupBack(s[0], s[1], s[2]);
      DecodeEncoded(s[3..]);
      GroupLength(s[0], s[1], s[2]);
      DecodedFirst(Group(s[0], s[1], s[2]), Encoded(s[3..]));
      assert s == [s[0], s[1], s[2]] + s[3..];
    } else if s != [] {
      GroupBack(s[0], s[|s| - 1], 0);
      DecodedFirst(Tail(s), []);
      assert Tail(s) + [] == Tail(s) && (if |s| == 1 then [s[0]] else [s[0], s[1]]) + [] == s;
    }
  }

  lemma GroupLength(a: Byte, b: Byte, c: Byte)
    ensures |Group(a, b, c)| == 4
  {
  }

  lemma NothingDecoded()
    ensures Decoded([]) == Some([])
  {
  }
}
