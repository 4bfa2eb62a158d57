/** SHA-1 as FIPS 180-4 defines it: sections 4.1.1, 4.2.1, 5.1.1, 5.3.1 and 6.1.2. */
module Sha1Standard {

  type Word = bv32
  type Byte = bv8

  /** The five hash or working variables. */
  datatype Regs = Regs(a: Word, b: Word, c: Word, d: Word, e: Word)

  // ---------- section 4: functions and constants ----------

  function Ch(x: Word, y: Word, z: Word): Word { (x & y) ^ (!x & z) }

  function Parity(x: Word, y: Word, z: Word): Word { x ^ y ^ z }

  function Maj(x: Word, y: Word, z: Word): Word { (x & y) ^ (x & z) ^ (y & z) }

  function Rotl(x: Word, n: nat): Word
    requires n < 32
  {
    x.RotateLeft(n)
  }

  function Plus(a: Word, b: Word): Word { a + b }

  function Sum(a: Word, b: Word, c: Word, d: Word, e: Word): Word { a + b + c + d + e }

  function Mix(a: Word, b: Word, c: Word, d: Word): Word { a ^ b ^ c ^ d }

  function F(t: nat, x: Word, y: Word, z: Word): Word {
    if t < 20 then Ch(x, y, z)
    else if t < 40 then Parity(x, y, z)
    else if t < 60 then Maj(x, y, z)
    else Parity(x, y, z)
  }

  function K(t: nat): Word {
    if t < 20 then 0x5a827999
    else if t < 40 then 0x6ed9eba1
    else if t < 60 then 0x8f1bbcdc
    else 0xca62c1d6
  }

  // ---------- section 6.1.2: one block ----------

  function W(m: seq<Word>, t: nat): Word
    requires |m| == 16
  {
    if t < 16 then m[t]
    else Rotl(Mix(W(m, t - 3), W(m, t - 8), W(m, t - 14), W(m, t - 16)), 1)
  }

  function Step(r: Regs, t: nat, w: Word): Regs {
    var temp := Sum(Rotl(r.a, 5), F(t, r.b, r.c, r.d), r.e, K(t), w);
    Regs(temp, r.a, Rotl(r.b, 30), r.c, r.d)
  }

  function Rounds(h: Regs, m: seq<Word>, t: nat): Regs
    requires |m| == 16
  {
    if t == 0 then h else Step(Rounds(h, m, t - 1), t - 1, W(m, t - 1))
  }

  function Compress(h: Regs, m: seq<Word>): Regs
    requires |m| == 16
  {
    AddRegs(h, Rounds(h, m, 80))
  }

  function AddRegs(h: Regs, r: Regs): Regs {
    Regs(Plus(h.a, r.a), Plus(h.b, r.b), Plus(h.c, r.c), Plus(h.d, r.d), Plus(h.e, r.e))
  }

  // ---------- bytes and words ----------

  function BigEndian(b0: Byte, b1: Byte, b2: Byte, b3: Byte): Word {
    ((b0 as Word) << 24) | ((b1 as Word) << 16) | ((b2 as Word) << 8) | (b3 as Word)
  }

  function ToWords(bytes: seq<Byte>): (m: seq<Word>)
    requires |bytes| % 4 == 0
    ensures |m| == |bytes| / 4
    ensures forall i :: 0 <= i < |m| ==>
      m[i] == BigEndian(bytes[4 * i], bytes[4 * i + 1], bytes[4 * i + 2], bytes[4 * i + 3])
  {
    seq(|bytes| / 4, i requires 0 <= i < |bytes| / 4 =>
      BigEndian(bytes[4 * i], bytes[4 * i + 1], bytes[4 * i + 2], bytes[4 * i + 3]))
  }

  function WordBytes(w: Word): seq<Byte> {
    [((w >> 24) & 0xff) as Byte, ((w >> 16) & 0xff) as Byte, ((w >> 8) & 0xff) as Byte, (w & 0xff) as Byte]
  }

  function RegsBytes(r: Regs): seq<Byte> {
    WordBytes(r.a) + WordBytes(r.b) + WordBytes(r.c) + WordBytes(r.d) + WordBytes(r.e)
  }

  // ---------- whole messages ----------

  const INITIAL: Regs := Regs(0x67452301, 0xefcdab89, 0x98badcfe, 0x10325476, 0xc3d2e1f0)

  /** The hash value after a whole number of 16-word blocks. */
  function HashWords(m: seq<Word>): Regs
    requires |m| % 16 == 0
    decreases |m|
  {
    if |m| == 0 then INITIAL
    else Compress(HashWords(m[..|m| - 16]), m[|m| - 16..])
  }

  const TWO_TO_THE_32: nat := 0x1_0000_0000
  const TWO_TO_THE_64: nat := 0x1_0000_0000_0000_0000

  function Zeros(n: nat): (s: seq<Byte>)
    ensures |s| == n && forall i :: 0 <= i < n ==> s[i] == 0
  {
    seq(n, _ => 0 as Byte)
  }

  /** The least number of zero bytes that leaves room for exactly the length field. */
  function ZeroCount(length: nat): (k: nat)
    ensures (length + 1 + k) % 64 == 56 && k < 64
  {
    (55 - length) % 64
  }

  /** The two words of the length field. The standard stops at 2^64 - 1 bits; beyond that the field wraps. */
  function LengthWords(length: nat): (w: seq<Word>)
    ensures |w| == 2
  {
    var bits := 8 * length % TWO_TO_THE_64;
    [(bits / TWO_TO_THE_32) as Word, (bits % TWO_TO_THE_32) as Word]
  }

  /** Section 5.1.1: a one bit, zero bits, and the length in bits. */
  function Pad(message: seq<Byte>): (m: seq<Word>)
    ensures |m| % 16 == 0
  {
    var filled := message + [0x80] + Zeros(ZeroCount(|message|));
    FourteenWords(|filled|);
    ToWords(filled) + LengthWords(|message|)
  }

  lemma Quarter(m: nat)
    ensures 4 * m % 4 == 0 && 4 * m / 4 == m
  {
  }

  lemma Sixteenth(q: nat, r: nat)
    requires r < 16
    ensures (16 * q + r) % 16 == r
  {
  }

  lemma FourteenWords(n: nat)
    requires n % 64 == 56
    ensures n % 4 == 0 && n / 4 % 16 == 14 && (n / 4 + 2) % 16 == 0
  {
    var q := n / 64;
    assert n == 4 * (16 * q + 14);
    Quarter(16 * q + 14);
    Sixteenth(q, 14);
    Sixteenth(q + 1, 0);
  }

  function Digest(message: seq<Byte>): seq<Byte> {
    RegsBytes(HashWords(Pad(message)))
  }
}
