/** Small numbers as bit vectors and back. */
module SmallNumbers {

  lemma ByteBack(n: nat)
    requires n < 256
    ensures (n as bv8) as nat == n
  {
  }

  lemma SevenBits(n: nat)
    requires n < 126
    ensures (n as bv8) & 127 == n as bv8 && n as bv8 < 126
  {
  }

  lemma ZeroByte(b: bv8)
    ensures b == 0 <==> b as nat == 0
  {
  }

  lemma HighByte(b: bv8)
    ensures b >= 128 <==> b as nat >= 128
  {
  }
}

/** WebSocket frames: the bits of the header, lengths in network order, masking (section 5.2 of RFC 6455). */
module WebSocketFrame {
  import opened SmallNumbers

  type Byte = bv8

  const OPCODE_CONTINUATION: Byte := 0x0
  const OPCODE_TEXT: Byte := 0x1
  const OPCODE_BINARY: Byte := 0x2
  const OPCODE_CLOSE: Byte := 0x8
  const OPCODE_PING: Byte := 0x9
  const OPCODE_PONG: Byte := 0xA

  const TWO_TO_THE_63: nat := 0x8000_0000_0000_0000
  const TWO_TO_THE_64: nat := 0x1_0000_0000_0000_0000

  /** `v_int64` */
  type Int64 = x: int | -0x8000_0000_0000_0000 <= x < 0x8000_0000_0000_0000

  datatype Header = Header(
    fin: bool, rsv1: bool, rsv2: bool, rsv3: bool, opcode: Byte, hasMask: bool, payloadLength: Int64, mask: seq<Byte>)

  predicate HeaderOk(h: Header) {
    |h.mask| == 4
  }

  // ---------- the two header bytes ----------

  /** The flags and the opcode. */
  method PackFlags(h: Header) returns (bits: bv16)
    ensures bits == FlagBits(h.fin, h.rsv1, h.rsv2, h.rsv3, h.opcode, h.hasMask)
  {
    bits := 0;
    if h.fin { bits := bits | 32768; }
    if h.rsv1 { bits := bits | 16384; }
    if h.rsv2 { bits := bits | 8192; }
    if h.rsv3 { bits := bits | 4096; }
    bits := bits | (((h.opcode & 15) as bv16) << 8);
    if h.hasMask { bits := bits | 128; }
  }

  /** `packHeaderBits`, and which of the three length forms follows. */
  method PackHeaderBits(h: Header) returns (bits: bv16, messageLengthScenario: nat)
    requires h.payloadLength >= 0
    ensures bits == PackedBits(h.fin, h.rsv1, h.rsv2, h.rsv3, h.opcode, h.hasMask, LengthField(h.payloadLength))
    ensures messageLengthScenario == if h.payloadLength < 126 then 1 else if h.payloadLength < 65536 then 2 else 3
  {
    hide FlagBits, WithLength;
    bits := PackFlags(h);
    if h.payloadLength < 126 {
      SevenBits(h.payloadLength);
      bits := WithLength(bits, (h.payloadLength as bv8) & 127);
      messageLengthScenario := 1;
    } else if h.payloadLength < 65536 {
      bits := WithLength(bits, 126);
      messageLengthScenario := 2;
    } else {
      bits := WithLength(bits, 127);
      messageLengthScenario := 3;
    }
  }

  /** The seven length bits. */
  function LengthField(n: nat): Byte {
    if n < 126 then n as bv8 else if n < 65536 then 126 else 127
  }

  function Bit(b: bool, m: bv16): bv16 {
    if b then m else 0
  }

  /** The header bytes as one 16-bit number, laid out as in section 5.2. */
  function PackedBits(fin: bool, rsv1: bool, rsv2: bool, rsv3: bool, opcode: Byte, hasMask: bool, length: Byte): bv16 {
    WithLength(FlagBits(fin, rsv1, rsv2, rsv3, opcode, hasMask), length)
  }

  function WithLength(bits: bv16, length: Byte): bv16 {
    bits | (length as bv16)
  }

  function FlagBits(fin: bool, rsv1: bool, rsv2: bool, rsv3: bool, opcode: Byte, hasMask: bool): bv16 {
    Bit(fin, 32768) | Bit(rsv1, 16384) | Bit(rsv2, 8192) | Bit(rsv3, 4096) |
    (((opcode & 15) as bv16) << 8) | Bit(hasMask, 128)
  }

  /** `unpackHeaderBits` */
  function UnpackHeaderBits(bits: bv16, h: Header): (r: (Header, Byte))
    ensures r.0.mask == h.mask && r.0.payloadLength == h.payloadLength && r.1 <= 127
  {
    (h.(fin := bits & 32768 > 0, rsv1 := bits & 16384 > 0, rsv2 := bits & 8192 > 0, rsv3 := bits & 4096 > 0,
        opcode := ((bits & 3840) >> 8) as bv8, hasMask := bits & 128 > 0),
     (bits & 127) as bv8)
  }

  /** Every field comes back, whatever the others are. */
  lemma UnpackPacked(fin: bool, rsv1: bool, rsv2: bool, rsv3: bool, opcode: Byte, hasMask: bool, length: Byte, h: Header)
    requires opcode < 16 && length < 128
    ensures UnpackHeaderBits(PackedBits(fin, rsv1, rsv2, rsv3, opcode, hasMask, length), h) ==
            (h.(fin := fin, rsv1 := rsv1, rsv2 := rsv2, rsv3 := rsv3, opcode := opcode, hasMask := hasMask), length)
  {
  }

  // ---------- network order ----------

  function Bytes16(bits: bv16): seq<Byte> {
    [(bits >> 8) as bv8, (bits & 255) as bv8]
  }

  function Word16(b: seq<Byte>): bv16
    requires |b| == 2
  {
    ((b[0] as bv16) << 8) | (b[1] as bv16)
  }

  lemma Word16Bytes(bits: bv16)
    ensures Word16(Bytes16(bits)) == bits
  {
  }

  /** The `k` bytes of an unsigned number, most significant first. */
  function NumberBytes(n: nat, k: nat): (b: seq<Byte>)
    ensures |b| == k
  {
    if k == 0 then [] else NumberBytes(n / 256, k - 1) + [(n % 256) as bv8]
  }

  function Number(b: seq<Byte>): nat {
    if b == [] then 0 else 256 * Number(b[..|b| - 1]) + b[|b| - 1] as nat
  }

  function Power256(k: nat): nat {
    if k == 0 then 1 else 256 * Power256(k - 1)
  }

  lemma {:induction false} NumberBack(n: nat, k: nat)
    requires n < Power256(k)
    ensures Number(NumberBytes(n, k)) == n
  {
    if k > 0 {
      NumberBack(n / 256, k - 1);
      ByteBack(n % 256);
      var b := NumberBytes(n, k);
      assert b[..|b| - 1] == NumberBytes(n / 256, k - 1);
    }
  }

  lemma Powers()
    ensures Power256(2) == 65536 && Power256(8) == TWO_TO_THE_64
  {
    assert Power256(3) == 0x100_0000 && Power256(4) == 0x1_0000_0000;
    assert Power256(6) == 0x1_0000_0000_0000;
  }

  /** An unsigned 64-bit number stored into `v_int64`. */
  function Signed(n: nat): Int64
    requires n < TWO_TO_THE_64
  {
    if n < TWO_TO_THE_63 then n else n - TWO_TO_THE_64
  }

  lemma {:induction false} NumberBound(b: seq<Byte>)
    ensures Number(b) < Power256(|b|)
  {
    if b != [] {
      NumberBound(b[..|b| - 1]);
      assert b[|b| - 1] as nat < 256;
    }
  }

  // ---------- whole frames ----------

  function LengthBytes(n: nat): seq<Byte> {
    if n < 126 then [] else if n < 65536 then NumberBytes(n, 2) else NumberBytes(n, 8)
  }

  function HeaderBytes(h: Header): seq<Byte>
    requires h.payloadLength >= 0
  {
    Bytes16(PackedBits(h.fin, h.rsv1, h.rsv2, h.rsv3, h.opcode, h.hasMask, LengthField(h.payloadLength))) +
    LengthBytes(h.payloadLength) + if h.hasMask then h.mask else []
  }

  /** Byte `i` of the payload with the mask on or off, for a payload that starts `offset` bytes into the frame's data. */
  function Masked(data: seq<Byte>, mask: seq<Byte>, offset: nat): (r: seq<Byte>)
    requires |mask| == 4
    ensures |r| == |data|
    ensures forall i :: 0 <= i < |data| ==> r[i] == data[i] ^ mask[(i + offset) % 4]
  {
    seq(|data|, i requires 0 <= i < |data| => data[i] ^ mask[(i + offset) % 4])
  }

  /** What the header says about masking, applied to a part of the payload. */
  function Coded(h: Header, data: seq<Byte>, offset: nat): (r: seq<Byte>)
    requires HeaderOk(h)
    ensures |r| == |data|
  {
    if h.hasMask then Masked(data, h.mask, offset) else data
  }

  lemma XorTwice(a: Byte, m: Byte)
    ensures (a ^ m) ^ m == a
  {
  }

  lemma CodedTwice(h: Header, data: seq<Byte>, offset: nat)
    requires HeaderOk(h)
    ensures Coded(h, Coded(h, data, offset), offset) == data
  {
    if h.hasMask {
      forall i | 0 <= i < |data| ensures Masked(Masked(data, h.mask, offset), h.mask, offset)[i] == data[i] {
        XorTwice(data[i], h.mask[(i + offset) % 4]);
      }
    }
  }

  /** Unmasking piece by piece is unmasking the whole. */
  lemma CodedSplit(h: Header, a: seq<Byte>, b: seq<Byte>, offset: nat)
    requires HeaderOk(h)
    ensures Coded(h, a + b, offset) == Coded(h, a, offset) + Coded(h, b, offset + |a|)
  {
    if h.hasMask {
      var whole, parts := Masked(a + b, h.mask, offset), Masked(a, h.mask, offset) + Masked(b, h.mask, offset + |a|);
      forall i | 0 <= i < |a| + |b| ensures whole[i] == parts[i] {
        if i >= |a| {
          assert (i - |a|) + (offset + |a|) == i + offset;
        }
      }
    }
  }

  /** One frame on the wire. */
  function FrameBytes(h: Header, payload: seq<Byte>): seq<Byte>
    requires HeaderOk(h) && h.payloadLength == |payload|
  {
    HeaderBytes(h) + Coded(h, payload, 0)
  }
}
