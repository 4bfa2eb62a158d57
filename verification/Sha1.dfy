/** The SHA-1 of the WebSocket handshake: unrolled rounds, a circular schedule and a block buffer. */
module Sha1 {
  import opened Sha1Standard

  type UInt64 = x: int | 0 <= x < 0x1_0000_0000_0000_0000

  const BLOCK_INTS: nat := 16
  const BLOCK_BYTES: nat := 64

  function Rol(value: Word, bits: nat): Word
    requires 0 < bits < 32
  {
    (value << bits) | (value >> (32 - bits))
  }

  lemma RolIsRotation(x: Word)
    ensures Rol(x, 1) == Rotl(x, 1)
    ensures Rol(x, 5) == Rotl(x, 5)
    ensures Rol(x, 30) == Rotl(x, 30)
  {
  }

  lemma ChooseForm(w: Word, x: Word, y: Word)
    ensures (w & (x ^ y)) ^ y == Ch(w, x, y)
  {
  }

  lemma MajorityForm(w: Word, x: Word, y: Word)
    ensures ((w | x) & y) | (w & x) == Maj(w, x, y)
  {
  }

  /** Before round `t`, every slot holds the latest schedule word whose index has the slot's residue. */
  ghost predicate Holds(block: seq<Word>, m: seq<Word>, t: nat) {
    && |block| == 16 && |m| == 16
    && var end := if t < 16 then 16 else t;
       forall s: nat {:trigger W(m, s)} :: end - 16 <= s < end ==> block[s % 16] == W(m, s)
  }

  function Blk(block: seq<Word>, i: nat): Word
    requires |block| == 16 && i < 16
  {
    Rol(block[(i + 13) % 16] ^ block[(i + 8) % 16] ^ block[(i + 2) % 16] ^ block[i], 1)
  }

  lemma Residue(t: nat, k: nat)
    requires t >= 16 >= k
    ensures (t - k) % 16 == (t % 16 + (16 - k)) % 16
  {
    assert t - k == 16 * (t / 16 - 1) + (t % 16 + (16 - k));
  }

  lemma ScheduleWord(m: seq<Word>, t: nat)
    requires |m| == 16 && t >= 16
    ensures W(m, t) == Rotl(Mix(W(m, t - 3), W(m, t - 8), W(m, t - 14), W(m, t - 16)), 1)
  {
    hide Mix, Rotl;
  }

  lemma BlkOf(block: seq<Word>, i: nat, p: Word, q: Word, r: Word, s: Word)
    requires |block| == 16 && i < 16
    requires block[(i + 13) % 16] == p && block[(i + 8) % 16] == q && block[(i + 2) % 16] == r && block[i] == s
    ensures Blk(block, i) == Rotl(Mix(p, q, r, s), 1)
  {
    hide Rol, Rotl;
    RolIsRotation(Mix(p, q, r, s));
  }

  lemma BlkIsSchedule(block: seq<Word>, m: seq<Word>, t: nat)
    requires Holds(block, m, t) && t >= 16
    ensures Blk(block, t % 16) == W(m, t)
  {
    hide W, Rol, Rotl, Mix, Blk;
    Residue(t, 3);
    Residue(t, 8);
    Residue(t, 14);
    Residue(t, 16);
    ScheduleWord(m, t);
    BlkOf(block, t % 16, W(m, t - 3), W(m, t - 8), W(m, t - 14), W(m, t - 16));
  }

  lemma DistinctResidues(s: nat, t: nat)
    requires t - 16 < s < t
    ensures s % 16 != t % 16
  {
  }

  lemma HoldsNext(block: seq<Word>, m: seq<Word>, t: nat)
    requires Holds(block, m, t) && t >= 16
    ensures Holds(block[t % 16 := W(m, t)], m, t + 1)
  {
    hide W;
    forall s: nat | t + 1 - 16 <= s < t + 1 ensures block[t % 16 := W(m, t)][s % 16] == W(m, s) {
      if s < t { DistinctResidues(s, t); }
    }
  }

  /** The schedule part of `R1` to `R4`: slot `i` moves on to the next word it has to hold. */
  method Extend(block: array<Word>, i: nat, ghost m: seq<Word>, ghost t: nat)
    requires block.Length == 16 && t >= 16 && i == t % 16 && Holds(block[..], m, t)
    modifies block
    ensures Holds(block[..], m, t + 1) && block[i] == W(m, t)
  {
    hide W, Blk;
    BlkIsSchedule(block[..], m, t);
    HoldsNext(block[..], m, t);
    block[i] := Blk(block[..], i);
    assert block[..] == old(block[..])[i := W(m, t)];
  }

  /** The working variables in the roles they play at round `t`. */
  ghost predicate InRound(h: Regs, m: seq<Word>, t: nat, v: Word, w: Word, x: Word, y: Word, z: Word) {
    |m| == 16 && Rounds(h, m, t) == Regs(v, w, x, y, z)
  }

  lemma NextRound(h: Regs, m: seq<Word>, t: nat, v: Word, w: Word, x: Word, y: Word, z: Word)
    requires InRound(h, m, t, v, w, x, y, z)
    ensures InRound(h, m, t + 1, Sum(Rol(v, 5), F(t, w, x, y), z, K(t), W(m, t)), v, Rol(w, 30), x, y)
  {
    hide W, F, K, Rol, Rotl, Sum;
    RolIsRotation(v);
    RolIsRotation(w);
  }

  /** `z += f + block[i] + k + rol(v, 5)` */
  function Increase(z: Word, f: Word, word: Word, k: Word, r: Word): Word {
    z + (f + word + k + r)
  }

  lemma SumForm(z: Word, f: Word, word: Word, k: Word, r: Word)
    ensures Increase(z, f, word, k, r) == Sum(r, f, z, k, word)
  {
  }

  // ---------- the five round operations ----------

  /** What `z` becomes in `R0` and `R1`. */
  function ChooseRound(v: Word, w: Word, x: Word, y: Word, z: Word, word: Word): Word {
    Increase(z, (w & (x ^ y)) ^ y, word, 0x5a827999, Rol(v, 5))
  }

  /** What `z` becomes in `R2` and `R4`. */
  function ParityRound(v: Word, w: Word, x: Word, y: Word, z: Word, word: Word, k: Word): Word {
    Increase(z, w ^ x ^ y, word, k, Rol(v, 5))
  }

  /** What `z` becomes in `R3`. */
  function MajorityRound(v: Word, w: Word, x: Word, y: Word, z: Word, word: Word): Word {
    Increase(z, ((w | x) & y) | (w & x), word, 0x8f1bbcdc, Rol(v, 5))
  }

  lemma ChooseRoundForm(v: Word, w: Word, x: Word, y: Word, z: Word, word: Word, t: nat)
    requires t < 20
    ensures ChooseRound(v, w, x, y, z, word) == Sum(Rol(v, 5), F(t, w, x, y), z, K(t), word)
  {
    hide Rol, Sum, Ch, Increase;
    ChooseForm(w, x, y);
    SumForm(z, Ch(w, x, y), word, 0x5a827999, Rol(v, 5));
  }

  lemma ParityRoundForm(v: Word, w: Word, x: Word, y: Word, z: Word, word: Word, t: nat)
    requires 20 <= t < 40 || 60 <= t < 80
    ensures ParityRound(v, w, x, y, z, word, K(t)) == Sum(Rol(v, 5), F(t, w, x, y), z, K(t), word)
  {
    hide Rol, Sum, K, Increase;
    SumForm(z, w ^ x ^ y, word, K(t), Rol(v, 5));
  }

  lemma MajorityRoundForm(v: Word, w: Word, x: Word, y: Word, z: Word, word: Word, t: nat)
    requires 40 <= t < 60
    ensures MajorityRound(v, w, x, y, z, word) == Sum(Rol(v, 5), F(t, w, x, y), z, K(t), word)
  {
    hide Rol, Sum, Maj, Increase;
    MajorityForm(w, x, y);
    SumForm(z, Maj(w, x, y), word, 0x8f1bbcdc, Rol(v, 5));
  }

  method R0(block: array<Word>, v: Word, w: Word, x: Word, y: Word, z: Word, i: nat,
            ghost h: Regs, ghost m: seq<Word>, ghost t: nat)
    returns (w': Word, z': Word)
    requires block.Length == 16 && 0 <= t < 16 && i == t % 16
    requires Holds(block[..], m, t) && InRound(h, m, t, v, w, x, y, z)
    ensures Holds(block[..], m, t + 1) && InRound(h, m, t + 1, z', v, w', x, y)
  {
    hide W, Rounds, Rol, Sum, F, ChooseRound, InRound;
    ChooseRoundForm(v, w, x, y, z, block[i], t);
    NextRound(h, m, t, v, w, x, y, z);
    z' := ChooseRound(v, w, x, y, z, block[i]);
    w' := Rol(w, 30);
  }

  method R1(block: array<Word>, v: Word, w: Word, x: Word, y: Word, z: Word, i: nat,
            ghost h: Regs, ghost m: seq<Word>, ghost t: nat)
    returns (w': Word, z': Word)
    requires block.Length == 16 && 16 <= t < 20 && i == t % 16
    requires Holds(block[..], m, t) && InRound(h, m, t, v, w, x, y, z)
    modifies block
    ensures Holds(block[..], m, t + 1) && InRound(h, m, t + 1, z', v, w', x, y)
  {
    hide W, Rounds, Rol, Sum, F, ChooseRound, InRound, Holds;
    Extend(block, i, m, t);
    ChooseRoundForm(v, w, x, y, z, block[i], t);
    NextRound(h, m, t, v, w, x, y, z);
    z' := ChooseRound(v, w, x, y, z, block[i]);
    w' := Rol(w, 30);
  }

  method R2(block: array<Word>, v: Word, w: Word, x: Word, y: Word, z: Word, i: nat,
            ghost h: Regs, ghost m: seq<Word>, ghost t: nat)
    returns (w': Word, z': Word)
    requires block.Length == 16 && 20 <= t < 40 && i == t % 16
    requires Holds(block[..], m, t) && InRound(h, m, t, v, w, x, y, z)
    modifies block
    ensures Holds(block[..], m, t + 1) && InRound(h, m, t + 1, z', v, w', x, y)
  {
    hide W, Rounds, Rol, Sum, F, ParityRound, InRound, Holds;
    Extend(block, i, m, t);
    ParityRoundForm(v, w, x, y, z, block[i], t);
    NextRound(h, m, t, v, w, x, y, z);
    z' := ParityRound(v, w, x, y, z, block[i], 0x6ed9eba1);
    w' := Rol(w, 30);
  }

  method R3(block: array<Word>, v: Word, w: Word, x: Word, y: Word, z: Word, i: nat,
            ghost h: Regs, ghost m: seq<Word>, ghost t: nat)
    returns (w': Word, z': Word)
    requires block.Length == 16 && 40 <= t < 60 && i == t % 16
    requires Holds(block[..], m, t) && InRound(h, m, t, v, w, x, y, z)
    modifies block
    ensures Holds(block[..], m, t + 1) && InRound(h, m, t + 1, z', v, w', x, y)
  {
    hide W, Rounds, Rol, Sum, F, MajorityRound, InRound, Holds;
    Extend(block, i, m, t);
    MajorityRoundForm(v, w, x, y, z, block[i], t);
    NextRound(h, m, t, v, w, x, y, z);
    z' := MajorityRound(v, w, x, y, z, block[i]);
    w' := Rol(w, 30);
  }

  method R4(block: array<Word>, v: Word, w: Word, x: Word, y: Word, z: Word, i: nat,
            ghost h: Regs, ghost m: seq<Word>, ghost t: nat)
    returns (w': Word, z': Word)
    requires block.Length == 16 && 60 <= t < 80 && i == t % 16
    requires Holds(block[..], m, t) && InRound(h, m, t, v, w, x, y, z)
    modifies block
    ensures Holds(block[..], m, t + 1) && InRound(h, m, t + 1, z', v, w', x, y)
  {
    hide W, Rounds, Rol, Sum, F, ParityRound, InRound, Holds;
    Extend(block, i, m, t);
    ParityRoundForm(v, w, x, y, z, block[i], t);
    NextRound(h, m, t, v, w, x, y, z);
    z' := ParityRound(v, w, x, y, z, block[i], 0xca62c1d6);
    w' := Rol(w, 30);
  }

  // ---------- 4 rounds of 20 operations ----------

  method FirstTwenty(block: array<Word>, a0: Word, b0: Word, c0: Word, d0: Word, e0: Word,
                     ghost h: Regs, ghost m: seq<Word>)
    returns (a: Word, b: Word, c: Word, d: Word, e: Word)
    requires block.Length == 16 && Holds(block[..], m, 0) && InRound(h, m, 0, a0, b0, c0, d0, e0)
    modifies block
    ensures Holds(block[..], m, 20) && InRound(h, m, 20, a, b, c, d, e)
  {
    hide W, Rounds, Holds, InRound;
    a, b, c, d, e := a0, b0, c0, d0, e0;
    b, e := R0(block, a, b, c, d, e,  0, h, m, 0);
    a, d := R0(block, e, a, b, c, d,  1, h, m, 1);
    e, c := R0(block, d, e, a, b, c,  2, h, m, 2);
    d, b := R0(block, c, d, e, a, b,  3, h, m, 3);
    c, a := R0(block, b, c, d, e, a,  4, h, m, 4);
    b, e := R0(block, a, b, c, d, e,  5, h, m, 5);
    a, d := R0(block, e, a, b, c, d,  6, h, m, 6);
    e, c := R0(block, d, e, a, b, c,  7, h, m, 7);
    d, b := R0(block, c, d, e, a, b,  8, h, m, 8);
    c, a := R0(block, b, c, d, e, a,  9, h, m, 9);
    b, e := R0(block, a, b, c, d, e, 10, h, m, 10);
    a, d := R0(block, e, a, b, c, d, 11, h, m, 11);
    e, c := R0(block, d, e, a, b, c, 12, h, m, 12);
    d, b := R0(block, c, d, e, a, b, 13, h, m, 13);
    c, a := R0(block, b, c, d, e, a, 14, h, m, 14);
    b, e := R0(block, a, b, c, d, e, 15, h, m, 15);
    a, d := R1(block, e, a, b, c, d,  0, h, m, 16);
    e, c := R1(block, d, e, a, b, c,  1, h, m, 17);
    d, b := R1(block, c, d, e, a, b,  2, h, m, 18);
    c, a := R1(block, b, c, d, e, a,  3, h, m, 19);
  }

  method SecondTwenty(block: array<Word>, a0: Word, b0: Word, c0: Word, d0: Word, e0: Word,
                     ghost h: Regs, ghost m: seq<Word>)
    returns (a: Word, b: Word, c: Word, d: Word, e: Word)
    requires block.Length == 16 && Holds(block[..], m, 20) && InRound(h, m, 20, a0, b0, c0, d0, e0)
    modifies block
    ensures Holds(block[..], m, 40) && InRound(h, m, 40, a, b, c, d, e)
  {
    hide W, Rounds, Holds, InRound;
    a, b, c, d, e := a0, b0, c0, d0, e0;
    b, e := R2(block, a, b, c, d, e,  4, h, m, 20);
    a, d := R2(block, e, a, b, c, d,  5, h, m, 21);
    e, c := R2(block, d, e, a, b, c,  6, h, m, 22);
    d, b := R2(block, c, d, e, a, b,  7, h, m, 23);
    c, a := R2(block, b, c, d, e, a,  8, h, m, 24);
    b, e := R2(block, a, b, c, d, e,  9, h, m, 25);
    a, d := R2(block, e, a, b, c, d, 10, h, m, 26);
    e, c := R2(block, d, e, a, b, c, 11, h, m, 27);
    d, b := R2(block, c, d, e, a, b, 12, h, m, 28);
    c, a := R2(block, b, c, d, e, a, 13, h, m, 29);
    b, e := R2(block, a, b, c, d, e, 14, h, m, 30);
    a, d := R2(block, e, a, b, c, d, 15, h, m, 31);
    e, c := R2(block, d, e, a, b, c,  0, h, m, 32);
    d, b := R2(block, c, d, e, a, b,  1, h, m, 33);
    c, a := R2(block, b, c, d, e, a,  2, h, m, 34);
    b, e := R2(block, a, b, c, d, e,  3, h, m, 35);
    a, d := R2(block, e, a, b, c, d,  4, h, m, 36);
    e, c := R2(block, d, e, a, b, c,  5, h, m, 37);
    d, b := R2(block, c, d, e, a, b,  6, h, m, 38);
    c, a := R2(block, b, c, d, e, a,  7, h, m, 39);
  }

  method ThirdTwenty(block: array<Word>, a0: Word, b0: Word, c0: Word, d0: Word, e0: Word,
                     ghost h: Regs, ghost m: seq<Word>)
    returns (a: Word, b: Word, c: Word, d: Word, e: Word)
    requires block.Length == 16 && Holds(block[..], m, 40) && InRound(h, m, 40, a0, b0, c0, d0, e0)
    modifies block
    ensures Holds(block[..], m, 60) && InRound(h, m, 60, a, b, c, d, e)
  {
    hide W, Rounds, Holds, InRound;
    a, b, c, d, e := a0, b0, c0, d0, e0;
    b, e := R3(block, a, b, c, d, e,  8, h, m, 40);
    a, d := R3(block, e, a, b, c, d,  9, h, m, 41);
    e, c := R3(block, d, e, a, b, c, 10, h, m, 42);
    d, b := R3(block, c, d, e, a, b, 11, h, m, 43);
    c, a := R3(block, b, c, d, e, a, 12, h, m, 44);
    b, e := R3(block, a, b, c, d, e, 13, h, m, 45);
    a, d := R3(block, e, a, b, c, d, 14, h, m, 46);
    e, c := R3(block, d, e, a, b, c, 15, h, m, 47);
    d, b := R3(block, c, d, e, a, b,  0, h, m, 48);
    c, a := R3(block, b, c, d, e, a,  1, h, m, 49);
    b, e := R3(block, a, b, c, d, e,  2, h, m, 50);
    a, d := R3(block, e, a, b, c, d,  3, h, m, 51);
    e, c := R3(block, d, e, a, b, c,  4, h, m, 52);
    d, b := R3(block, c, d, e, a, b,  5, h, m, 53);
    c, a := R3(block, b, c, d, e, a,  6, h, m, 54);
    b, e := R3(block, a, b, c, d, e,  7, h, m, 55);
    a, d := R3(block, e, a, b, c, d,  8, h, m, 56);
    e, c := R3(block, d, e, a, b, c,  9, h, m, 57);
    d, b := R3(block, c, d, e, a, b, 10, h, m, 58);
    c, a := R3(block, b, c, d, e, a, 11, h, m, 59);
  }

  method LastTwenty(block: array<Word>, a0: Word, b0: Word, c0: Word, d0: Word, e0: Word,
                     ghost h: Regs, ghost m: seq<Word>)
    returns (a: Word, b: Word, c: Word, d: Word, e: Word)
    requires block.Length == 16 && Holds(block[..], m, 60) && InRound(h, m, 60, a0, b0, c0, d0, e0)
    modifies block
    ensures Holds(block[..], m, 80) && InRound(h, m, 80, a, b, c, d, e)
  {
    hide W, Rounds, Holds, InRound;
    a, b, c, d, e := a0, b0, c0, d0, e0;
    b, e := R4(block, a, b, c, d, e, 12, h, m, 60);
    a, d := R4(block, e, a, b, c, d, 13, h, m, 61);
    e, c := R4(block, d, e, a, b, c, 14, h, m, 62);
    d, b := R4(block, c, d, e, a, b, 15, h, m, 63);
    c, a := R4(block, b, c, d, e, a,  0, h, m, 64);
    b, e := R4(block, a, b, c, d, e,  1, h, m, 65);
    a, d := R4(block, e, a, b, c, d,  2, h, m, 66);
    e, c := R4(block, d, e, a, b, c,  3, h, m, 67);
    d, b := R4(block, c, d, e, a, b,  4, h, m, 68);
    c, a := R4(block, b, c, d, e, a,  5, h, m, 69);
    b, e := R4(block, a, b, c, d, e,  6, h, m, 70);
    a, d := R4(block, e, a, b, c, d,  7, h, m, 71);
    e, c := R4(block, d, e, a, b, c,  8, h, m, 72);
    d, b := R4(block, c, d, e, a, b,  9, h, m, 73);
    c, a := R4(block, b, c, d, e, a, 10, h, m, 74);
    b, e := R4(block, a, b, c, d, e, 11, h, m, 75);
    a, d := R4(block, e, a, b, c, d, 12, h, m, 76);
    e, c := R4(block, d, e, a, b, c, 13, h, m, 77);
    d, b := R4(block, c, d, e, a, b, 14, h, m, 78);
    c, a := R4(block, b, c, d, e, a, 15, h, m, 79);
  }

  function RegsOf(digest: seq<Word>): Regs
    requires |digest| == 5
  {
    Regs(digest[0], digest[1], digest[2], digest[3], digest[4])
  }

  lemma FirstRound(h: Regs, m: seq<Word>)
    requires |m| == 16
    ensures Holds(m, m, 0) && InRound(h, m, 0, h.a, h.b, h.c, h.d, h.e)
  {
    forall s: nat {:trigger W(m, s)} | 0 <= s < 16 ensures m[s % 16] == W(m, s) {}
  }

  lemma LastRound(h: Regs, m: seq<Word>, a: Word, b: Word, c: Word, d: Word, e: Word)
    requires InRound(h, m, 80, a, b, c, d, e)
    ensures Compress(h, m) == AddRegs(h, Regs(a, b, c, d, e))
  {
    hide Rounds, AddRegs;
  }

  /** Adds the working variables back into the digest. */
  method AddBack(digest: array<Word>, a: Word, b: Word, c: Word, d: Word, e: Word)
    requires digest.Length == 5
    modifies digest
    ensures RegsOf(digest[..]) == AddRegs(old(RegsOf(digest[..])), Regs(a, b, c, d, e))
  {
    hide Plus;
    digest[0] := Plus(digest[0], a);
    digest[1] := Plus(digest[1], b);
    digest[2] := Plus(digest[2], c);
    digest[3] := Plus(digest[3], d);
    digest[4] := Plus(digest[4], e);
  }

  /** Hashes one block; the block array is used up as the schedule. */
  method Transform(digest: array<Word>, block: array<Word>, transforms: UInt64) returns (transforms': UInt64)
    requires digest.Length == 5 && block.Length == 16 && digest != block
    modifies digest, block
    ensures RegsOf(digest[..]) == Compress(old(RegsOf(digest[..])), old(block[..]))
    ensures transforms' == (transforms + 1) % TWO_TO_THE_64
  {
    ghost var h, m := RegsOf(digest[..]), block[..];
    FirstRound(h, m);
    hide W, Rounds, Holds, InRound, Compress, AddRegs;
    var a, b, c, d, e := digest[0], digest[1], digest[2], digest[3], digest[4];
    a, b, c, d, e := FirstTwenty(block, a, b, c, d, e, h, m);
    a, b, c, d, e := SecondTwenty(block, a, b, c, d, e, h, m);
    a, b, c, d, e := ThirdTwenty(block, a, b, c, d, e, h, m);
    a, b, c, d, e := LastTwenty(block, a, b, c, d, e, h, m);
    LastRound(h, m, a, b, c, d, e);
    AddBack(digest, a, b, c, d, e);
    transforms' := (transforms + 1) % TWO_TO_THE_64;
  }

  // ---------- the object ----------

  lemma BlockBoundary(n: nat)
    requires n % 64 == 0
    ensures n % 4 == 0 && n / 4 % 16 == 0
  {
    assert n == 4 * (16 * (n / 64));
    Quarter(16 * (n / 64));
    Sixteenth(n / 64, 0);
  }

  /** The hash value after the whole blocks of a message. */
  function HashBytes(bytes: seq<Byte>): Regs
    requires |bytes| % 64 == 0
  {
    BlockBoundary(|bytes|);
    HashWords(ToWords(bytes))
  }

  lemma HashNextWords(m: seq<Word>, block: seq<Word>)
    requires |m| % 16 == 0 && |block| == 16
    ensures HashWords(m + block) == Compress(HashWords(m), block)
  {
    hide Compress;
    assert (m + block)[..|m|] == m;
    assert (m + block)[|m|..] == block;
  }

  lemma ToWordsConcat(a: seq<Byte>, b: seq<Byte>)
    requires |a| % 4 == 0 && |b| % 4 == 0
    ensures ToWords(a + b) == ToWords(a) + ToWords(b)
  {
    hide BigEndian;
    var ab := a + b;
    assert |ToWords(ab)| == |ToWords(a)| + |ToWords(b)|;
    forall i | 0 <= i < |ToWords(ab)| ensures ToWords(ab)[i] == (ToWords(a) + ToWords(b))[i] {
      if i < |ToWords(a)| {
        assert ab[4 * i] == a[4 * i] && ab[4 * i + 1] == a[4 * i + 1];
        assert ab[4 * i + 2] == a[4 * i + 2] && ab[4 * i + 3] == a[4 * i + 3];
      } else {
        var k := i - |ToWords(a)|;
        assert 4 * i == |a| + 4 * k;
        assert ab[4 * i] == b[4 * k] && ab[4 * i + 1] == b[4 * k + 1];
        assert ab[4 * i + 2] == b[4 * k + 2] && ab[4 * i + 3] == b[4 * k + 3];
      }
    }
  }

  lemma HashNext(bytes: seq<Byte>, block: seq<Byte>)
    requires |bytes| % 64 == 0 && |block| == 64
    ensures (|bytes + block|) % 64 == 0
    ensures HashBytes(bytes + block) == Compress(HashBytes(bytes), ToWords(block))
  {
    hide Compress, HashWords, ToWords;
    BlockBoundary(|bytes|);
    BlockBoundary(|bytes + block|);
    ToWordsConcat(bytes, block);
    HashNextWords(ToWords(bytes), ToWords(block));
  }

  /** How much of a message has gone through `Transform`. */
  function Whole(n: nat): (w: nat)
    ensures w <= n && w % 64 == 0 && n - w == n % 64 && w / 64 == n / 64
  {
    n - n % 64
  }

  /** The hash value after the whole blocks of `message`. */
  function Running(message: seq<Byte>): Regs {
    HashBytes(message[..Whole(|message|)])
  }

  function Tail(message: seq<Byte>): seq<Byte> {
    message[Whole(|message|)..]
  }

  lemma Filling(message: seq<Byte>, chunk: seq<Byte>)
    requires |message| % 64 + |chunk| < 64
    ensures Running(message + chunk) == Running(message)
    ensures Tail(message + chunk) == Tail(message) + chunk
    ensures |message + chunk| / 64 == |message| / 64
  {
    hide HashBytes;
    assert Whole(|message + chunk|) == Whole(|message|);
    assert (message + chunk)[..Whole(|message|)] == message[..Whole(|message|)];
  }

  lemma Filled(message: seq<Byte>, chunk: seq<Byte>)
    requires |message| % 64 + |chunk| == 64
    ensures Running(message + chunk) == Compress(Running(message), ToWords(Tail(message) + chunk))
    ensures Tail(message + chunk) == []
    ensures |message + chunk| / 64 == |message| / 64 + 1
  {
    hide HashBytes, Compress, ToWords;
    var whole := message[..Whole(|message|)];
    assert |message + chunk| == Whole(|message|) + 64;
    assert (message + chunk)[..|message + chunk|] == whole + (Tail(message) + chunk);
    HashNext(whole, Tail(message) + chunk);
  }

  lemma CountNext(n: nat)
    ensures (n % TWO_TO_THE_64 + 1) % TWO_TO_THE_64 == (n + 1) % TWO_TO_THE_64
  {
  }

  // ---------- padding ----------

  /** The block that holds the end of the message, before the length field is written over its last words. */
  function LastBytes(message: seq<Byte>): (b: seq<Byte>)
    ensures |b| == 64
  {
    Tail(message) + [0x80] + Zeros(63 - |message| % 64)
  }

  lemma ZerosSplit(a: nat, b: nat)
    ensures Zeros(a + b) == Zeros(a) + Zeros(b)
  {
  }

  lemma ZeroWords()
    ensures ToWords(Zeros(56)) == seq(14, _ => 0 as Word)
  {
    assert BigEndian(0, 0, 0, 0) == 0;
  }

  lemma PadWords(message: seq<Byte>, last: seq<Byte>)
    requires last == Tail(message) + [0x80] + Zeros(ZeroCount(|message|)) && |last| % 64 == 56
    ensures |last| % 4 == 0 && |last| / 4 % 16 == 14
    ensures |message[..Whole(|message|)]| % 4 == 0 && |message[..Whole(|message|)]| / 4 % 16 == 0
    ensures Pad(message) == ToWords(message[..Whole(|message|)]) + ToWords(last) + LengthWords(|message|)
  {
    hide ToWords, LengthWords, ZeroCount;
    var whole := message[..Whole(|message|)];
    BlockBoundary(|whole|);
    FourteenWords(|last|);
    assert message + [0x80] + Zeros(ZeroCount(|message|)) == whole + last;
    ToWordsConcat(whole, last);
  }

  /** The length field fits behind the end of the message. */
  lemma PadOneBlock(message: seq<Byte>)
    requires |message| % 64 <= 55
    ensures HashWords(Pad(message)) ==
            Compress(Running(message), ToWords(LastBytes(message))[..14] + LengthWords(|message|))
  {
    hide ToWords, Compress, HashWords, Pad, LengthWords;
    var pos := |message| % 64;
    var last := Tail(message) + [0x80] + Zeros(55 - pos);
    assert ZeroCount(|message|) == 55 - pos;
    PadWords(message, last);
    ZerosSplit(55 - pos, 8);
    assert LastBytes(message) == last + Zeros(8);
    ToWordsConcat(last, Zeros(8));
    var whole := message[..Whole(|message|)];
    BlockBoundary(|whole|);
    assert Pad(message) == ToWords(whole) + (ToWords(last) + LengthWords(|message|));
    HashNextWords(ToWords(whole), ToWords(last) + LengthWords(|message|));
  }

  /** The length field needs a block of its own. */
  lemma PadTwoBlocks(message: seq<Byte>)
    requires |message| % 64 > 55
    ensures HashWords(Pad(message)) ==
            Compress(Compress(Running(message), ToWords(LastBytes(message))),
                     seq(14, _ => 0 as Word) + LengthWords(|message|))
  {
    hide ToWords, Compress, HashWords, Pad, LengthWords;
    var pos := |message| % 64;
    var last := Tail(message) + [0x80] + Zeros(119 - pos);
    assert ZeroCount(|message|) == 119 - pos;
    PadWords(message, last);
    ZerosSplit(63 - pos, 56);
    assert last == LastBytes(message) + Zeros(56);
    ToWordsConcat(LastBytes(message), Zeros(56));
    ZeroWords();
    var whole := message[..Whole(|message|)];
    var words := ToWords(whole) + ToWords(LastBytes(message));
    BlockBoundary(|whole|);
    HashNextWords(ToWords(whole), ToWords(LastBytes(message)));
    assert Pad(message) == words + (ToWords(Zeros(56)) + LengthWords(|message|));
    HashNextWords(words, ToWords(Zeros(56)) + LengthWords(|message|));
  }

  /** Counting blocks modulo 2^64 does not change the number of bits modulo 2^64. */
  lemma TotalBits(length: nat)
    ensures ((length / 64 % TWO_TO_THE_64) * 64 + length % 64) * 8 % TWO_TO_THE_64 == 8 * length % TWO_TO_THE_64
  {
    var q, r := length / 64 / TWO_TO_THE_64, length / 64 % TWO_TO_THE_64;
    assert 8 * length == TWO_TO_THE_64 * (512 * q) + (r * 64 + length % 64) * 8;
  }

  /** Below 2^61 bytes the length field is the true number of bits, as the standard has it. */
  lemma LengthFieldExact(length: nat)
    requires length < 0x2000_0000_0000_0000
    ensures 8 * length % TWO_TO_THE_64 == 8 * length
    ensures LengthWords(length) == [(8 * length / TWO_TO_THE_32) as Word, (8 * length % TWO_TO_THE_32) as Word]
  {
    assert 8 * length % TWO_TO_THE_64 == 8 * length;
    assert 8 * length / TWO_TO_THE_32 < TWO_TO_THE_32;
  }

  /** Sixteen words of a full buffer, most significant byte first. */
  method BufferToBlock(buffer: seq<Byte>, block: array<Word>)
    requires |buffer| == BLOCK_BYTES && block.Length == BLOCK_INTS
    modifies block
    ensures block[..] == ToWords(buffer)
  {
    hide BigEndian;
    var i := 0;
    while i < BLOCK_INTS
      invariant 0 <= i <= BLOCK_INTS
      invariant forall k :: 0 <= k < i ==> block[k] == ToWords(buffer)[k]
    {
      block[i] := BigEndian(buffer[4 * i], buffer[4 * i + 1], buffer[4 * i + 2], buffer[4 * i + 3]);
      i := i + 1;
    }
  }

  /** Zeroes all words but the two of the length field. */
  method ClearUpper(block: array<Word>)
    requires block.Length == BLOCK_INTS
    modifies block
    ensures block[..14] == seq(14, _ => 0 as Word)
  {
    var i := 0;
    while i < BLOCK_INTS - 2
      invariant 0 <= i <= BLOCK_INTS - 2
      invariant forall k :: 0 <= k < i ==> block[k] == 0
    {
      block[i] := 0;
      i := i + 1;
    }
  }

  class SHA1 {
    const digest: array<Word>
    var buffer: seq<Byte>
    var transforms: UInt64
    ghost var message: seq<Byte>

    /** The object holds what is left of hashing `message`. */
    ghost predicate Valid()
      reads this, digest
    {
      && digest.Length == 5
      && RegsOf(digest[..]) == Running(message)
      && buffer == Tail(message)
      && transforms == |message| / 64 % TWO_TO_THE_64
    }

    constructor ()
      ensures Valid() && message == [] && fresh(digest)
    {
      digest := new Word[5];
      buffer := [];
      transforms := 0;
      message := [];
      new;
      Reset();
    }

    method Reset()
      requires digest.Length == 5
      modifies this, digest
      ensures Valid() && message == []
    {
      digest[0], digest[1], digest[2], digest[3], digest[4] := 0x67452301, 0xefcdab89, 0x98badcfe, 0x10325476, 0xc3d2e1f0;
      buffer := [];
      transforms := 0;
      message := [];
      assert HashBytes([]) == INITIAL;
    }

    method Update(s: seq<Byte>)
      requires Valid()
      modifies this, digest
      ensures Valid() && message == old(message) + s
    {
      hide Running, Compress, HashBytes, ToWords;
      var progress := 0;
      while true
        invariant Valid() && 0 <= progress <= |s| && message == old(message) + s[..progress]
        decreases |s| - progress
      {
        var readSize := BLOCK_BYTES - |buffer|;
        if readSize > |s| - progress {
          readSize := |s| - progress;
        }
        ghost var chunk := s[progress..progress + readSize];
        buffer := buffer + s[progress..progress + readSize];
        progress := progress + readSize;
        ghost var before := message;
        message := message + chunk;
        assert message == old(message) + s[..progress];
        if |buffer| != BLOCK_BYTES {
          Filling(before, chunk);
          assert s[..progress] == s;
          return;
        }
        Filled(before, chunk);
        CountNext(|before| / 64);
        var block := new Word[BLOCK_INTS];
        BufferToBlock(buffer, block);
        transforms := Transform(digest, block, transforms);
        buffer := [];
      }
    }

    /** The zero bytes up to the end of the block. */
    method FillBuffer()
      requires |buffer| <= BLOCK_BYTES
      modifies this`buffer
      ensures buffer == old(buffer) + Zeros(BLOCK_BYTES - |old(buffer)|)
    {
      ghost var zeros := 0;
      while |buffer| < BLOCK_BYTES
        invariant |buffer| == |old(buffer)| + zeros <= BLOCK_BYTES
        invariant buffer == old(buffer) + Zeros(zeros)
      {
        ZerosSplit(zeros, 1);
        buffer := buffer + [0x00];
        zeros := zeros + 1;
      }
    }

    /** Returns the digest of everything hashed since the object was new, and makes it new again. */
    method FinalBinary() returns (result: seq<Byte>)
      requires Valid()
      modifies this, digest
      ensures result == Digest(old(message))
      ensures Valid() && message == []
    {
      hide Running, Compress, HashBytes, ToWords, Pad, HashWords, RegsBytes, ZeroCount, RegsOf, Zeros, Tail, LengthWords;
      ghost var msg := message;
      var totalBits := (transforms * BLOCK_BYTES + |buffer|) * 8 % TWO_TO_THE_64;
      TotalBits(|msg|);
      BufferSize(msg);
      buffer := buffer + [0x80];
      var origSize := |buffer|;
      FillBuffer();
      assert buffer == LastBytes(msg);
      var block := new Word[BLOCK_INTS];
      BufferToBlock(buffer, block);
      if origSize > BLOCK_BYTES - 8 {
        transforms := Transform(digest, block, transforms);
        ClearUpper(block);
        PadTwoBlocks(msg);
      } else {
        PadOneBlock(msg);
      }
      ghost var upper := block[..14];
      assert Compress(RegsOf(digest[..]), upper + LengthWords(|msg|)) == HashWords(Pad(msg));
      WriteLength(block, totalBits, |msg|);
      transforms := Transform(digest, block, transforms);
      result := RegsBytes(RegsOf(digest[..]));
      Reset();
    }
  }

  lemma BufferSize(message: seq<Byte>)
    ensures |Tail(message)| == |message| % 64
  {
  }

  /** Puts the number of bits into the last two words. */
  method WriteLength(block: array<Word>, totalBits: UInt64, ghost length: nat)
    requires block.Length == BLOCK_INTS && totalBits == 8 * length % TWO_TO_THE_64
    modifies block
    ensures block[..] == old(block[..14]) + LengthWords(length)
  {
    block[BLOCK_INTS - 1] := (totalBits % TWO_TO_THE_32) as Word;
    block[BLOCK_INTS - 2] := (totalBits / TWO_TO_THE_32) as Word;
  }

  // ---------- any split of the input ----------

  function Flatten(parts: seq<seq<Byte>>): seq<Byte> {
    if parts == [] then [] else Flatten(parts[..|parts| - 1]) + parts[|parts| - 1]
  }

  /** However the input is cut into updates, the digest is that of the whole. */
  method HashParts(parts: seq<seq<Byte>>) returns (result: seq<Byte>)
    ensures result == Digest(Flatten(parts))
  {
    var sha := new SHA1();
    var i := 0;
    while i < |parts|
      invariant 0 <= i <= |parts|
      invariant fresh(sha) && fresh(sha.digest) && sha.Valid()
      invariant sha.message == Flatten(parts[..i])
    {
      sha.Update(parts[i]);
      assert parts[..i + 1][..i] == parts[..i];
      i := i + 1;
    }
    assert parts[..i] == parts;
    result := sha.FinalBinary();
  }
}
