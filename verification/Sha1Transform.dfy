/**
 SHA1Transform: a schedule of 16 words that overwrites itself, and five variables that change parts
 from round to round.  Section 8 of FIPS PUB 180-1 allows the former; both refine section 7.
 */
module Sha1Transform {
  import opened Sha1Spec

  // ---- the bit tricks ----

  function FastCh(w: Word, x: Word, y: Word): Word {
    (w & (x ^ y)) ^ y
  }

  lemma Choose(w: Word, x: Word, y: Word)
    ensures FastCh(w, x, y) == Ch(w, x, y)
  {
    ChooseBits(w, x, y);
  }

  lemma ChooseBits(w: Word, x: Word, y: Word)
    ensures (w & (x ^ y)) ^ y == (w & x) | (!w & y)
  {
  }

  function FastMaj(w: Word, x: Word, y: Word): Word {
    ((w | x) & y) | (w & x)
  }

  lemma Majority(w: Word, x: Word, y: Word)
    ensures FastMaj(w, x, y) == Maj(w, x, y)
  {
    MajorityBits(w, x, y);
  }

  lemma MajorityBits(w: Word, x: Word, y: Word)
    ensures ((w | x) & y) | (w & x) == (w & x) | (w & y) | (x & y)
  {
  }

  /** z += f + blk + k + rol(v, 5) */
  function Bumped(z: Word, f: Word, b: Word, k: Word, r: Word): Word {
    z + (f + b + k + r)
  }

  lemma SumOrder(z: Word, f: Word, b: Word, k: Word, r: Word)
    ensures Bumped(z, f, b, k, r) == Temp(r, f, z, b, k)
  {
  }

  function Swapped(x: Word): Word {
    (Rol(x, 24) & 0xFF00FF00) | (Rol(x, 8) & 0x00FF00FF)
  }

  /** The four bytes as a little-endian machine loads them. */
  function LittleEndian(b0: Byte, b1: Byte, b2: Byte, b3: Byte): Word {
    BigEndian(b3, b2, b1, b0)
  }

  lemma SwapBytes(b0: Byte, b1: Byte, b2: Byte, b3: Byte)
    ensures Swapped(LittleEndian(b0, b1, b2, b3)) == BigEndian(b0, b1, b2, b3)
  {
    hide Packed, Swapped;
    ByteSmall(b0);
    ByteSmall(b1);
    ByteSmall(b2);
    ByteSmall(b3);
    SwapPacked(b0 as Word, b1 as Word, b2 as Word, b3 as Word);
  }

  lemma ByteSmall(b: Byte)
    ensures b as Word <= 0xFF
  {
  }

  lemma SwapPacked(w0: Word, w1: Word, w2: Word, w3: Word)
    requires w0 <= 0xFF && w1 <= 0xFF && w2 <= 0xFF && w3 <= 0xFF
    ensures Swapped(Packed(w3, w2, w1, w0)) == Packed(w0, w1, w2, w3)
  {
    SwapBits(w0, w1, w2, w3);
  }

  lemma SwapBits(w0: Word, w1: Word, w2: Word, w3: Word)
    requires w0 <= 0xFF && w1 <= 0xFF && w2 <= 0xFF && w3 <= 0xFF
    ensures var x := (w3 << 24) | (w2 << 16) | (w1 << 8) | w0;
      (((x << 24) | (x >> 8)) & 0xFF00FF00) | (((x << 8) | (x >> 24)) & 0x00FF00FF) == (w0 << 24) | (w1 << 16) | (w2 << 8) | w3
  {
  }

  // ---- the schedule ----

  function Loaded(bytes: seq<Byte>, j: nat): Word
    requires |bytes| == 64 && j < 16
  {
    LittleEndian(bytes[4 * j], bytes[4 * j + 1], bytes[4 * j + 2], bytes[4 * j + 3])
  }

  /** Before round i the workspace holds the last words of the schedule, and behind them unswapped input. */
  ghost predicate Window(block: seq<Word>, bytes: seq<Byte>, i: nat)
    requires |block| == 16 && |bytes| == 64
  {
    && (forall t :: 0 <= t < i <= t + 16 ==> block[t % 16] == W(WordsOf(bytes), t))
    && (forall j :: i <= j < 16 ==> block[j] == Loaded(bytes, j))
  }

  lemma Blk0Word(block: seq<Word>, bytes: seq<Byte>, i: nat)
    requires |block| == 16 && |bytes| == 64 && i < 16 && Window(block, bytes, i)
    ensures Swapped(block[i]) == W(WordsOf(bytes), i)
    ensures Window(block[i := Swapped(block[i])], bytes, i + 1)
  {
    hide Swapped, BigEndian, LittleEndian;
    SwapBytes(bytes[4 * i], bytes[4 * i + 1], bytes[4 * i + 2], bytes[4 * i + 3]);
    WindowFills(block, bytes, i, Swapped(block[i]));
  }

  lemma WindowFills(block: seq<Word>, bytes: seq<Byte>, i: nat, w: Word)
    requires |block| == 16 && |bytes| == 64 && i < 16 && Window(block, bytes, i) && w == W(WordsOf(bytes), i)
    ensures block[i] == Loaded(bytes, i)
    ensures Window(block[i := w], bytes, i + 1)
  {
    hide W, WordsOf, Loaded;
    assert forall t :: 0 <= t < 16 ==> t % 16 == t;
  }

  lemma BlkWord(block: seq<Word>, bytes: seq<Byte>, i: nat)
    requires |block| == 16 && |bytes| == 64 && i >= 16 && Window(block, bytes, i)
    ensures var w := Expand(block[(i + 13) % 16], block[(i + 8) % 16], block[(i + 2) % 16], block[i % 16]);
      w == W(WordsOf(bytes), i) && Window(block[i % 16 := w], bytes, i + 1)
  {
    hide Expand, WordsOf;
    var m := WordsOf(bytes);
    assert block[(i - 3) % 16] == W(m, i - 3) && (i + 13) % 16 == (i - 3) % 16;
    assert block[(i - 8) % 16] == W(m, i - 8) && (i + 8) % 16 == (i - 8) % 16;
    assert block[(i - 14) % 16] == W(m, i - 14) && (i + 2) % 16 == (i - 14) % 16;
    assert block[(i - 16) % 16] == W(m, i - 16) && i % 16 == (i - 16) % 16;
    WindowMoves(block, bytes, i, W(m, i));
  }

  lemma WindowMoves(block: seq<Word>, bytes: seq<Byte>, i: nat, w: Word)
    requires |block| == 16 && |bytes| == 64 && i >= 16 && Window(block, bytes, i) && w == W(WordsOf(bytes), i)
    ensures Window(block[i % 16 := w], bytes, i + 1)
  {
    hide W, WordsOf;
    forall t | 0 <= t < i + 1 <= t + 16 ensures block[i % 16 := w][t % 16] == W(WordsOf(bytes), t) {
      if t < i {
        OtherSlot(t, i);
      }
    }
  }

  lemma OtherSlot(t: nat, i: nat)
    requires i - 16 < t < i
    ensures t % 16 != i % 16
  {
  }

  /** blk0 and blk: the word of round i, put into the workspace on the way. */
  method NextWord(block: array<Word>, i: nat, ghost bytes: seq<Byte>) returns (w: Word)
    requires block.Length == 16 && |bytes| == 64 && Window(block[..], bytes, i)
    modifies block
    ensures w == W(WordsOf(bytes), i) && Window(block[..], bytes, i + 1)
  {
    hide Window, Swapped, Expand, W, WordsOf;
    ghost var before := block[..];
    if i < 16 {
      Blk0Word(block[..], bytes, i);
      w := Swapped(block[i]);
      block[i] := w;
      assert block[..] == before[i := w];
    } else {
      BlkWord(block[..], bytes, i);
      w := Expand(block[(i + 13) % 16], block[(i + 8) % 16], block[(i + 2) % 16], block[i % 16]);
      block[i % 16] := w;
      assert block[..] == before[i % 16 := w];
    }
  }

  // ---- the rounds ----

  /** The functions of R0 to R4, as the macros write them. */
  function Mixed(i: nat, w: Word, x: Word, y: Word): Word {
    if i < 20 then FastCh(w, x, y) else if i < 40 then Parity(w, x, y) else if i < 60 then FastMaj(w, x, y) else Parity(w, x, y)
  }

  lemma MixedIsF(i: nat, w: Word, x: Word, y: Word)
    ensures Mixed(i, w, x, y) == F(i, w, x, y)
  {
    hide FastCh, FastMaj, Parity, Ch, Maj;
    Choose(w, x, y);
    Majority(w, x, y);
  }

  /** One of the macros R0 to R4: z and w change, and the next round names the five variables differently. */
  method R(block: array<Word>, v: Word, w: Word, x: Word, y: Word, z: Word, i: nat, ghost h: Hash, ghost bytes: seq<Byte>)
    returns (z': Word, w': Word)
    requires block.Length == 16 && |bytes| == 64 && Window(block[..], bytes, i)
    requires Hash(v, w, x, y, z) == Rounds(h, WordsOf(bytes), i)
    modifies block
    ensures Window(block[..], bytes, i + 1)
    ensures Hash(z', v, w', x, y) == Rounds(h, WordsOf(bytes), i + 1)
  {
    hide Window, W, WordsOf, Rol, Mixed, F, Bumped, Temp;
    var b := NextWord(block, i, bytes);
    var k: Word := if i < 20 then 0x5A827999 else if i < 40 then 0x6ED9EBA1 else if i < 60 then 0x8F1BBCDC else 0xCA62C1D6;
    assert k == K(i);
    z' := Bumped(z, Mixed(i, w, x, y), b, k, Rol(v, 5));
    w' := Rol(w, 30);
    MixedIsF(i, w, x, y);
    SumOrder(z, F(i, w, x, y), b, K(i), Rol(v, 5));
  }

  /** The 80 rounds, which the source writes out, repeat their naming every five. */
  method EightyRounds(h: Hash, bytes: seq<Byte>) returns (r: Hash)
    requires |bytes| == 64
    ensures r == Rounds(h, WordsOf(bytes), 80)
  {
    hide Window, Rounds, WordsOf, Loaded, W;
    var block := new Word[16](i requires 0 <= i < 16 => Loaded(bytes, i));
    var a, b, c, d, e := h.a, h.b, h.c, h.d, h.e;
    Begin(block[..], bytes, h);
    var i := 0;
    while i < 80
      invariant 0 <= i <= 80 && i % 5 == 0
      invariant Window(block[..], bytes, i)
      invariant Hash(a, b, c, d, e) == Rounds(h, WordsOf(bytes), i)
    {
      e, b := R(block, a, b, c, d, e, i, h, bytes);
      d, a := R(block, e, a, b, c, d, i + 1, h, bytes);
      c, e := R(block, d, e, a, b, c, i + 2, h, bytes);
      b, d := R(block, c, d, e, a, b, i + 3, h, bytes);
      a, c := R(block, b, c, d, e, a, i + 4, h, bytes);
      i := i + 5;
    }
    return Hash(a, b, c, d, e);
  }

  ghost function StateOf(state: array<Word>): Hash
    requires state.Length == 5
    reads state
  {
    Hash(state[0], state[1], state[2], state[3], state[4])
  }

  method SHA1Transform(state: array<Word>, bytes: seq<Byte>)
    requires state.Length == 5 && |bytes| == 64
    modifies state
    ensures StateOf(state) == Compress(old(StateOf(state)), bytes)
  {
    hide Rounds, WordsOf, Plus;
    var h := Hash(state[0], state[1], state[2], state[3], state[4]);
    var r := EightyRounds(h, bytes);
    state[0], state[1] := Plus(h.a, r.a), Plus(h.b, r.b);
    state[2], state[3], state[4] := Plus(h.c, r.c), Plus(h.d, r.d), Plus(h.e, r.e);
  }

  lemma Begin(block: seq<Word>, bytes: seq<Byte>, h: Hash)
    requires |block| == 16 && |bytes| == 64 && forall j :: 0 <= j < 16 ==> block[j] == Loaded(bytes, j)
    ensures Window(block, bytes, 0) && Rounds(h, WordsOf(bytes), 0) == h
  {
  }
}
