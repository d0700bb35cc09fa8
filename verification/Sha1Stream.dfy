/** SHA1Init, SHA1Update and SHA1Final: however a message is cut up, its digest is that of the whole. */
module Sha1Stream {
  import opened Arithmetic
  import opened Sequences
  import opened Sha1Spec
  import opened Sha1Transform

  // ---- the bit count, kept in two 32-bit words ----

  datatype Count = Count(low: nat, high: nat)

  /** The top bits of the length are added only when the low word carries. */
  function Advanced(c: Count, len: nat): Count {
    var low := (c.low + len * 8 % WORD32) % WORD32;
    if low < c.low then Count(low, (c.high + len / 0x2000_0000 + 1) % WORD32) else Count(low, c.high)
  }

  /** The count of so many bytes, less what was not added to its high word. */
  predicate Counts(c: Count, bytes: nat, lost: nat) {
    c.low < WORD32 && c.high < WORD32 && c.high * WORD32 + c.low == Bits(bytes, lost)
  }

  /** The length that is hashed, in bits, to 64 bits. */
  function Bits(bytes: nat, lost: nat): nat {
    (8 * bytes - lost * WORD32) % (WORD32 * WORD32)
  }

  /** What a piece of so many bytes fails to add to the high word. */
  function Dropped(low: nat, len: nat): nat {
    if low + len * 8 % WORD32 >= WORD32 then 0 else len / 0x2000_0000
  }

  /** What 8 * len is made of. */
  lemma LengthParts(len: nat)
    ensures 8 * len == len / 0x2000_0000 * WORD32 + len * 8 % WORD32
    ensures len < 0x2000_0000 <==> len / 0x2000_0000 == 0
  {
  }

  /** One more piece, of any length. */
  lemma CountAdvances(c: Count, bytes: nat, lost: nat, len: nat)
    requires Counts(c, bytes, lost)
    ensures Counts(Advanced(c, len), bytes + len, lost + Dropped(c.low, len))
  {
    LengthParts(len);
    var q, low, drop := len / 0x2000_0000, len * 8 % WORD32, Dropped(c.low, len);
    var sum, d := c.low + low, Advanced(c, len);
    OneWrap(sum);
    assert d.low == sum % WORD32 && (d.low < c.low <==> sum >= WORD32);
    ModAdd(8 * bytes - lost * WORD32, 8 * len - drop * WORD32, WORD32 * WORD32);
    assert 8 * (bytes + len) - (lost + drop) * WORD32 == 8 * bytes - lost * WORD32 + (8 * len - drop * WORD32);
    assert c.high * WORD32 + c.low + (8 * len - drop * WORD32) == (c.high + (q - drop)) * WORD32 + sum;
    TwoWords(c.high + (q - drop), sum);
  }

  lemma OneWrap(sum: nat)
    requires sum < 2 * WORD32
    ensures sum % WORD32 == if sum < WORD32 then sum else sum - WORD32
  {
  }

  /** The length is right exactly if what was lost adds up to a multiple of 2^32. */
  lemma BitsRightIff(bytes: nat, lost: nat)
    ensures Bits(bytes, lost) == Bits(bytes, 0) <==> lost % WORD32 == 0
  {
    var k := lost / WORD32;
    var high, low := 8 * bytes / WORD32, 8 * bytes % WORD32;
    HighAndLow(high, low);
    HighAndLow(high - lost, low);
    assert 8 * bytes - lost * WORD32 == (high - lost) * WORD32 + low;
    if lost % WORD32 == 0 {
      assert high - lost == high + -k * WORD32;
      ModPlusMultiple(high, -k, WORD32);
    } else if (high - lost) % WORD32 == high % WORD32 {
      ModAdd(high - lost, lost, WORD32);
      ModAdd(high, lost, WORD32);
      ShiftedMod(high % WORD32, lost % WORD32, lost);
      assert false;
    }
  }

  lemma ShiftedMod(h: nat, r: nat, lost: nat)
    requires h < WORD32 && r == lost % WORD32 && (h + lost) % WORD32 == h
    ensures r == 0
  {
    ModPlusMultiple(h + r, lost / WORD32, WORD32);
    assert h + lost == h + r + lost / WORD32 * WORD32;
  }

  lemma HighAndLow(high: int, low: nat)
    requires low < WORD32
    ensures (high * WORD32 + low) % (WORD32 * WORD32) == high % WORD32 * WORD32 + low
  {
    DivModUnique(high / WORD32, WORD32 * WORD32, high % WORD32 * WORD32 + low);
    assert high * WORD32 + low == high / WORD32 * (WORD32 * WORD32) + (high % WORD32 * WORD32 + low);
  }

  /** The count stays right exactly if the piece is shorter than 2^29 bytes or the low word carries. */
  lemma CountStaysRightIff(c: Count, bytes: nat, len: nat)
    requires Counts(c, bytes, 0) && len < WORD32
    ensures Counts(Advanced(c, len), bytes + len, 0) <==> len < 0x2000_0000 || c.low + len * 8 % WORD32 >= WORD32
  {
    hide Bits;
    CountAdvances(c, bytes, 0, len);
    BitsRightIff(bytes + len, Dropped(c.low, len));
    LengthParts(len);
    assert Dropped(c.low, len) % WORD32 == 0 <==> Dropped(c.low, len) == 0;
  }

  /** A low part below two words, added to a high part, and what is kept of it. */
  lemma TwoWords(high: nat, sum: nat)
    requires sum < 2 * WORD32
    ensures (high * WORD32 + sum) % (WORD32 * WORD32)
         == (if sum < WORD32 then high % WORD32 else (high + 1) % WORD32) * WORD32 + sum % WORD32
  {
    OneWrap(sum);
    if sum < WORD32 {
      HighAndLow(high, sum);
    } else {
      HighAndLow(high + 1, sum - WORD32);
    }
  }

  // ---- blocks of a stream ----

  lemma NextBlock(all: seq<Byte>, p: nat)
    requires p % 64 == 0 && p + 64 <= |all|
    ensures CompressAll(INITIAL, all[..p + 64]) == Compress(CompressAll(INITIAL, all[..p]), all[p..p + 64])
  {
    var block := all[p..p + 64];
    assert all[..p + 64] == all[..p] + block;
    CompressAllAdd(INITIAL, all[..p], block);
    assert block[..64] == block && block[64..] == [];
  }

  class Context {
    const state: array<Word>
    const buffer: array<Byte>
    var count: Count
    ghost var seen: seq<Byte>

    /** All whole blocks seen are compressed, the rest is in the buffer. */
    ghost predicate Valid()
      reads this, state, buffer
    {
      && state.Length == 5 && buffer.Length == 64
      && StateOf(state) == Compressed(seen) && buffer[..|seen| % 64] == Tail(seen)
      && count.low < WORD32 && count.low % 8 == 0 && count.low / 8 % 64 == |seen| % 64
    }

    ghost function Repr(): set<object> {
      {this, state, buffer}
    }

    /** SHA1Init */
    constructor ()
      ensures Valid() && fresh(state) && fresh(buffer) && seen == [] && count == Count(0, 0)
    {
      state := new Word[] [0x67452301, 0xEFCDAB89, 0x98BADCFE, 0x10325476, 0xC3D2E1F0];
      buffer := new Byte[64];
      count := Count(0, 0);
      seen := [];
    }

    /** memcpy into the buffer */
    method Fill(at: nat, data: seq<Byte>)
      requires buffer.Length == 64 && at + |data| <= 64
      modifies buffer
      ensures buffer[..] == Overlaid(old(buffer[..]), at, data)
    {
      var k := 0;
      while k < |data|
        invariant 0 <= k <= |data|
        invariant forall x :: 0 <= x < 64 ==> buffer[x] == if at <= x < at + k then data[x - at] else old(buffer[x])
      {
        buffer[at + k] := data[k];
        k := k + 1;
      }
    }

    /** The whole blocks of data from i on. */
    method Blocks(data: seq<Byte>, from: nat, ghost all: seq<Byte>, ghost before: nat) returns (i: nat)
      requires state.Length == 5 && from <= |data| && before + |data| == |all| && all[before..] == data
      requires (before + from) % 64 == 0 && StateOf(state) == CompressAll(INITIAL, all[..before + from])
      modifies state
      ensures from <= i <= |data| && |data| - i < 64 && (before + i) % 64 == 0
      ensures StateOf(state) == CompressAll(INITIAL, all[..before + i])
    {
      hide Compress, CompressAll, StateOf;
      i := from;
      while i + 63 < |data|
        invariant from <= i <= |data| && (before + i) % 64 == 0
        invariant StateOf(state) == CompressAll(INITIAL, all[..before + i])
      {
        NextBlock(all, before + i);
        assert data[i..i + 64] == all[before + i..before + i + 64];
        SHA1Transform(state, data[i..i + 64]);
        i := i + 64;
      }
    }

    /** SHA1Update; a piece so long that j + len wraps around would overrun the buffer. */
    method Update(data: seq<Byte>)
      requires Valid() && |seen| % 64 + |data| < WORD32
      modifies this, state, buffer
      ensures Valid() && seen == old(seen) + data && count == Advanced(old(count), |data|)
    {
      hide CompressAll, Compressed, StateOf, Advanced, Tail, Overlaid, Bits;
      ghost var all := seen + data;
      var len := |data|;
      var j := count.low / 8 % 64;
      CountMoves(count, |seen|, len);
      count := Advanced(count, len);
      if j + len > 63 {
        var i := FinishBlock(j, data);
        i := Blocks(data, i, all, |seen|);
        FilledFresh(buffer[..], all, |seen| + i);
        Behind(seen, data, i);
        Fill(0, data[i..]);
      } else {
        FilledFurther(buffer[..], seen, data);
        Fill(j, data);
      }
      seen := seen + data;
    }

    /** Completes the block begun in the buffer. */
    method FinishBlock(j: nat, data: seq<Byte>) returns (i: nat)
      requires state.Length == 5 && buffer.Length == 64
      requires j == |seen| % 64 && j + |data| > 63
      requires StateOf(state) == Compressed(seen) && buffer[..j] == Tail(seen)
      modifies state, buffer
      ensures i == 64 - j && StateOf(state) == CompressAll(INITIAL, (seen + data)[..|seen| + i])
    {
      hide Compress, CompressAll, StateOf;
      i := 64 - j;
      ghost var all := seen + data;
      assert Tail(seen) == all[|seen| - j..|seen|] && data[..i] == all[|seen|..|seen| + i];
      assert Overlaid(buffer[..], j, data[..i]) == all[|seen| - j..|seen| - j + 64];
      Fill(j, data[..i]);
      assert all[..|seen| - j] == seen[..|seen| - j];
      NextBlock(all, |seen| - j);
      SHA1Transform(state, buffer[..]);
    }

    /** finalcount: the count, most significant byte first. */
    method CountBytes() returns (bytes: seq<Byte>)
      requires count.low < WORD32 && count.high < WORD32
      ensures bytes == BytesOf(count.high * WORD32 + count.low, 8)
    {
      var c := count;
      var b := new Byte[8];
      var i := 0;
      while i < 8
        invariant 0 <= i <= 8
        invariant forall k :: 0 <= k < i ==> b[k] == ByteOfCount(c, k)
      {
        b[i] := ByteOfCount(c, i);
        i := i + 1;
      }
      EightBytes(c);
      assert b[..] == BytesOf(c.high * WORD32 + c.low, 8);
      return b[..];
    }

    /** The padding loop of SHA1Final: zeros until eight bytes are missing from the block. */
    method PadZeros(ghost n: nat)
      requires Valid() && |seen| == n + 1
      modifies this, state, buffer
      ensures Valid() && seen == old(seen) + Copies<Byte>(0, PadLength(n))
    {
      hide CompressAll, Compressed, StateOf, Advanced, Tail;
      ghost var z := 0;
      assert Copies<Byte>(0, 0) == [];
      while count.low / 8 % 64 * 8 != 448
        invariant Valid() && z <= PadLength(n) && seen == old(seen) + Copies<Byte>(0, z)
        decreases PadLength(n) - z
      {
        PadMore(n, z);
        Update([0]);
        assert Copies<Byte>(0, z) + [0] == Copies<Byte>(0, z + 1);
        z := z + 1;
      }
      PadMore(n, z);
    }

    /** SHA1Final: the digest of all that was seen, with the length as it was counted. */
    method Final() returns (digest: seq<Byte>)
      requires Valid() && count.high < WORD32
      modifies this, state, buffer
      ensures digest == HashWith(old(seen), old(count.high) * WORD32 + old(count.low))
    {
      hide CompressAll, Compressed, StateOf, Advanced, Tail, BytesOf, PaddingWith, Copies;
      ghost var n, bits := |seen|, count.high * WORD32 + count.low;
      var finalCount := CountBytes();
      Update([0x80]);
      PadZeros(n);
      Update(finalCount);
      PaddingParts(old(seen), bits);
      Padded(old(seen), bits);
      digest := Digest();
    }

    /** The loop that writes out the state. */
    method Digest() returns (digest: seq<Byte>)
      requires state.Length == 5
      ensures digest == DigestOf(StateOf(state))
    {
      hide WordByte;
      var d := new Byte[20];
      var i := 0;
      while i < 20
        invariant 0 <= i <= 20
        invariant forall k :: 0 <= k < i ==> d[k] == WordByte(state[k / 4], k % 4)
      {
        d[i] := WordByte(state[i / 4], i % 4);
        i := i + 1;
      }
      assert d[..] == DigestOf(StateOf(state));
      return d[..];
    }
  }

  lemma Behind(a: seq<Byte>, b: seq<Byte>, i: nat)
    requires i <= |b|
    ensures b[i..] == (a + b)[|a| + i..]
  {
  }

  /** How much of n bytes is whole blocks. */
  function Whole(n: nat): (w: nat)
    ensures w <= n < w + 64 && w % 64 == 0
  {
    n - n % 64
  }

  /** What is not yet a whole block. */
  ghost function Tail(seen: seq<Byte>): seq<Byte> {
    seen[Whole(|seen|)..]
  }

  ghost function Compressed(seen: seq<Byte>): Hash {
    CompressAll(INITIAL, seen[..Whole(|seen|)])
  }

  lemma FilledFresh(buf: seq<Byte>, all: seq<Byte>, p: nat)
    requires |buf| == 64 && p <= |all| < p + 64 && p % 64 == 0
    ensures Compressed(all) == CompressAll(INITIAL, all[..p])
    ensures Overlaid(buf, 0, all[p..])[..|all| % 64] == Tail(all)
  {
  }

  lemma FilledFurther(buf: seq<Byte>, seen: seq<Byte>, data: seq<Byte>)
    requires |buf| == 64 && |seen| % 64 + |data| <= 63 && buf[..|seen| % 64] == Tail(seen)
    ensures var all, j := seen + data, |seen| % 64;
      && Compressed(all) == Compressed(seen)
      && Overlaid(buf, j, data)[..|all| % 64] == Tail(all)
  {
    var all, j := seen + data, |seen| % 64;
    assert Tail(all) == Tail(seen) + data;
    assert all[..|seen| - j] == seen[..|seen| - j];
  }

  lemma CountMoves(c: Count, bytes: nat, len: nat)
    requires c.low < WORD32 && c.low % 8 == 0 && c.low / 8 % 64 == bytes % 64
    ensures var d := Advanced(c, len); d.low < WORD32 && d.low % 8 == 0 && d.low / 8 % 64 == (bytes + len) % 64
  {
    var b, rest := c.low / 8, len % 0x2000_0000;
    var s := if b + rest < 0x2000_0000 then b + rest else b + rest - 0x2000_0000;
    LowOctets(c, len, b, rest, s);
    SameMod64(s, b + len, bytes, len);
  }

  lemma LowOctets(c: Count, len: nat, b: nat, rest: nat, s: nat)
    requires c.low < WORD32 && c.low == 8 * b && rest == len % 0x2000_0000
    requires s == if b + rest < 0x2000_0000 then b + rest else b + rest - 0x2000_0000
    ensures Advanced(c, len).low == 8 * s
  {
    LengthParts(len);
  }

  lemma SameMod64(s: nat, t: nat, bytes: nat, len: nat)
    requires (t - s) % 0x2000_0000 == 0 && (t - len) % 64 == bytes % 64
    ensures s % 64 == (bytes + len) % 64
  {
  }

  // ---- the end of the message ----

  /** (count >> ((3 - (i & 3)) * 8)) & 255, of the high word first. */
  function ByteOfCount(c: Count, i: nat): Byte
    requires i < 8
  {
    var w := if i >= 4 then c.low else c.high;
    Low(w / Scale(i % 4))
  }

  function Scale(i: nat): Positive
    requires i < 4
  {
    if i == 0 then 0x100_0000 else if i == 1 then 0x1_0000 else if i == 2 then 0x100 else 1
  }

  lemma BytesOfAdd(high: nat, low: nat, k: nat)
    requires low < WORD32
    ensures BytesOf(high * WORD32 + low, k + 4) == BytesOf(high, k) + BytesOf(low, 4)
  {
    hide Low;
    var n := high * WORD32 + low;
    SameLow(n, low, high * 0x100_0000);
    DropByte(high * 0x100_0000, low);
    SameLow(n / 256, low / 256, high * 0x1_0000);
    DropByte(high * 0x1_0000, low / 256);
    SameLow(n / 256 / 256, low / 256 / 256, high * 256);
    DropByte(high * 256, low / 256 / 256);
    SameLow(n / 256 / 256 / 256, low / 256 / 256 / 256, high);
    DropByte(high, low / 256 / 256 / 256);
    FourBytes(n, k);
    FourBytes(low, 0);
    assert BytesOf(low / 256 / 256 / 256 / 256, 0) == [];
  }

  lemma DropByte(q: nat, n: nat)
    ensures (q * 256 + n) / 256 == q + n / 256
  {
  }

  lemma SameLow(n: nat, m: nat, q: nat)
    requires n == q * 256 + m
    ensures Low(n) == Low(m)
  {
    hide ByteFor;
    assert n % 256 == m % 256;
  }

  lemma FourBytes(n: nat, k: nat)
    ensures BytesOf(n, k + 4) == BytesOf(n / 256 / 256 / 256 / 256, k)
      + [Low(n / 256 / 256 / 256), Low(n / 256 / 256), Low(n / 256), Low(n)]
  {
    hide Low;
    assert BytesOf(n, k + 4) == BytesOf(n / 256, k + 3) + [Low(n)];
    assert BytesOf(n / 256, k + 3) == BytesOf(n / 256 / 256, k + 2) + [Low(n / 256)];
    assert BytesOf(n / 256 / 256, k + 2) == BytesOf(n / 256 / 256 / 256, k + 1) + [Low(n / 256 / 256)];
    assert BytesOf(n / 256 / 256 / 256, k + 1) == BytesOf(n / 256 / 256 / 256 / 256, k) + [Low(n / 256 / 256 / 256)];
  }

  lemma EightBytes(c: Count)
    requires c.low < WORD32 && c.high < WORD32
    ensures BytesOf(c.high * WORD32 + c.low, 8) == seq(8, i requires 0 <= i < 8 => ByteOfCount(c, i))
  {
    hide Low, BytesOf;
    BytesOfAdd(c.high, c.low, 4);
    WordOfBytes(c.high);
    WordOfBytes(c.low);
  }

  lemma WordOfBytes(w: nat)
    ensures BytesOf(w, 4) == [Low(w / 0x100_0000), Low(w / 0x1_0000), Low(w / 0x100), Low(w / 1)]
  {
    hide Low;
    FourBytes(w, 0);
    ScaledDown(w);
    assert BytesOf(w / 256 / 256 / 256 / 256, 0) == [];
  }

  lemma ScaledDown(w: nat)
    ensures w / 0x100_0000 == w / 256 / 256 / 256 && w / 0x1_0000 == w / 256 / 256
  {
  }

  /** The length field holds the length in bits, to 64 bits. */
  lemma BytesOfBits(n: nat)
    ensures BytesOf(Bits(n, 0), 8) == BytesOf(8 * n, 8)
  {
    hide BytesOf;
    var k, bits := 8 * n / (WORD32 * WORD32), Bits(n, 0);
    var high, low := bits / WORD32, bits % WORD32;
    ThreeWords(8 * n, high, low);
    BytesOfAdd(k * WORD32 + high, low, 4);
    BytesOfAdd(high, low, 4);
    BytesOfAdd(k, high, 0);
  }

  lemma ThreeWords(m: nat, high: nat, low: nat)
    requires m % (WORD32 * WORD32) == high * WORD32 + low
    ensures m == (m / (WORD32 * WORD32) * WORD32 + high) * WORD32 + low
  {
  }

  lemma PadMore(n: nat, z: nat)
    requires z <= PadLength(n)
    ensures (n + 1 + z) % 64 == 56 <==> z == PadLength(n)
  {
  }

  /** Section 4, but with a given number in the length field. */
  function PaddingWith(n: nat, bits: nat): (p: seq<Byte>)
    ensures (n + |p|) % 64 == 0
  {
    [0x80] + Copies<Byte>(0, PadLength(n)) + BytesOf(bits, 8)
  }

  function HashWith(message: seq<Byte>, bits: nat): seq<Byte> {
    DigestOf(CompressAll(INITIAL, message + PaddingWith(|message|, bits)))
  }

  /** With the right length that is the standard's digest. */
  lemma RightLength(message: seq<Byte>)
    ensures HashWith(message, Bits(|message|, 0)) == Sha1(message)
  {
    hide BytesOf, CompressAll, DigestOf, Bits;
    BytesOfBits(|message|);
  }

  lemma Padded(message: seq<Byte>, bits: nat)
    ensures DigestOf(Compressed(message + PaddingWith(|message|, bits))) == HashWith(message, bits)
  {
    hide DigestOf, CompressAll, PaddingWith;
    AllWhole(message + PaddingWith(|message|, bits));
  }

  lemma PaddingParts(message: seq<Byte>, bits: nat)
    ensures message + [0x80] + Copies<Byte>(0, PadLength(|message|)) + BytesOf(bits, 8) == message + PaddingWith(|message|, bits)
  {
    Grouped(message, [0x80], Copies<Byte>(0, PadLength(|message|)), BytesOf(bits, 8));
  }

  lemma AllWhole(all: seq<Byte>)
    requires |all| % 64 == 0
    ensures Compressed(all) == CompressAll(INITIAL, all)
  {
    hide CompressAll;
    assert all[..|all|] == all;
  }

  lemma Grouped(a: seq<Byte>, b: seq<Byte>, c: seq<Byte>, d: seq<Byte>)
    ensures a + b + c + d == a + (b + c + d)
  {
  }

  // ---- a whole message, in pieces ----

  function Joined(pieces: seq<seq<Byte>>): seq<Byte> {
    if pieces == [] then [] else pieces[0] + Joined(pieces[1..])
  }

  /** No piece makes the sum of its length and what is in the buffer wrap around. */
  predicate Fitting(n: nat, pieces: seq<seq<Byte>>)
    decreases |pieces|
  {
    pieces == [] || (n % 64 + |pieces[0]| < WORD32 && Fitting(n + |pieces[0]|, pieces[1..]))
  }

  /** What the pieces fail to add to the high word, one after the other. */
  function DroppedBy(low: nat, pieces: seq<seq<Byte>>): nat
    decreases |pieces|
  {
    if pieces == [] then 0
    else Dropped(low, |pieces[0]|) + DroppedBy((low + |pieces[0]| * 8 % WORD32) % WORD32, pieces[1..])
  }

  /** Pieces below 2^29 bytes fit, and nothing of them is lost. */
  lemma {:induction false} ShortPieces(n: nat, low: nat, pieces: seq<seq<Byte>>)
    requires forall i :: 0 <= i < |pieces| ==> |pieces[i]| < 0x2000_0000
    ensures Fitting(n, pieces) && DroppedBy(low, pieces) == 0
    decreases |pieces|
  {
    if pieces != [] {
      LengthParts(|pieces[0]|);
      ShortPieces(n + |pieces[0]|, (low + |pieces[0]| * 8 % WORD32) % WORD32, pieces[1..]);
    }
  }

  /** A first piece of 2^29 bytes is lost from the length, whatever comes in short pieces after it. */
  lemma LongPieceLost(pieces: seq<seq<Byte>>)
    requires |pieces| > 0 && |pieces[0]| == 0x2000_0000
    requires forall i :: 1 <= i < |pieces| ==> |pieces[i]| < 0x2000_0000
    ensures Fitting(0, pieces) && DroppedBy(0, pieces) == 1
    ensures Bits(|Joined(pieces)|, DroppedBy(0, pieces)) != Bits(|Joined(pieces)|, 0)
  {
    hide Bits;
    assert forall i :: 0 <= i < |pieces[1..]| ==> pieces[1..][i] == pieces[i + 1];
    ShortPieces(0x2000_0000, 0, pieces[1..]);
    BitsRightIff(|Joined(pieces)|, 1);
  }

  /**
   Any message, cut up in any way that does not overrun the buffer: the digest is that of the message as
   a whole, with the length the count came to; it is the standard's if what was lost is a multiple of 2^32.
   */
  method HashInPieces(pieces: seq<seq<Byte>>) returns (digest: seq<Byte>)
    requires Fitting(0, pieces)
    ensures digest == HashWith(Joined(pieces), Bits(|Joined(pieces)|, DroppedBy(0, pieces)))
    ensures DroppedBy(0, pieces) % WORD32 == 0 ==> digest == Sha1(Joined(pieces))
  {
    hide CompressAll, Compressed, StateOf, Tail, Sha1, HashWith, Bits, Dropped, Advanced, Joined, Fitting, DroppedBy;
    var ctx := new Context();
    var i := 0;
    assert pieces[0..] == pieces;
    ghost var lost: nat := 0;
    NothingCounted();
    while i < |pieces|
      invariant 0 <= i <= |pieces|
      invariant ctx.Valid() && Counts(ctx.count, |ctx.seen|, lost)
      invariant fresh(ctx) && fresh(ctx.state) && fresh(ctx.buffer)
      invariant ctx.seen + Joined(pieces[i..]) == Joined(pieces)
      invariant Fitting(|ctx.seen|, pieces[i..]) && lost + DroppedBy(ctx.count.low, pieces[i..]) == DroppedBy(0, pieces)
    {
      assert pieces[i..][0] == pieces[i] && pieces[i..][1..] == pieces[i + 1..];
      NextPiece(ctx.count, ctx.seen, pieces[i..]);
      CountAdvances(ctx.count, |ctx.seen|, lost, |pieces[i]|);
      lost := lost + Dropped(ctx.count.low, |pieces[i]|);
      ctx.Update(pieces[i]);
      i := i + 1;
    }
    NoneLeft(ctx.count.low, pieces[i..]);
    assert ctx.seen == Joined(pieces);
    BitsRightIff(|ctx.seen|, lost);
    RightLength(ctx.seen);
    digest := ctx.Final();
  }

  lemma NextPiece(c: Count, seen: seq<Byte>, rest: seq<seq<Byte>>)
    requires rest != [] && Fitting(|seen|, rest)
    ensures |seen| % 64 + |rest[0]| < WORD32 && Fitting(|seen + rest[0]|, rest[1..])
    ensures DroppedBy(c.low, rest) == Dropped(c.low, |rest[0]|) + DroppedBy(Advanced(c, |rest[0]|).low, rest[1..])
    ensures seen + Joined(rest) == seen + rest[0] + Joined(rest[1..])
  {
    hide Dropped;
    assert |seen + rest[0]| == |seen| + |rest[0]|;
    LowAfter(c, |rest[0]|);
  }

  lemma LowAfter(c: Count, len: nat)
    ensures Advanced(c, len).low == (c.low + len * 8 % WORD32) % WORD32
  {
  }

  lemma NoneLeft(low: nat, rest: seq<seq<Byte>>)
    requires rest == []
    ensures DroppedBy(low, rest) == 0 && Joined(rest) == []
  {
  }

  lemma NothingCounted()
    ensures Counts(Count(0, 0), 0, 0)
  {
  }
}
