/** SHA-1 as FIPS PUB 180-1 defines it: padding (section 4), functions and constants (5, 6), method 1 (7). */
module Sha1Spec {
  import opened Sequences

  type Word = bv32
  type Byte = bv8

  function Rol(x: Word, n: bv6): Word
    requires n <= 32
  {
    (x << n) | (x >> (32 - n))
  }

  function Ch(b: Word, c: Word, d: Word): Word {
    (b & c) | (!b & d)
  }

  function Parity(b: Word, c: Word, d: Word): Word {
    b ^ c ^ d
  }

  function Maj(b: Word, c: Word, d: Word): Word {
    (b & c) | (b & d) | (c & d)
  }

  /** Section 5. */
  function F(t: nat, b: Word, c: Word, d: Word): Word {
    if t < 20 then Ch(b, c, d) else if t < 40 then Parity(b, c, d) else if t < 60 then Maj(b, c, d) else Parity(b, c, d)
  }

  /** Section 6. */
  function K(t: nat): Word {
    if t < 20 then 0x5A827999 else if t < 40 then 0x6ED9EBA1 else if t < 60 then 0x8F1BBCDC else 0xCA62C1D6
  }

  /** Each constant is the square root of 2, 3, 5 or 10, times 2^30 and rounded down. */
  lemma ConstantsAreRoots(t: nat)
    ensures var n := if t < 20 then 2 else if t < 40 then 3 else if t < 60 then 5 else 10;
      var k := K(t) as int;
      k * k <= n * 0x1000_0000_0000_0000 < (k + 1) * (k + 1)
  {
  }

  datatype Hash = Hash(a: Word, b: Word, c: Word, d: Word, e: Word)

  const INITIAL := Hash(0x67452301, 0xEFCDAB89, 0x98BADCFE, 0x10325476, 0xC3D2E1F0)

  /** Section 7, steps a and b: the sequence W, first 16 words the block's. */
  function W(m: seq<Word>, t: nat): Word
    requires |m| == 16
  {
    if t < 16 then m[t] else Expand(W(m, t - 3), W(m, t - 8), W(m, t - 14), W(m, t - 16))
  }

  function Expand(w3: Word, w8: Word, w14: Word, w16: Word): Word {
    Rol(w3 ^ w8 ^ w14 ^ w16, 1)
  }

  function Temp(a5: Word, f: Word, e: Word, w: Word, k: Word): Word {
    a5 + f + e + w + k
  }

  /** Step d. */
  function Round(h: Hash, t: nat, w: Word): Hash {
    Hash(Temp(Rol(h.a, 5), F(t, h.b, h.c, h.d), h.e, w, K(t)), h.a, Rol(h.b, 30), h.c, h.d)
  }

  function Rounds(h: Hash, m: seq<Word>, t: nat): Hash
    requires |m| == 16
  {
    if t == 0 then h else Round(Rounds(h, m, t - 1), t - 1, W(m, t - 1))
  }

  function Add(g: Hash, h: Hash): Hash {
    Hash(Plus(g.a, h.a), Plus(g.b, h.b), Plus(g.c, h.c), Plus(g.d, h.d), Plus(g.e, h.e))
  }

  function Plus(x: Word, y: Word): Word {
    x + y
  }

  /** Four bytes, the leftmost the most significant (section 2). */
  function BigEndian(b0: Byte, b1: Byte, b2: Byte, b3: Byte): Word {
    Packed(b0 as Word, b1 as Word, b2 as Word, b3 as Word)
  }

  function Packed(w0: Word, w1: Word, w2: Word, w3: Word): Word {
    (w0 << 24) | (w1 << 16) | (w2 << 8) | w3
  }

  function WordsOf(bytes: seq<Byte>): (m: seq<Word>)
    requires |bytes| == 64
    ensures |m| == 16
  {
    seq(16, i requires 0 <= i < 16 => BigEndian(bytes[4 * i], bytes[4 * i + 1], bytes[4 * i + 2], bytes[4 * i + 3]))
  }

  /** Section 7 on one block, steps c to e. */
  function Compress(h: Hash, block: seq<Byte>): Hash
    requires |block| == 64
  {
    Add(h, Rounds(h, WordsOf(block), 80))
  }

  function CompressAll(h: Hash, bytes: seq<Byte>): Hash
    requires |bytes| % 64 == 0
    decreases |bytes|
  {
    if bytes == [] then h else CompressAll(Compress(h, bytes[..64]), bytes[64..])
  }

  // ---- section 4 ----

  /** The bytes of n, of which there are k, most significant first; what does not fit is lost. */
  function BytesOf(n: nat, k: nat): (bs: seq<Byte>)
    ensures |bs| == k
  {
    if k == 0 then [] else BytesOf(n / 256, k - 1) + [Low(n)]
  }

  function Low(n: nat): Byte {
    ByteFor(n % 256)
  }

  function ByteFor(n: nat): Byte
    requires n < 256
  {
    n as Byte
  }

  /** How many zero bytes go between the single one bit and the length. */
  function PadLength(n: nat): (k: nat)
    ensures (n + 1 + k + 8) % 64 == 0 && k < 64
  {
    (119 - n % 64) % 64
  }

  function Padding(n: nat): (p: seq<Byte>)
    ensures (n + |p|) % 64 == 0
  {
    [0x80] + Copies<Byte>(0, PadLength(n)) + BytesOf(8 * n, 8)
  }

  /** Byte k of a word, counted from the left. */
  function WordByte(w: Word, k: nat): Byte
    requires k < 4
  {
    if k == 0 then (w >> 24) as Byte
    else if k == 1 then ((w >> 16) & 0xFF) as Byte
    else if k == 2 then ((w >> 8) & 0xFF) as Byte
    else (w & 0xFF) as Byte
  }

  /** Nothing is lost or moved. */
  lemma WordBytesJoin(w: Word)
    ensures BigEndian(WordByte(w, 0), WordByte(w, 1), WordByte(w, 2), WordByte(w, 3)) == w
  {
    BytesJoin(w);
  }

  lemma BytesJoin(w: Word)
    ensures ((w >> 24) << 24) | (((w >> 16) & 0xFF) << 16) | (((w >> 8) & 0xFF) << 8) | (w & 0xFF) == w
  {
  }

  function DigestOf(h: Hash): seq<Byte> {
    var words := [h.a, h.b, h.c, h.d, h.e];
    seq(20, i requires 0 <= i < 20 => WordByte(words[i / 4], i % 4))
  }

  function Sha1(message: seq<Byte>): seq<Byte> {
    DigestOf(CompressAll(INITIAL, message + Padding(|message|)))
  }

  lemma {:induction false} CompressAllAdd(h: Hash, a: seq<Byte>, b: seq<Byte>)
    requires |a| % 64 == 0 && |b| % 64 == 0
    ensures CompressAll(h, a + b) == CompressAll(CompressAll(h, a), b)
    decreases |a|
  {
    if a == [] {
      assert a + b == b;
    } else {
      assert (a + b)[..64] == a[..64] && (a + b)[64..] == a[64..] + b;
      CompressAllAdd(Compress(h, a[..64]), a[64..], b);
    }
  }
}
