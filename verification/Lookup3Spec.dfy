/** What the lookup3 hashes compute: three words of key at a time, stirred into three registers. */
module Lookup3Spec {
  import opened Arithmetic

  type Word = bv32
  type Byte = bv8

  /** Which byte of a word comes first: hashlittle() and hashbig() differ in nothing else. */
  datatype Order = Little | Big

  datatype Registers = Registers(a: Word, b: Word, c: Word)

  const SIZE_LIMIT := 0x1_0000_0000_0000_0000

  function Plus(x: Word, y: Word): Word {
    x + y
  }

  function Minus(x: Word, y: Word): Word {
    x - y
  }

  function Xor(x: Word, y: Word): Word {
    x ^ y
  }

  lemma SumLess(x: Word, y: Word)
    ensures Minus(x + y, y) == x
  {
  }

  lemma DifferenceMore(x: Word, y: Word)
    ensures Plus(x - y, y) == x
  {
  }

  lemma PlusUndone(x: Word, y: Word)
    ensures Minus(Plus(x, y), y) == x
  {
    hide Minus;
    SumLess(x, y);
  }

  lemma MinusUndone(x: Word, y: Word)
    ensures Plus(Minus(x, y), y) == x
  {
    hide Plus;
    DifferenceMore(x, y);
  }

  lemma PlusMinus(x: Word, y: Word)
    ensures Minus(Plus(x, y), y) == x
    ensures Plus(Minus(x, y), y) == x
  {
    hide Plus, Minus;
    PlusUndone(x, y);
    MinusUndone(x, y);
  }

  lemma PlusSwaps(x: Word, y: Word)
    ensures Plus(x, y) == Plus(y, x)
  {
  }

  lemma PlusZero(x: Word)
    ensures Plus(x, 0) == x
  {
  }

  lemma XorTwice(x: Word, y: Word)
    ensures Xor(Xor(x, y), y) == x
  {
  }

  function Rot(x: Word, k: bv6): Word
    requires 0 < k < 32
  {
    (x << k) | (x >> (32 - k))
  }

  function Bit(x: Word, i: bv6): Word
    requires i < 32
  {
    (x >> i) & 1
  }

  /** Bit i moves up by k places, and from the top on to the bottom. */
  lemma RotMovesBits(x: Word, k: bv6, i: bv6)
    requires 0 < k < 32 && i < 32
    ensures i + k < 32 ==> Bit(Rot(x, k), i + k) == Bit(x, i)
    ensures i + k >= 32 ==> Bit(Rot(x, k), i + k - 32) == Bit(x, i)
  {
    hide Bit;
    if i + k < 32 {
      UpBits(x, k, i);
    } else {
      RoundBits(x, k, i);
    }
  }

  lemma UpBits(x: Word, k: bv6, i: bv6)
    requires 0 < k < 32 && i < 32 && i + k < 32
    ensures Bit((x << k) | (x >> (32 - k)), i + k) == Bit(x, i)
  {
  }

  lemma RoundBits(x: Word, k: bv6, i: bv6)
    requires 0 < k < 32 && i < 32 && i + k >= 32
    ensures Bit((x << k) | (x >> (32 - k)), i + k - 32) == Bit(x, i)
  {
  }

  // ---- mix: one line of it, and the whole ----

  /** x -= z; x ^= rot(z, k); z += y: the new x and z. */
  function Stirred(x: Word, z: Word, y: Word, k: bv6): (Word, Word)
    requires 0 < k < 32
  {
    (Xor(Minus(x, z), Rot(z, k)), Plus(z, y))
  }

  function Unstirred(x: Word, z: Word, y: Word, k: bv6): (Word, Word)
    requires 0 < k < 32
  {
    (Plus(Xor(x, Rot(Minus(z, y), k)), Minus(z, y)), Minus(z, y))
  }

  function Mix(r: Registers): Registers {
    var a, b, c := r.a, r.b, r.c;
    var (a, c) := Stirred(a, c, b, 4);
    var (b, a) := Stirred(b, a, c, 6);
    var (c, b) := Stirred(c, b, a, 8);
    var (a, c) := Stirred(a, c, b, 16);
    var (b, a) := Stirred(b, a, c, 19);
    var (c, b) := Stirred(c, b, a, 4);
    Registers(a, b, c)
  }

  /** The lines of mix, taken back from the last to the first. */
  function Unmix(r: Registers): Registers {
    var a, b, c := r.a, r.b, r.c;
    var (c, b) := Unstirred(c, b, a, 4);
    var (b, a) := Unstirred(b, a, c, 19);
    var (a, c) := Unstirred(a, c, b, 16);
    var (c, b) := Unstirred(c, b, a, 8);
    var (b, a) := Unstirred(b, a, c, 6);
    var (a, c) := Unstirred(a, c, b, 4);
    Registers(a, b, c)
  }

  lemma StirBack(x: Word, z: Word, y: Word, k: bv6)
    requires 0 < k < 32
    ensures var (x1, z1) := Stirred(x, z, y, k); Unstirred(x1, z1, y, k) == (x, z)
    ensures var (x1, z1) := Unstirred(x, z, y, k); Stirred(x1, z1, y, k) == (x, z)
  {
    hide Rot, Plus, Minus, Xor;
    var w := Minus(z, y);
    PlusMinus(z, y);
    PlusMinus(x, z);
    PlusMinus(Xor(x, Rot(w, k)), w);
    XorTwice(Minus(x, z), Rot(z, k));
    XorTwice(x, Rot(w, k));
  }

  /** mix is a bijection: whatever was in the registers before is still there after. */
  lemma MixIsReversible(r: Registers)
    ensures Unmix(Mix(r)) == r
    ensures Mix(Unmix(r)) == r
  {
    hide Stirred, Unstirred;
    forall x: Word, z: Word, y: Word, k: bv6 | 0 < k < 32
      ensures Unstirred(Stirred(x, z, y, k).0, Stirred(x, z, y, k).1, y, k) == (x, z)
      ensures Stirred(Unstirred(x, z, y, k).0, Unstirred(x, z, y, k).1, y, k) == (x, z)
    {
      StirBack(x, z, y, k);
    }
  }

  // ---- final ----

  /** x ^= z; x -= rot(z, k) */
  function Crossed(x: Word, z: Word, k: bv6): Word
    requires 0 < k < 32
  {
    Minus(Xor(x, z), Rot(z, k))
  }

  function Uncrossed(x: Word, z: Word, k: bv6): Word
    requires 0 < k < 32
  {
    Xor(Plus(x, Rot(z, k)), z)
  }

  function Final(r: Registers): Registers {
    var a, b, c := r.a, r.b, r.c;
    var c := Crossed(c, b, 14);
    var a := Crossed(a, c, 11);
    var b := Crossed(b, a, 25);
    var c := Crossed(c, b, 16);
    var a := Crossed(a, c, 4);
    var b := Crossed(b, a, 14);
    var c := Crossed(c, b, 24);
    Registers(a, b, c)
  }

  function Unfinal(r: Registers): Registers {
    var a, b, c := r.a, r.b, r.c;
    var c := Uncrossed(c, b, 24);
    var b := Uncrossed(b, a, 14);
    var a := Uncrossed(a, c, 4);
    var c := Uncrossed(c, b, 16);
    var b := Uncrossed(b, a, 25);
    var a := Uncrossed(a, c, 11);
    var c := Uncrossed(c, b, 14);
    Registers(a, b, c)
  }

  lemma CrossBack(x: Word, z: Word, k: bv6)
    requires 0 < k < 32
    ensures Uncrossed(Crossed(x, z, k), z, k) == x
  {
    hide Rot, Plus, Minus, Xor;
    PlusMinus(Xor(x, z), Rot(z, k));
    XorTwice(x, z);
  }

  lemma FinalIsReversible(r: Registers)
    ensures Unfinal(Final(r)) == r
  {
    hide Crossed, Uncrossed;
    forall x: Word, z: Word, k: bv6 | 0 < k < 32
      ensures Uncrossed(Crossed(x, z, k), z, k) == x
    {
      CrossBack(x, z, k);
    }
  }

  // ---- the key, zero-padded to a whole block ----

  function Packed(w0: Word, w1: Word, w2: Word, w3: Word): Word {
    w0 | (w1 << 8) | (w2 << 16) | (w3 << 24)
  }

  function Wide(b: Byte): Word {
    b as Word
  }

  function WordOf(order: Order, b0: Byte, b1: Byte, b2: Byte, b3: Byte): Word {
    match order
    case Little => Packed(Wide(b0), Wide(b1), Wide(b2), Wide(b3))
    case Big => Packed(Wide(b3), Wide(b2), Wide(b1), Wide(b0))
  }

  function ByteAt(key: seq<Byte>, i: nat): Byte {
    if i < |key| then key[i] else 0
  }

  function WordAt(order: Order, key: seq<Byte>, i: nat): Word {
    WordOf(order, ByteAt(key, i), ByteAt(key, i + 1), ByteAt(key, i + 2), ByteAt(key, i + 3))
  }

  function Absorbed(r: Registers, x: Word, y: Word, z: Word): Registers {
    Registers(Plus(r.a, x), Plus(r.b, y), Plus(r.c, z))
  }

  function WithBlock(order: Order, r: Registers, key: seq<Byte>): Registers {
    Absorbed(r, WordAt(order, key, 0), WordAt(order, key, 4), WordAt(order, key, 8))
  }

  /** Every block but the last is mixed in; the last is finished off; no bytes, no mixing. */
  function Hashed(order: Order, r: Registers, key: seq<Byte>): Registers
    decreases |key|
  {
    if key == [] then r
    else if |key| <= 12 then Final(WithBlock(order, r, key))
    else Hashed(order, Mix(WithBlock(order, r, key[..12])), key[12..])
  }

  /** A sum of 32-bit numbers, wrapped. */
  function StartWord(sum: nat): Word {
    (sum % WORD32) as Word
  }

  /** The word whose value is the number's remainder. */
  lemma StartWordIs(n: nat, w: Word)
    requires n % WORD32 == w as nat
    ensures StartWord(n) == w
  {
    BackAgain(w);
  }

  lemma BackAgain(w: Word)
    ensures w as nat < WORD32 && (w as nat) as Word == w
  {
  }

  function AsNat(w: Word): nat {
    w as nat
  }

  /** The registers at the start, from a length in bytes and two seeds. */
  function Seeded(length: nat, primary: Word, secondary: Word): Registers {
    var s := StartWord(0xdeadbeef + length + AsNat(primary));
    Registers(s, s, Plus(s, secondary))
  }

  function Hash(order: Order, key: seq<Byte>, seed: Word): Word {
    Hashed(order, Seeded(|key|, seed, 0), key).c
  }

  // ---- nothing that was in the registers is lost ----

  lemma SameBlock(order: Order, r: Registers, s: Registers, key: seq<Byte>)
    requires WithBlock(order, r, key) == WithBlock(order, s, key)
    ensures r == s
  {
    hide WordAt, Plus, Minus;
    forall x: Word, y: Word
      ensures Minus(Plus(x, y), y) == x
    {
      PlusMinus(x, y);
    }
  }

  /** Two states that hash the same key to the same registers were the same state. */
  lemma {:induction false} StatesStayApart(order: Order, r: Registers, s: Registers, key: seq<Byte>)
    requires Hashed(order, r, key) == Hashed(order, s, key)
    ensures r == s
    decreases |key|
  {
    hide Mix, Final, Unmix, Unfinal, WordAt, Plus, Absorbed, WithBlock;
    if key == [] {
    } else if |key| <= 12 {
      FinalIsReversible(WithBlock(order, r, key));
      FinalIsReversible(WithBlock(order, s, key));
      SameBlock(order, r, s, key);
    } else {
      StatesStayApart(order, Mix(WithBlock(order, r, key[..12])), Mix(WithBlock(order, s, key[..12])), key[12..]);
      MixIsReversible(WithBlock(order, r, key[..12]));
      MixIsReversible(WithBlock(order, s, key[..12]));
      SameBlock(order, r, s, key[..12]);
    }
  }

  lemma ByteSmall(b: Byte)
    ensures Wide(b) <= 0xFF
  {
  }

  lemma NoByte()
    ensures Wide(0) == 0
  {
  }

  lemma SameByte(x: Byte, y: Byte)
    requires Wide(x) == Wide(y)
    ensures x == y
  {
  }

  lemma PackedApart(w0: Word, w1: Word, w2: Word, w3: Word, v0: Word, v1: Word, v2: Word, v3: Word)
    requires w0 <= 0xFF && w1 <= 0xFF && w2 <= 0xFF && w3 <= 0xFF
    requires v0 <= 0xFF && v1 <= 0xFF && v2 <= 0xFF && v3 <= 0xFF
    requires Packed(w0, w1, w2, w3) == Packed(v0, v1, v2, v3)
    ensures w0 == v0 && w1 == v1 && w2 == v2 && w3 == v3
  {
  }

  lemma WordsOfApart(order: Order, x0: Byte, x1: Byte, x2: Byte, x3: Byte, y0: Byte, y1: Byte, y2: Byte, y3: Byte)
    requires WordOf(order, x0, x1, x2, x3) == WordOf(order, y0, y1, y2, y3)
    ensures x0 == y0 && x1 == y1 && x2 == y2 && x3 == y3
  {
    hide Packed, Wide;
    ByteSmall(x0);
    ByteSmall(x1);
    ByteSmall(x2);
    ByteSmall(x3);
    ByteSmall(y0);
    ByteSmall(y1);
    ByteSmall(y2);
    ByteSmall(y3);
    if order.Little? {
      PackedApart(Wide(x0), Wide(x1), Wide(x2), Wide(x3), Wide(y0), Wide(y1), Wide(y2), Wide(y3));
    } else {
      PackedApart(Wide(x3), Wide(x2), Wide(x1), Wide(x0), Wide(y3), Wide(y2), Wide(y1), Wide(y0));
    }
    SameByte(x0, y0);
    SameByte(x1, y1);
    SameByte(x2, y2);
    SameByte(x3, y3);
  }

  lemma WordsApart(order: Order, x: seq<Byte>, y: seq<Byte>, i: nat)
    requires WordAt(order, x, i) == WordAt(order, y, i)
    ensures forall j :: i <= j < i + 4 ==> ByteAt(x, j) == ByteAt(y, j)
  {
    hide WordOf, ByteAt;
    WordsOfApart(order, ByteAt(x, i), ByteAt(x, i + 1), ByteAt(x, i + 2), ByteAt(x, i + 3),
                 ByteAt(y, i), ByteAt(y, i + 1), ByteAt(y, i + 2), ByteAt(y, i + 3));
  }

  lemma BlocksApart(order: Order, r: Registers, x: seq<Byte>, y: seq<Byte>)
    requires |x| == |y| <= 12
    requires WithBlock(order, r, x) == WithBlock(order, r, y)
    ensures x == y
  {
    hide WordAt, Plus;
    Cancel(r.a, WordAt(order, x, 0), WordAt(order, y, 0));
    Cancel(r.b, WordAt(order, x, 4), WordAt(order, y, 4));
    Cancel(r.c, WordAt(order, x, 8), WordAt(order, y, 8));
    WordsApart(order, x, y, 0);
    WordsApart(order, x, y, 4);
    WordsApart(order, x, y, 8);
    forall j | 0 <= j < |x|
      ensures x[j] == y[j]
    {
      assert ByteAt(x, j) == ByteAt(y, j);
    }
  }

  lemma Cancel(r: Word, x: Word, y: Word)
    requires Plus(r, x) == Plus(r, y)
    ensures x == y
  {
    hide Plus, Minus;
    PlusSwaps(r, x);
    PlusSwaps(r, y);
    PlusMinus(x, r);
    PlusMinus(y, r);
  }

  /**
   * Two keys of one length that differ in one block only leave different registers, wherever that
   * block is: no collision is built before the registers are cut down to c.
   */
  lemma {:induction false} OneBlockApart(order: Order, r: Registers, x: seq<Byte>, y: seq<Byte>, block: nat)
    requires |x| == |y| && x != y
    requires forall j :: 0 <= j < |x| && j / 12 != block ==> x[j] == y[j]
    ensures Hashed(order, r, x) != Hashed(order, r, y)
    decreases |x|
  {
    hide Mix, Final, Unmix, Unfinal, WordAt, Plus, Absorbed, WithBlock;
    if |x| <= 12 {
      FinalIsReversible(WithBlock(order, r, x));
      FinalIsReversible(WithBlock(order, r, y));
      if Hashed(order, r, x) == Hashed(order, r, y) {
        BlocksApart(order, r, x, y);
      }
    } else if block == 0 {
      forall j | 12 <= j < |x|
        ensures x[j] == y[j]
      {
        assert j / 12 != 0;
      }
      assert x[12..] == y[12..];
      assert x == x[..12] + x[12..] && y == y[..12] + y[12..];
      var r1, r2 := WithBlock(order, r, x[..12]), WithBlock(order, r, y[..12]);
      if Hashed(order, r, x) == Hashed(order, r, y) {
        StatesStayApart(order, Mix(r1), Mix(r2), x[12..]);
        MixIsReversible(r1);
        MixIsReversible(r2);
        BlocksApart(order, r, x[..12], y[..12]);
      }
    } else {
      assert x[..12] == y[..12] by {
        forall j | 0 <= j < 12
          ensures x[j] == y[j]
        {
          assert j / 12 == 0;
        }
      }
      assert x == x[..12] + x[12..] && y == y[..12] + y[12..];
      forall j | 0 <= j < |x[12..]| && j / 12 != block - 1
        ensures x[12..][j] == y[12..][j]
      {
        assert (j + 12) / 12 == j / 12 + 1;
        assert x[j + 12] == y[j + 12];
      }
      OneBlockApart(order, Mix(WithBlock(order, r, x[..12])), x[12..], y[12..], block - 1);
    }
  }
}
