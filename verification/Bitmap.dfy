/** A block group's allocation bitmap: bytes in memory, read as a sequence of bits. */
module Bitmap {
  /** 1 << i in a byte. */
  function Mask(i: nat): (m: bv8)
    requires i < 8
    ensures m != 0
  {
    if i == 0 then 1 else if i == 1 then 2 else if i == 2 then 4 else if i == 3 then 8
    else if i == 4 then 16 else if i == 5 then 32 else if i == 6 then 64 else 128
  }

  function Bit(b: bv8, i: nat): bool
    requires i < 8
  {
    b & Mask(i) != 0
  }

  lemma BitOfOr(b: bv8, i: nat, j: nat)
    requires i < 8 && j < 8
    ensures Bit(b | Mask(i), j) == (i == j || Bit(b, j))
  {
    hide Mask, Bit;
    if i == j {
      SameBitOfOr(b, i);
    } else {
      OtherBitOfOr(b, i, j);
    }
  }

  lemma SameBitOfOr(b: bv8, i: nat)
    requires i < 8
    ensures Bit(b | Mask(i), i)
  {
    hide Mask;
    OrAndSelf(b, Mask(i));
  }

  lemma OtherBitOfOr(b: bv8, i: nat, j: nat)
    requires i < 8 && j < 8 && i != j
    ensures Bit(b | Mask(i), j) == Bit(b, j)
  {
    hide Mask;
    DistinctMasks(i, j);
    OrAndOther(b, Mask(i), Mask(j));
  }

  lemma BitOfAndNot(b: bv8, i: nat, j: nat)
    requires i < 8 && j < 8
    ensures Bit(b & !Mask(i), j) == (i != j && Bit(b, j))
  {
    if i == j {
      AndNotSelf(b, Mask(i));
    } else {
      DistinctMasks(i, j);
      AndNotOther(b, Mask(i), Mask(j));
    }
  }

  lemma DistinctMasks(i: nat, j: nat)
    requires i < 8 && j < 8 && i != j
    ensures Mask(i) & Mask(j) == 0
  {
  }

  lemma OrAndSelf(b: bv8, m: bv8)
    requires m != 0
    ensures (b | m) & m != 0
  {
  }

  lemma OrAndOther(b: bv8, m: bv8, n: bv8)
    requires m & n == 0
    ensures (b | m) & n == b & n
  {
  }

  lemma AndNotSelf(b: bv8, m: bv8)
    ensures (b & !m) & m == 0
  {
  }

  lemma AndNotOther(b: bv8, m: bv8, n: bv8)
    requires m & n == 0
    ensures (b & !m) & n == b & n
  {
  }

  /** A byte is zero exactly when none of its bits is set. */
  lemma ZeroByte(b: bv8)
    ensures b == 0 <==> forall i :: 0 <= i < 8 ==> !Bit(b, i)
  {
    if b != 0 {
      SomeBit(b);
      assert Bit(b, 0) || Bit(b, 1) || Bit(b, 2) || Bit(b, 3) || Bit(b, 4) || Bit(b, 5) || Bit(b, 6) || Bit(b, 7);
    }
  }

  lemma SomeBit(b: bv8)
    requires b != 0
    ensures b & 1 != 0 || b & 2 != 0 || b & 4 != 0 || b & 8 != 0 || b & 16 != 0 || b & 32 != 0 || b & 64 != 0 || b & 128 != 0
  {
  }

  ghost function BitsOf(bytes: seq<bv8>): (bits: seq<bool>)
    ensures |bits| == 8 * |bytes|
  {
    seq(8 * |bytes|, k requires 0 <= k < 8 * |bytes| => Bit(bytes[k / 8], k % 8))
  }

  lemma BitAt(bytes: seq<bv8>, k: nat)
    requires k < 8 * |bytes|
    ensures BitsOf(bytes)[k] == Bit(bytes[k / 8], k % 8)
  {
  }

  /** The bits with those of [lo, lo + n) made v. */
  ghost function Painted(bits: seq<bool>, lo: nat, n: nat, v: bool): (r: seq<bool>)
    ensures |r| == |bits|
  {
    seq(|bits|, k requires 0 <= k < |bits| => if lo <= k < lo + n then v else bits[k])
  }

  ghost predicate Clear(bits: seq<bool>, lo: nat, n: nat) {
    lo + n <= |bits| && forall k :: lo <= k < lo + n ==> !bits[k]
  }

  lemma SameBit(k: nat, bit: nat)
    ensures k / 8 == bit / 8 ==> (k == bit <==> k % 8 == bit % 8)
  {
  }

  lemma SetOne(bytes: seq<bv8>, bit: nat)
    requires bit < 8 * |bytes|
    ensures BitsOf(bytes[bit / 8 := bytes[bit / 8] | Mask(bit % 8)]) == Painted(BitsOf(bytes), bit, 1, true)
  {
    var after := bytes[bit / 8 := bytes[bit / 8] | Mask(bit % 8)];
    forall k | 0 <= k < 8 * |bytes| ensures BitsOf(after)[k] == Painted(BitsOf(bytes), bit, 1, true)[k] {
      SetOneAt(bytes, bit, k);
    }
  }

  lemma SetOneAt(bytes: seq<bv8>, bit: nat, k: nat)
    requires bit < 8 * |bytes| && k < 8 * |bytes|
    ensures BitsOf(bytes[bit / 8 := bytes[bit / 8] | Mask(bit % 8)])[k] == Painted(BitsOf(bytes), bit, 1, true)[k]
  {
    hide Bit, Mask;
    SameBit(k, bit);
    if k / 8 == bit / 8 {
      BitOfOr(bytes[bit / 8], bit % 8, k % 8);
    }
  }

  lemma ClearOne(bytes: seq<bv8>, bit: nat)
    requires bit < 8 * |bytes|
    ensures BitsOf(bytes[bit / 8 := bytes[bit / 8] & !Mask(bit % 8)]) == Painted(BitsOf(bytes), bit, 1, false)
  {
    var after := bytes[bit / 8 := bytes[bit / 8] & !Mask(bit % 8)];
    forall k | 0 <= k < 8 * |bytes| ensures BitsOf(after)[k] == Painted(BitsOf(bytes), bit, 1, false)[k] {
      ClearOneAt(bytes, bit, k);
    }
  }

  lemma ClearOneAt(bytes: seq<bv8>, bit: nat, k: nat)
    requires bit < 8 * |bytes| && k < 8 * |bytes|
    ensures BitsOf(bytes[bit / 8 := bytes[bit / 8] & !Mask(bit % 8)])[k] == Painted(BitsOf(bytes), bit, 1, false)[k]
  {
    hide Bit, Mask;
    SameBit(k, bit);
    if k / 8 == bit / 8 {
      BitOfAndNot(bytes[bit / 8], bit % 8, k % 8);
    }
  }

  lemma FullByte(i: nat)
    requires i < 8
    ensures Bit(0xFF, i)
  {
  }

  lemma SetEight(bytes: seq<bv8>, bit: nat)
    requires bit % 8 == 0 && bit + 8 <= 8 * |bytes|
    ensures BitsOf(bytes[bit / 8 := 0xFF]) == Painted(BitsOf(bytes), bit, 8, true)
    ensures bytes[bit / 8] == 0 <==> Clear(BitsOf(bytes), bit, 8)
  {
    var j := bit / 8;
    forall k | 0 <= k < 8 * |bytes| ensures BitsOf(bytes[j := 0xFF])[k] == Painted(BitsOf(bytes), bit, 8, true)[k] {
      FullByte(k % 8);
    }
    EightClear(bytes, j);
  }

  lemma BitOfByte(bytes: seq<bv8>, j: nat, i: nat)
    requires j < |bytes| && i < 8
    ensures BitsOf(bytes)[8 * j + i] == Bit(bytes[j], i)
  {
    assert (8 * j + i) / 8 == j && (8 * j + i) % 8 == i;
  }

  lemma EightClear(bytes: seq<bv8>, j: nat)
    requires j < |bytes|
    ensures bytes[j] == 0 <==> Clear(BitsOf(bytes), 8 * j, 8)
  {
    hide BitsOf, Bit;
    ZeroByte(bytes[j]);
    forall i | 0 <= i < 8 ensures BitsOf(bytes)[8 * j + i] == Bit(bytes[j], i) {
      BitOfByte(bytes, j, i);
    }
    forall k | 8 * j <= k < 8 * j + 8 ensures BitsOf(bytes)[k] == Bit(bytes[j], k - 8 * j) {
      assert k == 8 * j + (k - 8 * j);
    }
    if bytes[j] != 0 {
      var i :| 0 <= i < 8 && Bit(bytes[j], i);
      assert BitsOf(bytes)[8 * j + i];
    }
  }

  lemma PaintedNothing(bits: seq<bool>, lo: nat, v: bool)
    ensures Painted(bits, lo, 0, v) == bits && (lo <= |bits| ==> Clear(bits, lo, 0))
  {
  }

  /** Painting on upwards... */
  lemma PaintedUp(bits: seq<bool>, lo: nat, n: nat, m: nat, v: bool)
    requires lo + n + m <= |bits|
    ensures Painted(Painted(bits, lo, n, v), lo + n, m, v) == Painted(bits, lo, n + m, v)
    ensures Clear(bits, lo, n + m) <==> Clear(bits, lo, n) && Clear(Painted(bits, lo, n, v), lo + n, m)
  {
    assert forall k :: lo + n <= k < lo + n + m ==> Painted(bits, lo, n, v)[k] == bits[k];
  }

  /** ...and downwards. */
  lemma PaintedDown(bits: seq<bool>, lo: nat, n: nat, v: bool)
    requires lo >= 1
    ensures Painted(Painted(bits, lo, n, v), lo - 1, 1, v) == Painted(bits, lo - 1, n + 1, v)
  {
  }

  lemma PaintedAlready(bits: seq<bool>, k: nat)
    requires k < |bits| && bits[k]
    ensures Painted(bits, k, 1, true) == bits
  {
  }

  lemma OneClear(bits: seq<bool>, k: nat)
    requires k < |bits|
    ensures Clear(bits, k, 1) <==> !bits[k]
  {
  }

  lemma NotClear(bits: seq<bool>, lo: nat, n: nat, num: nat)
    requires n <= num && lo + num <= |bits| && !Clear(bits, lo, n)
    ensures !Clear(bits, lo, num)
  {
  }

  /** bitmap_set_bit: whether the bit had been set already. */
  method SetBit(bitmap: array<bv8>, bit: nat) returns (already: bool)
    requires bit < 8 * bitmap.Length
    modifies bitmap
    ensures already <==> old(BitsOf(bitmap[..]))[bit]
    ensures BitsOf(bitmap[..]) == Painted(old(BitsOf(bitmap[..])), bit, 1, true)
  {
    hide BitsOf;
    SetOne(bitmap[..], bit);
    BitAt(bitmap[..], bit);
    if bitmap[bit / 8] & Mask(bit % 8) != 0 {
      PaintedAlready(BitsOf(bitmap[..]), bit);
      return true;
    }
    hide Painted, Mask;
    ghost var before := bitmap[..];
    bitmap[bit / 8] := bitmap[bit / 8] | Mask(bit % 8);
    assert bitmap[..] == before[bit / 8 := before[bit / 8] | Mask(bit % 8)];
    return false;
  }

  /** bitmap_set_8_bits: whether any of the bits had been set already. */
  method Set8Bits(bitmap: array<bv8>, bit: nat) returns (already: bool)
    requires bit % 8 == 0 && bit + 8 <= 8 * bitmap.Length
    modifies bitmap
    ensures already <==> !Clear(old(BitsOf(bitmap[..])), bit, 8)
    ensures BitsOf(bitmap[..]) == Painted(old(BitsOf(bitmap[..])), bit, 8, true)
  {
    hide BitsOf, Painted, Clear;
    SetEight(bitmap[..], bit);
    ghost var before := bitmap[..];
    already := bitmap[bit / 8] != 0;
    bitmap[bit / 8] := 0xFF;
    assert bitmap[..] == before[bit / 8 := 0xFF];
  }

  /** The second loop of reserve_blocks: whole bytes, from a byte boundary if there is anything left. */
  method SetBytes(bitmap: array<bv8>, start: nat, done: nat, num: nat, ghost bits: seq<bool>) returns (ok: bool, i: nat)
    requires done <= num && start + num <= 8 * bitmap.Length && |bits| == 8 * bitmap.Length
    requires (start + done) % 8 == 0 || done == num
    requires Clear(bits, start, done) && BitsOf(bitmap[..]) == Painted(bits, start, done, true)
    modifies bitmap
    ensures i <= num
    ensures if ok then Clear(bits, start, i) && BitsOf(bitmap[..]) == Painted(bits, start, i, true)
            else !Clear(bits, start, num)
  {
    hide BitsOf, Painted, Clear;
    i := done;
    while i + 8 <= num - num % 8
      invariant i <= num && ((start + i) % 8 == 0 || i == num)
      invariant Clear(bits, start, i) && BitsOf(bitmap[..]) == Painted(bits, start, i, true)
    {
      PaintedUp(bits, start, i, 8, true);
      var already := Set8Bits(bitmap, start + i);
      i := i + 8;
      if already {
        NotClear(bits, start, i, num);
        return false, i;
      }
    }
    return true, i;
  }

  /**
   The three loops of reserve_blocks: single bits up to a byte boundary, whole bytes, single bits.
   ok tells whether all of the blocks were free.
   */
  method SetRange(bitmap: array<bv8>, start: nat, num: nat) returns (ok: bool)
    requires start + num <= 8 * bitmap.Length
    modifies bitmap
    ensures ok <==> Clear(old(BitsOf(bitmap[..])), start, num)
    ensures ok ==> BitsOf(bitmap[..]) == Painted(old(BitsOf(bitmap[..])), start, num, true)
  {
    hide BitsOf, Painted, Clear;
    ghost var bits := BitsOf(bitmap[..]);
    var i, block := 0, start;
    PaintedNothing(bits, start, true);
    while i < num && block % 8 != 0
      invariant 0 <= i <= num && block == start + i
      invariant Clear(bits, start, i) && BitsOf(bitmap[..]) == Painted(bits, start, i, true)
    {
      PaintedUp(bits, start, i, 1, true);
      OneClear(Painted(bits, start, i, true), block);
      var already := SetBit(bitmap, block);
      i, block := i + 1, block + 1;
      if already {
        NotClear(bits, start, i, num);
        return false;
      }
    }
    var allFree;
    allFree, i := SetBytes(bitmap, start, i, num, bits);
    if !allFree {
      return false;
    }
    block := start + i;
    while i < num
      invariant 0 <= i <= num && block == start + i
      invariant Clear(bits, start, i) && BitsOf(bitmap[..]) == Painted(bits, start, i, true)
    {
      PaintedUp(bits, start, i, 1, true);
      OneClear(Painted(bits, start, i, true), block);
      var already := SetBit(bitmap, block);
      i, block := i + 1, block + 1;
      if already {
        NotClear(bits, start, i, num);
        return false;
      }
    }
    return true;
  }

  /** The loop of free_blocks, which goes down from the block below `end`. */
  method ClearRange(bitmap: array<bv8>, end: nat, num: nat)
    requires num <= end <= 8 * bitmap.Length
    modifies bitmap
    ensures BitsOf(bitmap[..]) == Painted(old(BitsOf(bitmap[..])), end - num, num, false)
  {
    hide BitsOf, Painted;
    ghost var bits := BitsOf(bitmap[..]);
    var i, block := 0, end;
    PaintedNothing(bits, end, false);
    while i < num
      invariant 0 <= i <= num && block == end - i
      invariant BitsOf(bitmap[..]) == Painted(bits, end - i, i, false)
    {
      PaintedDown(bits, block, i, false);
      block := block - 1;
      ClearBit(bitmap, block);
      i := i + 1;
    }
  }

  method ClearBit(bitmap: array<bv8>, bit: nat)
    requires bit < 8 * bitmap.Length
    modifies bitmap
    ensures BitsOf(bitmap[..]) == Painted(old(BitsOf(bitmap[..])), bit, 1, false)
  {
    hide BitsOf, Painted;
    ClearOne(bitmap[..], bit);
    ghost var before := bitmap[..];
    bitmap[bit / 8] := bitmap[bit / 8] & !Mask(bit % 8);
    assert bitmap[..] == before[bit / 8 := before[bit / 8] & !Mask(bit % 8)];
  }
}
