/**
 hashword(), hashlittle() and hashbig(): loops that read the key by words, by half words or by bytes,
 as its address allows.  Each is proved to compute Lookup3Spec.Hash of the key's bytes alone.
 */
module Lookup3 {
  import opened Arithmetic
  import opened Lookup3Spec

  /** HASH_LITTLE_ENDIAN and HASH_BIG_ENDIAN; neither is set on a machine the header does not know. */
  datatype Machine = LittleEndian | BigEndian | Unknown

  // ---- sums that wrap ----

  lemma PlusIs(x: Word, y: Word)
    ensures Plus(x, y) == x + y
  {
  }

  lemma SumRegroups(x: Word, y: Word, z: Word)
    ensures Plus(x + y, z) == Plus(x, y + z)
  {
  }

  lemma PlusRegroups(x: Word, y: Word, z: Word)
    ensures Plus(Plus(x, y), z) == Plus(x, Plus(y, z))
  {
    hide Plus;
    PlusIs(x, y);
    PlusIs(y, z);
    SumRegroups(x, y, z);
  }

  lemma FourSums(x: Word, p0: Word, p1: Word, p2: Word, p3: Word)
    ensures Plus(Plus(Plus(Plus(x, p0), p1), p2), p3) == Plus(x, Plus(Plus(p0, p1), Plus(p2, p3)))
    ensures Plus(Plus(Plus(Plus(x, p3), p2), p1), p0) == Plus(x, Plus(Plus(p0, p1), Plus(p2, p3)))
  {
    hide Plus;
    PlusRegroups(Plus(Plus(x, p0), p1), p2, p3);
    PlusRegroups(Plus(x, p0), p1, Plus(p2, p3));
    PlusRegroups(x, p0, Plus(p1, Plus(p2, p3)));
    PlusRegroups(p0, p1, Plus(p2, p3));
    PlusRegroups(Plus(Plus(x, p3), p2), p1, p0);
    PlusRegroups(Plus(x, p3), p2, Plus(p1, p0));
    PlusRegroups(x, p3, Plus(p2, Plus(p1, p0)));
    PlusRegroups(p3, p2, Plus(p1, p0));
    PlusSwaps(p1, p0);
    PlusSwaps(p3, p2);
    PlusSwaps(Plus(p2, p3), Plus(p0, p1));
  }

  // ---- loads ----

  function Load32(order: Order, mem: seq<Byte>, p: nat): Word
    requires p + 4 <= |mem|
  {
    WordOf(order, mem[p], mem[p + 1], mem[p + 2], mem[p + 3])
  }

  function HalfOf(w0: Word, w1: Word): Word {
    w0 | (w1 << 8)
  }

  /** A uint16_t of a little-endian machine. */
  function Load16(mem: seq<Byte>, p: nat): Word
    requires p + 2 <= |mem|
  {
    HalfOf(Wide(mem[p]), Wide(mem[p + 1]))
  }

  function High(w: Word): Word {
    w << 16
  }

  /** Byte j of a word, where that byte stands in it. */
  function Placed(order: Order, w: Word, j: nat): Word
    requires j < 4
  {
    Up(w, if order.Little? then j else 3 - j)
  }

  /** So many bytes up. */
  function Up(w: Word, j: nat): Word
    requires j < 4
  {
    match j
    case 0 => w
    case 1 => w << 8
    case 2 => w << 16
    case _ => w << 24
  }

  function Masked(w: Word, mask: Word): Word {
    w & mask
  }

  /** The mask that drops all but the first n bytes of a word. */
  function Kept(order: Order, w: Word, n: nat): Word {
    if n >= 4 then w
    else if n == 3 then Masked(w, if order.Little? then 0x00ffffff else 0xffffff00)
    else if n == 2 then Masked(w, if order.Little? then 0x0000ffff else 0xffff0000)
    else Masked(w, if order.Little? then 0x000000ff else 0xff000000)
  }

  /** The n bytes at p that belong to the key, as one word with zeros for the rest. */
  function Part(order: Order, mem: seq<Byte>, p: nat, n: int): Word
    requires p + n <= |mem|
  {
    if n <= 0 then 0
    else
      WordOf(order, mem[p], if n > 1 then mem[p + 1] else 0, if n > 2 then mem[p + 2] else 0, if n > 3 then mem[p + 3] else 0)
  }

  lemma ZeroWord(order: Order)
    ensures WordOf(order, 0, 0, 0, 0) == 0
  {
  }

  lemma PartIsWordAt(order: Order, mem: seq<Byte>, k: nat, n: nat, i: nat)
    requires k + n <= |mem|
    ensures k + i + (n - i) <= |mem|
    ensures Part(order, mem, k + i, n - i) == WordAt(order, mem[k..k + n], i)
  {
    hide WordOf;
    ZeroWord(order);
  }

  lemma LowThree(w0: Word, w1: Word, w2: Word, w3: Word)
    requires w0 <= 0xFF && w1 <= 0xFF && w2 <= 0xFF && w3 <= 0xFF
    ensures Masked(Packed(w0, w1, w2, w3), 0x00ffffff) == Packed(w0, w1, w2, 0)
  {
  }

  lemma LowTwo(w0: Word, w1: Word, w2: Word, w3: Word)
    requires w0 <= 0xFF && w1 <= 0xFF && w2 <= 0xFF && w3 <= 0xFF
    ensures Masked(Packed(w0, w1, w2, w3), 0x0000ffff) == Packed(w0, w1, 0, 0)
  {
  }

  lemma LowOne(w0: Word, w1: Word, w2: Word, w3: Word)
    requires w0 <= 0xFF && w1 <= 0xFF && w2 <= 0xFF && w3 <= 0xFF
    ensures Masked(Packed(w0, w1, w2, w3), 0x000000ff) == Packed(w0, 0, 0, 0)
  {
  }

  lemma HighThree(w0: Word, w1: Word, w2: Word, w3: Word)
    requires w0 <= 0xFF && w1 <= 0xFF && w2 <= 0xFF && w3 <= 0xFF
    ensures Masked(Packed(w0, w1, w2, w3), 0xffffff00) == Packed(0, w1, w2, w3)
  {
  }

  lemma HighTwo(w0: Word, w1: Word, w2: Word, w3: Word)
    requires w0 <= 0xFF && w1 <= 0xFF && w2 <= 0xFF && w3 <= 0xFF
    ensures Masked(Packed(w0, w1, w2, w3), 0xffff0000) == Packed(0, 0, w2, w3)
  {
  }

  lemma HighOne(w0: Word, w1: Word, w2: Word, w3: Word)
    requires w0 <= 0xFF && w1 <= 0xFF && w2 <= 0xFF && w3 <= 0xFF
    ensures Masked(Packed(w0, w1, w2, w3), 0xff000000) == Packed(0, 0, 0, w3)
  {
  }

  /** The masks hide the bytes past the end of the key. */
  lemma MaskHidesTheRest(order: Order, mem: seq<Byte>, p: nat, n: nat)
    requires 0 < n && p + n <= |mem| && p + 4 <= |mem|
    ensures Kept(order, Load32(order, mem, p), n) == Part(order, mem, p, n)
  {
    hide Packed, Masked, Wide;
    NoByte();
    var b0, b1, b2, b3 := mem[p], mem[p + 1], mem[p + 2], mem[p + 3];
    ByteSmall(b0);
    ByteSmall(b1);
    ByteSmall(b2);
    ByteSmall(b3);
    var w0, w1, w2, w3 := Wide(b0), Wide(b1), Wide(b2), Wide(b3);
    if n == 3 {
      LowThree(w0, w1, w2, w3);
      HighThree(w3, w2, w1, w0);
    } else if n == 2 {
      LowTwo(w0, w1, w2, w3);
      HighTwo(w3, w2, w1, w0);
    } else if n == 1 {
      LowOne(w0, w1, w2, w3);
      HighOne(w3, w2, w1, w0);
    }
  }

  // ---- words put together from less ----

  lemma PlacedSum(w0: Word, w1: Word, w2: Word, w3: Word)
    requires w0 <= 0xFF && w1 <= 0xFF && w2 <= 0xFF && w3 <= 0xFF
    ensures Plus(Plus(Up(w0, 0), Up(w1, 1)), Plus(Up(w2, 2), Up(w3, 3))) == Packed(w0, w1, w2, w3)
  {
  }

  lemma BytesMakeWord(order: Order, b0: Byte, b1: Byte, b2: Byte, b3: Byte)
    ensures Plus(Plus(Placed(order, Wide(b0), 0), Placed(order, Wide(b1), 1)),
                 Plus(Placed(order, Wide(b2), 2), Placed(order, Wide(b3), 3))) == WordOf(order, b0, b1, b2, b3)
  {
    hide Packed, Plus, Wide, Up;
    ByteSmall(b0);
    ByteSmall(b1);
    ByteSmall(b2);
    ByteSmall(b3);
    if order.Little? {
      PlacedSum(Wide(b0), Wide(b1), Wide(b2), Wide(b3));
    } else {
      PlacedSum(Wide(b3), Wide(b2), Wide(b1), Wide(b0));
      hide Placed;
      PlusTurns(Placed(order, Wide(b0), 0), Placed(order, Wide(b1), 1), Placed(order, Wide(b2), 2), Placed(order, Wide(b3), 3));
    }
  }

  lemma PlusTurns(p0: Word, p1: Word, p2: Word, p3: Word)
    ensures Plus(Plus(p0, p1), Plus(p2, p3)) == Plus(Plus(p3, p2), Plus(p1, p0))
  {
    hide Plus;
    PlusSwaps(p0, p1);
    PlusSwaps(p2, p3);
    PlusSwaps(Plus(p0, p1), Plus(p2, p3));
  }

  lemma TwoHalves(w0: Word, w1: Word, w2: Word, w3: Word)
    requires w0 <= 0xFF && w1 <= 0xFF && w2 <= 0xFF && w3 <= 0xFF
    ensures Plus(HalfOf(w0, w1), High(HalfOf(w2, w3))) == Packed(w0, w1, w2, w3)
  {
  }

  lemma HalfAndByte(w0: Word, w1: Word, w2: Word)
    requires w0 <= 0xFF && w1 <= 0xFF && w2 <= 0xFF
    ensures Plus(HalfOf(w0, w1), High(w2)) == Packed(w0, w1, w2, 0)
  {
  }

  lemma OneHalf(w0: Word, w1: Word)
    ensures HalfOf(w0, w1) == Packed(w0, w1, 0, 0)
    ensures w0 == Packed(w0, 0, 0, 0)
  {
  }

  // ---- by words ----

  lemma BlockStep(order: Order, r: Registers, mem: seq<Byte>, k: nat, n: nat)
    requires 12 < n && k + n <= |mem|
    ensures Hashed(order, r, mem[k..k + n])
         == Hashed(order, Mix(Absorbed(r, Load32(order, mem, k), Load32(order, mem, k + 4), Load32(order, mem, k + 8))),
                   mem[k + 12..k + n])
  {
    hide Mix, WordOf, Absorbed;
    var key := mem[k..k + n];
    assert key[12..] == mem[k + 12..k + n];
  }

  lemma LastStep(order: Order, r: Registers, mem: seq<Byte>, k: nat, n: nat)
    requires 0 < n <= 12 && k + n <= |mem|
    ensures Hashed(order, r, mem[k..k + n])
         == Final(Absorbed(r, Part(order, mem, k, n), Part(order, mem, k + 4, n - 4), Part(order, mem, k + 8, n - 8)))
  {
    hide Final, Absorbed, Part, WordAt;
    PartIsWordAt(order, mem, k, n, 0);
    PartIsWordAt(order, mem, k, n, 4);
    PartIsWordAt(order, mem, k, n, 8);
  }

  lemma NothingLeft(order: Order, mem: seq<Byte>, p: nat, n: int, x: Word)
    requires p + n <= |mem|
    ensures n <= 0 ==> Plus(x, Part(order, mem, p, n)) == x
  {
    hide WordOf;
    PlusZero(x);
  }

  predicate Aligned(p: nat) {
    p % 4 == 0
  }

  lemma AlignedOn(p: nat)
    requires Aligned(p)
    ensures Aligned(p + 4) && Aligned(p + 8) && Aligned(p + 12)
  {
  }

  lemma WholeWord(p: nat, end: nat)
    requires Aligned(p) && Aligned(end) && p < end
    ensures p + 4 <= end
  {
  }

  /** The whole word is loaded even where the key ends inside it; memory comes in whole words. */
  method AddMasked(order: Order, x: Word, mem: seq<Byte>, p: nat, n: int) returns (y: Word)
    requires p + n <= |mem|
    requires Aligned(p) && Aligned(|mem|)
    ensures y == Plus(x, Part(order, mem, p, n))
  {
    hide Plus, Part, Load32, Kept, Aligned;
    y := x;
    NothingLeft(order, mem, p, n, x);
    if n > 0 {
      WholeWord(p, |mem|);
      MaskHidesTheRest(order, mem, p, n);
      y := Plus(y, Kept(order, Load32(order, mem, p), n));
    }
  }

  lemma NoStep(order: Order, r: Registers, mem: seq<Byte>, k: nat)
    requires k <= |mem|
    ensures Hashed(order, r, mem[k..k]) == r
  {
  }

  method ByWords(order: Order, mem: seq<Byte>, at: nat, length: nat, start: Registers) returns (r: Registers)
    requires at + length <= |mem|
    requires at % 4 == 0 && |mem| % 4 == 0
    ensures r == Hashed(order, start, mem[at..at + length])
  {
    hide Hashed, Mix, Final, Part, Load32, Plus;
    var a, b, c := start.a, start.b, start.c;
    var k: nat, n: int := at, length;
    while n > 12
      invariant 0 <= n && k + n == at + length && Aligned(k)
      invariant Hashed(order, Registers(a, b, c), mem[k..k + n]) == Hashed(order, start, mem[at..at + length])
    {
      AlignedOn(k);
      BlockStep(order, Registers(a, b, c), mem, k, n);
      a := Plus(a, Load32(order, mem, k));
      b := Plus(b, Load32(order, mem, k + 4));
      c := Plus(c, Load32(order, mem, k + 8));
      r := Mix(Registers(a, b, c));
      a, b, c := r.a, r.b, r.c;
      n := n - 12;
      k := k + 12;
    }
    if n == 0 {
      NoStep(order, Registers(a, b, c), mem, k);
      return Registers(a, b, c);
    }
    LastStep(order, Registers(a, b, c), mem, k, n);
    AlignedOn(k);
    c := AddMasked(order, c, mem, k + 8, n - 8);
    b := AddMasked(order, b, mem, k + 4, n - 4);
    a := AddMasked(order, a, mem, k, n);
    r := Final(Registers(a, b, c));
  }

  // ---- by half words ----

  lemma HalvesMakeWord(mem: seq<Byte>, p: nat)
    requires p + 4 <= |mem|
    ensures Plus(Load16(mem, p), High(Load16(mem, p + 2))) == Load32(Little, mem, p)
  {
    hide Plus, Packed, HalfOf, High, Wide;
    NoByte();
    ByteSmall(mem[p]);
    ByteSmall(mem[p + 1]);
    ByteSmall(mem[p + 2]);
    ByteSmall(mem[p + 3]);
    TwoHalves(Wide(mem[p]), Wide(mem[p + 1]), Wide(mem[p + 2]), Wide(mem[p + 3]));
  }

  lemma HalvesMakePart(mem: seq<Byte>, p: nat, n: nat)
    requires 0 < n && p + n <= |mem|
    ensures n >= 4 ==> Plus(Load16(mem, p), High(Load16(mem, p + 2))) == Part(Little, mem, p, n)
    ensures n == 3 ==> Plus(Load16(mem, p), High(Wide(mem[p + 2]))) == Part(Little, mem, p, n)
    ensures n == 2 ==> Load16(mem, p) == Part(Little, mem, p, n)
    ensures n == 1 ==> Wide(mem[p]) == Part(Little, mem, p, n)
  {
    hide Plus, Packed, HalfOf, High, Wide;
    NoByte();
    var b0, b1, b2, b3 := mem[p], if n > 1 then mem[p + 1] else 0, if n > 2 then mem[p + 2] else 0, if n > 3 then mem[p + 3] else 0;
    ByteSmall(b0);
    ByteSmall(b1);
    ByteSmall(b2);
    ByteSmall(b3);
    if n >= 4 {
      TwoHalves(Wide(b0), Wide(b1), Wide(b2), Wide(b3));
    } else if n == 3 {
      HalfAndByte(Wide(b0), Wide(b1), Wide(b2));
    } else {
      OneHalf(Wide(b0), Wide(b1));
      OneHalf(Wide(b0), 0);
    }
  }

  /** One register's share of the last block: cases 4 to 1 of the switch, and its likes. */
  method AddHalfTail(x: Word, mem: seq<Byte>, p: nat, n: int) returns (y: Word)
    requires p + n <= |mem|
    ensures y == Plus(x, Part(Little, mem, p, n))
  {
    hide Plus, Part, Load16, High;
    y := x;
    NothingLeft(Little, mem, p, n, x);
    if n > 0 {
      HalvesMakePart(mem, p, n);
    }
    if n >= 4 {
      y := Plus(y, Plus(Load16(mem, p), High(Load16(mem, p + 2))));
    } else if n == 3 {
      y := Plus(y, High(Wide(mem[p + 2])));
      y := Plus(y, Load16(mem, p));
      PlusRegroups(x, High(Wide(mem[p + 2])), Load16(mem, p));
      PlusSwaps(High(Wide(mem[p + 2])), Load16(mem, p));
    } else if n == 2 {
      y := Plus(y, Load16(mem, p));
    } else if n == 1 {
      y := Plus(y, Wide(mem[p]));
    }
  }

  method ByHalves(mem: seq<Byte>, at: nat, length: nat, start: Registers) returns (r: Registers)
    requires at + length <= |mem|
    requires at % 2 == 0
    ensures r == Hashed(Little, start, mem[at..at + length])
  {
    hide Hashed, Mix, Final, Part, Load32, Load16, High, Plus;
    var a, b, c := start.a, start.b, start.c;
    var k: nat, n: int := at, length;
    while n > 12
      invariant 0 <= n && k + n == at + length
      invariant Hashed(Little, Registers(a, b, c), mem[k..k + n]) == Hashed(Little, start, mem[at..at + length])
    {
      BlockStep(Little, Registers(a, b, c), mem, k, n);
      HalvesMakeWord(mem, k);
      HalvesMakeWord(mem, k + 4);
      HalvesMakeWord(mem, k + 8);
      a := Plus(a, Plus(Load16(mem, k), High(Load16(mem, k + 2))));
      b := Plus(b, Plus(Load16(mem, k + 4), High(Load16(mem, k + 6))));
      c := Plus(c, Plus(Load16(mem, k + 8), High(Load16(mem, k + 10))));
      r := Mix(Registers(a, b, c));
      a, b, c := r.a, r.b, r.c;
      n := n - 12;
      k := k + 12;
    }
    if n == 0 {
      NoStep(Little, Registers(a, b, c), mem, k);
      return Registers(a, b, c);
    }
    LastStep(Little, Registers(a, b, c), mem, k, n);
    c := AddHalfTail(c, mem, k + 8, n - 8);
    b := AddHalfTail(b, mem, k + 4, n - 4);
    a := AddHalfTail(a, mem, k, n);
    r := Final(Registers(a, b, c));
  }

  // ---- by bytes ----

  method AddBytes(order: Order, x: Word, mem: seq<Byte>, p: nat) returns (y: Word)
    requires p + 4 <= |mem|
    ensures y == Plus(x, Load32(order, mem, p))
  {
    hide Plus, WordOf, Placed;
    y := Plus(x, Placed(order, Wide(mem[p]), 0));
    y := Plus(y, Placed(order, Wide(mem[p + 1]), 1));
    y := Plus(y, Placed(order, Wide(mem[p + 2]), 2));
    y := Plus(y, Placed(order, Wide(mem[p + 3]), 3));
    FourSums(x, Placed(order, Wide(mem[p]), 0), Placed(order, Wide(mem[p + 1]), 1),
             Placed(order, Wide(mem[p + 2]), 2), Placed(order, Wide(mem[p + 3]), 3));
    BytesMakeWord(order, mem[p], mem[p + 1], mem[p + 2], mem[p + 3]);
  }

  lemma NoByteNoChange(order: Order, x: Word, j: nat)
    requires j < 4
    ensures Plus(x, Placed(order, Wide(0), j)) == x
  {
    hide Plus;
    PlusZero(x);
  }

  /** One register's share of the last block, the cases of the switch falling through from the highest. */
  method AddByteTail(order: Order, x: Word, mem: seq<Byte>, p: nat, n: int) returns (y: Word)
    requires p + n <= |mem|
    ensures y == Plus(x, Part(order, mem, p, n))
  {
    hide Plus, WordOf, Placed;
    NothingLeft(order, mem, p, n, x);
    ghost var b0, b1, b2, b3 := if n > 0 then mem[p] else 0, if n > 1 then mem[p + 1] else 0, if n > 2 then mem[p + 2] else 0, if n > 3 then mem[p + 3] else 0;
    y := x;
    NoByteNoChange(order, y, 3);
    if n >= 4 {
      y := Plus(y, Placed(order, Wide(mem[p + 3]), 3));
    }
    NoByteNoChange(order, y, 2);
    if n >= 3 {
      y := Plus(y, Placed(order, Wide(mem[p + 2]), 2));
    }
    NoByteNoChange(order, y, 1);
    if n >= 2 {
      y := Plus(y, Placed(order, Wide(mem[p + 1]), 1));
    }
    NoByteNoChange(order, y, 0);
    if n >= 1 {
      y := Plus(y, Placed(order, Wide(mem[p]), 0));
    }
    FourSums(x, Placed(order, Wide(b0), 0), Placed(order, Wide(b1), 1), Placed(order, Wide(b2), 2), Placed(order, Wide(b3), 3));
    BytesMakeWord(order, b0, b1, b2, b3);
    ZeroWord(order);
  }

  method ByBytes(order: Order, mem: seq<Byte>, at: nat, length: nat, start: Registers) returns (r: Registers)
    requires at + length <= |mem|
    ensures r == Hashed(order, start, mem[at..at + length])
  {
    hide Hashed, Mix, Final, Part, Load32, Plus;
    var a, b, c := start.a, start.b, start.c;
    var k: nat, n: int := at, length;
    while n > 12
      invariant 0 <= n && k + n == at + length
      invariant Hashed(order, Registers(a, b, c), mem[k..k + n]) == Hashed(order, start, mem[at..at + length])
    {
      BlockStep(order, Registers(a, b, c), mem, k, n);
      a := AddBytes(order, a, mem, k);
      b := AddBytes(order, b, mem, k + 4);
      c := AddBytes(order, c, mem, k + 8);
      r := Mix(Registers(a, b, c));
      a, b, c := r.a, r.b, r.c;
      n := n - 12;
      k := k + 12;
    }
    if n == 0 {
      NoStep(order, Registers(a, b, c), mem, k);
      return Registers(a, b, c);
    }
    LastStep(order, Registers(a, b, c), mem, k, n);
    c := AddByteTail(order, c, mem, k + 8, n - 8);
    b := AddByteTail(order, b, mem, k + 4, n - 4);
    a := AddByteTail(order, a, mem, k, n);
    r := Final(Registers(a, b, c));
  }

  // ---- the functions of the file ----

  /** Cutting the length down to 32 bits first changes nothing. */
  lemma SameStart(x: nat, y: nat, seed: nat)
    requires x % WORD32 == y % WORD32
    ensures StartWord(0xdeadbeef + x + seed) == StartWord(0xdeadbeef + y + seed)
  {
    SameRemainder(x, y, 0xdeadbeef + seed);
  }

  lemma SameRemainder(x: nat, y: nat, more: nat)
    requires x % WORD32 == y % WORD32
    ensures (x + more) % WORD32 == (y + more) % WORD32
  {
  }

  lemma CutStart(length: nat, seed: nat)
    ensures StartWord(0xdeadbeef + length % WORD32 + seed) == StartWord(0xdeadbeef + length + seed)
  {
    hide StartWord;
    SameStart(length % WORD32, length, seed);
  }

  /** hashlittle2(): the two hashes, and the register b of the second. */
  method HashLittle2(machine: Machine, mem: seq<Byte>, at: nat, length: nat, pc: Word, pb: Word)
    returns (primary: Word, secondary: Word)
    requires at + length <= |mem| && |mem| % 4 == 0
    ensures primary == Hashed(Little, Seeded(length, pc, pb), mem[at..at + length]).c
    ensures secondary == Hashed(Little, Seeded(length, pc, pb), mem[at..at + length]).b
    ensures pb == 0 ==> primary == Hash(Little, mem[at..at + length], pc)
  {
    hide Hashed, StartWord, AsNat, Plus;
    var s := StartWord(0xdeadbeef + length % WORD32 + AsNat(pc));
    CutStart(length, AsNat(pc));
    PlusZero(s);
    var r := Registers(s, s, Plus(s, pb));
    if machine.LittleEndian? && Aligned(at) {
      r := ByWords(Little, mem, at, length, r);
    } else if machine.LittleEndian? && at % 2 == 0 {
      r := ByHalves(mem, at, length, r);
    } else {
      r := ByBytes(Little, mem, at, length, r);
    }
    return r.c, r.b;
  }

  method HashLittle(machine: Machine, mem: seq<Byte>, at: nat, length: nat, initval: Word) returns (c: Word)
    requires at + length <= |mem| && |mem| % 4 == 0
    ensures c == Hash(Little, mem[at..at + length], initval)
  {
    hide Hashed, StartWord, AsNat, Plus;
    var s := StartWord(0xdeadbeef + length % WORD32 + AsNat(initval));
    CutStart(length, AsNat(initval));
    PlusZero(s);
    var r := Registers(s, s, s);
    if machine.LittleEndian? && Aligned(at) {
      r := ByWords(Little, mem, at, length, r);
    } else if machine.LittleEndian? && at % 2 == 0 {
      r := ByHalves(mem, at, length, r);
    } else {
      r := ByBytes(Little, mem, at, length, r);
    }
    c := r.c;
  }

  method HashBig(machine: Machine, mem: seq<Byte>, at: nat, length: nat, initval: Word) returns (c: Word)
    requires at + length <= |mem| && |mem| % 4 == 0
    ensures c == Hash(Big, mem[at..at + length], initval)
  {
    hide Hashed, StartWord, AsNat, Plus;
    var s := StartWord(0xdeadbeef + length % WORD32 + AsNat(initval));
    CutStart(length, AsNat(initval));
    PlusZero(s);
    var r := Registers(s, s, s);
    if machine.BigEndian? && Aligned(at) {
      r := ByWords(Big, mem, at, length, r);
    } else {
      r := ByBytes(Big, mem, at, length, r);
    }
    c := r.c;
  }

  // ---- hashword ----

  /** The key as the array of words it is cast to. */
  function WordsOf(order: Order, key: seq<Byte>): (k: seq<Word>)
    ensures |k| == |key| / 4
  {
    seq(|key| / 4, i requires 0 <= i => WordAt(order, key, 4 * i))
  }

  function NthWord(k: seq<Word>, i: nat): Word {
    if i < |k| then k[i] else 0
  }

  function HashedWords(r: Registers, k: seq<Word>): Registers
    decreases |k|
  {
    if k == [] then r
    else if |k| <= 3 then Final(Absorbed(r, NthWord(k, 0), NthWord(k, 1), NthWord(k, 2)))
    else HashedWords(Mix(Absorbed(r, k[0], k[1], k[2])), k[3..])
  }

  /** The loops that count words and the loops that count bytes leave the same registers. */
  lemma {:induction false} WordsHashAsBytes(order: Order, r: Registers, key: seq<Byte>)
    requires |key| % 4 == 0
    ensures HashedWords(r, WordsOf(order, key)) == Hashed(order, r, key)
    decreases |key|
  {
    hide Mix, Final, Absorbed, WordOf;
    var k := WordsOf(order, key);
    if key == [] {
    } else if |key| <= 12 {
      ZeroWord(order);
      forall i | i == 0 || i == 1 || i == 2
        ensures NthWord(k, i) == WordAt(order, key, 4 * i)
      {
      }
    } else {
      forall i | 0 <= i < 3
        ensures k[i] == WordAt(order, key[..12], 4 * i)
      {
      }
      assert k[3..] == WordsOf(order, key[12..]);
      WordsHashAsBytes(order, Mix(WithBlock(order, r, key[..12])), key[12..]);
    }
  }

  method WordLoop(k: seq<Word>, start: Registers) returns (r: Registers)
    ensures r == HashedWords(start, k)
  {
    hide Mix, Final, Plus;
    var a, b, c := start.a, start.b, start.c;
    var p: nat, n: int := 0, |k|;
    while n > 3
      invariant 0 <= n && p + n == |k|
      invariant HashedWords(Registers(a, b, c), k[p..]) == HashedWords(start, k)
    {
      assert k[p..][3..] == k[p + 3..];
      a := Plus(a, k[p]);
      b := Plus(b, k[p + 1]);
      c := Plus(c, k[p + 2]);
      r := Mix(Registers(a, b, c));
      a, b, c := r.a, r.b, r.c;
      n := n - 3;
      p := p + 3;
    }
    if n == 0 {
      return Registers(a, b, c);
    }
    PlusZero(b);
    PlusZero(c);
    if n >= 3 {
      c := Plus(c, k[p + 2]);
    }
    if n >= 2 {
      b := Plus(b, k[p + 1]);
    }
    a := Plus(a, k[p]);
    r := Final(Registers(a, b, c));
  }

  lemma WholeTurns(rest: nat, turns: nat)
    ensures (rest + WORD32 * turns) % WORD32 == rest % WORD32
  {
  }

  lemma CutFirst(n: nat)
    ensures n % WORD32 * 4 % WORD32 == 4 * n % WORD32
  {
    WholeTurns(n % WORD32 * 4, n / WORD32 * 4);
  }

  lemma CutTwice(n: nat)
    ensures n % SIZE_LIMIT % WORD32 == n % WORD32
  {
    WholeTurns(n % SIZE_LIMIT, n / SIZE_LIMIT * WORD32);
  }

  /** However the length in words is made one in bytes, it is the length in bytes. */
  lemma WordsStart(n: nat, seed: nat)
    ensures StartWord(0xdeadbeef + n % WORD32 * 4 % WORD32 + seed) == StartWord(0xdeadbeef + 4 * n + seed)
    ensures StartWord(0xdeadbeef + n * 4 % SIZE_LIMIT % WORD32 + seed) == StartWord(0xdeadbeef + 4 * n + seed)
  {
    hide StartWord;
    CutFirst(n);
    CutTwice(n * 4);
    CutStart(4 * n, seed);
  }

  lemma LoopsAgree(order: Order, start: Registers, k: seq<Word>, key: seq<Byte>)
    requires |key| % 4 == 0 && WordsOf(order, key) == k
    ensures |key| == 4 * |k|
    ensures HashedWords(start, k) == Hashed(order, start, key)
  {
    hide Hashed, HashedWords;
    WordsHashAsBytes(order, start, key);
  }

  method HashWord(k: seq<Word>, initval: Word) returns (c: Word)
    ensures forall order, key :: |key| % 4 == 0 && WordsOf(order, key) == k ==> c == Hash(order, key, initval)
  {
    hide Hashed, HashedWords, WordsOf, StartWord, AsNat, Plus;
    var s := StartWord(0xdeadbeef + |k| % WORD32 * 4 % WORD32 + AsNat(initval));
    WordsStart(|k|, AsNat(initval));
    PlusZero(s);
    var r := WordLoop(k, Registers(s, s, s));
    forall order, key | |key| % 4 == 0 && WordsOf(order, key) == k
      ensures r.c == Hash(order, key, initval)
    {
      LoopsAgree(order, Registers(s, s, s), k, key);
    }
    c := r.c;
  }

  method HashWord2(k: seq<Word>, pc: Word, pb: Word) returns (primary: Word, secondary: Word)
    ensures forall order, key :: |key| % 4 == 0 && WordsOf(order, key) == k ==>
              var r := Hashed(order, Seeded(|key|, pc, pb), key); primary == r.c && secondary == r.b
    ensures pb == 0 ==>
              forall order, key :: |key| % 4 == 0 && WordsOf(order, key) == k ==> primary == Hash(order, key, pc)
  {
    hide Hashed, HashedWords, WordsOf, StartWord, AsNat, Plus;
    var s := StartWord(0xdeadbeef + |k| * 4 % SIZE_LIMIT % WORD32 + AsNat(pc));
    WordsStart(|k|, AsNat(pc));
    PlusZero(s);
    var start := Registers(s, s, Plus(s, pb));
    var r := WordLoop(k, start);
    forall order, key | |key| % 4 == 0 && WordsOf(order, key) == k
      ensures r == Hashed(order, Seeded(|key|, pc, pb), key)
    {
      LoopsAgree(order, start, k, key);
    }
    return r.c, r.b;
  }
}
