/** The table-driven CRC-16 against division by the polynomial 0xA001, one bit at a time. */
module Crc16 {
  type Word = bv16

  /** crc16_tab, eight entries to a row. */
  function Row(r: Word): (row: seq<Word>)
    requires r < 32
    ensures |row| == 8
  {
    if r == 0 then [0x0000, 0xC0C1, 0xC181, 0x0140, 0xC301, 0x03C0, 0x0280, 0xC241]
    else if r == 1 then [0xC601, 0x06C0, 0x0780, 0xC741, 0x0500, 0xC5C1, 0xC481, 0x0440]
    else if r == 2 then [0xCC01, 0x0CC0, 0x0D80, 0xCD41, 0x0F00, 0xCFC1, 0xCE81, 0x0E40]
    else if r == 3 then [0x0A00, 0xCAC1, 0xCB81, 0x0B40, 0xC901, 0x09C0, 0x0880, 0xC841]
    else if r == 4 then [0xD801, 0x18C0, 0x1980, 0xD941, 0x1B00, 0xDBC1, 0xDA81, 0x1A40]
    else if r == 5 then [0x1E00, 0xDEC1, 0xDF81, 0x1F40, 0xDD01, 0x1DC0, 0x1C80, 0xDC41]
    else if r == 6 then [0x1400, 0xD4C1, 0xD581, 0x1540, 0xD701, 0x17C0, 0x1680, 0xD641]
    else if r == 7 then [0xD201, 0x12C0, 0x1380, 0xD341, 0x1100, 0xD1C1, 0xD081, 0x1040]
    else if r == 8 then [0xF001, 0x30C0, 0x3180, 0xF141, 0x3300, 0xF3C1, 0xF281, 0x3240]
    else if r == 9 then [0x3600, 0xF6C1, 0xF781, 0x3740, 0xF501, 0x35C0, 0x3480, 0xF441]
    else if r == 10 then [0x3C00, 0xFCC1, 0xFD81, 0x3D40, 0xFF01, 0x3FC0, 0x3E80, 0xFE41]
    else if r == 11 then [0xFA01, 0x3AC0, 0x3B80, 0xFB41, 0x3900, 0xF9C1, 0xF881, 0x3840]
    else if r == 12 then [0x2800, 0xE8C1, 0xE981, 0x2940, 0xEB01, 0x2BC0, 0x2A80, 0xEA41]
    else if r == 13 then [0xEE01, 0x2EC0, 0x2F80, 0xEF41, 0x2D00, 0xEDC1, 0xEC81, 0x2C40]
    else if r == 14 then [0xE401, 0x24C0, 0x2580, 0xE541, 0x2700, 0xE7C1, 0xE681, 0x2640]
    else if r == 15 then [0x2200, 0xE2C1, 0xE381, 0x2340, 0xE101, 0x21C0, 0x2080, 0xE041]
    else if r == 16 then [0xA001, 0x60C0, 0x6180, 0xA141, 0x6300, 0xA3C1, 0xA281, 0x6240]
    else if r == 17 then [0x6600, 0xA6C1, 0xA781, 0x6740, 0xA501, 0x65C0, 0x6480, 0xA441]
    else if r == 18 then [0x6C00, 0xACC1, 0xAD81, 0x6D40, 0xAF01, 0x6FC0, 0x6E80, 0xAE41]
    else if r == 19 then [0xAA01, 0x6AC0, 0x6B80, 0xAB41, 0x6900, 0xA9C1, 0xA881, 0x6840]
    else if r == 20 then [0x7800, 0xB8C1, 0xB981, 0x7940, 0xBB01, 0x7BC0, 0x7A80, 0xBA41]
    else if r == 21 then [0xBE01, 0x7EC0, 0x7F80, 0xBF41, 0x7D00, 0xBDC1, 0xBC81, 0x7C40]
    else if r == 22 then [0xB401, 0x74C0, 0x7580, 0xB541, 0x7700, 0xB7C1, 0xB681, 0x7640]
    else if r == 23 then [0x7200, 0xB2C1, 0xB381, 0x7340, 0xB101, 0x71C0, 0x7080, 0xB041]
    else if r == 24 then [0x5000, 0x90C1, 0x9181, 0x5140, 0x9301, 0x53C0, 0x5280, 0x9241]
    else if r == 25 then [0x9601, 0x56C0, 0x5780, 0x9741, 0x5500, 0x95C1, 0x9481, 0x5440]
    else if r == 26 then [0x9C01, 0x5CC0, 0x5D80, 0x9D41, 0x5F00, 0x9FC1, 0x9E81, 0x5E40]
    else if r == 27 then [0x5A00, 0x9AC1, 0x9B81, 0x5B40, 0x9901, 0x59C0, 0x5880, 0x9841]
    else if r == 28 then [0x8801, 0x48C0, 0x4980, 0x8941, 0x4B00, 0x8BC1, 0x8A81, 0x4A40]
    else if r == 29 then [0x4E00, 0x8EC1, 0x8F81, 0x4F40, 0x8D01, 0x4DC0, 0x4C80, 0x8C41]
    else if r == 30 then [0x4400, 0x84C1, 0x8581, 0x4540, 0x8701, 0x47C0, 0x4680, 0x8641]
    else [0x8201, 0x42C0, 0x4380, 0x8341, 0x4100, 0x81C1, 0x8081, 0x4040]
  }

  /** The entry in column k of a row. */
  function Pick(row: seq<Word>, k: Word): Word
    requires |row| == 8 && k < 8
  {
    if k == 0 then row[0] else if k == 1 then row[1] else if k == 2 then row[2] else if k == 3 then row[3]
    else if k == 4 then row[4] else if k == 5 then row[5] else if k == 6 then row[6] else row[7]
  }

  function Table(i: Word): Word
    requires i < 256
  {
    RowBelow(i);
    Pick(Row(i >> 3), i & 7)
  }

  lemma RowBelow(i: Word)
    requires i < 256
    ensures i >> 3 < 32 && i & 7 < 8
  {
  }

  // ---- one bit at a time ----

  function Fold(c: Word, v: Word): Word {
    c ^ v
  }

  function Half(v: Word): Word {
    v >> 1
  }

  predicate Odd(v: Word) {
    v & 1 != 0
  }

  /** One step of the division: the lowest bit decides whether the polynomial is subtracted. */
  function Step(c: Word): Word {
    if Odd(c) then Fold(Half(c), 0xA001) else Half(c)
  }

  function WithBit(c: Word, bit: bool): Word {
    Step(if bit then Fold(c, 1) else c)
  }

  /** The bits of a byte go in from the lowest up. */
  function WithByte(c: Word, b: bv8): Word {
    var c1 := WithBit(WithBit(c, b & 1 != 0), b & 2 != 0);
    var c2 := WithBit(WithBit(c1, b & 4 != 0), b & 8 != 0);
    var c3 := WithBit(WithBit(c2, b & 16 != 0), b & 32 != 0);
    WithBit(WithBit(c3, b & 64 != 0), b & 128 != 0)
  }

  function Remainder(c: Word, bytes: seq<bv8>): Word
    decreases |bytes|
  {
    if bytes == [] then c else Remainder(WithByte(c, bytes[0]), bytes[1..])
  }

  /** Dividing on where an earlier piece left off. */
  lemma {:induction false} RemainderAdd(c: Word, a: seq<bv8>, b: seq<bv8>)
    ensures Remainder(c, a + b) == Remainder(Remainder(c, a), b)
    decreases |a|
  {
    if a == [] {
      assert a + b == b;
    } else {
      assert (a + b)[1..] == a[1..] + b;
      RemainderAdd(WithByte(c, a[0]), a[1..], b);
    }
  }

  // ---- eight bits at a time ----

  function Eight(c: Word): Word {
    Step(Step(Step(Step(Step(Step(Step(Step(c))))))))
  }

  /** Every entry of the row is its own index divided eight times. */
  predicate RowOk(r: Word)
    requires r < 32
  {
    Row(r) == [Eight(r << 3), Eight((r << 3) | 1), Eight((r << 3) | 2), Eight((r << 3) | 3),
               Eight((r << 3) | 4), Eight((r << 3) | 5), Eight((r << 3) | 6), Eight((r << 3) | 7)]
  }

  // row by row, on numbers
  lemma Row0() ensures RowOk(0) {}
  lemma Row1() ensures RowOk(1) {}
  lemma Row2() ensures RowOk(2) {}
  lemma Row3() ensures RowOk(3) {}
  lemma Row4() ensures RowOk(4) {}
  lemma Row5() ensures RowOk(5) {}
  lemma Row6() ensures RowOk(6) {}
  lemma Row7() ensures RowOk(7) {}
  lemma Row8() ensures RowOk(8) {}
  lemma Row9() ensures RowOk(9) {}
  lemma Row10() ensures RowOk(10) {}
  lemma Row11() ensures RowOk(11) {}
  lemma Row12() ensures RowOk(12) {}
  lemma Row13() ensures RowOk(13) {}
  lemma Row14() ensures RowOk(14) {}
  lemma Row15() ensures RowOk(15) {}
  lemma Row16() ensures RowOk(16) {}
  lemma Row17() ensures RowOk(17) {}
  lemma Row18() ensures RowOk(18) {}
  lemma Row19() ensures RowOk(19) {}
  lemma Row20() ensures RowOk(20) {}
  lemma Row21() ensures RowOk(21) {}
  lemma Row22() ensures RowOk(22) {}
  lemma Row23() ensures RowOk(23) {}
  lemma Row24() ensures RowOk(24) {}
  lemma Row25() ensures RowOk(25) {}
  lemma Row26() ensures RowOk(26) {}
  lemma Row27() ensures RowOk(27) {}
  lemma Row28() ensures RowOk(28) {}
  lemma Row29() ensures RowOk(29) {}
  lemma Row30() ensures RowOk(30) {}
  lemma Row31() ensures RowOk(31) {}

  lemma AllRows(r: Word)
    requires r < 32
    ensures RowOk(r)
  {
    hide RowOk;
    Row0(); Row1(); Row2(); Row3(); Row4(); Row5(); Row6(); Row7();
    Row8(); Row9(); Row10(); Row11(); Row12(); Row13(); Row14(); Row15();
    Row16(); Row17(); Row18(); Row19(); Row20(); Row21(); Row22(); Row23();
    Row24(); Row25(); Row26(); Row27(); Row28(); Row29(); Row30(); Row31();
  }

  lemma PickOk(r: Word, k: Word)
    requires r < 32 && k < 8 && RowOk(r)
    ensures Pick(Row(r), k) == Eight((r << 3) | k)
  {
    hide Row, Eight;
    ShiftedOr(r);
  }

  lemma ShiftedOr(r: Word)
    ensures (r << 3) | 0 == r << 3
  {
  }

  lemma RowAndColumn(i: Word)
    requires i < 256
    ensures i == ((i >> 3) << 3) | (i & 7)
  {
  }

  lemma TableIsEight(i: Word)
    requires i < 256
    ensures Table(i) == Eight(i)
  {
    hide Row, Eight;
    RowBelow(i);
    AllRows(i >> 3);
    RowAndColumn(i);
    PickOk(i >> 3, i & 7);
  }

  lemma HalfFold(c: Word, v: Word)
    ensures Half(Fold(c, v)) == Fold(Half(c), Half(v))
  {
  }

  lemma OddFold(c: Word, v: Word)
    ensures Odd(Fold(c, v)) <==> Odd(c) != Odd(v)
  {
  }

  lemma FoldSwap(a: Word, b: Word, p: Word)
    ensures Fold(Fold(a, b), p) == Fold(Fold(a, p), b)
  {
  }

  lemma One()
    ensures Odd(1) && Half(1) == 0
  {
  }

  /** What is still to come can be folded in beforehand. */
  lemma OneBit(c: Word, v: Word)
    ensures Step(Fold(c, v)) == Fold(WithBit(c, Odd(v)), Half(v))
  {
    hide Fold, Half, Odd;
    HalfFold(c, v);
    OddFold(c, v);
    FoldSwap(Half(c), Half(v), 0xA001);
    One();
    HalfFold(c, 1);
    OddFold(c, 1);
    FoldNothing(Half(c));
  }

  /** The bits of a byte, by halving it. */
  lemma ByteBits(b: bv8)
    ensures var v := b as Word;
      && (Odd(v) <==> b & 1 != 0) && (Odd(Half(v)) <==> b & 2 != 0)
      && (Odd(Half(Half(v))) <==> b & 4 != 0) && (Odd(Half(Half(Half(v)))) <==> b & 8 != 0)
      && (Odd(Half(Half(Half(Half(v))))) <==> b & 16 != 0) && (Odd(Half(Half(Half(Half(Half(v)))))) <==> b & 32 != 0)
      && (Odd(Half(Half(Half(Half(Half(Half(v))))))) <==> b & 64 != 0)
      && (Odd(Half(Half(Half(Half(Half(Half(Half(v)))))))) <==> b & 128 != 0)
      && Half(Half(Half(Half(Half(Half(Half(Half(v)))))))) == 0
  {
  }

  lemma FoldNothing(c: Word)
    ensures Fold(c, 0) == c
  {
  }

  lemma ByteIsEight(c: Word, b: bv8)
    ensures WithByte(c, b) == Eight(Fold(c, b as Word))
  {
    hide Step, WithBit, Fold, Half, Odd;
    var v0 := b as Word;
    ByteBits(b);
    var v1, c1 := Half(v0), WithBit(c, b & 1 != 0);
    OneBit(c, v0);
    var v2, c2 := Half(v1), WithBit(c1, b & 2 != 0);
    OneBit(c1, v1);
    var v3, c3 := Half(v2), WithBit(c2, b & 4 != 0);
    OneBit(c2, v2);
    var v4, c4 := Half(v3), WithBit(c3, b & 8 != 0);
    OneBit(c3, v3);
    var v5, c5 := Half(v4), WithBit(c4, b & 16 != 0);
    OneBit(c4, v4);
    var v6, c6 := Half(v5), WithBit(c5, b & 32 != 0);
    OneBit(c5, v5);
    var v7, c7 := Half(v6), WithBit(c6, b & 64 != 0);
    OneBit(c6, v6);
    OneBit(c7, v7);
    FoldNothing(WithBit(c7, b & 128 != 0));
  }

  /** The high byte has moved to the low end after eight steps, and has not mattered on the way. */
  lemma HighBits(x: Word)
    ensures var v := x & 0xFF00;
      && Fold(x & 0xFF, v) == x && !Odd(v) && !Odd(Half(v)) && !Odd(Half(Half(v))) && !Odd(Half(Half(Half(v))))
      && !Odd(Half(Half(Half(Half(v))))) && !Odd(Half(Half(Half(Half(Half(v))))))
      && !Odd(Half(Half(Half(Half(Half(Half(v))))))) && !Odd(Half(Half(Half(Half(Half(Half(Half(v))))))))
      && Half(Half(Half(Half(Half(Half(Half(Half(v)))))))) == x >> 8
  {
  }

  lemma EightSplits(x: Word)
    ensures Eight(x) == Fold(Eight(x & 0xFF), x >> 8)
  {
    hide Step, Fold, Half, Odd;
    HighBits(x);
    var v0, c0 := x & 0xFF00, x & 0xFF;
    OneBit(c0, v0);
    var v1, c1 := Half(v0), Step(c0);
    OneBit(c1, v1);
    var v2, c2 := Half(v1), Step(c1);
    OneBit(c2, v2);
    var v3, c3 := Half(v2), Step(c2);
    OneBit(c3, v3);
    var v4, c4 := Half(v3), Step(c3);
    OneBit(c4, v4);
    var v5, c5 := Half(v4), Step(c4);
    OneBit(c5, v5);
    var v6, c6 := Half(v5), Step(c5);
    OneBit(c6, v6);
    var v7, c7 := Half(v6), Step(c6);
    OneBit(c7, v7);
  }

  lemma LowByte(x: Word)
    ensures x & 0xFF < 256
  {
  }

  lemma HighByte(c: Word, b: bv8)
    ensures Fold(c, b as Word) >> 8 == c >> 8
  {
  }

  /** Where the table is looked up, and what is made of the entry. */
  function Index(c: Word, b: bv8): (i: Word)
    ensures i < 256
  {
    LowByte(Fold(c, b as Word));
    Fold(c, b as Word) & 0xFF
  }

  function Looked(c: Word, b: bv8): Word {
    Fold(Table(Index(c, b)), c >> 8)
  }

  lemma TableStep(c: Word, b: bv8)
    ensures Looked(c, b) == WithByte(c, b)
  {
    hide Table, Eight, WithByte, Fold;
    var x := Fold(c, b as Word);
    TableIsEight(Index(c, b));
    EightSplits(x);
    HighByte(c, b);
    ByteIsEight(c, b);
  }

  /** ext4_crc16 */
  method Ext4Crc16(crcIn: Word, buf: seq<bv8>) returns (crc: Word)
    ensures crc == Remainder(crcIn, buf)
  {
    hide Looked, WithByte;
    crc := crcIn;
    var i := 0;
    assert buf[0..] == buf;
    while i < |buf|
      invariant 0 <= i <= |buf| && Remainder(crc, buf[i..]) == Remainder(crcIn, buf)
    {
      assert buf[i..][0] == buf[i] && buf[i..][1..] == buf[i + 1..];
      TableStep(crc, buf[i]);
      crc := Looked(crc, buf[i]);
      i := i + 1;
    }
  }

  /** The checksum of a group descriptor, computed over three pieces as ext4_update_free does. */
  method DescriptorChecksum(uuid: seq<bv8>, group: seq<bv8>, desc: seq<bv8>) returns (crc: Word)
    ensures crc == Remainder(0xFFFF, uuid + group + desc)
  {
    RemainderAdd(0xFFFF, uuid, group);
    RemainderAdd(0xFFFF, uuid + group, desc);
    crc := Ext4Crc16(0xFFFF, uuid);
    crc := Ext4Crc16(crc, group);
    crc := Ext4Crc16(crc, desc);
  }
}
