/** A known value from the source's own test: the hash of "Four score and seven years ago". */
module Lookup3Example {
  import opened Lookup3Spec

  // ---- mix and final, a line at a time ----

  lemma Line(x: Word, z: Word, y: Word, k: bv6, x': Word, z': Word)
    requires 0 < k < 32 && Xor(Minus(x, z), Rot(z, k)) == x' && Plus(z, y) == z'
    ensures Stirred(x, z, y, k) == (x', z')
  {
  }

  lemma Cross(x: Word, z: Word, k: bv6, x': Word)
    requires 0 < k < 32 && Minus(Xor(x, z), Rot(z, k)) == x'
    ensures Crossed(x, z, k) == x'
  {
  }

  lemma Mix1()
    ensures Mix(Registers(0x51232e53, 0x4e11322d, 0x3fce247f)) == Registers(0xf859ad7a, 0x04bc57ae, 0x40dddd7e)
  {
    hide Stirred;
    Line(0x51232e53, 0x3fce247f, 0x4e11322d, 4, 0xedb74e27, 0x8ddf56ac);
    Line(0x4e11322d, 0xedb74e27, 0x8ddf56ac, 6, 0x0d8a6dfd, 0x7b96a4d3);
    Line(0x8ddf56ac, 0x0d8a6dfd, 0x7b96a4d3, 8, 0x0a3915a2, 0x892112d0);
    Line(0x7b96a4d3, 0x0a3915a2, 0x892112d0, 16, 0x64ff8508, 0x935a2872);
    Line(0x892112d0, 0x64ff8508, 0x935a2872, 19, 0x0c62aa34, 0xf859ad7a);
    Line(0x935a2872, 0x0c62aa34, 0xf859ad7a, 4, 0x40dddd7e, 0x04bc57ae);
  }

  lemma Mix2()
    ensures Mix(Registers(0x6b7a11e8, 0x7321ce13, 0xa243569e)) == Registers(0x336aded2, 0x059f2642, 0xbd02ebd5)
  {
    hide Stirred;
    Line(0x6b7a11e8, 0xa243569e, 0x7321ce13, 4, 0xed03d2a0, 0x156524b1);
    Line(0x7321ce13, 0xed03d2a0, 0x156524b1, 6, 0xc6e95348, 0x0268f751);
    Line(0x156524b1, 0xc6e95348, 0x0268f751, 8, 0xa72899af, 0xc9524a99);
    Line(0x0268f751, 0xa72899af, 0xc9524a99, 16, 0xc2effa8a, 0x707ae448);
    Line(0xc9524a99, 0xc2effa8a, 0x707ae448, 19, 0xd2344770, 0x336aded2);
    Line(0x707ae448, 0xd2344770, 0x336aded2, 4, 0xbd02ebd5, 0x059f2642);
  }

  lemma Final3()
    ensures Final(Registers(0x948b5244, 0x059f95a9, 0xbd02ebd5)) == Registers(0x9a837816, 0xce7226e6, 0x17770551)
  {
    hide Crossed;
    Cross(0xbd02ebd5, 0x059f95a9, 14, 0xd3333d15);
    Cross(0x948b5244, 0xd3333d15, 11, 0xadcfc0b8);
    Cross(0x059f95a9, 0xadcfc0b8, 25, 0x36f4b590);
    Cross(0xd3333d15, 0x36f4b590, 16, 0x30375191);
    Cross(0xadcfc0b8, 0x30375191, 4, 0x9a837816);
    Cross(0x36f4b590, 0x9a837816, 14, 0xce7226e6);
    Cross(0x30375191, 0xce7226e6, 24, 0x17770551);
  }

  // ---- the key ----

  /** What the three blocks of the key add to the registers. */
  lemma First(key: seq<Byte>)
    requires key == [0x46, 0x6f, 0x75, 0x72, 0x20, 0x73, 0x63, 0x6f, 0x72, 0x65, 0x20, 0x61]
    ensures WithBlock(Little, Registers(0xdeadbf0d, 0xdeadbf0d, 0xdeadbf0d), key) == Registers(0x51232e53, 0x4e11322d, 0x3fce247f)
  {
  }

  lemma Second(key: seq<Byte>)
    requires key == [0x6e, 0x64, 0x20, 0x73, 0x65, 0x76, 0x65, 0x6e, 0x20, 0x79, 0x65, 0x61]
    ensures WithBlock(Little, Registers(0xf859ad7a, 0x04bc57ae, 0x40dddd7e), key) == Registers(0x6b7a11e8, 0x7321ce13, 0xa243569e)
  {
  }

  lemma Third(key: seq<Byte>)
    requires key == [0x72, 0x73, 0x20, 0x61, 0x67, 0x6f]
    ensures WithBlock(Little, Registers(0x336aded2, 0x059f2642, 0xbd02ebd5), key) == Registers(0x948b5244, 0x059f95a9, 0xbd02ebd5)
  {
  }

  lemma Start()
    ensures Seeded(30, 0, 0) == Registers(0xdeadbf0d, 0xdeadbf0d, 0xdeadbf0d)
  {
    hide StartWord, AsNat, Plus;
    ZeroSeed();
    FirstWord();
    PlusZero(0xdeadbf0d);
  }

  lemma ZeroSeed()
    ensures AsNat(0) == 0
  {
  }

  lemma FirstWord()
    ensures StartWord(0xdeadbf0d) == 0xdeadbf0d
  {
    StartWordIs(0xdeadbf0d, 0xdeadbf0d);
  }

  lemma InThree(r: Registers, x: seq<Byte>, y: seq<Byte>, z: seq<Byte>)
    requires |x| == |y| == 12 && 0 < |z| <= 12
    ensures Hashed(Little, r, x + y + z)
         == Final(WithBlock(Little, Mix(WithBlock(Little, Mix(WithBlock(Little, r, x)), y)), z))
  {
    hide Mix, Final, WithBlock;
    var key := x + y + z;
    assert key[..12] == x && key[12..] == y + z && (y + z)[..12] == y && (y + z)[12..] == z;
    assert Hashed(Little, Mix(WithBlock(Little, Mix(WithBlock(Little, r, x)), y)), z)
        == Final(WithBlock(Little, Mix(WithBlock(Little, Mix(WithBlock(Little, r, x)), y)), z));
  }

  /** The values that the source's driver5 expects of hashlittle2 with both seeds zero. */
  lemma FourScore(key: seq<Byte>)
    requires key == [0x46, 0x6f, 0x75, 0x72, 0x20, 0x73, 0x63, 0x6f, 0x72, 0x65, 0x20, 0x61] +
                    [0x6e, 0x64, 0x20, 0x73, 0x65, 0x76, 0x65, 0x6e, 0x20, 0x79, 0x65, 0x61] +
                    [0x72, 0x73, 0x20, 0x61, 0x67, 0x6f]
    ensures var r := Hashed(Little, Seeded(30, 0, 0), key);
      |key| == 30 && r.c == 0x17770551 && r.b == 0xce7226e6
  {
    hide Mix, Final, WithBlock, Seeded, Hashed;
    Start();
    InThree(Seeded(30, 0, 0), key[..12], key[12..24], key[24..]);
    assert key == key[..12] + key[12..24] + key[24..];
    First(key[..12]);
    Mix1();
    Second(key[12..24]);
    Mix2();
    Third(key[24..]);
    Final3();
  }
}
