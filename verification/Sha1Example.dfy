/** The first example of FIPS PUB 180-1, appendix A, followed round by round: the digest of "abc". */
module Sha1Example {
  import opened Sequences
  import opened Sha1Spec

  /** "abc" and its padding as words. */
  ghost predicate IsAbc(m: seq<Word>) {
    |m| == 16 && m[0] == 0x61626380 && m[15] == 0x18 && forall i :: 1 <= i < 15 ==> m[i] == 0
  }

  /** One round, by which only the first variable gets a value that the others did not have. */
  lemma Next(m: seq<Word>, t: nat, s: Hash, w: Word, a: Word) returns (s': Hash)
    requires |m| == 16 && Rounds(INITIAL, m, t) == s && W(m, t) == w
    requires Temp(Rol(s.a, 5), F(t, s.b, s.c, s.d), s.e, w, K(t)) == a
    ensures s' == Hash(a, s.a, Rol(s.b, 30), s.c, s.d) && Rounds(INITIAL, m, t + 1) == s'
  {
    s' := Hash(a, s.a, Rol(s.b, 30), s.c, s.d);
  }

  lemma Words0(m: seq<Word>)
    requires IsAbc(m)
    ensures |m| == 16
    ensures W(m, 0) == 0x61626380 && W(m, 1) == 0x00000000 && W(m, 2) == 0x00000000 && W(m, 3) == 0x00000000
    ensures W(m, 4) == 0x00000000 && W(m, 5) == 0x00000000 && W(m, 6) == 0x00000000 && W(m, 7) == 0x00000000
    ensures W(m, 8) == 0x00000000 && W(m, 9) == 0x00000000 && W(m, 10) == 0x00000000 && W(m, 11) == 0x00000000
    ensures W(m, 12) == 0x00000000 && W(m, 13) == 0x00000000 && W(m, 14) == 0x00000000 && W(m, 15) == 0x00000018
  {
    hide W;
    forall t: nat | t < 16 ensures W(m, t) == m[t] {
      FirstWord(m, t);
    }
  }

  lemma Rounds0(m: seq<Word>) returns (s: Hash)
    requires |m| == 16
    ensures s == Rounds(INITIAL, m, 0) == Hash(0x67452301, 0xEFCDAB89, 0x98BADCFE, 0x10325476, 0xC3D2E1F0)
  {
    s := INITIAL;
  }

  lemma Rounds16(m: seq<Word>) returns (s: Hash)
    requires IsAbc(m)
    ensures |m| == 16 && s == Rounds(INITIAL, m, 16) == Hash(0x20BDD62F, 0x196BEE77, 0x644A3DA5, 0x1181ED99, 0x18C623F9)
    ensures W(m, 0) == 0x61626380 && W(m, 1) == 0x00000000 && W(m, 2) == 0x00000000 && W(m, 3) == 0x00000000
    ensures W(m, 4) == 0x00000000 && W(m, 5) == 0x00000000 && W(m, 6) == 0x00000000 && W(m, 7) == 0x00000000
    ensures W(m, 8) == 0x00000000 && W(m, 9) == 0x00000000 && W(m, 10) == 0x00000000 && W(m, 11) == 0x00000000
    ensures W(m, 12) == 0x00000000 && W(m, 13) == 0x00000000 && W(m, 14) == 0x00000000 && W(m, 15) == 0x00000018
  {
    hide IsAbc, Rounds;
    Words0(m);
    s := Rounds0(m);
    s := Next(m, 0, s, 0x61626380, 0x0116FC33);
    s := Next(m, 1, s, 0x00000000, 0x8990536D);
    s := Next(m, 2, s, 0x00000000, 0xA1390F08);
    s := Next(m, 3, s, 0x00000000, 0xCDD8E11B);
    s := Next(m, 4, s, 0x00000000, 0xCFD499DE);
    s := Next(m, 5, s, 0x00000000, 0x3FC7CA40);
    s := Next(m, 6, s, 0x00000000, 0x993E30C1);
    s := Next(m, 7, s, 0x00000000, 0x9E8C07D4);
    s := Next(m, 8, s, 0x00000000, 0x4B6AE328);
    s := Next(m, 9, s, 0x00000000, 0x8351F929);
    s := Next(m, 10, s, 0x00000000, 0xFBDA9E89);
    s := Next(m, 11, s, 0x00000000, 0x63188FE4);
    s := Next(m, 12, s, 0x00000000, 0x4607B664);
    s := Next(m, 13, s, 0x00000000, 0x9128F695);
    s := Next(m, 14, s, 0x00000000, 0x196BEE77);
    s := Next(m, 15, s, 0x00000018, 0x20BDD62F);
  }

  lemma Rounds32(m: seq<Word>) returns (s: Hash)
    requires IsAbc(m)
    ensures |m| == 16 && s == Rounds(INITIAL, m, 32) == Hash(0x3B845D33, 0x1267B407, 0x717EEBD7, 0xA0DC2D4B, 0xD2AA1365)
    ensures W(m, 16) == 0xC2C4C700 && W(m, 17) == 0x00000000 && W(m, 18) == 0x00000030 && W(m, 19) == 0x85898E01
    ensures W(m, 20) == 0x00000000 && W(m, 21) == 0x00000060 && W(m, 22) == 0x0B131C03 && W(m, 23) == 0x00000030
    ensures W(m, 24) == 0x85898EC1 && W(m, 25) == 0x16263806 && W(m, 26) == 0x00000000 && W(m, 27) == 0x00000180
    ensures W(m, 28) == 0x2C4C700C && W(m, 29) == 0x000000F0 && W(m, 30) == 0x93AFB507 && W(m, 31) == 0x5898E048
  {
    hide IsAbc, Rounds;
    s := Rounds16(m);
    s := Next(m, 16, s, 0xC2C4C700, 0x4E925823);
    s := Next(m, 17, s, 0x00000000, 0x82AA6728);
    s := Next(m, 18, s, 0x00000030, 0xDC64901D);
    s := Next(m, 19, s, 0x85898E01, 0xFD9E1D7D);
    s := Next(m, 20, s, 0x00000000, 0x1A37B0CA);
    s := Next(m, 21, s, 0x00000060, 0x33A23BFC);
    s := Next(m, 22, s, 0x0B131C03, 0x21283486);
    s := Next(m, 23, s, 0x00000030, 0xD541F12D);
    s := Next(m, 24, s, 0x85898EC1, 0xC7567DC6);
    s := Next(m, 25, s, 0x16263806, 0x48413BA4);
    s := Next(m, 26, s, 0x00000000, 0xBE35FBD5);
    s := Next(m, 27, s, 0x00000180, 0x4AA84D97);
    s := Next(m, 28, s, 0x2C4C700C, 0x8370B52E);
    s := Next(m, 29, s, 0x000000F0, 0xC5FBAF5D);
    s := Next(m, 30, s, 0x93AFB507, 0x1267B407);
    s := Next(m, 31, s, 0x5898E048, 0x3B845D33);
  }

  lemma Rounds48(m: seq<Word>) returns (s: Hash)
    requires IsAbc(m)
    ensures |m| == 16 && s == Rounds(INITIAL, m, 48) == Hash(0xBEAD02CA, 0xA01B846C, 0x8714787C, 0x503CA382, 0xFB86C6AB)
    ensures W(m, 32) == 0x8E9A9202 && W(m, 33) == 0x00000600 && W(m, 34) == 0xB131C0F0 && W(m, 35) == 0x16263BC6
    ensures W(m, 36) == 0x4EBED41E && W(m, 37) == 0x626380A1 && W(m, 38) == 0x16263806 && W(m, 39) == 0x000018C0
    ensures W(m, 40) == 0xD2E138C4 && W(m, 41) == 0x00000F00 && W(m, 42) == 0x3AFB5079 && W(m, 43) == 0x898E04E5
    ensures W(m, 44) == 0xE2BA3C2B && W(m, 45) == 0x000060C0 && W(m, 46) == 0x053A37CD && W(m, 47) == 0x74458547
  {
    hide IsAbc, Rounds;
    s := Rounds32(m);
    s := Next(m, 32, s, 0x8E9A9202, 0x046FAA0A);
    s := Next(m, 33, s, 0x00000600, 0x2C0EBC11);
    s := Next(m, 34, s, 0xB131C0F0, 0x21796AD4);
    s := Next(m, 35, s, 0x16263BC6, 0xDCBBB0CB);
    s := Next(m, 36, s, 0x4EBED41E, 0x0F511FD8);
    s := Next(m, 37, s, 0x626380A1, 0xDC63973F);
    s := Next(m, 38, s, 0x16263806, 0x4C986405);
    s := Next(m, 39, s, 0x000018C0, 0x32DE1CBA);
    s := Next(m, 40, s, 0xD2E138C4, 0xFC87DEDF);
    s := Next(m, 41, s, 0x00000F00, 0x970A0D5C);
    s := Next(m, 42, s, 0x3AFB5079, 0x7F193DC5);
    s := Next(m, 43, s, 0x898E04E5, 0xEE1B1AAF);
    s := Next(m, 44, s, 0xE2BA3C2B, 0x40F28E09);
    s := Next(m, 45, s, 0x000060C0, 0x1C51E1F2);
    s := Next(m, 46, s, 0x053A37CD, 0xA01B846C);
    s := Next(m, 47, s, 0x74458547, 0xBEAD02CA);
  }

  lemma Rounds64(m: seq<Word>) returns (s: Hash)
    requires IsAbc(m)
    ensures |m| == 16 && s == Rounds(INITIAL, m, 64) == Hash(0x6B61C9E1, 0xB66C020B, 0x9523272C, 0xF5D5B051, 0x8FD4B796)
    ensures W(m, 48) == 0xDA9415ED && W(m, 49) == 0x26380A16 && W(m, 50) == 0x626383A1 && W(m, 51) == 0x4EBF54DE
    ensures W(m, 52) == 0x3835B44B && W(m, 53) == 0x0000F600 && W(m, 54) == 0x1E84C7A3 && W(m, 55) == 0x98E04D98
    ensures W(m, 56) == 0x651D16A0 && W(m, 57) == 0x62658CA1 && W(m, 58) == 0x458544D6 && W(m, 59) == 0x44584CB7
    ensures W(m, 60) == 0x7BA06619 && W(m, 61) == 0x6380AEA2 && W(m, 62) == 0x0AE55269 && W(m, 63) == 0x627B49A1
  {
    hide IsAbc, Rounds;
    s := Rounds48(m);
    s := Next(m, 48, s, 0xDA9415ED, 0xBAF39337);
    s := Next(m, 49, s, 0x26380A16, 0x120731C5);
    s := Next(m, 50, s, 0x626383A1, 0x641DB2CE);
    s := Next(m, 51, s, 0x4EBF54DE, 0x3847AD66);
    s := Next(m, 52, s, 0x3835B44B, 0xE490436D);
    s := Next(m, 53, s, 0x0000F600, 0x27E9F1D8);
    s := Next(m, 54, s, 0x1E84C7A3, 0x7B71F76D);
    s := Next(m, 55, s, 0x98E04D98, 0x5E6456AF);
    s := Next(m, 56, s, 0x651D16A0, 0xC846093F);
    s := Next(m, 57, s, 0x62658CA1, 0xD262FF50);
    s := Next(m, 58, s, 0x458544D6, 0x09D785FD);
    s := Next(m, 59, s, 0x44584CB7, 0x3F52DE5A);
    s := Next(m, 60, s, 0x7BA06619, 0xD756C147);
    s := Next(m, 61, s, 0x6380AEA2, 0x548C9CB2);
    s := Next(m, 62, s, 0x0AE55269, 0xB66C020B);
    s := Next(m, 63, s, 0x627B49A1, 0x6B61C9E1);
  }

  lemma Rounds80(m: seq<Word>) returns (s: Hash)
    requires IsAbc(m)
    ensures |m| == 16 && s == Rounds(INITIAL, m, 80) == Hash(0x42541B35, 0x5738D5E1, 0x21834873, 0x681E6DF6, 0xD8FDF6AD)
    ensures W(m, 64) == 0x7CD45C9D && W(m, 65) == 0x000F0000 && W(m, 66) == 0xFB50753A && W(m, 67) == 0xEC6765E8
    ensures W(m, 68) == 0xBA3C2BE2 && W(m, 69) == 0x0060C000 && W(m, 70) == 0x3A37CD05 && W(m, 71) == 0x458546F4
    ensures W(m, 72) == 0xB8599DD6 && W(m, 73) == 0x380A1A26 && W(m, 74) == 0x01E02203 && W(m, 75) == 0xE7CC3456
    ensures W(m, 76) == 0xE6E60B69 && W(m, 77) == 0x00F60A00 && W(m, 78) == 0x5795EF4F && W(m, 79) == 0x822E0879
  {
    hide IsAbc, Rounds;
    s := Rounds64(m);
    s := Next(m, 64, s, 0x7CD45C9D, 0x19DFA7AC);
    s := Next(m, 65, s, 0x000F0000, 0x101655F9);
    s := Next(m, 66, s, 0xFB50753A, 0x0C3DF2B4);
    s := Next(m, 67, s, 0xEC6765E8, 0x78DD4D2B);
    s := Next(m, 68, s, 0xBA3C2BE2, 0x497093C0);
    s := Next(m, 69, s, 0x0060C000, 0x3F2588C2);
    s := Next(m, 70, s, 0x3A37CD05, 0xC199F8C7);
    s := Next(m, 71, s, 0x458546F4, 0x39859DE7);
    s := Next(m, 72, s, 0xB8599DD6, 0xEDB42DE4);
    s := Next(m, 73, s, 0x380A1A26, 0x11793F6F);
    s := Next(m, 74, s, 0x01E02203, 0x5EE76897);
    s := Next(m, 75, s, 0xE7CC3456, 0x63F7DAB7);
    s := Next(m, 76, s, 0xE6E60B69, 0xA079B7D9);
    s := Next(m, 77, s, 0x00F60A00, 0x860D21CC);
    s := Next(m, 78, s, 0x5795EF4F, 0x5738D5E1);
    s := Next(m, 79, s, 0x822E0879, 0x42541B35);
  }

  lemma FirstWord(m: seq<Word>, t: nat)
    requires |m| == 16 && t < 16
    ensures W(m, t) == m[t]
  {
  }

  /** What is hashed of a message of three bytes. */
  lemma ThreeBytes(message: seq<Byte>)
    requires |message| == 3
    ensures message + Padding(3) == message + [0x80] + Copies<Byte>(0, 59) + [24]
  {
    hide ByteFor;
    assert PadLength(3) == 52;
    EightBytes();
    assert Copies<Byte>(0, 59) == Copies<Byte>(0, 52) + Copies<Byte>(0, 7);
  }

  lemma EightBytes()
    ensures BytesOf(24, 8) == Copies<Byte>(0, 7) + [24]
  {
    Zeros(7);
    assert BytesOf(24, 8) == BytesOf(0, 7) + [24];
  }

  lemma {:induction false} Zeros(k: nat)
    ensures BytesOf(0, k) == Copies<Byte>(0, k)
  {
    if k > 0 {
      Zeros(k - 1);
      assert BytesOf(0, k) == BytesOf(0, k - 1) + [0];
      assert Copies<Byte>(0, k) == Copies<Byte>(0, k - 1) + [0];
    }
  }

  lemma AbcBlock(bytes: seq<Byte>)
    requires bytes == [0x61, 0x62, 0x63] + [0x80] + Copies<Byte>(0, 59) + [24]
    ensures |bytes| == 64 && IsAbc(WordsOf(bytes))
  {
    hide BigEndian;
    var m := WordsOf(bytes);
    assert bytes[0] == 0x61 && bytes[1] == 0x62 && bytes[2] == 0x63 && bytes[3] == 0x80 && bytes[63] == 24;
    assert forall i :: 4 <= i < 63 ==> bytes[i] == 0;
    EndWords();
    assert m[0] == 0x61626380 && m[15] == 0x18;
    assert forall i :: 1 <= i < 15 ==> m[i] == 0;
  }

  lemma EndWords()
    ensures BigEndian(0x61, 0x62, 0x63, 0x80) == 0x61626380
    ensures BigEndian(0, 0, 0, 24) == 0x18 && BigEndian(0, 0, 0, 0) == 0
  {
  }

  /** The digest of "abc". */
  lemma DigestOfAbc()
    ensures Sha1([0x61, 0x62, 0x63]) == [0xA9, 0x99, 0x3E, 0x36, 0x47, 0x06, 0x81, 0x6A, 0xBA, 0x3E,
                                         0x25, 0x71, 0x78, 0x50, 0xC2, 0x6C, 0x9C, 0xD0, 0xD8, 0x9D]
  {
    hide Rounds, WordsOf, Padding, DigestOf, IsAbc;
    var message: seq<Byte> := [0x61, 0x62, 0x63];
    var bytes := message + Padding(3);
    ThreeBytes(message);
    AbcBlock(bytes);
    var s := Rounds80(WordsOf(bytes));
    assert bytes[..64] == bytes && bytes[64..] == [];
    var h := Compress(INITIAL, bytes);
    assert CompressAll(INITIAL, bytes) == CompressAll(h, []) == h;
    assert h == Hash(0xA9993E36, 0x4706816A, 0xBA3E2571, 0x7850C26C, 0x9CD0D89D);
    WrittenOut(h);
  }

  lemma WrittenOut(h: Hash)
    requires h == Hash(0xA9993E36, 0x4706816A, 0xBA3E2571, 0x7850C26C, 0x9CD0D89D)
    ensures DigestOf(h) == [0xA9, 0x99, 0x3E, 0x36, 0x47, 0x06, 0x81, 0x6A, 0xBA, 0x3E,
                            0x25, 0x71, 0x78, 0x50, 0xC2, 0x6C, 0x9C, 0xD0, 0xD8, 0x9D]
  {
  }
}
