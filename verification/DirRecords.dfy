/** Little-endian fields in a buffer, and directory records: how one is written, patched and read back. */
module DirRecords {
  import opened Arithmetic
  import opened Sequences

  type Byte = x: nat | x < 256

  /** ext4_dir_entry_2 at a given offset. */
  datatype Rec = Rec(off: nat, inode: nat, recLen: nat, fileType: Byte, name: seq<Byte>)

  predicate Fits(r: Rec) {
    r.inode < 0x1_0000_0000 && r.recLen < 0x1_0000 && |r.name| < 256
  }

  function Bytes16(v: nat): (bs: seq<Byte>)
    requires v < 0x1_0000
    ensures |bs| == 2
  {
    [v % 256, v / 256]
  }

  function Bytes32(v: nat): (bs: seq<Byte>)
    requires v < 0x1_0000_0000
    ensures |bs| == 4
  {
    Bytes16(v % 0x1_0000) + Bytes16(v / 0x1_0000)
  }

  function Get16(d: seq<Byte>, at: nat): nat
    requires at + 2 <= |d|
  {
    d[at] as int + 256 * (d[at + 1] as int)
  }

  function Get32(d: seq<Byte>, at: nat): nat
    requires at + 4 <= |d|
  {
    Get16(d, at) + 0x1_0000 * Get16(d, at + 2)
  }

  function Encoded(r: Rec): (bs: seq<Byte>)
    requires Fits(r)
    ensures |bs| == 8 + |r.name|
  {
    Bytes32(r.inode) + Bytes16(r.recLen) + [|r.name|, r.fileType] + r.name
  }

  ghost predicate Holds(d: seq<Byte>, r: Rec) {
    Fits(r) && r.off + 8 + |r.name| <= |d| && d[r.off..r.off + 8 + |r.name|] == Encoded(r)
  }

  /** What a reader finds where a record was written. */
  lemma ReadsBack(d: seq<Byte>, r: Rec)
    requires Holds(d, r)
    ensures r.off + 8 + |r.name| <= |d|
    ensures Get32(d, r.off) == r.inode && Get16(d, r.off + 4) == r.recLen
    ensures d[r.off + 6] == |r.name| && d[r.off + 7] == r.fileType
    ensures d[r.off + 8..r.off + 8 + |r.name|] == r.name
  {
    var s := d[r.off..r.off + 8 + |r.name|];
    assert s[..4] == Bytes32(r.inode) && s[4..6] == Bytes16(r.recLen) && s[8..] == r.name;
    assert forall k :: 0 <= k < |s| ==> d[r.off + k] == s[k];
    assert d[r.off..r.off + 4] == s[..4] && d[r.off + 4..r.off + 6] == s[4..6];
    Got16(d, r.off, r.inode % 0x1_0000);
    Got16(d, r.off + 2, r.inode / 0x1_0000);
    Got16(d, r.off + 4, r.recLen);
  }

  lemma Got16(d: seq<Byte>, at: nat, v: nat)
    requires at + 2 <= |d| && v < 0x1_0000 && d[at] == Bytes16(v)[0] && d[at + 1] == Bytes16(v)[1]
    ensures Get16(d, at) == v
  {
  }

  /** memcpy into a buffer */
  method Put(data: array<Byte>, at: nat, bs: seq<Byte>)
    requires at + |bs| <= data.Length
    modifies data
    ensures data[..] == Overlaid(old(data[..]), at, bs)
  {
    var k := 0;
    while k < |bs|
      invariant 0 <= k <= |bs|
      invariant data[..] == Overlaid(old(data[..]), at, bs[..k])
    {
      data[at + k] := bs[k];
      k := k + 1;
    }
    assert bs[..|bs|] == bs;
  }

  lemma OverlaidElsewhere(d: seq<Byte>, at: nat, bs: seq<Byte>, lo: nat, hi: nat)
    requires at + |bs| <= |d| && lo <= hi <= |d| && (hi <= at || at + |bs| <= lo)
    ensures Overlaid(d, at, bs)[lo..hi] == d[lo..hi]
  {
  }

  /** Records on other bytes are not disturbed. */
  lemma HoldsStill(d: seq<Byte>, at: nat, bs: seq<Byte>, r: Rec)
    requires Holds(d, r) && at + |bs| <= |d|
    requires r.off + 8 + |r.name| <= at || at + |bs| <= r.off
    ensures Holds(Overlaid(d, at, bs), r)
  {
    OverlaidElsewhere(d, at, bs, r.off, r.off + 8 + |r.name|);
  }

  lemma Written(d: seq<Byte>, r: Rec)
    requires Fits(r) && r.off + 8 + |r.name| <= |d|
    ensures Holds(Overlaid(d, r.off, Encoded(r)), r)
  {
    assert Overlaid(d, r.off, Encoded(r))[r.off..r.off + 8 + |r.name|] == Encoded(r);
  }

  lemma LenPatched(d: seq<Byte>, r: Rec, recLen: nat)
    requires Holds(d, r) && recLen < 0x1_0000
    ensures Holds(Overlaid(d, r.off + 4, Bytes16(recLen)), r.(recLen := recLen))
  {
    var s, r2 := d[r.off..r.off + 8 + |r.name|], r.(recLen := recLen);
    var e := Overlaid(d, r.off + 4, Bytes16(recLen));
    assert e[r.off..r.off + 8 + |r.name|] == s[..4] + Bytes16(recLen) + s[6..];
    assert s[..4] == Bytes32(r.inode) && s[6..] == [|r.name|, r.fileType] + r.name;
    assert Encoded(r2) == Bytes32(r.inode) + Bytes16(recLen) + ([|r.name|, r.fileType] + r.name);
  }

  lemma InodePatched(d: seq<Byte>, r: Rec, inode: nat)
    requires Holds(d, r) && inode < 0x1_0000_0000
    ensures Holds(Overlaid(d, r.off, Bytes32(inode)), r.(inode := inode))
  {
    var s, r2 := d[r.off..r.off + 8 + |r.name|], r.(inode := inode);
    var e := Overlaid(d, r.off, Bytes32(inode));
    assert e[r.off..r.off + 8 + |r.name|] == Bytes32(inode) + s[4..];
    assert s[4..] == Bytes16(r.recLen) + [|r.name|, r.fileType] + r.name;
    assert Encoded(r2) == Bytes32(inode) + (Bytes16(r.recLen) + [|r.name|, r.fileType] + r.name);
  }
}
