/** Building a directory's blocks in memory, and walking them. */
module DirTool {
  import opened Arithmetic
  import opened Sequences
  import opened DirRecords
  import opened DirBlocks

  /** What a record says of a file. */
  datatype Dentry = Dentry(inode: nat, fileType: Byte, name: seq<Byte>)

  function DentryOf(r: Rec): Dentry {
    Dentry(r.inode, r.fileType, r.name)
  }

  function DentriesOf(rs: seq<Rec>): (es: seq<Dentry>)
    ensures |es| == |rs| && forall i :: 0 <= i < |rs| ==> es[i] == DentryOf(rs[i])
  {
    seq(|rs|, i requires 0 <= i < |rs| => DentryOf(rs[i]))
  }

  predicate Room(blockSize: Positive) {
    Size(255) <= blockSize < 0x1_0000
  }

  /** A record of full length for its name fits a block, so it stays in one once it starts the next. */
  lemma SizeFits(n: nat, blockSize: Positive)
    requires n <= 255 && Room(blockSize)
    ensures 8 + n <= Size(n) <= blockSize
  {
    SizeBounds(n);
    SizeBounds(255);
    assert Size(255) == 264;
  }

  lemma InOne(off: nat, size: nat, blockSize: Positive)
    requires 1 <= size && off % blockSize + size <= blockSize
    ensures off / blockSize == (off + size - 1) / blockSize
  {
    var q, r := off / blockSize, off % blockSize;
    assert off == q * blockSize + r;
    DivModUnique(q, blockSize, r + size - 1);
  }

  /** A record that ends short of a block boundary may be stretched up to it. */
  lemma Stretched(r: Rec, end: nat, blockSize: Positive)
    requires InOneBlock(r, blockSize) && r.off + r.recLen == end && end % blockSize != 0
    ensures var more := blockSize - end % blockSize;
      InOneBlock(r.(recLen := r.recLen + more), blockSize) && r.recLen + more <= blockSize
  {
    var u := end / blockSize;
    OneBefore(end, blockSize);
    BlockEnd(end, blockSize);
    assert r.off / blockSize == u && r.off >= u * blockSize;
  }

  lemma OneBefore(end: nat, blockSize: Positive)
    requires end % blockSize != 0
    ensures (end - 1) / blockSize == end / blockSize
  {
    assert end - 1 == end / blockSize * blockSize + (end % blockSize - 1);
    DivModUnique(end / blockSize, blockSize, end % blockSize - 1);
  }

  lemma BlockEnd(end: nat, blockSize: Positive)
    ensures var e := end + (blockSize - end % blockSize);
      e == end / blockSize * blockSize + blockSize && (e - 1) / blockSize == end / blockSize
  {
    assert end == end / blockSize * blockSize + end % blockSize;
    DivModUnique(end / blockSize, blockSize, blockSize - 1);
  }

  /** Stretching the last record. */
  lemma TileStretched(rs: seq<Rec>, hi: nat, recLen: nat, blockSize: Positive)
    requires Tile(rs, 0, hi, blockSize) && rs != []
    requires recLen >= rs[|rs| - 1].recLen && InOneBlock(rs[|rs| - 1].(recLen := recLen), blockSize)
    ensures var n := |rs| - 1;
      Tile(rs[n := rs[n].(recLen := recLen)], 0, hi + recLen - rs[n].recLen, blockSize)
  {
    var n := |rs| - 1;
    TileLast(rs, 0, hi, blockSize);
    TileAdd(rs[..n], 0, rs[n].off, rs[n].(recLen := recLen), blockSize);
    assert rs[n := rs[n].(recLen := recLen)] == rs[..n] + [rs[n].(recLen := recLen)];
  }

  /** Records that differ in length only. */
  ghost predicate SameButLength(rs: seq<Rec>, rs2: seq<Rec>) {
    |rs| == |rs2| && forall i :: 0 <= i < |rs| ==> rs2[i] == rs[i].(recLen := rs2[i].recLen)
  }

  lemma LastRead(d: seq<Byte>, rs: seq<Rec>)
    requires AllHold(d, rs) && rs != []
    ensures var r := rs[|rs| - 1]; r.off + 6 <= |d| && Get16(d, r.off + 4) == r.recLen
  {
    ReadsBack(d, rs[|rs| - 1]);
  }

  /** Patching the length of the last record leaves the others as they are. */
  lemma LastPatched(d: seq<Byte>, rs: seq<Rec>, hi: nat, recLen: nat, blockSize: Positive)
    requires rs != [] && AllHold(d, rs) && Tile(rs, 0, hi, blockSize) && recLen < 0x1_0000
    ensures var n := |rs| - 1;
      rs[n].off + 6 <= |d| && AllHold(Overlaid(d, rs[n].off + 4, Bytes16(recLen)), rs[n := rs[n].(recLen := recLen)])
  {
    var n := |rs| - 1;
    assert Holds(d, rs[n]);
    LenPatched(d, rs[n], recLen);
    var e, rs2 := Overlaid(d, rs[n].off + 4, Bytes16(recLen)), rs[n := rs[n].(recLen := recLen)];
    forall i | 0 <= i < |rs2| ensures Holds(e, rs2[i]) {
      if i < n {
        TileApart(rs, 0, hi, i, n, blockSize);
        TileBounds(rs, 0, hi, i, blockSize);
        HoldsStill(d, rs[n].off + 4, Bytes16(recLen), rs[i]);
      }
    }
  }

  /** A new record behind the others. */
  lemma RecordAdded(d: seq<Byte>, rs: seq<Rec>, hi: nat, r: Rec, blockSize: Positive)
    requires AllHold(d, rs) && Tile(rs, 0, hi, blockSize) && r.off == hi && Fits(r) && hi + 8 + |r.name| <= |d|
    ensures AllHold(Overlaid(d, hi, Encoded(r)), rs + [r])
  {
    Written(d, r);
    forall i | 0 <= i < |rs + [r]| ensures Holds(Overlaid(d, hi, Encoded(r)), (rs + [r])[i]) {
      if i < |rs| {
        TileBounds(rs, 0, hi, i, blockSize);
        HoldsStill(d, hi, Encoded(r), rs[i]);
      }
    }
  }

  class Builder {
    const blockSize: Positive
    const data: array<Byte>
    var offset: nat
    var prev: nat
    ghost var recs: seq<Rec>

    /** Everything added so far is there, and prev is the last of it. */
    ghost predicate Valid()
      reads this, data
    {
      && Room(blockSize) && offset <= data.Length
      && Tile(recs, 0, offset, blockSize) && AllHold(data[..], recs)
      && (recs != [] ==> prev == recs[|recs| - 1].off)
    }

    constructor (blockSize: Positive, len: nat)
      requires Room(blockSize)
      ensures Valid() && fresh(data) && data.Length == len && offset == 0 && recs == []
      ensures this.blockSize == blockSize && forall k :: 0 <= k < len ==> data[k] == 0
    {
      this.blockSize := blockSize;
      data := new Byte[len](_ => 0);
      offset, prev, recs := 0, 0, [];
    }

    /** prev->rec_len += more */
    method Stretch(more: nat)
      requires Valid() && recs != [] && offset + more <= data.Length
      requires var r := recs[|recs| - 1]; r.recLen + more <= blockSize && InOneBlock(r.(recLen := r.recLen + more), blockSize)
      modifies this`offset, this`recs, data
      ensures Valid() && offset == old(offset) + more && SameButLength(old(recs), recs)
    {
      hide Tile, Overlaid, Bytes16, InOneBlock, AllHold, Get16;
      ghost var n := |recs| - 1;
      LastRead(data[..], recs);
      var recLen := Get16(data[..], prev + 4) + more;
      LastPatched(data[..], recs, offset, recLen, blockSize);
      TileStretched(recs, offset, recLen, blockSize);
      Put(data, prev + 4, Bytes16(recLen));
      recs := recs[n := recs[n].(recLen := recLen)];
      offset := offset + more;
    }

    /** The padding that add_dentry puts in when the next record would cross a block boundary. */
    method PadToBlock(size: nat)
      requires Valid() && 1 <= size <= blockSize && (recs == [] ==> offset == 0)
      requires offset % blockSize + size > blockSize ==> offset + (blockSize - offset % blockSize) <= data.Length
      modifies this`offset, this`recs, data
      ensures Valid() && SameButLength(old(recs), recs)
      ensures offset == if old(offset) % blockSize + size > blockSize then old(offset) + (blockSize - old(offset) % blockSize)
                        else old(offset)
      ensures offset % blockSize + size <= blockSize
    {
      hide Tile, AllHold, InOneBlock, Crosses, Boundary, SameButLength, Room;
      PadFacts(offset, size, blockSize);
      UnchangedLength(recs);
      if Crosses(offset, size, blockSize) {
        LastInOne(recs, offset, blockSize);
        Stretched(recs[|recs| - 1], offset, blockSize);
        Stretch(Boundary(offset, size, blockSize) - offset);
      }
    }

    /** add_dentry */
    method AddDentry(inode: nat, name: seq<Byte>, fileType: Byte) returns (at: nat)
      requires Valid() && |name| <= 255 && inode < 0x1_0000_0000
      requires recs == [] ==> offset == 0
      requires Grown(offset, |name|, blockSize) <= data.Length
      modifies this, data
      ensures Valid() && offset == Grown(old(offset), |name|, blockSize)
      ensures |recs| == |old(recs)| + 1 && SameButLength(old(recs), recs[..|old(recs)|])
      ensures recs[|old(recs)|] == Rec(at, inode, recs[|old(recs)|].recLen, fileType, name)
    {
      hide Tile, AllHold, Overlaid, InOneBlock, Encoded, Size;
      var recLen := Size(|name|);
      SizeFits(|name|, blockSize);
      PadToBlock(recLen);
      at := offset;
      InOne(offset, recLen, blockSize);
      ghost var r := Rec(offset, inode, recLen, fileType, name);
      NewRecordOk(r, blockSize);
      RecordAdded(data[..], recs, offset, r, blockSize);
      TileAdd(recs, 0, offset, r, blockSize);
      Put(data, offset, Encoded(Rec(offset, inode, recLen, fileType, name)));
      recs := recs + [r];
      prev := offset;
      offset := offset + recLen;
    }
  }

  /** start_block != end_block */
  predicate Crosses(off: nat, size: nat, blockSize: Positive)
    requires size >= 1
  {
    off / blockSize != (off + size - 1) / blockSize
  }

  /** end_block * block_size */
  function Boundary(off: nat, size: nat, blockSize: Positive): nat
    requires size >= 1
  {
    (off + size - 1) / blockSize * blockSize
  }

  lemma PadFacts(off: nat, size: nat, blockSize: Positive)
    requires 1 <= size <= blockSize
    ensures Crosses(off, size, blockSize) <==> off % blockSize + size > blockSize
    ensures Crosses(off, size, blockSize) ==>
      && Boundary(off, size, blockSize) == off + (blockSize - off % blockSize)
      && off % blockSize > 0 && Boundary(off, size, blockSize) % blockSize == 0
  {
    CrossesIff(off, size, blockSize);
    StartsBlock((off + size - 1) / blockSize, blockSize);
  }

  lemma UnchangedLength(rs: seq<Rec>)
    ensures SameButLength(rs, rs)
  {
  }

  lemma StartsBlock(b: nat, blockSize: Positive)
    ensures b * blockSize % blockSize == 0
  {
    DivModUnique(b, blockSize, 0);
  }

  lemma NewRecordOk(r: Rec, blockSize: Positive)
    requires r.recLen >= 1 && r.off / blockSize == (r.off + r.recLen - 1) / blockSize
    ensures InOneBlock(r, blockSize)
  {
  }

  lemma LastInOne(rs: seq<Rec>, hi: nat, blockSize: Positive)
    requires Tile(rs, 0, hi, blockSize) && hi > 0
    ensures rs != [] && InOneBlock(rs[|rs| - 1], blockSize) && rs[|rs| - 1].off + rs[|rs| - 1].recLen == hi
  {
    TileLast(rs, 0, hi, blockSize);
  }
}
