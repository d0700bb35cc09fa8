/**
 make_directory's records, block by block, and the walk of recurse_dir over them: the walk sees the
 names that were added, in order, and ends where the directory ends.
 */
module DirBlocks {
  import opened Arithmetic
  import opened DirRecords

  /** 8 + ALIGN(name_len, 4) */
  function Size(n: nat): nat {
    8 + AlignUp(n, 4)
  }

  lemma SizeBounds(n: nat)
    ensures 8 + n <= Size(n) < 12 + n && Size(n) % 4 == 0
  {
    AlignUpBounds(n, 4);
  }

  /** One turn of dentry_size's loop. */
  function Grown(len: nat, n: nat, blockSize: Positive): nat {
    if len % blockSize + Size(n) > blockSize then len + (blockSize - len % blockSize) + Size(n) else len + Size(n)
  }

  /** dentry_size, from a given length on. */
  function Predicted(len: nat, names: seq<seq<Byte>>, blockSize: Positive): nat
    decreases |names|
  {
    if names == [] then len else Predicted(Grown(len, |names[0]|, blockSize), names[1..], blockSize)
  }

  const DOTS := 24

  method DentrySize(names: seq<seq<Byte>>, blockSize: Positive) returns (len: nat)
    ensures len == Predicted(DOTS, names, blockSize)
  {
    len := DOTS;
    var i := 0;
    assert names[0..] == names;
    while i < |names|
      invariant 0 <= i <= |names| && Predicted(len, names[i..], blockSize) == Predicted(DOTS, names, blockSize)
    {
      assert names[i..][0] == names[i] && names[i..][1..] == names[i + 1..];
      var dentryLen := Size(|names[i]|);
      if len % blockSize + dentryLen > blockSize {
        len := len + (blockSize - len % blockSize);
      }
      len := len + dentryLen;
      i := i + 1;
    }
  }

  lemma {:induction false} PredictedAtLeast(len: nat, names: seq<seq<Byte>>, blockSize: Positive)
    ensures Predicted(len, names, blockSize) >= len + 8 * |names|
    decreases |names|
  {
    if names != [] {
      SizeBounds(|names[0]|);
      PredictedAtLeast(Grown(len, |names[0]|, blockSize), names[1..], blockSize);
    }
  }

  // ---- a run of records ----

  /** The record lies in one block. */
  predicate InOneBlock(r: Rec, blockSize: Positive) {
    r.recLen >= 1 && r.off / blockSize == (r.off + r.recLen - 1) / blockSize
  }

  /** Records one behind the other from `lo` to `hi`, each in one block and long enough for its name. */
  ghost predicate Tile(rs: seq<Rec>, lo: nat, hi: nat, blockSize: Positive) {
    if rs == [] then lo == hi
    else
      && rs[0].off == lo && rs[0].recLen >= 8 + |rs[0].name| && InOneBlock(rs[0], blockSize)
      && Tile(rs[1..], lo + rs[0].recLen, hi, blockSize)
  }

  ghost predicate AllHold(d: seq<Byte>, rs: seq<Rec>) {
    forall i :: 0 <= i < |rs| ==> Holds(d, rs[i])
  }

  lemma {:induction false} TileAdd(rs: seq<Rec>, lo: nat, hi: nat, r: Rec, blockSize: Positive)
    requires Tile(rs, lo, hi, blockSize) && r.off == hi && r.recLen >= 8 + |r.name| && InOneBlock(r, blockSize)
    ensures Tile(rs + [r], lo, hi + r.recLen, blockSize)
  {
    if rs == [] {
      assert [r][1..] == [];
    } else {
      assert (rs + [r])[1..] == rs[1..] + [r];
      TileAdd(rs[1..], lo + rs[0].recLen, hi, r, blockSize);
    }
  }

  /** Everything but the last record, and the last one. */
  lemma {:induction false} TileLast(rs: seq<Rec>, lo: nat, hi: nat, blockSize: Positive)
    requires Tile(rs, lo, hi, blockSize) && rs != []
    ensures var r := rs[|rs| - 1];
      && Tile(rs[..|rs| - 1], lo, r.off, blockSize) && r.off + r.recLen == hi && lo <= r.off
      && r.recLen >= 8 + |r.name| && InOneBlock(r, blockSize)
  {
    if |rs| == 1 {
      assert rs[1..] == [];
    } else {
      TileLast(rs[1..], lo + rs[0].recLen, hi, blockSize);
      assert rs[..|rs| - 1][1..] == rs[1..][..|rs| - 2];
    }
  }

  lemma {:induction false} TileBounds(rs: seq<Rec>, lo: nat, hi: nat, i: nat, blockSize: Positive)
    requires Tile(rs, lo, hi, blockSize) && i < |rs|
    ensures lo <= rs[i].off && rs[i].off + 8 + |rs[i].name| <= rs[i].off + rs[i].recLen <= hi && InOneBlock(rs[i], blockSize)
  {
    if i > 0 {
      TileBounds(rs[1..], lo + rs[0].recLen, hi, i - 1, blockSize);
    } else {
      TileRises(rs[1..], lo + rs[0].recLen, hi, blockSize);
    }
  }

  lemma {:induction false} TileRises(rs: seq<Rec>, lo: nat, hi: nat, blockSize: Positive)
    requires Tile(rs, lo, hi, blockSize)
    ensures lo <= hi
  {
    if rs != [] {
      TileRises(rs[1..], lo + rs[0].recLen, hi, blockSize);
    }
  }

  lemma {:induction false} TileApart(rs: seq<Rec>, lo: nat, hi: nat, i: nat, j: nat, blockSize: Positive)
    requires Tile(rs, lo, hi, blockSize) && i < j < |rs|
    ensures rs[i].off + rs[i].recLen <= rs[j].off
  {
    if i == 0 {
      TileBounds(rs[1..], lo + rs[0].recLen, hi, j - 1, blockSize);
    } else {
      TileApart(rs[1..], lo + rs[0].recLen, hi, i - 1, j - 1, blockSize);
    }
  }

  /** Whether the record would reach into the next block, by blocks or by what is left of one. */
  lemma CrossesIff(off: nat, size: nat, blockSize: Positive)
    requires 1 <= size <= blockSize
    ensures var a, b := off / blockSize, (off + size - 1) / blockSize;
      && (a != b <==> off % blockSize + size > blockSize)
      && (a != b ==> b * blockSize == off + (blockSize - off % blockSize) && off % blockSize > 0)
  {
    var q, r := off / blockSize, off % blockSize;
    assert off == q * blockSize + r;
    if r + size <= blockSize {
      DivModUnique(q, blockSize, r + size - 1);
    } else {
      DivModUnique(q + 1, blockSize, r + size - 1 - blockSize);
      assert (q + 1) * blockSize == q * blockSize + blockSize;
    }
  }

  /** A block boundary after x and up to y parts their blocks. */
  lemma BoundaryBetween(x: nat, y: nat, b: nat, blockSize: Positive)
    requires x < b <= y && b % blockSize == 0
    ensures x / blockSize != y / blockSize
  {
    var q, u := b / blockSize, x / blockSize;
    assert b == q * blockSize && x == u * blockSize + x % blockSize;
    assert (u + 1) * blockSize == u * blockSize + blockSize;
    if u == y / blockSize {
      assert y == u * blockSize + y % blockSize;
      if q <= u {
        MulMonotone(q, u, blockSize);
      } else {
        MulMonotone(u + 1, q, blockSize);
      }
      assert false;
    }
  }

  /** Records lie on no two blocks, so every block boundary is where a record begins: blocks are tiled exactly. */
  lemma {:induction false} BoundaryStartsRecord(rs: seq<Rec>, lo: nat, hi: nat, b: nat, blockSize: Positive) returns (i: nat)
    requires Tile(rs, lo, hi, blockSize) && lo <= b < hi && b % blockSize == 0
    ensures i < |rs| && rs[i].off == b
  {
    if lo == b {
      i := 0;
    } else {
      if b < lo + rs[0].recLen {
        BoundaryBetween(lo, lo + rs[0].recLen - 1, b, blockSize);
      }
      i := BoundaryStartsRecord(rs[1..], lo + rs[0].recLen, hi, b, blockSize);
      i := i + 1;
    }
  }
}
