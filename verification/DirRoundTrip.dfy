/** A directory made from any names, types and inode numbers reads back as those. */
module DirRoundTrip {
  import opened Arithmetic
  import opened Sequences
  import opened DirRecords
  import opened DirBlocks
  import opened DirTool

  const DOT: seq<Byte> := [46]
  const DOTDOT: seq<Byte> := [46, 46]

  /** The records of a whole directory, in memory. */
  ghost predicate Directory(d: seq<Byte>, recs: seq<Rec>, blockSize: Positive) {
    AllHold(d, recs) && Tile(recs, 0, |d|, blockSize)
  }

  /** The entries before the first with inode 0, where recurse_dir stops. */
  function Live(recs: seq<Rec>): seq<Rec> {
    if recs == [] || recs[0].inode == 0 then [] else [recs[0]] + Live(recs[1..])
  }

  lemma {:induction false} LiveIsAll(recs: seq<Rec>)
    ensures Live(recs) == recs <==> forall i :: 0 <= i < |recs| ==> recs[i].inode != 0
  {
    if recs != [] {
      LiveIsAll(recs[1..]);
      if recs[0].inode != 0 {
        assert Live(recs) == recs ==> Live(recs[1..]) == recs[1..] by {
          assert Live(recs)[1..] == Live(recs[1..]);
        }
        if forall i :: 0 <= i < |recs| ==> recs[i].inode != 0 {
          assert forall i :: 0 <= i < |recs[1..]| ==> recs[1..][i] == recs[i + 1];
        }
        if forall i :: 0 <= i < |recs[1..]| ==> recs[1..][i].inode != 0 {
          assert forall i :: 1 <= i < |recs| ==> recs[i] == recs[1..][i - 1];
        }
      }
    }
  }

  /** What dirp points at; its name is as long as dirp->name_len says. */
  function DentryAt(d: seq<Byte>, at: nat): Dentry
    requires at + 8 <= |d| && at + 8 + d[at + 6] <= |d|
  {
    Dentry(Get32(d, at), d[at + 7], d[at + 8..at + 8 + d[at + 6]])
  }

  lemma HoldAt(d: seq<Byte>, recs: seq<Rec>, hi: nat, i: nat, blockSize: Positive)
    requires AllHold(d, recs) && Tile(recs, 0, hi, blockSize) && hi <= |d| && i < |recs|
    ensures var r := recs[i];
      && r.off + 8 <= |d| && Get32(d, r.off) == r.inode && Get16(d, r.off + 4) == r.recLen && r.recLen >= 8
      && r.off + 8 + d[r.off + 6] <= |d| && DentryAt(d, r.off) == DentryOf(r) && r.off + r.recLen <= hi
  {
    ReadsBack(d, recs[i]);
    TileBounds(recs, 0, hi, i, blockSize);
  }

  /** What the walk still has to report from record i on. */
  function EntriesFrom(recs: seq<Rec>, i: nat): seq<Dentry>
    requires i <= |recs|
  {
    DentriesOf(Live(recs[i..]))
  }

  lemma EntriesFromNext(recs: seq<Rec>, i: nat)
    requires i < |recs|
    ensures EntriesFrom(recs, i) == if recs[i].inode == 0 then [] else [DentryOf(recs[i])] + EntriesFrom(recs, i + 1)
  {
    assert recs[i..][1..] == recs[i + 1..];
  }

  lemma EntriesFromEnds(recs: seq<Rec>)
    ensures EntriesFrom(recs, |recs|) == [] && EntriesFrom(recs, 0) == DentriesOf(Live(recs))
  {
    assert recs[0..] == recs;
  }

  lemma {:induction false} NextAt(recs: seq<Rec>, lo: nat, hi: nat, i: nat, blockSize: Positive)
    requires Tile(recs, lo, hi, blockSize) && i < |recs|
    ensures recs[i].off + recs[i].recLen == if i + 1 < |recs| then recs[i + 1].off else hi
  {
    if i > 0 {
      NextAt(recs[1..], lo + recs[0].recLen, hi, i - 1, blockSize);
    }
  }

  /**
   Records from the start of the buffer to `hi`, and at most eight bytes behind them, which a walk takes
   for no record: a walk of the first or the last pass stops there, one of the second at an inode 0.
   */
  ghost predicate Walkable(d: seq<Byte>, recs: seq<Rec>, hi: nat, repair: bool, blockSize: Positive) {
    && Room(blockSize) && |d| % blockSize == 0 && AllHold(d, recs) && Tile(recs, 0, hi, blockSize) && hi <= |d| <= hi + 8
    && (repair && hi == |d| && |recs| > 1 ==> recs[|recs| - 1].recLen > 8)
    && (repair && hi < |d| ==> recs != [])
    && (!repair && hi < |d| ==> hi + 4 <= |d| && Get32(d, hi) == 0)
  }

  /** The last record, longer by so much. */
  function Longer(recs: seq<Rec>, more: nat): seq<Rec>
    requires recs != []
  {
    var n := |recs| - 1;
    recs[n := recs[n].(recLen := recs[n].recLen + more)]
  }

  /**
   The walk of recurse_dir over the buffer of a directory.  In the first and the last pass it gives what
   is left over behind the last record to that record, so that the records fill whole blocks again.
   */
  method WalkEntries(data: array<Byte>, repair: bool, ghost recs: seq<Rec>, ghost hi: nat, ghost blockSize: Positive)
    returns (es: seq<Dentry>)
    requires Walkable(data[..], recs, hi, repair, blockSize)
    modifies data
    ensures es == DentriesOf(Live(recs))
    ensures if repair && hi < data.Length && Live(recs) == recs
      then recs != [] && Directory(data[..], Longer(recs, data.Length - hi), blockSize)
      else data[..] == old(data[..])
  {
    hide Directory, Get16, Get32, DentryAt, DentryOf, EntriesFrom, DentriesOf, Live, Walkable, Longer, LiveTo, Overlaid, Bytes16, PlaceOf;
    es := [];
    var at, prev := 0, 0;
    ghost var i := 0;
    FirstAt(data[..], recs, hi, repair, blockSize);
    EntriesFromEnds(recs);
    while at < data.Length
      invariant 0 <= i <= |recs| && at == PlaceOf(recs, i, hi) && (i > 0 ==> at > 0 && prev == recs[i - 1].off)
      invariant es + EntriesFrom(recs, i) == DentriesOf(Live(recs)) && LiveTo(recs, i)
      invariant data[..] == old(data[..])
      decreases data.Length - at
    {
      PlaceOk(data[..], recs, hi, repair, i, blockSize);
      var leftover := data.Length - at;
      if repair && leftover <= 8 && at > 0 {
        LiveToAll(recs, i);
        Repaired(data[..], recs, hi, blockSize);
        Put(data, prev + 4, Bytes16(Get16(data[..], prev + 4) + leftover));
        return;
      }
      if Get32(data[..], at) == 0 {
        NotLive(recs, i);
        return;
      }
      OneMoreLive(recs, i);
      OneMoreEntry(es, recs, i);
      es := es + [DentryAt(data[..], at)];
      prev := at;
      at := at + Get16(data[..], at + 4);
      i := i + 1;
    }
    AtEndOf(data[..], recs, hi, repair, i, blockSize);
  }

  function PlaceOf(recs: seq<Rec>, i: nat, hi: nat): nat
    requires i <= |recs|
  {
    if i < |recs| then recs[i].off else hi
  }

  /** The records before the i-th are all in use. */
  ghost predicate LiveTo(recs: seq<Rec>, i: nat)
    requires i <= |recs|
  {
    forall k :: 0 <= k < i ==> recs[k].inode != 0
  }

  lemma OneMoreEntry(es: seq<Dentry>, recs: seq<Rec>, i: nat)
    requires i < |recs| && recs[i].inode != 0
    ensures es + EntriesFrom(recs, i) == es + [DentryOf(recs[i])] + EntriesFrom(recs, i + 1)
  {
    EntriesFromNext(recs, i);
  }

  lemma OneMoreLive(recs: seq<Rec>, i: nat)
    requires i < |recs| && LiveTo(recs, i) && recs[i].inode != 0
    ensures LiveTo(recs, i + 1)
  {
  }

  lemma LiveToAll(recs: seq<Rec>, i: nat)
    requires i <= |recs| && LiveTo(recs, i)
    ensures i == |recs| ==> Live(recs) == recs && EntriesFrom(recs, i) == []
  {
    LiveIsAll(recs);
    EntriesFromEnds(recs);
  }

  lemma NotLive(recs: seq<Rec>, i: nat)
    requires i <= |recs| && LiveTo(recs, i)
    ensures i < |recs| && recs[i].inode == 0 ==> Live(recs) != recs && EntriesFrom(recs, i) == []
    ensures i == |recs| ==> Live(recs) == recs && EntriesFrom(recs, i) == []
  {
    LiveToAll(recs, i);
    LiveIsAll(recs);
    if i < |recs| {
      EntriesFromNext(recs, i);
    }
  }

  lemma FirstAt(d: seq<Byte>, recs: seq<Rec>, hi: nat, repair: bool, blockSize: Positive)
    requires Walkable(d, recs, hi, repair, blockSize)
    ensures PlaceOf(recs, 0, hi) == 0 && LiveTo(recs, 0)
  {
  }

  /** What the walk finds at its i-th turn. */
  lemma PlaceOk(d: seq<Byte>, recs: seq<Rec>, hi: nat, repair: bool, i: nat, blockSize: Positive)
    requires Walkable(d, recs, hi, repair, blockSize) && i <= |recs| && PlaceOf(recs, i, hi) < |d|
    ensures var at := PlaceOf(recs, i, hi);
      if i < |recs| then
        && at + 8 <= |d| && Get32(d, at) == recs[i].inode && at + Get16(d, at + 4) == PlaceOf(recs, i + 1, hi)
        && PlaceOf(recs, i + 1, hi) > at && at + 8 + d[at + 6] <= |d| && DentryAt(d, at) == DentryOf(recs[i])
        && at == recs[i].off && (repair && |d| - at <= 8 ==> i == 0)
      else at == hi && (repair ==> |d| - at <= 8 && i > 0) && (!repair ==> at + 4 <= |d| && Get32(d, at) == 0)
  {
    hide Get16, Get32, DentryAt;
    if i < |recs| {
      HoldAt(d, recs, hi, i, blockSize);
      NextAt(recs, 0, hi, i, blockSize);
      if i + 1 < |recs| {
        HoldAt(d, recs, hi, i + 1, blockSize);
      }
    }
  }

  lemma AtEndOf(d: seq<Byte>, recs: seq<Rec>, hi: nat, repair: bool, i: nat, blockSize: Positive)
    requires Walkable(d, recs, hi, repair, blockSize) && i <= |recs| && PlaceOf(recs, i, hi) >= |d|
    ensures i == |recs| && hi == |d| && EntriesFrom(recs, i) == []
  {
    if i < |recs| {
      HoldAt(d, recs, hi, i, blockSize);
    }
    EntriesFromEnds(recs);
  }

  /** Giving the last record what is left over makes a whole directory. */
  lemma Repaired(d: seq<Byte>, recs: seq<Rec>, hi: nat, blockSize: Positive)
    requires Walkable(d, recs, hi, true, blockSize) && hi < |d|
    ensures recs != [] && hi > 0
    ensures var r, more := recs[|recs| - 1], |d| - hi;
      && r.off + 6 <= |d| && Get16(d, r.off + 4) + more < 0x1_0000
      && Directory(Overlaid(d, r.off + 4, Bytes16(Get16(d, r.off + 4) + more)), Longer(recs, more), blockSize)
  {
    hide Get16, Get32, Bytes16, Overlaid, AllHold, Tile, InOneBlock;
    var r, more := recs[|recs| - 1], |d| - hi;
    TileLast(recs, 0, hi, blockSize);
    LastRead(d, recs);
    RestOfBlock(hi, |d|, blockSize);
    Stretched(r, hi, blockSize);
    LastPatched(d, recs, hi, r.recLen + more, blockSize);
    TileStretched(recs, hi, r.recLen + more, blockSize);
  }

  lemma RestOfBlock(hi: nat, len: nat, blockSize: Positive)
    requires len % blockSize == 0 && hi < len <= hi + 8 && blockSize > 8
    ensures hi % blockSize != 0 && len == hi + (blockSize - hi % blockSize)
  {
    var t := len / blockSize;
    assert len == (t - 1) * blockSize + blockSize;
    DivModUnique(t - 1, blockSize, hi - (t - 1) * blockSize);
  }

  /** Where each entry's inode number goes, and what the records say so far. */
  ghost predicate EntriesAt(recs: seq<Rec>, names: seq<seq<Byte>>, types: seq<Byte>, n: nat, at: seq<nat>,
                            inode: nat, parent: nat)
    requires n <= |names| == |types|
  {
    && |recs| == n + 2 && |at| == n
    && DentryOf(recs[0]) == Dentry(inode, 2, DOT) && DentryOf(recs[1]) == Dentry(parent, 2, DOTDOT)
    && forall i :: 0 <= i < n ==> DentryOf(recs[i + 2]) == Dentry(0, types[i], names[i]) && recs[i + 2].off == at[i]
  }

  lemma EntriesMore(recs: seq<Rec>, recs2: seq<Rec>, names: seq<seq<Byte>>, types: seq<Byte>, n: nat, at: seq<nat>,
                    inode: nat, parent: nat)
    requires n < |names| == |types| && EntriesAt(recs, names, types, n, at, inode, parent)
    requires |recs2| == |recs| + 1 && SameButLength(recs, recs2[..|recs|])
    requires DentryOf(recs2[|recs|]) == Dentry(0, types[n], names[n])
    ensures EntriesAt(recs2, names, types, n + 1, at + [recs2[|recs|].off], inode, parent)
  {
    assert forall i :: 0 <= i < |recs| ==> recs2[..|recs|][i] == recs2[i];
  }

  lemma GrownAtMost(len: nat, names: seq<seq<Byte>>, i: nat, blockSize: Positive)
    requires i < |names|
    ensures Predicted(len, names[i..], blockSize) == Predicted(Grown(len, |names[i]|, blockSize), names[i + 1..], blockSize)
    ensures Grown(len, |names[i]|, blockSize) + 8 * (|names| - i - 1) <= Predicted(len, names[i..], blockSize)
  {
    assert names[i..][0] == names[i] && names[i..][1..] == names[i + 1..];
    PredictedAtLeast(Grown(len, |names[i]|, blockSize), names[i + 1..], blockSize);
  }

  lemma DotsFit(blockSize: Positive)
    requires Room(blockSize)
    ensures Grown(0, 1, blockSize) == 12 && Grown(12, 2, blockSize) == DOTS
  {
    assert Size(1) == 12 && Size(2) == 12 && Size(255) == 264;
  }

  /** The end of the directory is where its last block ends. */
  lemma EndOfBlocks(size: nat, blockSize: Positive)
    ensures var len := DivRoundUp(size, blockSize) * blockSize;
      len == if size % blockSize == 0 then size else size + (blockSize - size % blockSize)
  {
    var q, r := size / blockSize, size % blockSize;
    assert size == q * blockSize + r;
    if r == 0 {
      DivModUnique(q, blockSize, blockSize - 1);
      assert size + blockSize - 1 == q * blockSize + (blockSize - 1);
    } else {
      DivModUnique(q + 1, blockSize, r - 1);
      assert size + blockSize - 1 == (q + 1) * blockSize + (r - 1);
      assert (q + 1) * blockSize == q * blockSize + blockSize;
    }
  }

  /** make_directory: "internal error: dentry ... past" is never reported. */
  method MakeDirectory(blockSize: Positive, inode: nat, parent: nat, names: seq<seq<Byte>>, types: seq<Byte>)
    returns (b: Builder, at: seq<nat>)
    requires Room(blockSize) && inode < 0x1_0000_0000 && parent < 0x1_0000_0000
    requires |types| == |names| && forall i :: 0 <= i < |names| ==> 1 <= |names[i]| <= 255
    ensures fresh(b) && fresh(b.data) && b.blockSize == blockSize && b.data.Length % blockSize == 0
    ensures Directory(b.data[..], b.recs, blockSize) && EntriesAt(b.recs, names, types, |names|, at, inode, parent)
  {
    hide Tile, AllHold, Grown, Predicted, EntriesAt;
    var size := DentrySize(names, blockSize);
    var len := DivRoundUp(size, blockSize) * blockSize;
    EndOfBlocks(size, blockSize);
    StartsBlock(DivRoundUp(size, blockSize), blockSize);
    DotsFit(blockSize);
    PredictedAtLeast(DOTS, names, blockSize);
    b := new Builder(blockSize, len);
    var at0 := b.AddDentry(inode, DOT, 2);
    var at1 := b.AddDentry(parent, DOTDOT, 2);
    at := [];
    Dots(b.recs, names, types, at0, at1, inode, parent);
    var i := 0;
    assert names[0..] == names;
    while i < |names|
      invariant 0 <= i <= |names| && fresh(b) && fresh(b.data) && b.data.Length == len && b.blockSize == blockSize
      invariant b.Valid() && b.recs != [] && b.offset <= size && Predicted(b.offset, names[i..], blockSize) == size
      invariant EntriesAt(b.recs, names, types, i, at, inode, parent)
    {
      GrownAtMost(b.offset, names, i, blockSize);
      ghost var before := b.recs;
      var a := b.AddDentry(0, names[i], types[i]);
      assert !(b.offset > len || (b.offset == len && i != |names| - 1));
      EntriesMore(before, b.recs, names, types, i, at, inode, parent);
      at := at + [a];
      i := i + 1;
    }
    PredictedNothing(b.offset, names, blockSize);
    if b.offset < len {
      LastInOne(b.recs, b.offset, blockSize);
      Stretched(b.recs[|b.recs| - 1], b.offset, blockSize);
      ghost var before := b.recs;
      b.Stretch(len - b.offset);
      EntriesStay(before, b.recs, names, types, at, inode, parent);
    }
  }

  lemma PredictedNothing(len: nat, names: seq<seq<Byte>>, blockSize: Positive)
    ensures Predicted(len, names[|names|..], blockSize) == len
  {
  }

  lemma Dots(recs: seq<Rec>, names: seq<seq<Byte>>, types: seq<Byte>, at0: nat, at1: nat, inode: nat, parent: nat)
    requires |names| == |types| && |recs| == 2
    requires DentryOf(recs[0]) == Dentry(inode, 2, DOT) && DentryOf(recs[1]) == Dentry(parent, 2, DOTDOT)
    ensures EntriesAt(recs, names, types, 0, [], inode, parent)
  {
  }

  lemma EntriesStay(recs: seq<Rec>, recs2: seq<Rec>, names: seq<seq<Byte>>, types: seq<Byte>, at: seq<nat>, inode: nat, parent: nat)
    requires |names| == |types| && EntriesAt(recs, names, types, |names|, at, inode, parent) && SameButLength(recs, recs2)
    ensures EntriesAt(recs2, names, types, |names|, at, inode, parent)
  {
  }

  // ---- the inode numbers of the entries, filled in later ----

  lemma InodeFilled(d: seq<Byte>, recs: seq<Rec>, i: nat, inode: nat, blockSize: Positive)
    requires Directory(d, recs, blockSize) && i < |recs| && inode < 0x1_0000_0000
    ensures recs[i].off + 4 <= |d|
    ensures Directory(Overlaid(d, recs[i].off, Bytes32(inode)), recs[i := recs[i].(inode := inode)], blockSize)
  {
    assert Holds(d, recs[i]);
    InodePatched(d, recs[i], inode);
    var e, recs2 := Overlaid(d, recs[i].off, Bytes32(inode)), recs[i := recs[i].(inode := inode)];
    forall j | 0 <= j < |recs2| ensures Holds(e, recs2[j]) {
      if j != i {
        TileBounds(recs, 0, |d|, i, blockSize);
        TileBounds(recs, 0, |d|, j, blockSize);
        if j < i {
          TileApart(recs, 0, |d|, j, i, blockSize);
        } else {
          TileApart(recs, 0, |d|, i, j, blockSize);
        }
        HoldsStill(d, recs[i].off, Bytes32(inode), recs[j]);
      }
    }
    TileInode(recs, 0, |d|, i, inode, blockSize);
  }

  lemma {:induction false} TileInode(recs: seq<Rec>, lo: nat, hi: nat, i: nat, inode: nat, blockSize: Positive)
    requires Tile(recs, lo, hi, blockSize) && i < |recs|
    ensures Tile(recs[i := recs[i].(inode := inode)], lo, hi, blockSize)
  {
    if i > 0 {
      TileInode(recs[1..], lo + recs[0].recLen, hi, i - 1, inode, blockSize);
      assert recs[i := recs[i].(inode := inode)][1..] == recs[1..][i - 1 := recs[i].(inode := inode)];
    } else {
      assert recs[0 := recs[0].(inode := inode)][1..] == recs[1..];
    }
  }

  /** What the directory is to say: the first n entries have their inode numbers, the others none yet. */
  ghost predicate FilledTo(recs: seq<Rec>, all: seq<Dentry>, at: seq<nat>, n: nat) {
    && |recs| == |all| == |at| + 2 && n <= |at|
    && (forall j :: 0 <= j < |all| ==> DentryOf(recs[j]) == if j < n + 2 then all[j] else all[j].(inode := 0))
    && forall i :: 0 <= i < |at| ==> recs[i + 2].off == at[i]
  }

  lemma FilledMore(recs: seq<Rec>, all: seq<Dentry>, at: seq<nat>, n: nat)
    requires n < |at| && FilledTo(recs, all, at, n)
    ensures FilledTo(recs[n + 2 := recs[n + 2].(inode := all[n + 2].inode)], all, at, n + 1)
  {
  }

  lemma AllEntries(recs: seq<Rec>, all: seq<Dentry>, at: seq<nat>)
    requires FilledTo(recs, all, at, |at|)
    requires forall i :: 0 <= i < |all| ==> all[i].inode != 0
    ensures DentriesOf(Live(recs)) == all
  {
    assert forall i :: 0 <= i < |recs| ==> DentryOf(recs[i]) == all[i];
    LiveIsAll(recs);
  }

  function Wanted(inode: nat, parent: nat, names: seq<seq<Byte>>, types: seq<Byte>, inodes: seq<nat>): (all: seq<Dentry>)
    requires |types| == |names| == |inodes|
    ensures |all| == |names| + 2 && all[0] == Dentry(inode, 2, DOT) && all[1] == Dentry(parent, 2, DOTDOT)
    ensures forall i :: 0 <= i < |names| ==> all[i + 2] == Dentry(inodes[i], types[i], names[i])
  {
    [Dentry(inode, 2, DOT), Dentry(parent, 2, DOTDOT)]
    + seq(|names|, i requires 0 <= i < |names| => Dentry(inodes[i], types[i], names[i]))
  }

  /** Build the directory, fill in the inode numbers through the pointers kept, and walk it, in whichever pass. */
  method RoundTrip(blockSize: Positive, inode: nat, parent: nat, names: seq<seq<Byte>>, types: seq<Byte>, inodes: seq<nat>,
                   repair: bool)
    returns (walked: seq<Dentry>)
    requires Room(blockSize) && 0 < inode < 0x1_0000_0000 && 0 < parent < 0x1_0000_0000
    requires |types| == |names| == |inodes| && forall i :: 0 <= i < |names| ==> 1 <= |names[i]| <= 255
    requires forall i :: 0 <= i < |inodes| ==> 0 < inodes[i] < 0x1_0000_0000
    ensures |walked| == |names| + 2 && walked[0] == Dentry(inode, 2, [46]) && walked[1] == Dentry(parent, 2, [46, 46])
    ensures forall i :: 0 <= i < |names| ==> walked[i + 2] == Dentry(inodes[i], types[i], names[i])
  {
    hide Directory, FilledTo, Live, DentriesOf, DentryOf, Overlaid, Bytes32;
    var b, at := MakeDirectory(blockSize, inode, parent, names, types);
    ghost var recs, all := b.recs, Wanted(inode, parent, names, types, inodes);
    NoneFilled(recs, all, names, types, at, inode, parent, inodes);
    var i := 0;
    while i < |names|
      invariant 0 <= i <= |names| && |at| == |names|
      invariant Directory(b.data[..], recs, blockSize) && FilledTo(recs, all, at, i)
      modifies b.data
    {
      InodePlace(recs, all, at, i);
      InodeFilled(b.data[..], recs, i + 2, inodes[i], blockSize);
      FilledMore(recs, all, at, i);
      assert all[i + 2].inode == inodes[i];
      Put(b.data, at[i], Bytes32(inodes[i]));
      recs := recs[i + 2 := recs[i + 2].(inode := inodes[i])];
      i := i + 1;
    }
    NoneMissing(all, inode, parent, names, types, inodes);
    AllEntries(recs, all, at);
    NothingShort(b.data[..], recs, all, at, repair, blockSize);
    walked := WalkEntries(b.data, repair, recs, b.data.Length, blockSize);
  }

  lemma NoneMissing(all: seq<Dentry>, inode: nat, parent: nat, names: seq<seq<Byte>>, types: seq<Byte>, inodes: seq<nat>)
    requires |types| == |names| == |inodes| && all == Wanted(inode, parent, names, types, inodes)
    requires inode != 0 && parent != 0 && (forall i :: 0 <= i < |inodes| ==> inodes[i] != 0)
    requires forall i :: 0 <= i < |names| ==> 1 <= |names[i]|
    ensures forall i :: 0 <= i < |all| ==> all[i].inode != 0 && all[i].name != []
  {
    forall i | 0 <= i < |all| ensures all[i].inode != 0 && all[i].name != [] {
      if i >= 2 {
        assert all[(i - 2) + 2] == Dentry(inodes[i - 2], types[i - 2], names[i - 2]);
      }
    }
  }

  /** No record is as short as eight bytes, as every name has a byte. */
  lemma NothingShort(d: seq<Byte>, recs: seq<Rec>, all: seq<Dentry>, at: seq<nat>, repair: bool, blockSize: Positive)
    requires Room(blockSize) && |d| % blockSize == 0 && Directory(d, recs, blockSize)
    requires FilledTo(recs, all, at, |at|) && forall i :: 0 <= i < |all| ==> all[i].name != []
    ensures Walkable(d, recs, |d|, repair, blockSize)
  {
    TileLast(recs, 0, |d|, blockSize);
    assert DentryOf(recs[|recs| - 1]) == all[|all| - 1];
  }

  lemma NoneFilled(recs: seq<Rec>, all: seq<Dentry>, names: seq<seq<Byte>>, types: seq<Byte>, at: seq<nat>, inode: nat, parent: nat,
                   inodes: seq<nat>)
    requires |types| == |names| == |inodes| && all == Wanted(inode, parent, names, types, inodes)
    requires EntriesAt(recs, names, types, |names|, at, inode, parent)
    ensures FilledTo(recs, all, at, 0) && |at| == |names|
  {
  }

  lemma InodePlace(recs: seq<Rec>, all: seq<Dentry>, at: seq<nat>, i: nat)
    requires i < |at| && FilledTo(recs, all, at, i)
    ensures i + 2 < |recs| == |all| && recs[i + 2].off == at[i]
  {
  }
}
