/**
 The tool itself: it edits a directory buffer in place and writes the device block by block.
 Every method is proved to do exactly what FixupModel says, for every kill point.
 */
module FixupTool {
  import opened Arithmetic
  import opened InodeNumbers
  import opened FixupModel

  class Fixup {
    const geo: Geometry
    const table: InodeTable
    var phase: Phase
    var super: Super
    var freeCounts: seq<nat>
    var backups: map<nat, Super>
    var backupCounts: map<nat, seq<nat>>
    var bitmaps: seq<set<nat>>
    var disk: Disk
    var left: Budget  // writes the process will still live to make

    constructor (geo: Geometry, img: Image, left: Budget)
      ensures Img() == img && this.geo == geo && this.left == left
    {
      this.geo := geo;
      this.table := img.table;
      this.phase := img.phase;
      this.super := img.super;
      this.freeCounts := img.freeCounts;
      this.backups := img.backups;
      this.backupCounts := img.backupCounts;
      this.bitmaps := img.bitmaps;
      this.disk := img.disk;
      this.left := left;
    }

    function Img(): Image
      reads this
    {
      Image(phase, super, freeCounts, backups, backupCounts, bitmaps, table, disk)
    }

    /** Accounts for one write: false if the process is killed before making it. */
    method SpendWrite() returns (alive: bool)
      modifies this`left
      ensures alive <==> old(left) != AtMost(0)
      ensures left == if alive then Spend(old(left)) else old(left)
    {
      alive := left != AtMost(0);
      if alive {
        left := Spend(left);
      }
    }

    // ---- directories ----

    method ReadBlocks(blocks: seq<nat>) returns (es: seq<Entry>)
      requires forall b <- blocks :: b in disk
      ensures es == ReadAll(disk, blocks)
    {
      es := [];
      var i := 0;
      while i < |blocks|
        invariant 0 <= i <= |blocks|
        invariant es + ReadAll(disk, blocks[i..]) == ReadAll(disk, blocks)
      {
        assert blocks[i..][1..] == blocks[i + 1..];
        es := es + disk[blocks[i]];
        i := i + 1;
      }
    }

    method WriteBlocks(blocks: seq<nat>, dirbuf: array<Entry>) returns (status: Status)
      requires forall b <- blocks :: b in disk
      requires dirbuf.Length == |ReadAll(disk, blocks)|
      modifies this`disk, this`left
      ensures Walk(disk, left, status) == WriteAll(old(disk), blocks, dirbuf[..], old(left))
    {
      hide SameShape;
      ghost var buf := dirbuf[..];
      var i, off := 0, 0;
      while i < |blocks|
        invariant 0 <= i <= |blocks| && 0 <= off <= dirbuf.Length
        invariant forall b <- blocks :: b in disk
        invariant |buf[off..]| == |ReadAll(disk, blocks[i..])|
        invariant WriteAll(disk, blocks[i..], buf[off..], left) == WriteAll(old(disk), blocks, buf, old(left))
      {
        var b := blocks[i];
        var n := |disk[b]|;
        assert blocks[i..][0] == b && blocks[i..][1..] == blocks[i + 1..];
        var alive := SpendWrite();
        if !alive {
          return Killed;
        }
        assert buf[off..][..n] == dirbuf[off..off + n] && buf[off..][n..] == buf[off + n..];
        SameShapeReads(disk, disk[b := dirbuf[off..off + n]], blocks[i + 1..]);
        disk := disk[b := dirbuf[off..off + n]];
        i, off := i + 1, off + n;
      }
      return Done;
    }

    /** recurse_dir: first the subdirectories, then this directory's own entries. */
    method RecurseDir(ss: Session, dir: Inode, mode: Mode, depth: nat) returns (status: Status)
      modifies this`disk, this`left
      ensures Walk(disk, left, status) == FixupModel.RecurseDir(ss, old(disk), dir, mode, old(left), depth)
      decreases depth, 0
    {
      hide Visit, WriteAll, ProcessAll, LiveCount, ReadAll;
      if depth == 0 {
        return Killed;
      }
      if !OnDisk(dir, disk) {
        return Failed;
      }
      var es := ReadBlocks(dir.blocks);
      var dirbuf := new Entry[|es|](i requires 0 <= i < |es| => es[i]);
      assert dirbuf[..] == es;
      status := WalkEntries(ss, dirbuf, mode, depth - 1);
      if status == Done && mode != Sanity {
        SameShapeReads(old(disk), disk, dir.blocks);
        status := WriteBlocks(dir.blocks, dirbuf);
      }
    }

    /** The walk over a directory's entries, which edits the buffer as it goes. */
    method WalkEntries(ss: Session, dirbuf: array<Entry>, mode: Mode, depth: nat) returns (status: Status)
      modifies this`disk, this`left, dirbuf
      ensures var es := old(dirbuf[..]);
        && Walk(disk, left, status) == Visit(ss, old(disk), es[..LiveCount(es)], mode, old(left), depth)
        && (status == Done ==> dirbuf[..] == ProcessAll(ss, es, mode))
      decreases depth, 1
    {
      hide SameShape, Process, Visit, Recurses, LiveCount;
      ghost var es := dirbuf[..];
      ghost var live := LiveCount(es);
      ghost var buf := ProcessAll(ss, es, mode);
      ghost var v := Visit(ss, disk, es[..live], mode, left, depth);
      assert es[..live] == es[0..live];
      var i := 0;
      while i < dirbuf.Length && dirbuf[i].inode != 0
        invariant 0 <= i <= live
        invariant forall k :: 0 <= k < i ==> dirbuf[k] == buf[k]
        invariant forall k :: i <= k < |es| ==> dirbuf[k] == es[k]
        invariant v == Visit(ss, disk, es[i..live], mode, left, depth)
      {
        assert es[i..live][0] == es[i] && es[i..live][1..] == es[i + 1..live];
        VisitStep(ss, disk, es[i..live], mode, left, depth);
        if Recurses(ss, dirbuf[i], mode) {
          if !IsDirInode(ss, Unmark(dirbuf[i].inode)) {
            return Failed;
          }
          status := RecurseDir(ss, ss.table[SlotOf(Unmark(dirbuf[i].inode), ss.ipg)], mode, depth);
          if status != Done {
            return;
          }
        }
        dirbuf[i] := Process(ss, dirbuf[i], mode);
        i := i + 1;
      }
      assert i == live && es[i..live] == [];
      VisitNothing(ss, disk, mode, left, depth);
      assert dirbuf[..] == buf;
      return Done;
    }

    lemma VisitStep(ss: Session, disk: Disk, es: seq<Entry>, mode: Mode, left: Budget, depth: nat)
      requires es != []
      ensures Visit(ss, disk, es, mode, left, depth) ==
        if !Recurses(ss, es[0], mode) then Visit(ss, disk, es[1..], mode, left, depth)
        else if !IsDirInode(ss, Unmark(es[0].inode)) then Walk(disk, left, Failed)
        else
          var w := FixupModel.RecurseDir(ss, disk, ss.table[SlotOf(Unmark(es[0].inode), ss.ipg)], mode, left, depth);
          if w.status != Done then w else Visit(ss, w.disk, es[1..], mode, w.left, depth)
    {
    }

    lemma VisitNothing(ss: Session, disk: Disk, mode: Mode, left: Budget, depth: nat)
      ensures Visit(ss, disk, [], mode, left, depth) == Walk(disk, left, Done)
    {
    }

    // ---- phases ----

    method SetFixupState(next: Phase) returns (status: Status)
      modifies this`phase, this`super, this`left
      ensures Outcome(Img(), left, status) == SetPhase(old(Img()), next, old(left))
    {
      var alive := SpendWrite();
      if !alive {
        return Killed;
      }
      phase := next;
      super := super.(unmountable := next != Unset);
      return Done;
    }

    method CheckInodeBitmaps(newIpg: Positive) returns (status: Status)
      modifies this`bitmaps, this`left
      ensures Outcome(Img(), left, status) == CheckBitmaps(old(Img()), 0, super.ipg, newIpg, old(left))
      ensures |bitmaps| == |old(bitmaps)| && (left == Unlimited ==> status == Done)
      ensures status == Done ==>
                forall i, b: nat :: 0 <= i < |bitmaps| ==>
                  (b in bitmaps[i] <==> b in old(bitmaps)[i] && !(super.ipg <= b < newIpg))
    {
      var i := 0;
      while i < |bitmaps|
        invariant 0 <= i <= |bitmaps| == |old(bitmaps)| && (left == Unlimited <==> old(left) == Unlimited)
        invariant forall k, b: nat :: 0 <= k < i ==>
                    (b in bitmaps[k] <==> b in old(bitmaps)[k] && !(super.ipg <= b < newIpg))
        invariant forall k :: i <= k < |bitmaps| ==> bitmaps[k] == old(bitmaps)[k]
        invariant CheckBitmaps(Img(), i, super.ipg, newIpg, left) == CheckBitmaps(old(Img()), 0, super.ipg, newIpg, old(left))
        decreases |bitmaps| - i
      {
        var cleared := ClearBits(bitmaps[i], super.ipg, newIpg);
        if cleared != bitmaps[i] {
          var alive := SpendWrite();
          if !alive {
            return Killed;
          }
          bitmaps := bitmaps[i := cleared];
        }
        i := i + 1;
      }
      return Done;
    }

    method WriteSuperGroups(sb: Super, counts: seq<nat>) returns (status: Status)
      modifies this`super, this`freeCounts, this`backups, this`backupCounts, this`disk, this`left
      ensures Outcome(Img(), left, status) == WriteGroups(geo, old(Img()), 0, sb, counts, old(left))
    {
      var i := 0;
      while i < geo.groups
        invariant 0 <= i <= geo.groups
        invariant WriteGroups(geo, Img(), i, sb, counts, left) == WriteGroups(geo, old(Img()), 0, sb, counts, old(left))
      {
        if i in geo.superGroups {
          var alive := SpendWrite();
          if !alive {
            return Killed;
          }
          if i == 0 {
            super, freeCounts := sb, counts;
          } else {
            backupCounts := backupCounts[i := counts];
            if ReachesHome(geo, i) {
              backups := backups[i := sb.(unmountable := false)];
            } else {
              disk := disk - {LandsOn(geo, i)};
            }
          }
        }
        i := i + 1;
      }
      return Done;
    }

    method UpdateSuperblocks(newIpg: Positive) returns (status: Status)
      modifies this`super, this`freeCounts, this`backups, this`backupCounts, this`bitmaps, this`disk, this`left
      ensures Outcome(Img(), left, status) == UpdateSupers(geo, old(Img()), newIpg, old(left))
    {
      var sb := super;
      var counts := RaisedCounts(freeCounts, Growth(sb, newIpg));
      status := CheckInodeBitmaps(newIpg);
      if status != Done {
        return;
      }
      if !CountsConsistent(geo, sb, newIpg) {
        return Failed;
      }
      status := WriteSuperGroups(RaisedSuper(geo, sb, newIpg), counts);
    }

    /** ext4fixup_internal */
    method Run(depth: nat) returns (status: Status)
      modifies this
      ensures Outcome(Img(), left, status) == FixupModel.Run(geo, old(Img()), old(left), depth)
    {
      var rootSlot := RootSlot(super.ipg);
      if rootSlot !in table || !table[rootSlot].isDir {
        return Failed;
      }
      var root, ss := table[rootSlot], Session(table, super.ipg, NewIpg(geo, super.ipg));
      if phase == Unset {
        ghost var left0 := left;
        ghost var w := FixupModel.RecurseDir(ss, disk, root, Sanity, left, depth);
        SanityReadsOnly(ss, disk, root, left, depth);
        status := RecurseDir(ss, root, Sanity, depth);
        if status != Done {
          return;
        }
        if !CountsConsistent(geo, super, ss.newIpg) {
          return Failed;
        }
        status := SetFixupState(Marking);
        if status != Done {
          return;
        }
      }
      ghost var o1 := Outcome(Img(), left, Done);
      if phase == Marking {
        status := RecurseDir(ss, root, Mark, depth);
        if status != Done {
          return;
        }
        status := SetFixupState(Renumbering);
        if status != Done {
          return;
        }
      }
      ghost var o2 := Outcome(Img(), left, Done);
      assert o2 == ThenMark(ss, root, o1, depth);
      if phase == Renumbering {
        status := RecurseDir(ss, root, Renumber, depth);
        if status != Done {
          return;
        }
        status := SetFixupState(UpdatingSuper);
        if status != Done {
          return;
        }
      }
      ghost var o3 := Outcome(Img(), left, Done);
      assert o3 == ThenRenumber(ss, root, o2, depth);
      if phase == UpdatingSuper {
        status := UpdateSuperblocks(ss.newIpg);
        if status != Done {
          return;
        }
        status := SetFixupState(Unset);
        return;
      }
      return Done;
    }
  }
}
