/**
 What one run of the inode-renumbering tool does to an ext4 image, as a function of the image and
 of the point at which the process is killed.

 The kill point is a budget of disk writes: directory blocks, bitmap blocks, one group's
 superblock-plus-descriptors and the phase word are one write each, and the run stops dead when
 the budget is spent.
 */
module FixupModel {
  import opened Arithmetic
  import opened InodeNumbers

  datatype FileKind = Directory | Unspecified | Other

  datatype Entry = Entry(inode: nat, name: string, kind: FileKind) {
    function WithInode(n: nat): Entry { this.(inode := n) }
  }

  /** A directory's blocks, and those that map them: the index and leaf blocks of its extent tree. */
  datatype Inode = Inode(isDir: bool, blocks: seq<nat>, maps: seq<nat>)

  type Disk = map<nat, seq<Entry>>
  type InodeTable = map<Slot, Inode>

  /** What a process learns from the superblock when it starts; fixed for the whole run. */
  datatype Session = Session(table: InodeTable, ipg: Positive, newIpg: Positive)

  datatype Mode = Sanity | Mark | Renumber

  datatype Budget = Unlimited | AtMost(writes: nat)

  function Spend(b: Budget): Budget
    requires b != AtMost(0)
  {
    match b
    case Unlimited => Unlimited
    case AtMost(n) => AtMost(n - 1)
  }

  // Done: returned normally. Killed: the process died here. Failed: critical_error.
  datatype Status = Done | Killed | Failed

  datatype Walk = Walk(disk: Disk, left: Budget, status: Status)

  // ---- reading a directory ----

  predicate OnDisk(dir: Inode, disk: Disk) {
    (forall b <- dir.blocks :: b in disk) && (forall b <- dir.maps :: b in disk)
  }

  function ReadAll(disk: Disk, blocks: seq<nat>): seq<Entry>
    requires forall b <- blocks :: b in disk
  {
    if blocks == [] then [] else disk[blocks[0]] + ReadAll(disk, blocks[1..])
  }

  /** Entries before the first one with inode number 0, which ends the directory. */
  function LiveCount(es: seq<Entry>): (n: nat)
    ensures n <= |es|
    ensures n < |es| ==> es[n].inode == 0
    ensures forall k :: 0 <= k < n ==> es[k].inode != 0
  {
    if es == [] || es[0].inode == 0 then 0 else 1 + LiveCount(es[1..])
  }

  predicate SameShape(d: Disk, e: Disk) {
    d.Keys == e.Keys && forall b :: b in d ==> |d[b]| == |e[b]|
  }

  lemma SameShapeReads(d: Disk, e: Disk, blocks: seq<nat>)
    requires SameShape(d, e)
    requires forall b <- blocks :: b in d
    ensures |ReadAll(d, blocks)| == |ReadAll(e, blocks)|
  {
  }

  // ---- one entry ----

  predicate IsDirInode(ss: Session, inum: nat) {
    var s := SlotOf(inum, ss.ipg);
    s in ss.table && ss.table[s].isDir
  }

  predicate IsEntryDir(ss: Session, e: Entry, mode: Mode) {
    match e.kind
    case Directory => true
    case Unspecified => !(mode == Renumber && e.inode < HIGH_BIT) && IsDirInode(ss, Unmark(e.inode))
    case Other => false
  }

  predicate IsDots(name: string) {
    name == "." || name == ".."
  }

  predicate Recurses(ss: Session, e: Entry, mode: Mode) {
    IsEntryDir(ss, e, mode) && !IsDots(e.name) && (mode == Renumber ==> e.inode >= HIGH_BIT)
  }

  function Process(ss: Session, e: Entry, mode: Mode): Entry {
    match mode
    case Sanity => e
    case Mark => e.WithInode(MarkBit(e.inode))
    case Renumber =>
      if e.inode >= HIGH_BIT then e.WithInode(ComputeNewInum(Unmark(e.inode), ss.ipg, ss.newIpg)) else e
  }

  function ProcessAll(ss: Session, es: seq<Entry>, mode: Mode): (r: seq<Entry>)
    ensures |r| == |es|
  {
    seq(|es|, i requires 0 <= i < |es| => if i < LiveCount(es) then Process(ss, es[i], mode) else es[i])
  }

  // ---- writing a directory back, one block at a time ----

  function WriteAll(disk: Disk, blocks: seq<nat>, buf: seq<Entry>, left: Budget): (r: Walk)
    requires forall b <- blocks :: b in disk
    requires |buf| == |ReadAll(disk, blocks)|
    ensures SameShape(disk, r.disk)
    ensures r.status != Failed && (left == Unlimited ==> r.status == Done && r.left == Unlimited)
    decreases |blocks|
  {
    if blocks == [] then Walk(disk, left, Done)
    else if left == AtMost(0) then Walk(disk, left, Killed)
    else
      var n := |disk[blocks[0]]|;
      var disk' := disk[blocks[0] := buf[..n]];
      SameShapeReads(disk, disk', blocks[1..]);
      WriteAll(disk', blocks[1..], buf[n..], Spend(left))
  }

  // ---- the recursion ----

  /**
   recurse_dir on one directory. `depth` is the stack the process has: running out of it kills the
   process like any other signal.
   */
  function RecurseDir(ss: Session, disk: Disk, dir: Inode, mode: Mode, left: Budget, depth: nat): (r: Walk)
    ensures SameShape(disk, r.disk)
    decreases depth, 0
  {
    if depth == 0 then Walk(disk, left, Killed)
    else if !OnDisk(dir, disk) then Walk(disk, left, Failed)
    else
      var es := ReadAll(disk, dir.blocks);
      var v := Visit(ss, disk, es[..LiveCount(es)], mode, left, depth - 1);
      if v.status != Done || mode == Sanity then v
      else
        SameShapeReads(disk, v.disk, dir.blocks);
        WriteAll(v.disk, dir.blocks, ProcessAll(ss, es, mode), v.left)
  }

  /** The recursive calls made while walking the live entries of a directory, in order. */
  function Visit(ss: Session, disk: Disk, es: seq<Entry>, mode: Mode, left: Budget, depth: nat): (r: Walk)
    ensures SameShape(disk, r.disk)
    decreases depth, 1 + |es|
  {
    if es == [] then Walk(disk, left, Done)
    else if !Recurses(ss, es[0], mode) then Visit(ss, disk, es[1..], mode, left, depth)
    else if !IsDirInode(ss, Unmark(es[0].inode)) then Walk(disk, left, Failed)
    else
      var child := ss.table[SlotOf(Unmark(es[0].inode), ss.ipg)];
      var w := RecurseDir(ss, disk, child, mode, left, depth);
      if w.status != Done then w else Visit(ss, w.disk, es[1..], mode, w.left, depth)
  }

  // ---- the superblock pass ----

  // The low bit of s_desc_size keeps the image from being mounted while the tool is at work.
  datatype Super = Super(ipg: Positive, inodes: nat, freeInodes: nat, unmountable: bool)

  datatype Phase = Unset | Marking | Renumbering | UpdatingSuper

  datatype Image = Image(
    phase: Phase,
    super: Super,                          // primary superblock
    freeCounts: seq<nat>,                  // free-inode counts in the primary descriptor table
    backups: map<nat, Super>,              // superblock copies of the other groups
    backupCounts: map<nat, seq<nat>>,      // and their descriptors' free-inode counts
    bitmaps: seq<set<nat>>,                // inode bitmaps: the bits set, by group
    table: InodeTable,
    disk: Disk)                            // the blocks that hold directory entries or map those that do

  /** Constants of the file system; superGroups are the groups that hold a superblock. */
  datatype Geometry = Geometry(groups: nat, superGroups: set<nat>, inodesPerBlock: Positive,
                               blockSize: Positive, blocksPerGroup: Positive)

  datatype Outcome = Outcome(img: Image, left: Budget, status: Status)

  const WORD16: Positive := 0x1_0000

  /** new_inodes_per_group - s_inodes_per_group, on 32-bit unsigned numbers. */
  function Growth(s: Super, newIpg: Positive): nat {
    (newIpg - s.ipg) % WORD32
  }

  function RaisedSuper(geo: Geometry, s: Super, newIpg: Positive): Super {
    var more := geo.groups * Growth(s, newIpg);
    s.(ipg := newIpg, inodes := (s.inodes + more) % WORD32, freeInodes := (s.freeInodes + more) % WORD32)
  }

  /** bg_free_inodes_count is a 16-bit field. */
  function RaisedCounts(counts: seq<nat>, growth: nat): (r: seq<nat>)
    ensures |r| == |counts|
    ensures forall i :: 0 <= i < |r| ==> r[i] == (counts[i] + growth) % 0x1_0000
  {
    seq(|counts|, i requires 0 <= i < |counts| => (counts[i] + growth) % WORD16)
  }

  function ClearBits(bits: set<nat>, lo: nat, hi: nat): set<nat> {
    set b <- bits | !(lo <= b < hi)
  }

  /** check_inode_bitmap for every group: a bitmap is written only when a stray bit was set. */
  function CheckBitmaps(img: Image, group: nat, lo: nat, hi: nat, left: Budget): Outcome
    decreases |img.bitmaps| - group
  {
    if group >= |img.bitmaps| then Outcome(img, left, Done)
    else
      var cleared := ClearBits(img.bitmaps[group], lo, hi);
      if cleared == img.bitmaps[group] then CheckBitmaps(img, group + 1, lo, hi, left)
      else if left == AtMost(0) then Outcome(img, left, Killed)
      else CheckBitmaps(img.(bitmaps := img.bitmaps[group := cleared]), group + 1, lo, hi, Spend(left))
  }

  // ---- where the copies are written ----

  /** Byte offset at which a file system keeps the superblock of a group. */
  function SuperHome(blockSize: Positive, blocksPerGroup: Positive, group: nat): nat {
    if group == 0 then 1024 else (FirstDataBlock(blockSize) + group * blocksPerGroup) * blockSize
  }

  /** Byte offset at which the tool writes it. */
  function SuperWritten(blockSize: Positive, blocksPerGroup: Positive, group: nat): nat {
    group * blocksPerGroup * blockSize + if group == 0 then 1024 else 0
  }

  /** The same two for the descriptor table that follows. */
  function DescriptorsHome(blockSize: Positive, blocksPerGroup: Positive, group: nat): nat {
    (FirstDataBlock(blockSize) + group * blocksPerGroup + 1) * blockSize
  }

  function DescriptorsWritten(blockSize: Positive, blocksPerGroup: Positive, group: nat): nat {
    group * blocksPerGroup * blockSize + blockSize * (FirstDataBlock(blockSize) + 1)
  }

  predicate ReachesHome(geo: Geometry, group: nat) {
    SuperWritten(geo.blockSize, geo.blocksPerGroup, group) == SuperHome(geo.blockSize, geo.blocksPerGroup, group)
  }

  /** The block a superblock copy is written to. */
  function LandsOn(geo: Geometry, group: nat): nat {
    SuperWritten(geo.blockSize, geo.blocksPerGroup, group) / geo.blockSize
  }

  /**
   One group's superblock and descriptors: group 0 holds the primary copy.  A copy that does not reach
   its place takes the place of whatever block it lands on, which is then no directory block any more.
   */
  function WriteGroup(geo: Geometry, img: Image, group: nat, sb: Super, counts: seq<nat>): Image {
    if group == 0 then img.(super := sb, freeCounts := counts)
    else
      var img' := img.(backupCounts := img.backupCounts[group := counts]);
      if ReachesHome(geo, group) then img'.(backups := img.backups[group := sb.(unmountable := false)])
      else img'.(disk := img.disk - {LandsOn(geo, group)})
  }

  function WriteGroups(geo: Geometry, img: Image, group: nat, sb: Super, counts: seq<nat>, left: Budget): Outcome
    decreases geo.groups - group
  {
    if group >= geo.groups then Outcome(img, left, Done)
    else if group !in geo.superGroups then WriteGroups(geo, img, group + 1, sb, counts, left)
    else if left == AtMost(0) then Outcome(img, left, Killed)
    else WriteGroups(geo, WriteGroup(geo, img, group, sb, counts), group + 1, sb, counts, Spend(left))
  }

  /** The two sanity checks of update_superblocks_and_bg_desc. */
  predicate CountsConsistent(geo: Geometry, s: Super, newIpg: Positive) {
    && (s.inodes + geo.groups * Growth(s, newIpg)) % WORD32 == newIpg * geo.groups % WORD32
    && newIpg % geo.inodesPerBlock == 0
  }

  function UpdateSupers(geo: Geometry, img: Image, newIpg: Positive, left: Budget): Outcome {
    var counts := RaisedCounts(img.freeCounts, Growth(img.super, newIpg));
    var o := CheckBitmaps(img, 0, img.super.ipg, newIpg, left);
    if o.status != Done then o
    else if !CountsConsistent(geo, img.super, newIpg) then o.(status := Failed)
    else WriteGroups(geo, o.img, 0, RaisedSuper(geo, img.super, newIpg), counts, o.left)
  }

  // ---- a whole run ----

  function SetPhase(img: Image, phase: Phase, left: Budget): Outcome {
    if left == AtMost(0) then Outcome(img, left, Killed)
    else Outcome(img.(phase := phase, super := img.super.(unmountable := phase != Unset)), Spend(left), Done)
  }

  function NewIpg(geo: Geometry, ipg: Positive): Positive {
    AlignUpBounds(ipg, geo.inodesPerBlock);
    AlignUp(ipg, geo.inodesPerBlock)
  }

  function SessionOf(geo: Geometry, img: Image): Session {
    Session(img.table, img.super.ipg, NewIpg(geo, img.super.ipg))
  }

  function RootSlot(ipg: Positive): Slot {
    SlotOf(ROOT_INO, ipg)
  }

  /** The check made before anything is written; the image is left alone if it fails. */
  function SanityPhase(geo: Geometry, ss: Session, root: Inode, img: Image, left: Budget, depth: nat): Outcome {
    var w := RecurseDir(ss, img.disk, root, Sanity, left, depth);
    if w.status != Done then Outcome(img, left, w.status)
    else if !CountsConsistent(geo, img.super, ss.newIpg) then Outcome(img, left, Failed)
    else SetPhase(img, Marking, left)
  }

  /** One pass over the whole directory tree, then on to the next phase. */
  function TreePhase(ss: Session, root: Inode, img: Image, mode: Mode, next: Phase, left: Budget, depth: nat): Outcome {
    var w := RecurseDir(ss, img.disk, root, mode, left, depth);
    var img' := img.(disk := w.disk);
    if w.status != Done then Outcome(img', w.left, w.status) else SetPhase(img', next, w.left)
  }

  function SuperPhase(geo: Geometry, img: Image, newIpg: Positive, left: Budget): Outcome {
    var o := UpdateSupers(geo, img, newIpg, left);
    if o.status != Done then o else SetPhase(o.img, Unset, o.left)
  }

  // The phases follow one another within a run; the phase word on the disk selects where it joins in.

  function ThenMark(ss: Session, root: Inode, o: Outcome, depth: nat): Outcome {
    if o.status == Done && o.img.phase == Marking
    then TreePhase(ss, root, o.img, Mark, Renumbering, o.left, depth) else o
  }

  function ThenRenumber(ss: Session, root: Inode, o: Outcome, depth: nat): Outcome {
    if o.status == Done && o.img.phase == Renumbering
    then TreePhase(ss, root, o.img, Renumber, UpdatingSuper, o.left, depth) else o
  }

  function ThenUpdateSupers(geo: Geometry, ss: Session, o: Outcome): Outcome {
    if o.status == Done && o.img.phase == UpdatingSuper then SuperPhase(geo, o.img, ss.newIpg, o.left) else o
  }

  function Phases(geo: Geometry, ss: Session, root: Inode, img: Image, left: Budget, depth: nat): Outcome {
    var start := if img.phase == Unset then SanityPhase(geo, ss, root, img, left, depth) else Outcome(img, left, Done);
    ThenUpdateSupers(geo, ss, ThenRenumber(ss, root, ThenMark(ss, root, start, depth), depth))
  }

  function Run(geo: Geometry, img: Image, left: Budget, depth: nat): Outcome {
    var root := RootSlot(img.super.ipg);
    if root !in img.table || !img.table[root].isDir then Outcome(img, left, Failed)
    else Phases(geo, SessionOf(geo, img), img.table[root], img, left, depth)
  }

  /** Runs one after another on the same image, whatever became of the earlier ones. */
  function Runs(geo: Geometry, img: Image, kills: seq<(Budget, nat)>): Image
    decreases |kills|
  {
    if kills == [] then img
    else Runs(geo, Run(geo, img, kills[0].0, kills[0].1).img, kills[1..])
  }

  /** The sanity pass spends no writes. */
  lemma {:induction false} SanityReadsOnly(ss: Session, disk: Disk, dir: Inode, left: Budget, depth: nat)
    ensures var r := RecurseDir(ss, disk, dir, Sanity, left, depth);
      r.disk == disk && r.left == left
    decreases depth, 0
  {
    if depth > 0 && OnDisk(dir, disk) {
      var es := ReadAll(disk, dir.blocks);
      SanityVisitReadsOnly(ss, disk, es[..LiveCount(es)], left, depth - 1);
    }
  }

  lemma {:induction false} SanityVisitReadsOnly(ss: Session, disk: Disk, es: seq<Entry>, left: Budget, depth: nat)
    ensures var r := Visit(ss, disk, es, Sanity, left, depth);
      r.disk == disk && r.left == left
    decreases depth, 1 + |es|
  {
    if es == [] {
    } else if !Recurses(ss, es[0], Sanity) {
      SanityVisitReadsOnly(ss, disk, es[1..], left, depth);
    } else if IsDirInode(ss, Unmark(es[0].inode)) {
      SanityReadsOnly(ss, disk, ss.table[SlotOf(Unmark(es[0].inode), ss.ipg)], left, depth);
      SanityVisitReadsOnly(ss, disk, es[1..], left, depth);
    }
  }
}
