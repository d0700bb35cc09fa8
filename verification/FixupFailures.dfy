/** Images on which the tool does less than it should. */
module FixupFailures {
  import opened Arithmetic
  import opened InodeNumbers
  import opened Sequences
  import opened FixupModel
  import opened FixupTree
  import opened FixupRuns
  import opened FixupSupers
  import opened FixupConvergence
  import opened FixupPaths

  const ROOT := Slot(0, 1)

  lemma OneBlock(disk: Disk, b: nat)
    requires b in disk
    ensures ReadAll(disk, [b]) == disk[b]
  {
    assert [b][1..] == [];
  }

  // ---- a superblock copy on top of a directory ----

  /** Blocks of 1 KiB, two groups with a superblock each. */
  const SMALL_BLOCKS := Geometry(2, {0, 1}, 8, 1024, 8192)

  const SUB := Slot(0, 2)

  /** Directory d, with a file f in it, is the last block of the first group. */
  function HitImage(): Image {
    Image(Unset, Super(8, 16, 10, false), [5, 5], map[1 := Super(8, 16, 10, false)], map[1 := [5, 5]], [{}, {}],
          map[ROOT := Inode(true, [100], []), SUB := Inode(true, [8192], []), Slot(0, 3) := Inode(false, [], [])],
          map[100 := [Entry(3, "d", Directory)], 8192 := [Entry(4, "f", Other)]])
  }

  function HitRank(): map<Slot, nat> {
    map[ROOT := 1, SUB := 0]
  }

  lemma HitEntries()
    ensures var w := WorldOf(SMALL_BLOCKS, HitImage(), HitRank());
      && w.ss.ipg == w.ss.newIpg == 8 && RootSlot(8) == ROOT
      && DirOk(w, ROOT) && Orig(w, ROOT) == [Entry(3, "d", Directory)] && Live(w, ROOT) == 1
      && DirOk(w, SUB) && Orig(w, SUB) == [Entry(4, "f", Other)] && Live(w, SUB) == 1
      && SlotOf(3, 8) == SUB && SlotOf(4, 8) == Slot(0, 3)
  {
    OneBlock(HitImage().disk, 100);
    OneBlock(HitImage().disk, 8192);
    LiveCountUnique([Entry(3, "d", Directory)], 1);
    LiveCountUnique([Entry(4, "f", Other)], 1);
  }

  lemma HitWellFormed()
    ensures WellFormed(WorldOf(SMALL_BLOCKS, HitImage(), HitRank()))
  {
    var w := WorldOf(SMALL_BLOCKS, HitImage(), HitRank());
    HitEntries();
    hide Orig, Live, SlotOf, DirOk;
    assert EntryOk(w, ROOT, Entry(3, "d", Directory));
    assert EntryOk(w, SUB, Entry(4, "f", Other));
    assert w.ss.table[ROOT].blocks == [100] && w.ss.table[SUB].blocks == [8192];
  }

  lemma HitRooted()
    requires WellFormed(WorldOf(SMALL_BLOCKS, HitImage(), HitRank()))
    ensures var w := WorldOf(SMALL_BLOCKS, HitImage(), HitRank());
      Rooted(w) && OthersApart(w) && TypesOk(w)
  {
    var w := WorldOf(SMALL_BLOCKS, HitImage(), HitRank());
    HitEntries();
    hide WellFormed, Orig, Live, SlotOf, DirOk;
    assert HasChild(w, ROOT, 0, SUB);
    assert TypesOkAt(w, ROOT) && TypesOkAt(w, SUB);
  }

  lemma HitImageOk()
    ensures ImageOk(SMALL_BLOCKS, HitImage(), HitRank()) && Sane(SMALL_BLOCKS, HitImage(), HitRank())
  {
    hide WellFormed, Rooted, OthersApart, TypesOk;
    HitWellFormed();
    HitRooted();
  }

  /** One complete run, and f is lost. */
  lemma DirectoryOverwritten()
    ensures ImageOk(SMALL_BLOCKS, HitImage(), HitRank()) && Sane(SMALL_BLOCKS, HitImage(), HitRank())
    ensures !Intact(SMALL_BLOCKS, HitImage(), HitRank())
    ensures var o := Run(SMALL_BLOCKS, HitImage(), Unlimited, 2);
      && o.status == Done
      && ResolveIn(HitImage(), ["d", "f"]) == Found(Slot(0, 3))
      && ResolveIn(o.img, ["d", "f"]) == NotFound
  {
    var geo, og, rank := SMALL_BLOCKS, HitImage(), HitRank();
    HitImageOk();
    HitEntries();
    assert IsBackupGroup(geo, 1) && 1 * geo.blocksPerGroup == 8192;
    HitIff(geo, 8192);
    HitIff(geo, 100);
    assert !Undamaged(geo, og.table[SUB]) && Undamaged(geo, og.table[ROOT]);
    FirstFinish(geo, og, rank, [], 2);
    HitPathBefore();
    HitPath(Run(geo, og, Unlimited, 2).img);
  }

  lemma HitPath(f: Image)
    requires ImageOk(SMALL_BLOCKS, HitImage(), HitRank()) && IsFinal(SMALL_BLOCKS, HitImage(), HitRank(), f)
    requires Undamaged(SMALL_BLOCKS, Inode(true, [100], [])) && !Undamaged(SMALL_BLOCKS, Inode(true, [8192], []))
    ensures ResolveIn(f, ["d", "f"]) == NotFound
  {
    var geo, og, rank := SMALL_BLOCKS, HitImage(), HitRank();
    HitEntries();
    hide ImageOk, FinalOver, IsFinal, Undamaged, Orig, Live, SlotOf, WellFormed;
    FinalHasBlocks(geo, og, rank, f);
    var d :| FinalOver(geo, og, rank, f, d);
    SameRoot(geo, og, rank, f, d);
    assert LeadsTo(og, ROOT, "d", 0);
    StopsAtDamage(geo, og, rank, f, d, ROOT, "d", 0, ["f"]);
    assert ["d", "f"] == ["d"] + ["f"];
  }

  lemma HitPathBefore()
    ensures ResolveIn(HitImage(), ["d", "f"]) == Found(Slot(0, 3))
  {
    var og := HitImage();
    HitEntries();
    hide Orig, Live, SlotOf;
    assert ["d", "f"][1..] == ["f"] && ["f"][1..] == [];
    assert Resolve(og.table, og.disk, 8, SUB, ["f"]) == Found(Slot(0, 3));
  }

  lemma FinalHasBlocks(geo: Geometry, og: Image, rank: map<Slot, nat>, f: Image)
    requires ImageOk(geo, og, rank) && IsFinal(geo, og, rank, f)
    ensures exists d :: FinalOver(geo, og, rank, f, d)
  {
  }

  // ---- a record behind one with inode number 0 ----

  const LARGE_BLOCKS := Geometry(2, {0}, 16, 4096, 32768)

  /** The root directory's first record is not in use; f, behind it, is the first inode of the second group. */
  function HiddenImage(): Image {
    Image(Unset, Super(10, 20, 5, false), [2, 3], map[], map[], [{}, {}],
          map[ROOT := Inode(true, [100], []), Slot(1, 0) := Inode(false, [], [])],
          map[100 := [Entry(0, "gone", Other), Entry(11, "f", Other)]])
  }

  function HiddenRank(): map<Slot, nat> {
    map[ROOT := 0]
  }

  lemma HiddenEntries()
    ensures var w := WorldOf(LARGE_BLOCKS, HiddenImage(), HiddenRank());
      && w.ss.ipg == 10 && w.ss.newIpg == 16 && RootSlot(10) == ROOT
      && DirOk(w, ROOT) && Orig(w, ROOT) == [Entry(0, "gone", Other), Entry(11, "f", Other)] && Live(w, ROOT) == 0
      && SlotOf(11, 10) == Slot(1, 0) && SlotOf(11, 16) == Slot(0, 10)
  {
    OneBlock(HiddenImage().disk, 100);
  }

  lemma HiddenImageOk()
    ensures ImageOk(LARGE_BLOCKS, HiddenImage(), HiddenRank()) && Sane(LARGE_BLOCKS, HiddenImage(), HiddenRank())
    ensures Intact(LARGE_BLOCKS, HiddenImage(), HiddenRank())
  {
    var w := WorldOf(LARGE_BLOCKS, HiddenImage(), HiddenRank());
    HiddenEntries();
    assert WellFormed(w);
    assert TypesOkAt(w, ROOT);
    HitIff(LARGE_BLOCKS, 100);
  }

  /** One complete run, and f names another inode. */
  lemma HiddenRecordMisled()
    ensures ImageOk(LARGE_BLOCKS, HiddenImage(), HiddenRank()) && Sane(LARGE_BLOCKS, HiddenImage(), HiddenRank())
    ensures Intact(LARGE_BLOCKS, HiddenImage(), HiddenRank())
    ensures var o := Run(LARGE_BLOCKS, HiddenImage(), Unlimited, 1);
      && o.status == Done
      && ResolveIn(HiddenImage(), ["f"]) == Found(Slot(1, 0))
      && ResolveIn(o.img, ["f"]).Found? && ResolveIn(o.img, ["f"]) != Found(Slot(1, 0))
  {
    HiddenImageOk();
    FirstFinish(LARGE_BLOCKS, HiddenImage(), HiddenRank(), [], 1);
    HiddenPath(Run(LARGE_BLOCKS, HiddenImage(), Unlimited, 1).img);
  }

  lemma HiddenPath(f: Image)
    requires ImageOk(LARGE_BLOCKS, HiddenImage(), HiddenRank()) && IsFinal(LARGE_BLOCKS, HiddenImage(), HiddenRank(), f)
    requires Intact(LARGE_BLOCKS, HiddenImage(), HiddenRank())
    ensures ResolveIn(HiddenImage(), ["f"]) == Found(Slot(1, 0))
    ensures ResolveIn(f, ["f"]).Found? && ResolveIn(f, ["f"]) != Found(Slot(1, 0))
  {
    var geo, og, rank := LARGE_BLOCKS, HiddenImage(), HiddenRank();
    HiddenEntries();
    hide ImageOk, FinalOver, IsFinal, Orig, Live, SlotOf, WellFormed;
    FinalHasBlocks(geo, og, rank, f);
    var d :| FinalOver(geo, og, rank, f, d);
    SameRoot(geo, og, rank, f, d);
    var es := ReadAll(og.disk, [100]);
    assert es[1..][0] == es[1] && Lookup(es[1..], "f") == 0;
    assert LeadsTo(og, ROOT, "f", 1) && !Keeps(geo, og, rank, ROOT, 1);
    LeadsElsewhere(geo, og, rank, f, d, ROOT, "f", 1);
  }
}
