/** Laid-out images on which the allocator does less than it should. */
module AllocFailures {
  import opened Arithmetic
  import opened AllocModel
  import opened AllocProofs
  import opened AllocRuns
  import opened Ext4Geometry
  import opened Extents
  import opened ExtentProofs

  // ---- a request that never comes to an end ----

  /** A last group that its header fills to the block has nothing free and is never used. */
  lemma HeaderFillsLastGroup(p: Params)
    requires p.imageBlocks > FirstDataBlock(p.blockSize) && RoomForHeaders(p) && p.blockSize > 1024
    requires WholeGroups(p) >= 2 && Leftover(p) == LastHeader(p)
    requires p.perGroup < WORD32 && FirstBlock(p, WholeGroups(p)) < WORD32
    ensures var a := AuxInfo(p);
      a.groups == WholeGroups(p) && InitGroups(p, a)[a.groups - 1].used == 0 && InitGroups(p, a)[a.groups - 1].free == 0
  {
    var a := AuxInfo(p);
    LeftoverIs(p);
    WholeGroupsBounds(p);
    var last := a.groups - 1;
    assert Header(p, DescBlocks(p), last) < p.perGroup;
    assert p.imageBlocks == FirstBlock(p, last) + LastHeader(p);
    assert FirstBlock(p, last) + p.perGroup == FirstBlock(p, WholeGroups(p));
    SmallRemainder(FirstBlock(p, last) + p.perGroup - p.imageBlocks);
  }

  lemma SmallRemainder(x: nat)
    requires x < WORD32
    ensures x % WORD32 == x
  {
  }

  /** On such an image a request for more blocks than there are is never refused: the loop does not end. */
  lemma {:induction false} TooLargeSpins(st: seq<Group>, len: nat, e: nat)
    requires e < |st| && st[e].used == 0 && st[e].free == 0
    requires (forall i :: 0 <= i < |st| ==> st[i].free < len) && FreshBelow(st, e) < len
    ensures Allocate(st, len).verdict == Spinning
  {
    var f := FirstEmptyOf(st, 0, e);
    FreshBelowGrows(st, f, e);
    AllocateSpinsIff(st, len);
    assert FirstEmpty(st, f);
  }

  lemma {:induction false} FirstEmptyOf(st: seq<Group>, i: nat, e: nat) returns (f: nat)
    requires i <= e < |st| && st[e].used == 0 && st[e].free == 0
    requires forall k :: 0 <= k < i && st[k].used == 0 ==> st[k].free > 0
    ensures f <= e && FirstEmpty(st, f)
    decreases e - i
  {
    if st[i].used == 0 && st[i].free == 0 {
      f := i;
    } else {
      f := FirstEmptyOf(st, i + 1, e);
    }
  }

  lemma {:induction false} FreshBelowGrows(st: seq<Group>, i: nat, j: nat)
    requires i <= j <= |st|
    ensures FreshBelow(st, i) <= FreshBelow(st, j)
  {
    if i < j {
      FreshBelowGrows(st, i, j - 1);
    }
  }

  /** What make_ext4fs chooses for 33046 blocks of 4 KiB: the second group holds its header and nothing else. */
  const TIGHT := Params(4096, 32768, 259, 15, true, 33046)

  lemma TightComputed()
    ensures TIGHT == Computed(4096, 4096 * 8, 33046)
  {
  }

  lemma TightGroups()
    ensures WholeGroups(TIGHT) == 2 && DescBlocks(TIGHT) == 1 && Leftover(TIGHT) == LastHeader(TIGHT) == 278
    ensures RoomForHeaders(TIGHT) && AuxInfo(TIGHT) == Layout(2, 33046, 1)
    ensures InitGroups(TIGHT, AuxInfo(TIGHT)) == [Group(0, 0, 32490, 278), Group(32768, 0, 0, 32768)]
  {
  }

  lemma TightImageSpins(len: nat)
    requires len > 32490
    ensures TIGHT == Computed(4096, 4096 * 8, 33046)
    ensures Allocate(InitGroups(TIGHT, AuxInfo(TIGHT)), len).verdict == Spinning
  {
    hide InitGroups, AuxInfo, Allocate, Computed;
    TightComputed();
    TightGroups();
    var st := InitGroups(TIGHT, AuxInfo(TIGHT));
    TightBelow(st);
    TooLargeSpins(st, len, 1);
  }

  lemma TightBelow(st: seq<Group>)
    requires st == [Group(0, 0, 32490, 278), Group(32768, 0, 0, 32768)]
    ensures FreshBelow(st, 1) == 32490
  {
    assert FreshBelow(st, 0) == 0;
  }

  // ---- a file that loses its blocks ----

  /** 87 blocks of 4 KiB in groups of 29: one, one and 26 blocks are left beside the headers. */
  const CRAMPED := Params(4096, 29, 1, 23, true, 87)

  lemma CrampedComputed()
    ensures CRAMPED == Computed(4096, 29, 87)
  {
  }

  lemma CrampedHeaders(p: Params)
    requires p == CRAMPED
    ensures Header(p, 1, 0) == Header(p, 1, 1) == 28 && Header(p, 1, 2) == 3
  {
    PowerOfSmall(2, 3);
    PowerOfSmall(2, 5);
    PowerOfSmall(2, 7);
  }

  lemma CrampedLayout(p: Params)
    requires p == CRAMPED
    ensures p.imageBlocks > FirstDataBlock(p.blockSize) && WholeGroups(p) >= 1 && AuxInfo(p) == Layout(3, 87, 1)
  {
    hide Header;
    assert WholeGroups(p) == 3 && DescBlocks(p) == 1 && Leftover(p) == 0;
  }

  lemma FirstThree(p: Params)
    requires p.blockSize > 1024
    ensures FirstBlock(p, 0) == 0 && FirstBlock(p, 1) == p.perGroup && FirstBlock(p, 2) == 2 * p.perGroup
    ensures FirstBlock(p, 3) == 3 * p.perGroup
  {
  }

  lemma CrampedInit()
    ensures InitGroup(0, 29, 28, 87) == Group(0, 0, 1, 28) && InitGroup(29, 29, 28, 87) == Group(29, 0, 1, 28)
    ensures InitGroup(58, 29, 3, 87) == Group(58, 0, 26, 3)
  {
  }

  lemma CrampedIsGood(p: Params, a: Layout)
    requires p == CRAMPED && a == Layout(3, 87, 1)
    ensures GoodLayout(p, a)
  {
    hide Header, FirstBlock;
    CrampedHeaders(p);
    FirstThree(p);
  }

  lemma CrampedGroups(p: Params, a: Layout)
    requires p == CRAMPED && a == Layout(3, 87, 1)
    ensures GoodLayout(p, a)
    ensures InitGroups(p, a) == [Group(0, 0, 1, 28), Group(29, 0, 1, 28), Group(58, 0, 26, 3)]
  {
    hide Header, FirstBlock, InitGroup, Sound;
    CrampedIsGood(p, a);
    CrampedHeaders(p);
    FirstThree(p);
    CrampedInit();
    var st := InitGroups(p, a);
    assert st[0] == InitGroup(0, 29, 28, 87) && st[1] == InitGroup(29, 29, 28, 87) && st[2] == InitGroup(58, 29, 3, 87);
  }

  /** A round that uses a group up whole. */
  lemma WholeGroup(st: seq<Group>, len: nat, i: nat)
    requires FirstUntouched(st, 0) == i < |st| && 0 < st[i].free < len
    ensures var rest := Multiple(Taken(st, i, st[i].free), len - st[i].free);
      Multiple(st, len) == rest.(regions := [RegionAt(st, i, st[i].free)] + rest.regions)
  {
  }

  /** A file of 27 blocks is granted its 28... */
  lemma CrampedGrant(st: seq<Group>)
    requires st == [Group(0, 0, 1, 28), Group(29, 0, 1, 28), Group(58, 0, 26, 3)]
    ensures var g := Allocate(st, 28); g.verdict == Granted && g.regions == [Region(28, 1, 0), Region(57, 1, 1), Region(61, 26, 2)]
  {
    hide Multiple, FirstFit, FirstUntouched;
    var st1, st2 := Taken(st, 0, 1), Taken(Taken(st, 0, 1), 1, 1);
    assert FirstFit(st, 28, 0) == 3;
    WholeGroup(st, 28, 0);
    WholeGroup(st1, 27, 1);
    LastRound(st2);
  }

  lemma LastRound(st: seq<Group>)
    requires st == [Group(0, 1, 0, 29), Group(29, 1, 0, 29), Group(58, 0, 26, 3)]
    ensures Multiple(st, 26).verdict == Granted && Multiple(st, 26).regions == [Region(61, 26, 2)]
  {
    assert FirstFit(st, 26, 0) == 2 && FirstUntouched(st, 0) == 2;
  }

  /** ...and its map loses them. */
  lemma CrampedFileIsLost(p: Params)
    requires p == Computed(4096, 29, 87)
    ensures p.imageBlocks > FirstDataBlock(p.blockSize) && WholeGroups(p) >= 1 && GoodLayout(p, AuxInfo(p))
    ensures var g := ForFile(InitGroups(p, AuxInfo(p)), 27 * 4096, 4096);
      && g.verdict == Granted && g.regions != [] && LastTaken(g.st, g.regions) && !HeadHolds(g.regions)
      && Place(g, 4096).File? && Place(g, 4096).list == []
  {
    hide Allocate, InitGroups, GoodLayout, Computed, AuxInfo;
    CrampedComputed();
    CrampedLayout(p);
    CrampedGroups(p, AuxInfo(p));
    var st := InitGroups(p, AuxInfo(p));
    CrampedGrant(st);
    AllocateEnds(st, 28);
    ReduceOne(Allocate(st, 28).st, Allocate(st, 28).regions);
  }

  // ---- layouts that are not sound ----

  /** Two whole groups of 1 KiB blocks: the second is thrown away, and the image still ends in the middle of it. */
  const COMPLETE := Params(1024, 8192, 342, 95, true, 16385)

  lemma CompleteComputed()
    ensures COMPLETE == Computed(1024, 1024 * 8, 16385)
  {
  }

  lemma CompleteGroupDropped()
    ensures COMPLETE == Computed(1024, 1024 * 8, 16385)
    ensures FirstBlock(COMPLETE, 2) == COMPLETE.imageBlocks && RoomForHeaders(COMPLETE)
    ensures var a := AuxInfo(COMPLETE); a.groups == 1 && a.blocks > FirstBlock(COMPLETE, 1) && !Sound(COMPLETE, a)
  {
    CompleteComputed();
    hide Computed;
    assert WholeGroups(COMPLETE) == 2 && DescBlocks(COMPLETE) == 1 && Leftover(COMPLETE) == 1;
  }

  /** A second group of 333 blocks is kept, although its header has 334. */
  const SHORT := Params(1024, 8192, 267, 63, true, 8526)

  lemma ShortComputed()
    ensures SHORT == Computed(1024, 1024 * 8, 8526)
  {
  }

  lemma ShortGroupKept()
    ensures SHORT == Computed(1024, 1024 * 8, 8526)
    ensures RoomForHeaders(SHORT) && LastHeader(SHORT) == 334 && SHORT.imageBlocks == FirstBlock(SHORT, 1) + 333
    ensures var a := AuxInfo(SHORT); a.groups == 2 && !Sound(SHORT, a)
  {
    ShortComputed();
    hide Computed;
    assert WholeGroups(SHORT) == 2 && DescBlocks(SHORT) == 1 && Leftover(SHORT) == 334;
  }
}
