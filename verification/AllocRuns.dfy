/** Whole runs of the image builder: any sequence of allocations from a freshly laid out image. */
module AllocRuns {
  import opened Arithmetic
  import opened Sequences
  import opened AllocModel
  import opened AllocProofs
  import opened Ext4Geometry
  import opened Extents
  import opened ExtentProofs

  /** allocate_block for an attribute block, or the blocks of a file of so many bytes. */
  datatype Op = OneBlock | NewFile(bytes: nat)

  /** led lists every region outstanding; a call that fails or never returns ends the run. */
  datatype Run = Running(st: seq<Group>, led: seq<Region>) | Stopped

  /** block_len + 1, in 32-bit arithmetic. */
  function Requested(bytes: nat, blockSize: Positive): nat {
    (BlockLen(bytes, blockSize) + 1) % WORD32
  }

  function ForFile(st: seq<Group>, bytes: nat, blockSize: Positive): Grant {
    Allocate(st, Requested(bytes, blockSize))
  }

  ghost function Step(blockSize: Positive, st: seq<Group>, led: seq<Region>, op: Op): Run {
    match op
    case OneBlock =>
      var g := Contiguous(st, 1);
      if g.verdict != Granted then Stopped else Running(g.st, led + g.regions)
    case NewFile(bytes) =>
      var g := ForFile(st, bytes, blockSize);
      // a length of 2^32 - 1 blocks wraps around to a request for none; what then happens is not followed
      if g.verdict != Granted || Requested(bytes, blockSize) == 0 then Stopped
      else
        AllocateEnds(st, Requested(bytes, blockSize));
        match Place(g, blockSize)
        case File(st', list, oob, _) => Running(st', led + Lost(g.regions) + oob + list)
        case _ => Stopped
  }

  ghost function RunAll(blockSize: Positive, st: seq<Group>, led: seq<Region>, ops: seq<Op>): Run
    decreases |ops|
  {
    if ops == [] then Running(st, led)
    else
      match Step(blockSize, st, led, ops[0])
      case Running(st', led') => RunAll(blockSize, st', led', ops[1..])
      case Stopped => Stopped
  }

  lemma StepKeeps(init: seq<Group>, blockSize: Positive, st: seq<Group>, led: seq<Region>, op: Op)
    requires LedgerOk(init, st, led)
    ensures var r := Step(blockSize, st, led, op); r.Running? ==> LedgerOk(init, r.st, r.led)
  {
    match op {
      case OneBlock => ContiguousKeeps(init, st, led, 1);
      case NewFile(bytes) =>
        AllocateKeeps(init, st, led, Requested(bytes, blockSize));
        var g := ForFile(st, bytes, blockSize);
        if g.verdict == Granted && Requested(bytes, blockSize) > 0 {
          AllocateEnds(st, Requested(bytes, blockSize));
          if Place(g, blockSize).File? {
            PlaceKeeps(init, led, g, blockSize);
          }
        }
    }
  }

  /** In every reachable state each block handed out has exactly one owner, and no other block has any. */
  lemma {:induction false} RunKeepsLedger(init: seq<Group>, blockSize: Positive, st: seq<Group>, led: seq<Region>, ops: seq<Op>)
    requires LedgerOk(init, st, led)
    ensures var r := RunAll(blockSize, st, led, ops); r.Running? ==> LedgerOk(init, r.st, r.led)
    decreases |ops|
  {
    if ops != [] {
      StepKeeps(init, blockSize, st, led, ops[0]);
      var r := Step(blockSize, st, led, ops[0]);
      if r.Running? {
        RunKeepsLedger(init, blockSize, r.st, r.led, ops[1..]);
      }
    }
  }

  // ---- a file's blocks ----

  lemma {:induction false} BlockInRegion(list: seq<Region>, k: nat) returns (j: nat)
    requires k < TotalLen(list)
    ensures j < |list| && list[j].block <= Blocks(list)[k] < list[j].block + list[j].len
  {
    if k < list[0].len {
      j := 0;
    } else {
      j := BlockInRegion(list[1..], k - list[0].len);
      j := j + 1;
    }
  }

  ghost predicate Apart(list: seq<Region>) {
    forall i, j :: 0 <= i < j < |list| ==> Disjoint(list[i], list[j])
  }

  lemma {:induction false} ApartDistinct(list: seq<Region>)
    requires Apart(list)
    ensures Distinct(Blocks(list))
  {
    if list != [] {
      var rest := list[1..];
      ApartDistinct(rest);
      forall i, j | 0 <= i < j < |Blocks(list)| ensures Blocks(list)[i] != Blocks(list)[j] {
        if list[0].len <= j {
          assert Blocks(list)[j] == Blocks(rest)[j - list[0].len];
          if i < list[0].len {
            var m := BlockInRegion(rest, j - list[0].len);
            assert Disjoint(list[0], list[m + 1]);
          } else {
            assert Blocks(list)[i] == Blocks(rest)[i - list[0].len];
          }
        }
      }
    }
  }

  ghost predicate GoodLayout(p: Params, a: Layout) {
    && Sound(p, a) && p.perGroup <= 0x8000 && FirstBlock(p, a.groups) < WORD32
    && forall i :: 0 <= i < a.groups ==> Header(p, a.descBlocks, i) <= p.perGroup
  }

  lemma GroupsSmall(p: Params, a: Layout, st: seq<Group>, led: seq<Region>)
    requires GoodLayout(p, a) && LedgerOk(InitGroups(p, a), st, led)
    ensures forall i :: 0 <= i < |st| ==> st[i].free <= 0x8000
  {
    forall i | 0 <= i < |st| ensures st[i].free <= 0x8000 {
      DataArea(p, a, i);
      assert From(InitGroups(p, a)[i], st[i]);
    }
  }

  /**
   A file made at any point of a run: its map decodes to as many blocks as its bytes need, all
   different, in data areas of the image; its extents are numbered through and within ext4's bound.
   */
  lemma FileReadsBack(p: Params, a: Layout, ops: seq<Op>, st: seq<Group>, led: seq<Region>, bytes: nat, blocks: seq<nat>)
    requires GoodLayout(p, a)
    requires RunAll(p.blockSize, InitGroups(p, a), [], ops) == Running(st, led)
    requires DivRoundUp(bytes, p.blockSize) + 1 < WORD32 && |blocks| == DivRoundUp(bytes, p.blockSize)
    requires Step(p.blockSize, st, led, NewFile(bytes)).Running?
    requires HeadHolds(ForFile(st, bytes, p.blockSize).regions)
    ensures ReadsBack(p, a, ForFile(st, bytes, p.blockSize), blocks)
  {
    hide LastTaken, Place, LedgerOk, ReadsBack, HeadHolds, Allocate, Step, RunAll, GoodLayout, InitGroups, Requested, DivRoundUp;
    RequestedIs(bytes, p.blockSize);
    LayoutGiven(p, a);
    LedgerStarts(InitGroups(p, a));
    RunKeepsLedger(InitGroups(p, a), p.blockSize, InitGroups(p, a), [], ops);
    AllocateKeeps(InitGroups(p, a), st, led, |blocks| + 1);
    GroupsSmall(p, a, st, led);
    AllocatedShort(st, |blocks| + 1);
    StepGranted(p.blockSize, st, led, bytes);
    GrantReadsBack(p, a, led, ForFile(st, bytes, p.blockSize), blocks);
  }

  lemma RequestedIs(bytes: nat, blockSize: Positive)
    requires DivRoundUp(bytes, blockSize) + 1 < WORD32
    ensures Requested(bytes, blockSize) == DivRoundUp(bytes, blockSize) + 1
  {
  }

  lemma LayoutGiven(p: Params, a: Layout)
    requires GoodLayout(p, a)
    ensures forall i :: 0 <= i < a.groups ==> Header(p, a.descBlocks, i) <= p.perGroup
  {
  }

  /** The file made of the regions of g has |blocks| blocks, which its map decodes to. */
  ghost predicate ReadsBack(p: Params, a: Layout, g: Grant, blocks: seq<nat>) {
    && g.regions != [] && LastTaken(g.st, g.regions) && Place(g, p.blockSize).File?
    && var f := Place(g, p.blockSize);
    && f.map_.entries <= |f.map_.table| && BlockList(blocks, f.map_) == Blocks(f.list)
    && |Blocks(f.list)| == |blocks|
    && Numbered(f.map_.table[..f.map_.entries], 0)
    && (forall i :: 0 <= i < f.map_.entries ==> f.map_.table[i].len <= 0x8000)
    && Distinct(Blocks(f.list))
    && forall k :: 0 <= k < |Blocks(f.list)| ==> InDataArea(p, a, Blocks(f.list)[k])
  }

  lemma GrantReadsBack(p: Params, a: Layout, led: seq<Region>, g: Grant, blocks: seq<nat>)
    requires GoodLayout(p, a) && LedgerOk(InitGroups(p, a), g.st, led + g.regions)
    requires g.regions != [] && LastTaken(g.st, g.regions) && HeadHolds(g.regions)
    requires Short(g.regions) && AtMost(g.regions, 0x8000)
    requires TotalLen(g.regions) == |blocks| + 1 < WORD32 && Place(g, p.blockSize).File?
    ensures ReadsBack(p, a, g, blocks)
  {
    hide LastTaken, Blocks, Place, LedgerOk, BlockList, Distinct, InDataArea;
    RoundTripIff(g, p.blockSize, |blocks|, blocks);
    MapNumbered(g, p.blockSize, 0x8000);
    PlaceKeeps(InitGroups(p, a), led, g, p.blockSize);
    ListInLedger(p, a, led, g);
  }

  lemma StepGranted(blockSize: Positive, st: seq<Group>, led: seq<Region>, bytes: nat)
    requires Step(blockSize, st, led, NewFile(bytes)).Running?
    ensures var g := ForFile(st, bytes, blockSize);
      g.verdict == Granted && g.regions != [] && LastTaken(g.st, g.regions) && Place(g, blockSize).File?
  {
    AllocateEnds(st, Requested(bytes, blockSize));
  }

  /**
   Every block handed out lies behind a group's header, so the number of the leaf block is never 0: the
   source's test of it tells the two forms of the map apart just as the number of regions does.
   */
  lemma LeafBlockIsNotZero(p: Params, a: Layout, led: seq<Region>, g: Grant)
    requires GoodLayout(p, a) && LedgerOk(InitGroups(p, a), g.st, led + g.regions)
    requires g.regions != [] && LastTaken(g.st, g.regions) && Place(g, p.blockSize).File?
    ensures var m := Place(g, p.blockSize).map_;
      && (m.Indirect? <==> |g.regions| > 3) && (m.Indirect? ==> m.leafBlock >= 2)
      && |m.table| == if m.Inline? then 3 else (p.blockSize - 12) / 12
  {
    if |g.regions| > INLINE_EXTENTS {
      ReserveOne(g.regions);
      var k := if g.regions[0].len > 1 then 0 else 1;
      assert AtEnd(g.st, g.regions[k]) && (led + g.regions)[|led| + k] == g.regions[k];
      RegionInside(p, a, g.st, led + g.regions, |led| + k, g.regions[k].block);
      MulNotNegative(g.regions[k].bg, p.perGroup);
    }
  }

  lemma MulNotNegative(x: nat, y: nat)
    ensures x * y >= 0
  {
  }

  lemma AllocatedShort(st: seq<Group>, len: nat)
    requires forall i :: 0 <= i < |st| ==> st[i].free <= 0x8000
    ensures Short(Allocate(st, len).regions) && AtMost(Allocate(st, len).regions, 0x8000)
  {
    RegionsShort(st, len, 0x8000);
  }

  ghost predicate InDataArea(p: Params, a: Layout, x: nat) {
    exists i :: 0 <= i < a.groups && InGroup(p, a, i, x)
  }

  ghost predicate InGroup(p: Params, a: Layout, i: nat, x: nat) {
    FirstBlock(p, i) + Header(p, a.descBlocks, i) <= x < a.blocks && x < FirstBlock(p, i + 1)
  }

  lemma ListInLedger(p: Params, a: Layout, led: seq<Region>, g: Grant)
    requires GoodLayout(p, a)
    requires g.regions != [] && LastTaken(g.st, g.regions) && Place(g, p.blockSize).File?
    requires var f := Place(g, p.blockSize); LedgerOk(InitGroups(p, a), f.st, led + Lost(g.regions) + f.oob + f.list)
    ensures var f := Place(g, p.blockSize);
      Distinct(Blocks(f.list)) && forall k :: 0 <= k < |Blocks(f.list)| ==> InDataArea(p, a, Blocks(f.list)[k])
  {
    var f := Place(g, p.blockSize);
    TailApart(p, a, f.st, led + Lost(g.regions) + f.oob, f.list);
  }

  /** Regions at the end of the ledger. */
  lemma TailApart(p: Params, a: Layout, st: seq<Group>, led: seq<Region>, list: seq<Region>)
    requires GoodLayout(p, a) && LedgerOk(InitGroups(p, a), st, led + list)
    ensures Distinct(Blocks(list)) && forall k :: 0 <= k < |Blocks(list)| ==> InDataArea(p, a, Blocks(list)[k])
  {
    forall i, j | 0 <= i < j < |list| ensures Disjoint(list[i], list[j]) {
      RegionsDisjoint(p, a, st, led + list, |led| + i, |led| + j);
    }
    ApartDistinct(list);
    forall k | 0 <= k < |Blocks(list)| ensures InDataArea(p, a, Blocks(list)[k]) {
      var j := BlockInRegion(list, k);
      RegionInside(p, a, st, led + list, |led| + j, Blocks(list)[k]);
      assert InGroup(p, a, list[j].bg, Blocks(list)[k]);
    }
  }
}
