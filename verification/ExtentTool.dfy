/** Laying out the image, taking a file's blocks, writing its extent table and decoding it again. */
module ExtentTool {
  import opened Arithmetic
  import opened AllocModel
  import opened AllocProofs
  import opened Ext4Geometry
  import opened Bitmap
  import opened AllocTool
  import opened Extents
  import opened ExtentProofs

  /** block_allocator_init */
  method BlockAllocatorInit(p: Params, groups: nat, blocks: nat, descBlocks: nat) returns (al: Allocator)
    requires p.perGroup <= 8 * p.blockSize
    requires forall i :: 0 <= i < groups ==> Header(p, descBlocks, i) <= p.perGroup
    ensures fresh(al) && fresh(al.Repr()) && al.Valid()
    ensures al.Abs() == InitGroups(p, Layout(groups, blocks, descBlocks))
  {
    hide BlockGroup.Valid;
    ghost var a := Layout(groups, blocks, descBlocks);
    var bgs: seq<BlockGroup> := [];
    ghost var owner: map<array<bv8>, nat> := map[];
    var i := 0;
    while i < groups
      invariant 0 <= i <= groups && |bgs| == i
      invariant forall k {:trigger bgs[k]} :: 0 <= k < i ==>
        && bgs[k].index == k && bgs[k].bitmap in owner && owner[bgs[k].bitmap] == k
        && fresh(bgs[k]) && fresh(bgs[k].bitmap) && bgs[k].Valid() && bgs[k].Abs() == InitGroups(p, a)[k]
    {
      var super := HasSuperBlock(p.sparseSuper, i);
      var header := 2 + p.tableBlocks + if super then 1 + descBlocks + p.reserved else 0;
      assert header == Header(p, descBlocks, i);
      var bg := new BlockGroup(i, FirstBlock(p, i), p.perGroup, header, blocks, p.blockSize);
      bgs := bgs + [bg];
      owner := owner[bg.bitmap := i];
      i := i + 1;
    }
    al := new Allocator(bgs, owner);
    assert al.Abs() == InitGroups(p, a);
  }

  // ---- taking blocks off an allocation ----

  /** reduce_allocation by one block, on what allocate_blocks returned. */
  method ReduceAllocation(al: Allocator, regs: seq<Region>, amount: nat) returns (list: seq<Region>)
    requires al.Valid() && (regs != [] ==> AtEnd(al.Abs(), regs[0])) && Reduce(al.Abs(), regs, amount).Reduced?
    modifies al.Repr()
    ensures al.Valid() && Reduce(old(al.Abs()), regs, amount) == Reduced(al.Abs(), list)
  {
    hide al.Valid, BlockGroup.Valid, Reduce;
    list := regs;
    var len: nat := amount;
    while len > 0
      invariant al.Valid() && (list != [] ==> AtEnd(al.Abs(), list[0]))
      invariant Reduce(old(al.Abs()), regs, amount) == Reduce(al.Abs(), list, len)
      decreases len
    {
      ReduceStep(al.Abs(), list, len);
      var last := list[0];
      if last.len > len {
        al.GiveBack(last.bg, len);
        list := list[0 := last.(len := last.len - len)];
        len := 0;
      } else {
        al.GiveBack(last.bg, last.len);
        list := [];
        len := len - last.len;
      }
    }
    ReduceNothing(al.Abs(), list);
  }

  lemma ReduceStep(st: seq<Group>, list: seq<Region>, len: nat)
    requires (list != [] ==> AtEnd(st, list[0])) && len > 0 && Reduce(st, list, len).Reduced?
    ensures list != [] && AtEnd(st, list[0])
    ensures var head := list[0];
      if head.len > len then
        Reduce(st, list, len)
        == Reduce(st[head.bg := st[head.bg].GiveBack(len)], list[0 := head.(len := head.len - len)], 0)
      else
        Reduce(st, list, len) == Reduce(st[head.bg := st[head.bg].GiveBack(head.len)], [], len - head.len)
  {
  }

  lemma ReduceNothing(st: seq<Group>, list: seq<Region>)
    requires list != [] ==> AtEnd(st, list[0])
    ensures Reduce(st, list, 0) == Reduced(st, list)
  {
  }

  /** do_split_allocation up to the place of the split. */
  method FindSplit(list: seq<Region>, n: nat) returns (k: nat, rest: nat)
    ensures WalkTo(list, n) == Walk(k, rest)
  {
    k, rest := 0, n;
    assert list[0..] == list;
    while k < |list| && rest >= list[k].len
      invariant 0 <= k <= |list|
      invariant var w := WalkTo(list[k..], rest); WalkTo(list, n) == Walk(k + w.k, w.rest)
    {
      assert list[k..][0] == list[k] && list[k..][1..] == list[k + 1..];
      k, rest := k + 1, rest - list[k].len;
    }
  }

  /** The loop of reserve_oob_blocks: takes regions off one list, appends them to the other. */
  method MoveRegions(all: seq<Region>, from: nat, to: nat) returns (list: seq<Region>, oob: seq<Region>)
    requires from <= to <= |all|
    ensures list == all[..from] + all[to..] && oob == all[from..to]
  {
    list, oob := all, [];
    var i := from;
    while i < to
      invariant from <= i <= to
      invariant oob == all[from..i] && list == all[..from] + all[i..]
    {
      assert list[from] == all[i] && list[from + 1..] == all[i + 1..];
      oob := oob + [list[from]];
      list := list[..from] + list[from + 1..];
      i := i + 1;
    }
  }

  method ReserveOobBlocks(regs: seq<Region>, n: nat) returns (ok: bool, list: seq<Region>, oob: seq<Region>)
    ensures ReserveOob(regs, n) == Oob(ok, list, oob)
  {
    hide WalkTo, TotalLen;
    var k, rest := FindSplit(regs, n);
    if k == |regs| {
      return false, regs, [];
    }
    ok := true;
    if rest > 0 {
      var r := regs[k];
      var front, back := r.(len := rest), Region(r.block + rest, r.len - rest, r.bg);
      ghost var a, b := regs[..k] + [front], [back] + regs[k + 1..];
      list, oob := MoveRegions(regs[..k] + [front] + ([back] + regs[k + 1..]), 0, k + 1);
      Halves(a, b);
      assert |a| == k + 1;
    } else if k > 0 {
      list, oob := MoveRegions(regs, k, |regs|);
      assert regs[|regs|..] == [];
    } else {
      list, oob := regs, [];
    }
  }

  lemma Halves(a: seq<Region>, b: seq<Region>)
    ensures (a + b)[..0] + (a + b)[|a|..] == b && (a + b)[0..|a|] == a
  {
  }

  // ---- the extent table ----

  /** The loop over the regions in do_inode_allocate_extents, on a table that was zeroed. */
  method FillExtents(list: seq<Region>, n: nat) returns (table: seq<Extent>)
    requires |list| <= n
    ensures table == Slots(list, n)
  {
    hide ExtentsOf;
    var t := new Extent[n](_ => NO_EXTENT);
    var i := 0;
    var fileBlock: nat := 0;
    assert list[0..] == list;
    while i < |list|
      invariant 0 <= i <= |list|
      invariant t[..i] + ExtentsOf(list[i..], fileBlock) == ExtentsOf(list, 0)
      invariant forall k :: i <= k < n ==> t[k] == NO_EXTENT
    {
      NextExtent(list, i, fileBlock);
      ghost var before := t[..i];
      t[i] := Extent(fileBlock, list[i].len % 0x1_0000, list[i].block);
      fileBlock := (fileBlock + list[i].len) % WORD32;
      i := i + 1;
      assert t[..i] == before + [t[i - 1]];
    }
    NoExtent(list, fileBlock);
    return t[..];
  }

  lemma NextExtent(list: seq<Region>, i: nat, fileBlock: nat)
    requires i < |list|
    ensures ExtentsOf(list[i..], fileBlock) == [Extent(fileBlock, list[i].len % 0x1_0000, list[i].block)]
      + ExtentsOf(list[i + 1..], (fileBlock + list[i].len) % WORD32)
  {
    assert list[i..][0] == list[i] && list[i..][1..] == list[i + 1..];
  }

  lemma NoExtent(list: seq<Region>, fileBlock: nat)
    ensures ExtentsOf(list[|list|..], fileBlock) == []
  {
  }

  datatype Outcome = Made(list: seq<Region>, oob: seq<Region>, map_: Map) | NotMade | TooMany | Overrun

  /** The outcome, and the groups as they are then, come from the regions of g as Place says. */
  ghost predicate MadeFrom(o: Outcome, st: seq<Group>, g: Grant, blockSize: Positive)
    requires g.regions != [] && LastTaken(g.st, g.regions)
  {
    match Place(g, blockSize)
    case File(st', list, oob, m) => o == Made(list, oob, m) && st == st'
    case TooManyExtents => o == TooMany
    case LeafOverrun => o == Overrun
    case NotAllocated(_) => false
  }

  /** do_inode_allocate_extents; led is what was outstanding before. */
  method InodeAllocateExtents(al: Allocator, bytes: nat, blockSize: Positive, ghost init: seq<Group>, ghost led: seq<Region>)
    returns (o: Outcome)
    requires al.Valid() && LedgerOk(init, al.Abs(), led)
    requires BlockLen(bytes, blockSize) + 1 < WORD32
    requires Allocate(al.Abs(), BlockLen(bytes, blockSize) + 1).verdict != Spinning
    modifies al.Repr()
    ensures al.Valid()
    ensures var g := Allocate(old(al.Abs()), BlockLen(bytes, blockSize) + 1);
      if g.verdict != Granted then o == NotMade && al.Abs() == g.st
      else
        && g.regions != [] && LastTaken(g.st, g.regions) && MadeFrom(o, al.Abs(), g, blockSize)
        && (o.Made? ==> LedgerOk(init, al.Abs(), led + Lost(g.regions) + o.oob + o.list))
        && (o.Made? ==> (o.map_.Inline? <==> |g.regions| <= 3))
  {
    hide al.Valid, LedgerOk, Allocate, LastTaken, Reduce, ReserveOob;
    ghost var g := Allocate(al.Abs(), BlockLen(bytes, blockSize) + 1);
    AllocateKeeps(init, al.Abs(), led, BlockLen(bytes, blockSize) + 1);
    var ok, regs := al.DoAllocate(BlockLen(bytes, blockSize) + 1);
    if !ok {
      return NotMade;
    }
    LastTakenHead(g.st, regs);
    if |regs| <= INLINE_EXTENTS {
      var list := ReduceAllocation(al, regs, 1);
      var table := FillExtents(list, INLINE_EXTENTS);
      o := Made(list, [], Inline(|regs|, table));
    } else {
      var oobOk, list, oob := ReserveOobBlocks(regs, 1);
      ReserveOne(regs);
      if blockSize - EXTENT_SIZE / EXTENT_SIZE < |regs| {
        return TooMany;
      }
      if LeafCapacity(blockSize) < |regs| {
        return Overrun;
      }
      var table := FillExtents(list, LeafCapacity(blockSize));
      o := Made(list, oob, Indirect(oob[0].block, |regs|, table));
    }
    PlaceKeeps(init, led, g, blockSize);
  }

  lemma LastTakenHead(st: seq<Group>, regs: seq<Region>)
    requires LastTaken(st, regs) && TotalLen(regs) >= 1
    ensures regs != [] && AtEnd(st, regs[0]) && (|regs| >= 2 ==> regs[1].len >= 1)
    ensures Reduce(st, regs, 1).Reduced? && |Reduce(st, regs, 1).list| <= |regs|
    ensures |regs| > INLINE_EXTENTS ==> |ReserveOob(regs, 1).list| <= |regs| && ReserveOob(regs, 1).oob != []
  {
    assert AtEnd(st, regs[0]);
    if |regs| >= 2 {
      assert AtEnd(st, regs[1]);
      ReserveOne(regs);
    }
  }

  // ---- decoding ----

  /** get_extent_ents */
  method GetExtentEnts(entries: nat, table: seq<Extent>, blockList: array<nat>)
    requires entries <= |table|
    requires forall i :: 0 <= i < entries ==> table[i].fileBlock + table[i].len <= blockList.Length
    modifies blockList
    ensures blockList[..] == Decoded(old(blockList[..]), table[..entries])
  {
    var i := 0;
    assert table[0..entries] == table[..entries];
    while i < entries
      invariant 0 <= i <= entries
      invariant Decoded(old(blockList[..]), table[..entries]) == Decoded(blockList[..], table[i..entries])
    {
      assert table[i..entries][0] == table[i] && table[i..entries][1..] == table[i + 1..entries];
      StoreExtent(table[i], blockList);
      i := i + 1;
    }
  }

  method StoreExtent(e: Extent, blockList: array<nat>)
    requires e.fileBlock + e.len <= blockList.Length
    modifies blockList
    ensures blockList[..] == Stored(old(blockList[..]), e)
  {
    var j := 0;
    while j < e.len
      invariant 0 <= j <= e.len
      invariant forall k :: 0 <= k < blockList.Length ==>
        blockList[k] == if e.fileBlock <= k < e.fileBlock + j then e.start + (k - e.fileBlock) else old(blockList[k])
    {
      blockList[e.fileBlock + j] := e.start + j;
      j := j + 1;
    }
  }
}
