/** A file's extent map decodes to the blocks it was given, and the ledger of owners stays in order. */
module ExtentProofs {
  import opened Arithmetic
  import opened AllocModel
  import opened AllocProofs
  import opened Extents

  // ---- decoding what was encoded ----

  lemma StoredNothing(blocks: seq<nat>)
    ensures Stored(blocks, NO_EXTENT) == blocks
  {
  }

  lemma {:induction false} DecodedNothing(blocks: seq<nat>, n: nat)
    ensures Decoded(blocks, seq(n, k => NO_EXTENT)) == blocks
    decreases n
  {
    if n > 0 {
      StoredNothing(blocks);
      assert seq(n, k => NO_EXTENT)[1..] == seq(n - 1, k => NO_EXTENT);
      DecodedNothing(blocks, n - 1);
    }
  }

  lemma {:induction false} DecodedAdd(blocks: seq<nat>, a: seq<Extent>, b: seq<Extent>)
    ensures Decoded(blocks, a + b) == Decoded(Decoded(blocks, a), b)
    decreases |a|
  {
    if a == [] {
      assert a + b == b;
    } else {
      assert (a + b)[1..] == a[1..] + b;
      DecodedAdd(Stored(blocks, a[0]), a[1..], b);
    }
  }

  predicate Short(list: seq<Region>) {
    forall i :: 0 <= i < |list| ==> list[i].len < 0x1_0000
  }

  function Run(r: Region): (bs: seq<nat>)
    ensures |bs| == r.len
  {
    seq(r.len, k requires 0 <= k < r.len => r.block + k)
  }

  lemma StoredRun(blocks: seq<nat>, r: Region, fileBlock: nat, more: nat)
    requires fileBlock + r.len + more <= |blocks|
    ensures var stored, next := Stored(blocks, Extent(fileBlock, r.len, r.block)), fileBlock + r.len;
      stored[..next] == blocks[..fileBlock] + Run(r) && stored[next + more..] == blocks[next + more..]
  {
  }

  /** Consecutive extents fill the block list in order, from fileBlock on. */
  lemma {:induction false} DecodedExtents(blocks: seq<nat>, list: seq<Region>, fileBlock: nat)
    requires Short(list) && fileBlock + TotalLen(list) <= |blocks| && |blocks| < WORD32
    ensures Decoded(blocks, ExtentsOf(list, fileBlock))
         == blocks[..fileBlock] + Blocks(list) + blocks[fileBlock + TotalLen(list)..]
    decreases |list|
  {
    hide Stored, Run;
    if list == [] {
      assert blocks == blocks[..fileBlock] + [] + blocks[fileBlock..];
    } else {
      var r, next, rest := list[0], fileBlock + list[0].len, TotalLen(list[1..]);
      var es := ExtentsOf(list, fileBlock);
      assert es[0] == Extent(fileBlock, r.len, r.block) && es[1..] == ExtentsOf(list[1..], next);
      DecodedExtents(Stored(blocks, es[0]), list[1..], next);
      StoredRun(blocks, r, fileBlock, rest);
      BlocksHead(list);
      Reassociate(blocks[..fileBlock], Run(r), Blocks(list[1..]), blocks[next + rest..]);
    }
  }

  lemma BlocksHead(list: seq<Region>)
    requires list != []
    ensures Blocks(list) == Run(list[0]) + Blocks(list[1..])
  {
  }

  lemma Reassociate(a: seq<nat>, b: seq<nat>, c: seq<nat>, d: seq<nat>)
    ensures (a + b) + c + d == a + (b + c) + d
  {
  }

  /** A zeroed table with the extents in front decodes to the regions' blocks. */
  lemma SlotsDecode(blocks: seq<nat>, list: seq<Region>, n: nat, entries: nat)
    requires Short(list) && TotalLen(list) == |blocks| < WORD32 && |list| <= entries <= n
    ensures Decoded(blocks, Slots(list, n)[..entries]) == Blocks(list)
  {
    var es := ExtentsOf(list, 0);
    assert Slots(list, n)[..entries] == es + seq(entries - |list|, k => NO_EXTENT);
    DecodedAdd(blocks, es, seq(entries - |list|, k => NO_EXTENT));
    DecodedExtents(blocks, list, 0);
    assert blocks[..0] + Blocks(list) + blocks[|blocks|..] == Blocks(list);
    DecodedNothing(Blocks(list), entries - |list|);
  }

  /** The extents follow one another in the file, from fileBlock on. */
  predicate Numbered(es: seq<Extent>, fileBlock: nat) {
    && (es != [] ==> es[0].fileBlock == fileBlock)
    && forall i :: 0 <= i < |es| - 1 ==> es[i + 1].fileBlock == es[i].fileBlock + es[i].len
  }

  lemma {:induction false} ExtentsNumbered(list: seq<Region>, fileBlock: nat)
    requires Short(list) && fileBlock + TotalLen(list) < WORD32
    ensures Numbered(ExtentsOf(list, fileBlock), fileBlock)
    ensures forall i :: 0 <= i < |list| ==> ExtentsOf(list, fileBlock)[i].len == list[i].len
  {
    if list != [] {
      ExtentsNumbered(list[1..], fileBlock + list[0].len);
      var es, rest := ExtentsOf(list, fileBlock), ExtentsOf(list[1..], fileBlock + list[0].len);
      assert es == [Extent(fileBlock, list[0].len, list[0].block)] + rest;
    }
  }

  /** The extents of a map whose head holds: numbered through, and none longer than a region was. */
  lemma MapNumbered(g: Grant, blockSize: Positive, max: nat)
    requires g.regions != [] && LastTaken(g.st, g.regions) && Short(g.regions) && HeadHolds(g.regions)
    requires AtMost(g.regions, max) && TotalLen(g.regions) < WORD32 && Place(g, blockSize).File?
    ensures var m := Place(g, blockSize).map_;
      && m.entries <= |m.table| && Numbered(m.table[..m.entries], 0)
      && forall i :: 0 <= i < m.entries ==> m.table[i].len <= max
  {
    var rs, f := g.regions, Place(g, blockSize);
    var head := rs[0];
    if |rs| <= INLINE_EXTENTS {
      ReduceOne(g.st, rs);
      TotalLenHead(rs, head.(len := head.len - 1));
      SlotsNumbered(f.list, INLINE_EXTENTS, |rs|);
    } else {
      ReserveOne(rs);
      TotalLenHead(rs, Region(head.block + 1, head.len - 1, head.bg));
      SlotsNumbered(f.list, LeafCapacity(blockSize), |rs|);
    }
  }

  lemma SlotsNumbered(list: seq<Region>, n: nat, entries: nat)
    requires Short(list) && TotalLen(list) < WORD32 && |list| <= entries <= n
    requires entries == |list| || (list == [] && entries == 1)
    ensures Numbered(Slots(list, n)[..entries], 0)
    ensures forall i :: 0 <= i < entries ==> Slots(list, n)[i].len == if i < |list| then list[i].len else 0
  {
    ExtentsNumbered(list, 0);
    assert forall i :: 0 <= i < |list| ==> Slots(list, n)[i] == ExtentsOf(list, 0)[i];
  }

  // ---- which allocations an extent map can be made of ----

  /** The first region is longer than the block taken off it, or there is nothing behind it. */
  predicate HeadHolds(rs: seq<Region>) {
    |rs| == 1 || (rs != [] && rs[0].len > 1)
  }

  lemma ReduceOne(st: seq<Group>, rs: seq<Region>)
    requires rs != [] && AtEnd(st, rs[0])
    ensures var head := rs[0];
      Reduce(st, rs, 1) == Reduced(st[head.bg := st[head.bg].GiveBack(1)],
                                   if head.len > 1 then rs[0 := head.(len := head.len - 1)] else [])
  {
  }

  lemma ReserveOne(rs: seq<Region>)
    requires |rs| >= 2 && rs[0].len >= 1 && rs[1].len >= 1
    ensures var head := rs[0];
      ReserveOob(rs, 1) ==
        if head.len > 1 then Oob(true, rs[0 := Region(head.block + 1, head.len - 1, head.bg)], [head.(len := 1)])
        else Oob(true, [head], rs[1..])
  {
    var w := WalkTo(rs, 1);
    if rs[0].len > 1 {
      assert w == Walk(0, 1) && rs[..0] == [];
    } else {
      assert WalkTo(rs[1..], 0) == Walk(0, 0) && w == Walk(1, 0);
      assert rs[..1] == [rs[0]];
    }
  }

  lemma TotalLenHead(rs: seq<Region>, r: Region)
    requires rs != []
    ensures TotalLen(rs[0 := r]) == TotalLen(rs) - rs[0].len + r.len
  {
    assert rs[0 := r][1..] == rs[1..];
  }

  lemma {:induction false} LongAtLeast(rs: seq<Region>)
    requires forall i :: 0 <= i < |rs| ==> rs[i].len >= 1
    ensures TotalLen(rs) >= |rs|
  {
    if rs != [] {
      LongAtLeast(rs[1..]);
    }
  }

  /**
   The round trip: decoding the map gives the file's blocks, all of them and in order, exactly when
   the head of the allocation holds.
   */
  lemma RoundTripIff(g: Grant, blockSize: Positive, blockLen: nat, blocks: seq<nat>)
    requires g.regions != [] && LastTaken(g.st, g.regions) && Short(g.regions)
    requires TotalLen(g.regions) == blockLen + 1 < WORD32 && |blocks| == blockLen
    requires Place(g, blockSize).File?
    ensures var f := Place(g, blockSize);
      && f.map_.entries <= |f.map_.table|
      && ((TotalLen(f.list) == blockLen && BlockList(blocks, f.map_) == Blocks(f.list)) <==> HeadHolds(g.regions))
  {
    var rs, f := g.regions, Place(g, blockSize);
    LongAtLeast(rs);
    var head := rs[0];
    if |rs| <= INLINE_EXTENTS {
      ReduceOne(g.st, rs);
      TotalLenHead(rs, head.(len := head.len - 1));
      if HeadHolds(rs) {
        SlotsDecode(blocks, f.list, INLINE_EXTENTS, |rs|);
      }
    } else {
      ReserveOne(rs);
      TotalLenHead(rs, Region(head.block + 1, head.len - 1, head.bg));
      if HeadHolds(rs) {
        SlotsDecode(blocks, f.list, LeafCapacity(blockSize), |rs|);
      }
    }
  }

  /** What the condition means before the call: the first untouched group has more than one free block. */
  lemma HeadHoldsIff(st: seq<Group>, len: nat)
    requires len >= 1 && Allocate(st, len).verdict == Granted
    ensures var i := FirstUntouched(st, 0);
      HeadHolds(Allocate(st, len).regions) <==> FirstFit(st, len, 0) < |st| || (i < |st| && st[i].free > 1)
  {
    var i := FirstUntouched(st, 0);
    if FirstFit(st, len, 0) == |st| {
      assert i < |st| && st[i].free < len;
      var rest := Multiple(Taken(st, i, st[i].free), len - st[i].free);
      assert rest.regions != [] by {
        SomethingGranted(Taken(st, i, st[i].free), len - st[i].free);
      }
    }
  }

  lemma SomethingGranted(st: seq<Group>, len: nat)
    requires len >= 1 && Multiple(st, len).verdict == Granted
    ensures Multiple(st, len).regions != []
  {
  }

  predicate AtMost(list: seq<Region>, max: nat) {
    forall i :: 0 <= i < |list| ==> list[i].len <= max
  }

  /** No region is longer than the free blocks of a group were. */
  lemma {:induction false} RegionsShort(st: seq<Group>, len: nat, max: nat)
    requires forall i :: 0 <= i < |st| ==> st[i].free <= max
    ensures AtMost(Multiple(st, len).regions, max)
    decreases Fresh(st)
  {
    var i := FirstUntouched(st, 0);
    if len > 0 && i < |st| && st[i].free < len && st[i].free > 0 {
      var st1 := Taken(st, i, st[i].free);
      assert i in Fresh(st) && i !in Fresh(st1) && Fresh(st1) <= Fresh(st);
      RegionsShort(st1, len - st[i].free, max);
    }
  }

  // ---- the ledger ----

  lemma OwnersOne(r: Region, g: nat, x: nat)
    ensures Owners([r], g, x) == if Covers(r, g, x) then 1 else 0
  {
  }

  /** Moving the head of a list to the end of the ledger. */
  lemma HeadLast(init: seq<Group>, st: seq<Group>, led: seq<Region>, rs: seq<Region>)
    requires rs != []
    ensures LedgerOk(init, st, led + rs) <==> LedgerOk(init, st, led + rs[1..] + [rs[0]])
  {
    var other := led + rs[1..] + [rs[0]];
    forall g, x ensures Owners(led + rs, g, x) == Owners(other, g, x) {
      OwnersAdd(led, rs, g, x);
      OwnersAdd(led + rs[1..], [rs[0]], g, x);
      OwnersAdd(led, rs[1..], g, x);
    }
    if LedgerOk(init, st, led + rs) {
      SameOwners(init, st, led + rs, other);
    }
    if LedgerOk(init, st, other) {
      SameOwners(init, st, other, led + rs);
    }
  }

  /** Regions without blocks own nothing. */
  lemma DropEmpty(init: seq<Group>, st: seq<Group>, led: seq<Region>, r: Region)
    requires LedgerOk(init, st, led + [r]) && r.len == 0
    ensures LedgerOk(init, st, led)
  {
    forall g, x ensures Owners(led + [r], g, x) == Owners(led, g, x) {
      OwnersAdd(led, [r], g, x);
      OwnersOne(r, g, x);
    }
    SameOwners(init, st, led + [r], led);
  }

  /** What nobody has hold of any more, although it is still marked as used. */
  function Lost(rs: seq<Region>): seq<Region> {
    if 2 <= |rs| <= INLINE_EXTENTS && !HeadHolds(rs) then rs[1..] else []
  }

  /** Making the map gives back one block or moves one aside: every block still has one owner. */
  lemma PlaceKeeps(init: seq<Group>, led: seq<Region>, g: Grant, blockSize: Positive)
    requires g.regions != [] && LastTaken(g.st, g.regions)
    requires LedgerOk(init, g.st, led + g.regions) && Place(g, blockSize).File?
    ensures var f := Place(g, blockSize);
      LedgerOk(init, f.st, led + Lost(g.regions) + f.oob + f.list)
  {
    var rs, f := g.regions, Place(g, blockSize);
    if |rs| <= INLINE_EXTENTS {
      InlineKeeps(init, led, g.st, rs);
      assert led + Lost(rs) + f.oob + f.list == led + Lost(rs) + f.list;
    } else {
      OobKeeps(init, led, g.st, rs);
      assert led + Lost(rs) + f.oob + f.list == led + f.oob + f.list;
    }
  }

  lemma InlineKeeps(init: seq<Group>, led: seq<Region>, st: seq<Group>, rs: seq<Region>)
    requires rs != [] && LastTaken(st, rs) && LedgerOk(init, st, led + rs)
    requires |rs| <= INLINE_EXTENTS
    ensures var r := Reduce(st, rs, 1); LedgerOk(init, r.st, led + Lost(rs) + r.list)
  {
    var head := rs[0];
    ReduceOne(st, rs);
    HeadLast(init, st, led, rs);
    GiveBackKeeps(init, st, led + rs[1..], head);
    var st2, short := st[head.bg := st[head.bg].GiveBack(1)], head.(len := head.len - 1);
    if head.len > 1 {
      var list := rs[0 := short];
      assert list[1..] == rs[1..];
      HeadLast(init, st2, led, list);
      assert led + Lost(rs) + list == led + list;
    } else {
      DropEmpty(init, st2, led + rs[1..], short);
      if |rs| == 1 {
        assert led + rs[1..] == led && led + Lost(rs) + [] == led;
      } else {
        assert led + Lost(rs) + [] == led + rs[1..];
      }
    }
  }

  lemma OobKeeps(init: seq<Group>, led: seq<Region>, st: seq<Group>, rs: seq<Region>)
    requires |rs| > INLINE_EXTENTS && LastTaken(st, rs) && LedgerOk(init, st, led + rs)
    ensures var o := ReserveOob(rs, 1); LedgerOk(init, st, led + o.oob + o.list)
  {
    var o, head := ReserveOob(rs, 1), rs[0];
    ReserveOne(rs);
    forall g, x ensures Owners(led + rs, g, x) == Owners(led + o.oob + o.list, g, x) {
      OwnersAdd(led, rs, g, x);
      OwnersAdd(led + o.oob, o.list, g, x);
      OwnersAdd(led, o.oob, g, x);
      if head.len > 1 {
        assert o.list[1..] == rs[1..];
        SplitCovers(head, 1, g, x);
        OwnersOne(head.(len := 1), g, x);
      } else {
        OwnersOne(head, g, x);
      }
    }
    SameOwners(init, st, led + rs, led + o.oob + o.list);
  }
}
