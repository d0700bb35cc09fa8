/**
 The block allocator as a function of its state: each block group hands out its free blocks from the
 bottom, and a request may be met from one group or from several.
 */
module AllocModel {
  import opened Arithmetic

  /** block_group_info: its free blocks are the `free` ones from `firstFree` on, counted from `first`. */
  datatype Group = Group(first: nat, used: nat, free: nat, firstFree: nat) {
    function Take(len: nat): Group
      requires len <= free
    {
      this.(used := used + len, free := free - len, firstFree := firstFree + len)
    }

    /** free_blocks; data_blocks_used is not taken back. */
    function GiveBack(len: nat): Group
      requires len <= firstFree
    {
      this.(free := free + len, firstFree := firstFree - len)
    }
  }

  datatype Region = Region(block: nat, len: nat, bg: nat)

  datatype Verdict = Granted | NoSpace | Spinning

  /** What an allocation call comes to; when it fails, nobody has hold of the regions any more. */
  datatype Grant = Grant(verdict: Verdict, st: seq<Group>, regions: seq<Region>)

  // ---- initial state ----

  /** reserve_blocks when the blocks are free, as they are wherever it is called. */
  function Reserve(g: Group, start: nat, num: nat): Group
    requires num <= g.free
  {
    g.(free := g.free - num, firstFree := if start == g.firstFree then start + num else g.firstFree)
  }

  /** init_bg: the blocks past the end of the image are reserved, in 32-bit arithmetic. */
  function InitGroup(first: nat, perGroup: nat, header: nat, imageBlocks: nat): Group
    requires header <= perGroup
  {
    var g := Reserve(Group(first, 0, perGroup, 0), 0, header);
    var overrun := (first + perGroup - imageBlocks) % WORD32;
    if 0 < overrun <= g.free then Reserve(g, perGroup - overrun, overrun) else g
  }

  // ---- one group, one region ----

  /** Where ext4_allocate_contiguous_blocks finds room: the first group with enough free blocks. */
  function FirstFit(st: seq<Group>, len: nat, i: nat): (r: nat)
    requires i <= |st|
    ensures i <= r <= |st| && (r < |st| ==> len <= st[r].free)
    ensures forall k :: i <= k < r ==> st[k].free < len
    decreases |st| - i
  {
    if i == |st| || len <= st[i].free then i else FirstFit(st, len, i + 1)
  }

  /** ext4_allocate_blocks_from_block_group */
  function Taken(st: seq<Group>, i: nat, len: nat): seq<Group>
    requires i < |st| && len <= st[i].free
  {
    st[i := st[i].Take(len)]
  }

  function RegionAt(st: seq<Group>, i: nat, len: nat): Region
    requires i < |st|
  {
    Region(st[i].first + st[i].firstFree, len, i)
  }

  function Contiguous(st: seq<Group>, len: nat): Grant {
    var i := FirstFit(st, len, 0);
    if i < |st| then Grant(Granted, Taken(st, i, len), [RegionAt(st, i, len)]) else Grant(NoSpace, st, [])
  }

  // ---- several groups ----

  function FirstUntouched(st: seq<Group>, i: nat): (r: nat)
    requires i <= |st|
    ensures i <= r <= |st| && (r < |st| ==> st[r].used == 0)
    ensures forall k :: i <= k < r ==> st[k].used != 0
    decreases |st| - i
  {
    if i == |st| || st[i].used == 0 then i else FirstUntouched(st, i + 1)
  }

  /** Groups a round can still use up whole. */
  function Fresh(st: seq<Group>): set<nat> {
    set i | 0 <= i < |st| && st[i].used == 0 && st[i].free > 0
  }

  /**
   ext4_allocate_multiple_contiguous_blocks with ext4_allocate_partial as its loop body: an untouched
   group is used up whole unless what is left would fit in it.  On an untouched group without free
   blocks a round changes nothing, and so neither does the next.
   */
  function Multiple(st: seq<Group>, len: nat): Grant
    decreases Fresh(st)
  {
    var i := FirstUntouched(st, 0);
    if len == 0 then Grant(Granted, st, [])
    else if i == |st| then Grant(NoSpace, st, [])
    else if len <= st[i].free then Contiguous(st, len)
    else if st[i].free == 0 then Grant(Spinning, st, [])
    else
      var st1 := Taken(st, i, st[i].free);
      assert i in Fresh(st) && i !in Fresh(st1) && Fresh(st1) <= Fresh(st);
      var rest := Multiple(st1, len - st[i].free);
      rest.(regions := [RegionAt(st, i, st[i].free)] + rest.regions)
  }

  /** do_allocate */
  function Allocate(st: seq<Group>, len: nat): Grant {
    if FirstFit(st, len, 0) < |st| then Contiguous(st, len) else Multiple(st, len)
  }

  // ---- block lists ----

  function TotalLen(rs: seq<Region>): nat {
    if rs == [] then 0 else rs[0].len + TotalLen(rs[1..])
  }

  /** The blocks of a region list, in order. */
  function Blocks(rs: seq<Region>): (bs: seq<nat>)
    ensures |bs| == TotalLen(rs)
  {
    if rs == [] then []
    else seq(rs[0].len, k requires 0 <= k < rs[0].len => rs[0].block + k) + Blocks(rs[1..])
  }

  function FreeBlocks(st: seq<Group>): nat {
    if st == [] then 0 else st[0].free + FreeBlocks(st[1..])
  }
}
