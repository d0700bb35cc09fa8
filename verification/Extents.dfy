/** The extent map of a file: built from the regions an allocation returned, decoded by ext4fixup. */
module Extents {
  import opened Arithmetic
  import opened AllocModel
  import opened AllocProofs

  const EXTENT_SIZE := 12
  const INLINE_EXTENTS := 3

  // ---- taking blocks off an allocation ----

  datatype Reduced = Reduced(st: seq<Group>, list: seq<Region>) | Fault

  /**
   reduce_allocation.  allocate_blocks left list.last at the head, which has no predecessor: a head no
   longer than what is taken off empties the list, and the regions behind it are out of reach.
   */
  function Reduce(st: seq<Group>, list: seq<Region>, len: nat): (r: Reduced)
    requires list != [] ==> AtEnd(st, list[0])
    ensures len == 1 && list != [] ==> r.Reduced? && |r.list| <= |list|
    decreases len
  {
    if len == 0 then Reduced(st, list)
    else if list == [] then Fault
    else
      var head := list[0];
      var n := if head.len > len then len else head.len;
      var st1 := st[head.bg := st[head.bg].GiveBack(n)];
      if head.len > len then Reduced(st1, list[0 := head.(len := head.len - len)])
      else Reduce(st1, [], len - head.len)
  }

  datatype Walk = Walk(k: nat, rest: nat)

  /** do_split_allocation: how many whole regions n blocks take up, and how much of the next one. */
  function WalkTo(list: seq<Region>, n: nat): (w: Walk)
    ensures w.k <= |list| && (w.k < |list| ==> w.rest < list[w.k].len)
    ensures TotalLen(list[..w.k]) + w.rest == n
  {
    if list == [] || n < list[0].len then
      assert list[..0] == [];
      Walk(0, n)
    else
      var w := WalkTo(list[1..], n - list[0].len);
      assert list[..w.k + 1][1..] == list[1..][..w.k];
      Walk(w.k + 1, w.rest)
  }

  datatype Oob = Oob(ok: bool, list: seq<Region>, oob: seq<Region>)

  /**
   reserve_oob_blocks on a rewound allocation.  When the blocks end with a region, the cursor has not
   moved, and it is everything behind them that is moved away instead.
   */
  function ReserveOob(list: seq<Region>, n: nat): Oob {
    var w := WalkTo(list, n);
    if w.k == |list| then Oob(false, list, [])
    else if w.rest > 0 then
      var r := list[w.k];
      Oob(true, [Region(r.block + w.rest, r.len - w.rest, r.bg)] + list[w.k + 1..], list[..w.k] + [r.(len := w.rest)])
    else if w.k == 0 then Oob(true, list, [])
    else Oob(true, list[..w.k], list[w.k..])
  }

  lemma {:induction false} BlocksAdd(a: seq<Region>, b: seq<Region>)
    ensures Blocks(a + b) == Blocks(a) + Blocks(b)
  {
    if a == [] {
      assert a + b == b;
    } else {
      assert (a + b)[1..] == a[1..] + b;
      BlocksAdd(a[1..], b);
    }
  }

  lemma BlocksOne(r: Region)
    ensures Blocks([r]) == seq(r.len, k requires 0 <= k < r.len => r.block + k)
  {
  }

  lemma BlocksCut(r: Region, n: nat)
    requires n <= r.len
    ensures Blocks([r.(len := n)]) + Blocks([Region(r.block + n, r.len - n, r.bg)]) == Blocks([r])
  {
    BlocksOne(r);
    BlocksOne(r.(len := n));
    BlocksOne(Region(r.block + n, r.len - n, r.bg));
  }

  lemma WalkInside(list: seq<Region>, n: nat)
    requires n < TotalLen(list)
    ensures WalkTo(list, n).k < |list|
  {
    assert list[..|list|] == list;
  }

  /** The first n blocks come off the front, unless they end where a region ends: then the rest does. */
  lemma ReserveOobSplits(list: seq<Region>, n: nat)
    requires 0 < n < TotalLen(list)
    ensures var o := ReserveOob(list, n);
      && o.ok
      && (WalkTo(list, n).rest > 0 ==> Blocks(o.oob) + Blocks(o.list) == Blocks(list) && TotalLen(o.oob) == n)
      && (WalkTo(list, n).rest == 0 ==> Blocks(o.list) + Blocks(o.oob) == Blocks(list) && TotalLen(o.list) == n)
  {
    hide Blocks, WalkTo;
    var w := WalkTo(list, n);
    WalkInside(list, n);
    if w.rest > 0 {
      var pre, r, post := list[..w.k], list[w.k], list[w.k + 1..];
      assert list == pre + ([r] + post);
      SplitsBetween(pre, r, post, w.rest);
      TotalLenAdd(pre, [r.(len := w.rest)]);
      TotalLenOne(r.(len := w.rest));
    } else {
      assert list[..w.k] + list[w.k..] == list;
      BlocksAdd(list[..w.k], list[w.k..]);
    }
  }

  /** It gives up, and leaves the list as it is, exactly if there are no more blocks than those; nothing splits off nothing. */
  lemma ReserveOobOkIff(list: seq<Region>, n: nat)
    ensures var o := ReserveOob(list, n);
      (o.ok <==> n < TotalLen(list)) && (!o.ok || (n == 0 && list[0].len > 0) ==> o.list == list && o.oob == [])
  {
    hide WalkTo, TotalLen;
    var w := WalkTo(list, n);
    if w.k < |list| {
      LengthAround(list, w.k);
    } else {
      assert list[..w.k] == list;
    }
    NothingWalked(list);
  }

  lemma LengthAround(list: seq<Region>, k: nat)
    requires k < |list|
    ensures TotalLen(list) >= TotalLen(list[..k]) + list[k].len
  {
    hide TotalLen;
    assert list == list[..k] + ([list[k]] + list[k + 1..]);
    TotalLenAdd(list[..k], [list[k]] + list[k + 1..]);
    TotalLenAdd([list[k]], list[k + 1..]);
    TotalLenOne(list[k]);
  }

  lemma NothingWalked(list: seq<Region>)
    ensures list != [] && list[0].len > 0 ==> WalkTo(list, 0) == Walk(0, 0)
  {
  }

  lemma SplitsBetween(pre: seq<Region>, r: Region, post: seq<Region>, n: nat)
    requires n <= r.len
    ensures Blocks(pre + [r.(len := n)]) + Blocks([Region(r.block + n, r.len - n, r.bg)] + post) == Blocks(pre + ([r] + post))
  {
    hide Blocks;
    var front, back := r.(len := n), Region(r.block + n, r.len - n, r.bg);
    BlocksAdd(pre, [front]);
    BlocksAdd([back], post);
    BlocksAdd([r], post);
    BlocksAdd(pre, [r] + post);
    BlocksCut(r, n);
    Regroup(Blocks(pre), Blocks([front]), Blocks([back]), Blocks(post));
  }

  lemma Regroup(a: seq<nat>, b: seq<nat>, c: seq<nat>, d: seq<nat>)
    ensures (a + b) + (c + d) == a + ((b + c) + d)
  {
  }

  // ---- the extent table ----

  datatype Extent = Extent(fileBlock: nat, len: nat, start: nat)

  const NO_EXTENT := Extent(0, 0, 0)

  /** The loop of do_inode_allocate_extents; ee_len has 16 bits and ee_block has 32. */
  function ExtentsOf(list: seq<Region>, fileBlock: nat): (es: seq<Extent>)
    ensures |es| == |list|
  {
    if list == [] then []
    else
      [Extent(fileBlock, list[0].len % 0x1_0000, list[0].block)]
      + ExtentsOf(list[1..], (fileBlock + list[0].len) % WORD32)
  }

  lemma {:induction false} LengthsFit(list: seq<Region>, fileBlock: nat, i: nat)
    requires i < |list|
    ensures ExtentsOf(list, fileBlock)[i].len == list[i].len % 0x1_0000
    ensures ExtentsOf(list, fileBlock)[i].start == list[i].block
  {
    if i > 0 {
      LengthsFit(list[1..], (fileBlock + list[0].len) % WORD32, i - 1);
    }
  }

  /** The extents, in a table of n slots that was zeroed. */
  function Slots(list: seq<Region>, n: nat): seq<Extent>
    requires |list| <= n
  {
    ExtentsOf(list, 0) + seq(n - |list|, k => NO_EXTENT)
  }

  datatype Map = Inline(entries: nat, table: seq<Extent>) | Indirect(leafBlock: nat, entries: nat, table: seq<Extent>)

  datatype Placed =
    | File(st: seq<Group>, list: seq<Region>, oob: seq<Region>, map_: Map)
    | NotAllocated(grant: Grant)
    | TooManyExtents
    | LeafOverrun

  /** What fits in a leaf block behind its header. */
  function LeafCapacity(blockSize: Positive): nat {
    if blockSize < EXTENT_SIZE then 0 else (blockSize - EXTENT_SIZE) / EXTENT_SIZE
  }

  /** The extents written fit the 60 bytes of i_block or the leaf block, behind a header of twelve; no more fit the leaf. */
  lemma TablesFit(blockSize: Positive)
    requires blockSize >= 12
    ensures 12 + INLINE_EXTENTS * 12 <= 60
    ensures 12 + LeafCapacity(blockSize) * 12 <= blockSize < 12 + (LeafCapacity(blockSize) + 1) * 12
  {
  }

  function BlockLen(len: nat, blockSize: Positive): nat {
    DivRoundUp(len, blockSize) % WORD32
  }

  /** do_inode_allocate_extents, once the regions are known. */
  ghost function Place(g: Grant, blockSize: Positive): Placed
    requires g.regions != [] && LastTaken(g.st, g.regions)
  {
    var n := |g.regions|;
    if n <= INLINE_EXTENTS then
      var r := Reduce(g.st, g.regions, 1);
      File(r.st, r.list, [], Inline(n, Slots(r.list, INLINE_EXTENTS)))
    else
      var o := ReserveOob(g.regions, 1);
      // the size test lacks a pair of parentheses: it compares with the block size less one
      if blockSize - EXTENT_SIZE / EXTENT_SIZE < n then TooManyExtents
      else if LeafCapacity(blockSize) < n then LeafOverrun
      else
        File(g.st, o.list, o.oob, Indirect(o.oob[0].block, n, Slots(o.list, LeafCapacity(blockSize))))
  }

  /** Up to three regions always make a map; more do exactly if they fit a leaf block behind its header. */
  lemma FileMadeIff(g: Grant, blockSize: Positive)
    requires g.regions != [] && LastTaken(g.st, g.regions)
    ensures Place(g, blockSize).File? <==> |g.regions| <= 3 || 12 + 12 * |g.regions| <= blockSize
    ensures Place(g, blockSize).TooManyExtents? <==> |g.regions| > 3 && |g.regions| >= blockSize
  {
  }

  // ---- decoding ----

  /** get_extent_ents, for one extent. */
  function Stored(blocks: seq<nat>, e: Extent): (r: seq<nat>)
    ensures |r| == |blocks|
  {
    seq(|blocks|, k requires 0 <= k < |blocks| => After(blocks, e, k))
  }

  function After(blocks: seq<nat>, e: Extent, k: nat): nat
    requires k < |blocks|
  {
    if e.fileBlock <= k < e.fileBlock + e.len then e.start + (k - e.fileBlock) else blocks[k]
  }

  function Decoded(blocks: seq<nat>, es: seq<Extent>): seq<nat>
    decreases |es|
  {
    if es == [] then blocks else Decoded(Stored(blocks, es[0]), es[1..])
  }

  /** get_block_list_extents on a file made here. */
  function BlockList(blocks: seq<nat>, m: Map): seq<nat>
    requires m.entries <= |m.table|
  {
    Decoded(blocks, m.table[..m.entries])
  }

  function Sum(es: seq<Extent>): nat {
    if es == [] then 0 else es[0].len + Sum(es[1..])
  }
}
