/** Where the block groups lie, how large their headers are, and what init_bg makes of them. */
module Ext4Geometry {
  import opened Arithmetic
  import opened AllocModel
  import opened AllocProofs

  // ---- which groups have a superblock ----

  function Pow(b: nat, n: nat): nat {
    if n == 0 then 1 else b * Pow(b, n - 1)
  }

  ghost predicate PowerOf(a: int, b: nat) {
    exists n :: n >= 1 && a == Pow(b, n)
  }

  lemma {:induction false} PowGrows(b: nat, n: nat)
    requires b >= 2
    ensures Pow(b, n) >= 1 && (n >= 1 ==> Pow(b, n) >= b && Pow(b, n) % b == 0)
  {
    if n >= 1 {
      PowGrows(b, n - 1);
      MulMonotone(1, Pow(b, n - 1), b);
      DivModUnique(Pow(b, n - 1), b, 0);
    }
  }

  lemma PowerOfDown(a: int, b: nat)
    requires b >= 2 && a > b
    ensures PowerOf(a, b) <==> a % b == 0 && PowerOf(a / b, b)
  {
    if PowerOf(a, b) {
      var n :| n >= 1 && a == Pow(b, n);
      assert Pow(b, 1) == b * Pow(b, 0) == b;
      PowGrows(b, n);
      DivModUnique(Pow(b, n - 1), b, 0);
      assert a / b == Pow(b, n - 1);
    }
    if a % b == 0 && PowerOf(a / b, b) {
      var n :| n >= 1 && a / b == Pow(b, n);
      assert a == Pow(b, n + 1);
    }
  }

  lemma PowerOfSmall(a: int, b: nat)
    requires b >= 2 && a <= b
    ensures PowerOf(a, b) <==> a == b
  {
    assert Pow(b, 1) == b * Pow(b, 0) == b;
    forall n | n >= 1 ensures Pow(b, n) >= b {
      PowGrows(b, n);
    }
  }

  lemma QuotientShrinks(a: int, b: nat)
    requires b >= 2 && a >= 1
    ensures 0 <= a / b < a
  {
  }

  /** is_power_of: 1, the power with exponent zero, is not counted. */
  method IsPowerOf(number: int, b: nat) returns (r: bool)
    requires b >= 2
    ensures r <==> PowerOf(number, b)
  {
    hide PowerOf;
    var a := number;
    while a > b
      invariant PowerOf(number, b) <==> PowerOf(a, b)
      decreases a
    {
      PowerOfDown(a, b);
      if a % b != 0 {
        return false;
      }
      QuotientShrinks(a, b);
      a := a / b;
    }
    PowerOfSmall(a, b);
    return a == b;
  }

  /** ext4_bg_has_super_block */
  method HasSuperBlock(sparseSuper: bool, bg: int) returns (r: bool)
    ensures r <==> (sparseSuper ==> bg == 0 || bg == 1 || PowerOf(bg, 3) || PowerOf(bg, 5) || PowerOf(bg, 7))
  {
    if !sparseSuper || bg == 0 || bg == 1 {
      return true;
    }
    var p3 := IsPowerOf(bg, 3);
    var p5 := IsPowerOf(bg, 5);
    var p7 := IsPowerOf(bg, 7);
    return p3 || p5 || p7;
  }

  ghost predicate HasSuper(sparseSuper: bool, bg: nat) {
    sparseSuper ==> bg == 0 || bg == 1 || PowerOf(bg, 3) || PowerOf(bg, 5) || PowerOf(bg, 7)
  }

  // ---- ext4_create_fs_aux_info ----

  datatype Params = Params(blockSize: Positive, perGroup: Positive, tableBlocks: nat, reserved: nat, sparseSuper: bool,
                           imageBlocks: nat)

  datatype Layout = Layout(groups: nat, blocks: nat, descBlocks: nat)

  const DESC_SIZE := 32

  function FirstBlock(p: Params, i: nat): nat {
    FirstDataBlock(p.blockSize) + i * p.perGroup
  }

  ghost function Header(p: Params, descBlocks: nat, i: nat): nat {
    2 + p.tableBlocks + if HasSuper(p.sparseSuper, i) then 1 + descBlocks + p.reserved else 0
  }

  function WholeGroups(p: Params): nat
    requires p.imageBlocks > FirstDataBlock(p.blockSize)
  {
    DivRoundUp(p.imageBlocks - FirstDataBlock(p.blockSize), p.perGroup)
  }

  function DescBlocks(p: Params): nat
    requires p.imageBlocks > FirstDataBlock(p.blockSize)
  {
    DivRoundUp(WholeGroups(p) * DESC_SIZE, p.blockSize)
  }

  /** What is compared with the header of the last group: not its size when the first data block is 1. */
  function Leftover(p: Params): (r: nat)
    ensures r < p.perGroup && r <= p.imageBlocks
  {
    p.imageBlocks % p.perGroup
  }

  ghost function LastHeader(p: Params): nat
    requires p.imageBlocks > FirstDataBlock(p.blockSize) && WholeGroups(p) >= 1
  {
    Header(p, DescBlocks(p), WholeGroups(p) - 1)
  }

  ghost function AuxInfo(p: Params): Layout
    requires p.imageBlocks > FirstDataBlock(p.blockSize) && WholeGroups(p) >= 1
  {
    if 0 < Leftover(p) < LastHeader(p)
    then Layout(WholeGroups(p) - 1, p.imageBlocks - Leftover(p), DescBlocks(p))
    else Layout(WholeGroups(p), p.imageBlocks, DescBlocks(p))
  }

  /** The groups cover the image, and the last one has room for its header. */
  ghost predicate Sound(p: Params, a: Layout) {
    a.groups >= 1
    && FirstBlock(p, a.groups - 1) + Header(p, a.descBlocks, a.groups - 1) <= a.blocks <= FirstBlock(p, a.groups)
  }

  /** Every group is longer than its header. */
  ghost predicate RoomForHeaders(p: Params)
    requires p.imageBlocks > FirstDataBlock(p.blockSize)
  {
    forall i :: 0 <= i < WholeGroups(p) ==> Header(p, DescBlocks(p), i) < p.perGroup
  }

  lemma WholeGroupsBounds(p: Params)
    requires p.imageBlocks > FirstDataBlock(p.blockSize)
    ensures WholeGroups(p) >= 1
    ensures FirstBlock(p, WholeGroups(p) - 1) < p.imageBlocks <= FirstBlock(p, WholeGroups(p))
    ensures FirstBlock(p, WholeGroups(p)) == FirstBlock(p, WholeGroups(p) - 1) + p.perGroup
  {
    DivRoundUpBounds(p.imageBlocks - FirstDataBlock(p.blockSize), p.perGroup);
    assert WholeGroups(p) * p.perGroup - p.perGroup == (WholeGroups(p) - 1) * p.perGroup;
  }

  // ---- what a group's header is made of ----

  /** Where init_bg puts the two bitmaps of a group. */
  ghost function BitmapsAt(p: Params, descBlocks: nat, i: nat): nat {
    FirstBlock(p, i) + if HasSuper(p.sparseSuper, i) then 1 + descBlocks + p.reserved else 0
  }

  /** Where allocate_bg_inode_table puts its inode table. */
  ghost function TableAt(p: Params, descBlocks: nat, i: nat): nat {
    FirstBlock(p, i) + 2 + if HasSuper(p.sparseSuper, i) then descBlocks + p.reserved + 1 else 0
  }

  /**
   Whatever the tool puts into a group's header lies one behind the other, and the header ends with it:
   superblock, descriptors and the blocks kept for more of them, two bitmaps, inode table.
   */
  lemma HeaderIsFilled(p: Params, descBlocks: nat, i: nat)
    ensures BitmapsAt(p, descBlocks, i) + 2 == TableAt(p, descBlocks, i)
    ensures TableAt(p, descBlocks, i) + p.tableBlocks == FirstBlock(p, i) + Header(p, descBlocks, i)
    ensures BitmapsAt(p, descBlocks, i) - FirstBlock(p, i)
         == if !p.sparseSuper || i == 0 || i == 1 || PowerOf(i, 3) || PowerOf(i, 5) || PowerOf(i, 7) then 1 + descBlocks + p.reserved
            else 0
  {
  }

  /** The descriptor blocks hold a descriptor for every group, and one block fewer would not. */
  lemma DescBlocksHold(p: Params)
    requires p.imageBlocks > FirstDataBlock(p.blockSize)
    ensures DescBlocks(p) * p.blockSize >= WholeGroups(p) * 32 > (DescBlocks(p) - 1) * p.blockSize
  {
    DivRoundUpBounds(WholeGroups(p) * DESC_SIZE, p.blockSize);
  }

  /** Leftover in terms of the last group's true size. */
  lemma LeftoverIs(p: Params)
    requires p.imageBlocks > FirstDataBlock(p.blockSize) && p.perGroup >= 2
    ensures WholeGroups(p) >= 1
    ensures var size := p.imageBlocks - FirstBlock(p, WholeGroups(p) - 1);
      && 1 <= size <= p.perGroup
      && Leftover(p) == if size + FirstDataBlock(p.blockSize) < p.perGroup then size + FirstDataBlock(p.blockSize)
                        else size + FirstDataBlock(p.blockSize) - p.perGroup
  {
    WholeGroupsBounds(p);
    var n := WholeGroups(p);
    var size := p.imageBlocks - FirstBlock(p, n - 1);
    var r := size + FirstDataBlock(p.blockSize);
    assert p.imageBlocks == (n - 1) * p.perGroup + r;
    if r < p.perGroup {
      DivModUnique(n - 1, p.perGroup, r);
    } else {
      DivModUnique(n, p.perGroup, r - p.perGroup);
      assert (n - 1) * p.perGroup + r == n * p.perGroup + (r - p.perGroup);
    }
  }

  /**
   With 1 KiB blocks the test for a last group too short for its header looks at one block too many:
   a header that lacks one block passes, and a last group that is complete is thrown away.
   */
  lemma AuxInfoSoundIff(p: Params)
    requires p.imageBlocks > FirstDataBlock(p.blockSize) && RoomForHeaders(p)
    ensures WholeGroups(p) >= 1
    ensures Sound(p, AuxInfo(p)) <==>
      && !(WholeGroups(p) == 1 && 0 < Leftover(p) < LastHeader(p))
      && !(p.blockSize <= 1024 && (Leftover(p) == 1 || Leftover(p) == LastHeader(p)))
  {
    WholeGroupsBounds(p);
    var n := WholeGroups(p);
    assert Header(p, DescBlocks(p), n - 1) < p.perGroup;
    LeftoverIs(p);
    if n >= 2 {
      assert FirstBlock(p, n - 1) == FirstBlock(p, n - 2) + p.perGroup by {
        assert (n - 1) * p.perGroup == (n - 2) * p.perGroup + p.perGroup;
      }
      assert Header(p, DescBlocks(p), n - 2) < p.perGroup;
    }
  }

  // ---- what make_ext4fs chooses ----

  const INODE_SIZE := 256

  /** compute_inodes and compute_inodes_per_group */
  function ComputedInodes(blockSize: Positive, perGroup: Positive, imageBlocks: Positive): nat
    requires blockSize >= INODE_SIZE
  {
    DivRoundUpBounds(imageBlocks, perGroup);
    AlignUp(DivRoundUp(imageBlocks / 4, DivRoundUp(imageBlocks, perGroup)), blockSize / INODE_SIZE)
  }

  /** compute_bg_desc_reserve_blocks */
  function ComputedReserve(blockSize: Positive, perGroup: Positive, imageBlocks: Positive): nat {
    var groups := DivRoundUp(imageBlocks, perGroup);
    var reserve := DivRoundUp(groups * 1024 * DESC_SIZE, blockSize) - DivRoundUp(groups * DESC_SIZE, blockSize);
    if reserve > blockSize / 4 then blockSize / 4 else if reserve < 0 then 0 else reserve
  }

  /** The parameters for an image of that size, where only block and group size may have been asked for. */
  function Computed(blockSize: Positive, perGroup: Positive, imageBlocks: Positive): Params
    requires blockSize >= INODE_SIZE
  {
    Params(blockSize, perGroup, DivRoundUp(ComputedInodes(blockSize, perGroup, imageBlocks) * INODE_SIZE, blockSize),
           ComputedReserve(blockSize, perGroup, imageBlocks), true, imageBlocks)
  }

  // ---- block_allocator_init ----

  ghost function InitGroups(p: Params, a: Layout): seq<Group>
    requires forall i :: 0 <= i < a.groups ==> Header(p, a.descBlocks, i) <= p.perGroup
  {
    seq(a.groups, i requires 0 <= i < a.groups =>
      InitGroup(FirstBlock(p, i), p.perGroup, Header(p, a.descBlocks, i), a.blocks))
  }

  /** Off the header, and not past the end of the group. */
  lemma InitGroupBounds(first: nat, perGroup: Positive, header: nat, blocks: nat)
    requires header <= perGroup < WORD32
    ensures var g := InitGroup(first, perGroup, header, blocks);
      g.first == first && g.used == 0 && header <= g.firstFree && g.firstFree + g.free <= perGroup
  {
  }

  /** On a group wholly inside the image the wrapped overrun reserves nothing. */
  lemma FullGroup(first: nat, perGroup: Positive, header: nat, blocks: nat)
    requires header <= perGroup && first + perGroup <= blocks < WORD32
    ensures InitGroup(first, perGroup, header, blocks) == Group(first, 0, perGroup - header, header)
  {
    var short := blocks - first - perGroup;
    if short > 0 {
      DivModUnique(-1, WORD32, WORD32 - short);
    }
  }

  /** On a group that ends early no block past the end of the image stays free iff the header fits. */
  lemma ShortGroupIff(first: nat, perGroup: Positive, header: nat, blocks: nat)
    requires header < perGroup && first < blocks < first + perGroup < WORD32
    ensures var g := InitGroup(first, perGroup, header, blocks);
      (g.free == 0 || first + g.firstFree + g.free <= blocks) <==> first + header <= blocks
  {
  }

  /** In a sound layout every block ever handed out is past its group's header and inside the image. */
  lemma DataArea(p: Params, a: Layout, i: nat)
    requires Sound(p, a) && p.perGroup < WORD32 && FirstBlock(p, a.groups) < WORD32 && i < a.groups
    requires forall k :: 0 <= k < a.groups ==> Header(p, a.descBlocks, k) <= p.perGroup
    ensures var g := InitGroups(p, a)[i];
      && g.first == FirstBlock(p, i) && Header(p, a.descBlocks, i) <= g.firstFree
      && g.firstFree + g.free <= p.perGroup
      && (g.free == 0 || g.first + g.firstFree + g.free <= a.blocks)
  {
    var header := Header(p, a.descBlocks, i);
    InitGroupBounds(FirstBlock(p, i), p.perGroup, header, a.blocks);
    NextFirst(p, i);
    if i + 1 < a.groups {
      FirstMonotone(p, i + 1, a.groups - 1);
      FirstMonotone(p, a.groups - 1, a.groups);
      FullGroup(FirstBlock(p, i), p.perGroup, header, a.blocks);
    } else if a.blocks < FirstBlock(p, i) + p.perGroup {
      ShortGroupIff(FirstBlock(p, i), p.perGroup, header, a.blocks);
    } else {
      FullGroup(FirstBlock(p, i), p.perGroup, header, a.blocks);
    }
  }

  lemma NextFirst(p: Params, i: nat)
    ensures FirstBlock(p, i + 1) == FirstBlock(p, i) + p.perGroup
  {
  }

  lemma FirstMonotone(p: Params, i: nat, j: nat)
    requires i <= j
    ensures FirstBlock(p, i) <= FirstBlock(p, j)
  {
    MulMonotone(i, j, p.perGroup);
  }

  // ---- what the ledger says about block numbers ----

  lemma {:induction false} OwnersAtLeast(led: seq<Region>, k: nat, g: nat, x: nat)
    requires k < |led| && Covers(led[k], g, x)
    ensures Owners(led, g, x) >= 1
  {
    if k > 0 {
      OwnersAtLeast(led[1..], k - 1, g, x);
    }
  }

  lemma {:induction false} OwnersTwice(led: seq<Region>, j: nat, k: nat, g: nat, x: nat)
    requires j < k < |led| && Covers(led[j], g, x) && Covers(led[k], g, x)
    ensures Owners(led, g, x) >= 2
  {
    if j == 0 {
      OwnersAtLeast(led[1..], k - 1, g, x);
    } else {
      OwnersTwice(led[1..], j - 1, k - 1, g, x);
    }
  }

  /** Outstanding regions lie in their groups' data areas, inside the image... */
  lemma RegionInside(p: Params, a: Layout, st: seq<Group>, led: seq<Region>, k: nat, x: nat)
    requires Sound(p, a) && p.perGroup < WORD32 && FirstBlock(p, a.groups) < WORD32
    requires forall i :: 0 <= i < a.groups ==> Header(p, a.descBlocks, i) <= p.perGroup
    requires LedgerOk(InitGroups(p, a), st, led)
    requires k < |led| && led[k].block <= x < led[k].block + led[k].len
    ensures var g := led[k].bg;
      && g < a.groups && FirstBlock(p, g) + Header(p, a.descBlocks, g) <= x < a.blocks
      && x < FirstBlock(p, g + 1)
  {
    var g := led[k].bg;
    OwnersAtLeast(led, k, g, x);
    assert Owned(InitGroups(p, a), st, led, g, x);
    DataArea(p, a, g);
    assert From(InitGroups(p, a)[g], st[g]);
    NextFirst(p, g);
  }

  predicate Disjoint(r: Region, s: Region) {
    r.len == 0 || s.len == 0 || r.block + r.len <= s.block || s.block + s.len <= r.block
  }

  /** ...and no two of them share a block. */
  lemma RegionsDisjoint(p: Params, a: Layout, st: seq<Group>, led: seq<Region>, j: nat, k: nat)
    requires Sound(p, a) && p.perGroup < WORD32 && FirstBlock(p, a.groups) < WORD32
    requires forall i :: 0 <= i < a.groups ==> Header(p, a.descBlocks, i) <= p.perGroup
    requires LedgerOk(InitGroups(p, a), st, led) && j < k < |led|
    ensures Disjoint(led[j], led[k])
  {
    if !Disjoint(led[j], led[k]) {
      var x := if led[j].block < led[k].block then led[k].block else led[j].block;
      RegionInside(p, a, st, led, j, x);
      RegionInside(p, a, st, led, k, x);
      var g, h := led[j].bg, led[k].bg;
      assert Owned(InitGroups(p, a), st, led, g, x);
      if g == h {
        OwnersTwice(led, j, k, g, x);
      } else if g < h {
        FirstMonotone(p, g + 1, h);
      } else {
        FirstMonotone(p, h + 1, g);
      }
      assert false;
    }
  }
}
