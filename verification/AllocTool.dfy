/** The allocator at work on its block groups and bitmaps, each step what AllocModel says. */
module AllocTool {
  import opened Arithmetic
  import opened AllocModel
  import opened Bitmap

  /** The bits are those of a group whose free blocks are the n from `lo` on. */
  ghost predicate FreeExactly(bits: seq<bool>, size: nat, lo: nat, n: nat) {
    lo + n <= size <= |bits| && forall k :: 0 <= k < size ==> (bits[k] <==> !(lo <= k < lo + n))
  }

  lemma TakeLow(bits: seq<bool>, size: nat, lo: nat, n: nat, num: nat)
    requires FreeExactly(bits, size, lo, n) && num <= n
    ensures Clear(bits, lo, num) && FreeExactly(Painted(bits, lo, num, true), size, lo + num, n - num)
  {
  }

  lemma TakeHigh(bits: seq<bool>, size: nat, lo: nat, n: nat, num: nat)
    requires FreeExactly(bits, size, lo, n) && num <= n
    ensures Clear(bits, lo + n - num, num) && FreeExactly(Painted(bits, lo + n - num, num, true), size, lo, n - num)
  {
  }

  lemma GiveLow(bits: seq<bool>, size: nat, lo: nat, n: nat, num: nat)
    requires FreeExactly(bits, size, lo, n) && num <= lo
    ensures FreeExactly(Painted(bits, lo - num, num, false), size, lo - num, n + num)
  {
  }

  /** A group used up from its first free block can say it begins anywhere. */
  lemma NothingFree(bits: seq<bool>, size: nat, lo: nat, hi: nat)
    requires FreeExactly(bits, size, lo, 0) && hi <= size
    ensures FreeExactly(bits, size, hi, 0)
  {
  }

  class BlockGroup {
    const index: nat
    const first: nat
    const size: nat
    const bitmap: array<bv8>
    var used: nat
    var free: nat
    var firstFree: nat

    ghost function Abs(): Group
      reads this
    {
      Group(first, used, free, firstFree)
    }

    /** The clear bits are exactly those of [first_free_block, first_free_block + free_blocks). */
    ghost predicate Valid()
      reads this, bitmap
    {
      FreeExactly(BitsOf(bitmap[..]), size, firstFree, free)
    }

    /** reserve_blocks */
    method ReserveBlocks(start: nat, num: nat) returns (ok: bool)
      requires num <= free ==> start + num <= 8 * bitmap.Length
      modifies this`free, this`firstFree, bitmap
      ensures num > old(free) ==> !ok && bitmap[..] == old(bitmap[..])
      ensures num <= old(free) ==> (ok <==> Clear(old(BitsOf(bitmap[..])), start, num))
      ensures ok ==> BitsOf(bitmap[..]) == Painted(old(BitsOf(bitmap[..])), start, num, true)
      ensures ok ==> Abs() == Reserve(old(Abs()), start, num)
      ensures !ok ==> Abs() == old(Abs())
    {
      if num > free {
        return false;
      }
      ok := SetRange(bitmap, start, num);
      if ok {
        free := free - num;
        if start == firstFree {
          firstFree := start + num;
        }
      }
    }

    /** free_blocks: the inverse of the last reservation made from the bottom. */
    method FreeBlocks(num: nat)
      requires Valid() && num <= firstFree
      modifies this`free, this`firstFree, bitmap
      ensures Valid() && Abs() == old(Abs()).GiveBack(num)
    {
      hide BitsOf;
      GiveLow(BitsOf(bitmap[..]), size, firstFree, free, num);
      ClearRange(bitmap, firstFree, num);
      free := free + num;
      firstFree := firstFree - num;
    }

    /** init_bg */
    constructor (index: nat, first: nat, perGroup: nat, header: nat, imageBlocks: nat, blockSize: nat)
      requires header <= perGroup <= 8 * blockSize
      ensures Valid() && fresh(bitmap) && Abs() == InitGroup(first, perGroup, header, imageBlocks)
      ensures this.index == index
    {
      this.index, this.first, this.size := index, first, perGroup;
      bitmap := new bv8[blockSize](i => 0);
      used, free, firstFree := 0, perGroup, 0;
      new;
      AllFree(bitmap[..], perGroup);
      InitReserve(header, imageBlocks);
    }

    method InitReserve(header: nat, imageBlocks: nat)
      requires Valid() && firstFree == 0 && used == 0 && free == size && header <= size
      modifies this, bitmap
      ensures Valid() && Abs() == InitGroup(first, size, header, imageBlocks)
    {
      hide BitsOf;
      TakeLow(BitsOf(bitmap[..]), size, 0, free, header);
      var ok := ReserveBlocks(firstFree, header);
      var overrun := (first + size - imageBlocks) % WORD32;
      if overrun > 0 {
        if overrun <= free {
          TakeHigh(BitsOf(bitmap[..]), size, firstFree, free, overrun);
        }
        ghost var was := free;
        // a start that wraps around is not looked at, for there are not so many free blocks
        ok := ReserveBlocks(if overrun <= size then size - overrun else size, overrun);
        if overrun == was {
          NothingFree(BitsOf(bitmap[..]), size, header, firstFree);
        }
      }
    }

    /** ext4_allocate_blocks_from_block_group; the reservation itself never fails. */
    method Allocate(len: nat) returns (ok: bool, block: nat)
      requires Valid()
      modifies this, bitmap
      ensures Valid() && (ok <==> len <= old(free))
      ensures ok ==> Abs() == old(Abs()).Take(len) && block == first + old(firstFree)
      ensures !ok ==> Abs() == old(Abs())
    {
      hide BitsOf;
      if free < len {
        return false, 0;
      }
      block := firstFree;
      TakeLow(BitsOf(bitmap[..]), size, firstFree, free, len);
      ok := ReserveBlocks(firstFree, len);
      // "attempted to reserve already reserved block" is never reported
      assert ok;
      used := used + len;
      block := first + block;
    }
  }

  lemma AllFree(bytes: seq<bv8>, size: nat)
    requires size <= 8 * |bytes| && forall i :: 0 <= i < |bytes| ==> bytes[i] == 0
    ensures FreeExactly(BitsOf(bytes), size, 0, size)
  {
    forall k | 0 <= k < size ensures !BitsOf(bytes)[k] {
      BitAt(bytes, k);
    }
  }

  // ---- all groups ----

  class Allocator {
    const bgs: seq<BlockGroup>
    ghost const owner: map<array<bv8>, nat>

    ghost predicate Placed(i: nat)
      requires i < |bgs|
    {
      bgs[i].index == i && bgs[i].bitmap in owner && owner[bgs[i].bitmap] == i
    }

    ghost function Repr(): set<object> {
      (set i | 0 <= i < |bgs| :: bgs[i]) + (set i | 0 <= i < |bgs| :: bgs[i].bitmap)
    }

    ghost predicate Valid()
      reads Repr()
    {
      forall i {:trigger bgs[i]} :: 0 <= i < |bgs| ==> Placed(i) && bgs[i].Valid()
    }

    ghost function Abs(): (st: seq<Group>)
      reads Repr()
      ensures |st| == |bgs| && forall i :: 0 <= i < |st| ==> st[i] == bgs[i].Abs()
    {
      seq(|bgs|, i requires 0 <= i < |bgs| reads Repr() => bgs[i].Abs())
    }

    constructor (bgs: seq<BlockGroup>, ghost owner: map<array<bv8>, nat>)
      requires forall i :: 0 <= i < |bgs| ==>
        bgs[i].index == i && bgs[i].bitmap in owner && owner[bgs[i].bitmap] == i && bgs[i].Valid()
      ensures Valid() && this.bgs == bgs
    {
      this.bgs, this.owner := bgs, owner;
      new;
      forall i | 0 <= i < |bgs| ensures Placed(i) && bgs[i].Valid() {
        assert bgs[i].index == i;
      }
    }

    /** ext4_allocate_blocks_from_block_group, and the region made of it. */
    method TakeFrom(len: nat, i: nat) returns (ok: bool, reg: Region)
      requires Valid() && i < |bgs|
      modifies Repr()
      ensures Valid() && (ok <==> len <= old(Abs()[i].free))
      ensures ok ==> Abs() == Taken(old(Abs()), i, len) && reg == RegionAt(old(Abs()), i, len)
      ensures !ok ==> Abs() == old(Abs())
    {
      hide BlockGroup.Valid;
      var block;
      ok, block := bgs[i].Allocate(len);
      reg := Region(block, len, i);
      OthersValid(i);
    }

    twostate lemma OthersValid(i: nat)
      requires i < |bgs| && old(Valid()) && bgs[i].Valid()
      requires forall k {:trigger bgs[k]} :: 0 <= k < |bgs| && k != i ==> unchanged(bgs[k]) && unchanged(bgs[k].bitmap)
      ensures Valid()
    {
      forall k | 0 <= k < |bgs| ensures Placed(k) && bgs[k].Valid() {
        assert old(Placed(k) && bgs[k].Valid());
      }
    }

    /** free_blocks on group i. */
    method GiveBack(i: nat, num: nat)
      requires Valid() && i < |bgs| && num <= bgs[i].firstFree
      modifies Repr()
      ensures Valid() && Abs() == old(Abs())[i := old(Abs())[i].GiveBack(num)]
    {
      hide BlockGroup.Valid;
      bgs[i].FreeBlocks(num);
      OthersValid(i);
    }

    /** ext4_allocate_contiguous_blocks: first fit. */
    method AllocateContiguous(len: nat) returns (ok: bool, reg: Region)
      requires Valid()
      modifies Repr()
      ensures Valid()
      ensures Contiguous(old(Abs()), len) == Grant(if ok then Granted else NoSpace, Abs(), if ok then [reg] else [])
    {
      hide BlockGroup.Valid;
      ok, reg := false, Region(0, 0, 0);
      var i := 0;
      while i < |bgs|
        invariant 0 <= i <= |bgs| && Valid() && Abs() == old(Abs())
        invariant FirstFit(Abs(), len, 0) == FirstFit(Abs(), len, i)
      {
        ok, reg := TakeFrom(len, i);
        if ok {
          return;
        }
        i := i + 1;
      }
      ok := false;
    }

    /** ext4_allocate_partial, and one round of the loop around it. */
    method AllocatePartial(len: nat) returns (ok: bool, reg: Region)
      requires Valid() && len > 0
      modifies Repr()
      ensures Valid()
      ensures !ok ==> Abs() == old(Abs()) && Multiple(old(Abs()), len) == Grant(NoSpace, Abs(), [])
      ensures ok ==> reg.len <= len && RoundOf(old(Abs()), len, Abs(), reg)
    {
      hide BlockGroup.Valid;
      var i := 0;
      while i < |bgs| && bgs[i].used != 0
        invariant 0 <= i <= |bgs| && Valid() && Abs() == old(Abs())
        invariant FirstUntouched(Abs(), 0) == FirstUntouched(Abs(), i)
      {
        i := i + 1;
      }
      if i == |bgs| {
        return false, Region(0, 0, 0);
      }
      assert Abs()[i] == bgs[i].Abs();
      if len <= bgs[i].free {
        ok, reg := AllocateContiguous(len);
      } else {
        ok, reg := TakeFrom(bgs[i].free, i);
      }
    }

    /** ext4_allocate_multiple_contiguous_blocks */
    method AllocateMultiple(len: nat) returns (ok: bool, regs: seq<Region>)
      requires Valid() && Multiple(Abs(), len).verdict != Spinning
      modifies Repr()
      ensures Valid() && Multiple(old(Abs()), len) == Grant(if ok then Granted else NoSpace, Abs(), regs)
    {
      hide Valid, Multiple, RoundOf;
      regs := [];
      var left: nat := len;
      BehindNothing(Multiple(Abs(), len));
      while left > 0
        invariant Valid() && Multiple(Abs(), left).verdict != Spinning
        invariant Multiple(old(Abs()), len) == Behind(regs, Multiple(Abs(), left))
        decreases left
      {
        ghost var st := Abs();
        var more, reg := AllocatePartial(left);
        if !more {
          return false, regs;
        }
        RoundMoves(st, left, Abs(), reg);
        regs := regs + [reg];
        left := left - reg.len;
      }
      MultipleNone(Abs());
      assert regs + [] == regs;
      return true, regs;
    }

    /** do_allocate */
    method DoAllocate(len: nat) returns (ok: bool, regs: seq<Region>)
      requires Valid() && AllocModel.Allocate(Abs(), len).verdict != Spinning
      modifies Repr()
      ensures Valid() && AllocModel.Allocate(old(Abs()), len) == Grant(if ok then Granted else NoSpace, Abs(), regs)
    {
      hide Valid, Multiple;
      var reg;
      ok, reg := AllocateContiguous(len);
      if ok {
        return true, [reg];
      }
      ok, regs := AllocateMultiple(len);
    }
  }

  // ---- rounds of the multi-group loop ----

  function Behind(regs: seq<Region>, g: Grant): Grant {
    g.(regions := regs + g.regions)
  }

  lemma BehindNothing(g: Grant)
    ensures Behind([], g) == g
  {
  }

  /** What one round of the loop does to the state, when it finds an untouched group. */
  predicate RoundOf(st: seq<Group>, len: nat, st2: seq<Group>, reg: Region) {
    var i := FirstUntouched(st, 0);
    && i < |st|
    && if len <= st[i].free then Contiguous(st, len) == Grant(Granted, st2, [reg]) && reg.len == len
       else st2 == Taken(st, i, st[i].free) && reg == RegionAt(st, i, st[i].free)
  }

  lemma RoundMoves(st: seq<Group>, len: nat, st2: seq<Group>, reg: Region)
    requires len > 0 && RoundOf(st, len, st2, reg) && reg.len <= len && Multiple(st, len).verdict != Spinning
    ensures reg.len > 0 && Multiple(st2, len - reg.len).verdict != Spinning
    ensures Multiple(st, len) == Behind([reg], Multiple(st2, len - reg.len))
    ensures forall regs :: Behind(regs, Multiple(st, len)) == Behind(regs + [reg], Multiple(st2, len - reg.len))
  {
    var rest := Multiple(st2, len - reg.len);
    assert [reg] + [] == [reg];
    forall regs ensures Behind(regs, Behind([reg], rest)) == Behind(regs + [reg], rest) {
      assert regs + ([reg] + rest.regions) == regs + [reg] + rest.regions;
    }
  }

  lemma MultipleNone(st: seq<Group>)
    ensures Multiple(st, 0) == Grant(Granted, st, [])
  {
  }
}
