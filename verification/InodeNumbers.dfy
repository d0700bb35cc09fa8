/**
 The arithmetic of inode renumbering: the number the tool computes for an inode names, under the
 enlarged inodes-per-group, the very slot the old number named under the old one.
 */
module InodeNumbers {
  import opened Arithmetic

  const HIGH_BIT: nat := 0x8000_0000
  const ROOT_INO: nat := 2

  // Where read_inode looks: block group and index into that group's inode table.
  datatype Slot = Slot(group: nat, index: nat)

  // Inode numbers start at 1; the subtraction is on 32-bit unsigned numbers.
  function Predecessor(inum: nat): nat {
    (inum + 0xFFFF_FFFF) % 0x1_0000_0000
  }

  function SlotOf(inum: nat, ipg: Positive): Slot {
    Slot(Predecessor(inum) / ipg, Predecessor(inum) % ipg)
  }

  function ComputeNewInum(inum: nat, ipg: Positive, newIpg: Positive): (n: nat)
    ensures n < 0x1_0000_0000
  {
    (Predecessor(inum) / ipg * newIpg + Predecessor(inum) % ipg + 1) % 0x1_0000_0000
  }

  // dirp->inode & 0x7fffffff
  function Unmark(inum: nat): nat {
    if inum >= HIGH_BIT then inum - HIGH_BIT else inum
  }

  // dirp->inode |= 0x80000000
  function MarkBit(inum: nat): nat {
    if inum >= HIGH_BIT then inum else inum + HIGH_BIT
  }

  /** The mark is the top one of 32 bits, and the number is in the others. */
  lemma MarkIsTopBit(inum: nat)
    requires inum < 0x1_0000_0000
    ensures inum >= HIGH_BIT <==> inum / 0x8000_0000 == 1
    ensures Unmark(inum) == inum % 0x8000_0000 && MarkBit(inum) == 0x8000_0000 + inum % 0x8000_0000
  {
  }

  /** Old and new number both fit below the mark bit. */
  predicate Renumberable(inum: nat, ipg: Positive, newIpg: Positive) {
    && 1 <= inum < HIGH_BIT
    && (inum - 1) / ipg * newIpg + (inum - 1) % ipg + 1 < HIGH_BIT
  }

  lemma PredecessorOf(inum: nat)
    requires 1 <= inum <= 0x1_0000_0000
    ensures Predecessor(inum) == inum - 1
  {
  }

  /** Renumbering keeps meaning: the slot does not move. */
  lemma RenumberingKeepsSlot(inum: nat, ipg: Positive, newIpg: Positive)
    requires ipg <= newIpg
    requires Renumberable(inum, ipg, newIpg)
    ensures 1 <= ComputeNewInum(inum, ipg, newIpg) < HIGH_BIT
    ensures SlotOf(ComputeNewInum(inum, ipg, newIpg), newIpg) == SlotOf(inum, ipg)
  {
    PredecessorOf(inum);
    var g, i := (inum - 1) / ipg, (inum - 1) % ipg;
    MulNonNegative(g, newIpg);
    var n := ComputeNewInum(inum, ipg, newIpg);
    assert n == g * newIpg + i + 1;
    PredecessorOf(n);
    DivModUnique(g, newIpg, i);
  }

  lemma MulNonNegative(a: nat, b: nat)
    ensures 0 <= a * b
  {
  }

  /** A slot names one inode number, so no two inodes are ever given the same number. */
  lemma SlotDeterminesNumber(a: nat, b: nat, ipg: Positive)
    requires 1 <= a <= 0x1_0000_0000 && 1 <= b <= 0x1_0000_0000
    requires SlotOf(a, ipg) == SlotOf(b, ipg)
    ensures a == b
  {
    PredecessorOf(a);
    PredecessorOf(b);
  }

  lemma RenumberingIsInjective(a: nat, b: nat, ipg: Positive, newIpg: Positive)
    requires ipg <= newIpg
    requires Renumberable(a, ipg, newIpg) && Renumberable(b, ipg, newIpg)
    ensures ComputeNewInum(a, ipg, newIpg) == ComputeNewInum(b, ipg, newIpg) <==> a == b
  {
    RenumberingKeepsSlot(a, ipg, newIpg);
    RenumberingKeepsSlot(b, ipg, newIpg);
    if ComputeNewInum(a, ipg, newIpg) == ComputeNewInum(b, ipg, newIpg) {
      SlotDeterminesNumber(a, b, ipg);
    }
  }

  /** On an image that already has the aligned inodes-per-group, renumbering is the identity. */
  lemma RenumberingAgainIsIdentity(inum: nat, ipg: Positive)
    requires 1 <= inum < HIGH_BIT
    ensures ComputeNewInum(inum, ipg, ipg) == inum
    ensures Renumberable(inum, ipg, ipg)
  {
    hide Predecessor;
    PredecessorOf(inum);
    Rejoined(inum - 1, ipg);
  }

  lemma Rejoined(x: nat, m: Positive)
    ensures x / m * m + x % m == x
  {
  }

  /** Byte offset of an inode inside its group's table, as read_inode computes it. */
  function TableOffset(s: Slot, inodeSize: nat): nat {
    s.index * inodeSize
  }

  /** Bytes the inode table of a group occupies: whole blocks. */
  function TableBytes(ipg: nat, inodeSize: Positive, blockSize: Positive): nat {
    DivRoundUp(ipg * inodeSize, blockSize) * blockSize
  }

  /**
   The enlarged table occupies exactly the blocks the old one already had, so every new slot
   lies inside them and no table has to move.
   */
  lemma EnlargedTableFitsOldBlocks(ipg: Positive, inodeSize: Positive, inodesPerBlock: Positive,
                                   blockSize: Positive, s: Slot)
    requires blockSize == inodesPerBlock * inodeSize
    requires s.index < AlignUp(ipg, inodesPerBlock)
    ensures AlignUp(ipg, inodesPerBlock) * inodeSize == TableBytes(ipg, inodeSize, blockSize)
    ensures TableOffset(s, inodeSize) + inodeSize <= TableBytes(ipg, inodeSize, blockSize)
  {
    var q := DivRoundUp(ipg, inodesPerBlock);
    DivRoundUpBounds(ipg, inodesPerBlock);
    RoundingScales(ipg, inodeSize, inodesPerBlock, q);
    DivUnique(ipg * inodeSize + blockSize - 1, blockSize, q);
    Reassociate(q, inodesPerBlock, inodeSize);
    MulMonotone(s.index + 1, AlignUp(ipg, inodesPerBlock), inodeSize);
  }

  lemma Reassociate(q: nat, n: nat, size: nat)
    ensures q * (n * size) == n * q * size
  {
  }

  lemma RoundingScales(x: nat, size: Positive, n: Positive, q: nat)
    requires q * n - n < x <= q * n
    ensures q * (n * size) <= x * size + n * size - 1 < q * (n * size) + n * size
  {
    MulMonotone(x, q * n, size);
    assert q * n * size == q * (n * size);
    if q >= 1 {
      MulMonotone((q - 1) * n + 1, x, size);
      assert (q - 1) * n * size == q * (n * size) - n * size;
    }
  }
}
