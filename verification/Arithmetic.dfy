/** Helpers of ext4_utils and the few facts about `/` and `%` that the solver does not find alone. */
module Arithmetic {
  type Positive = n: nat | 1 <= n witness 1

  // one more than the largest 32-bit unsigned number
  const WORD32: Positive := 0x1_0000_0000

  // DIV_ROUND_UP of ext4_utils.h
  function DivRoundUp(x: nat, y: Positive): nat {
    (x + y - 1) / y
  }

  // ALIGN of ext4_utils.h
  function AlignUp(x: nat, y: Positive): nat {
    y * DivRoundUp(x, y)
  }

  // the block that the first group starts with
  function FirstDataBlock(blockSize: Positive): nat {
    if blockSize > 1024 then 0 else 1
  }

  lemma DivModUnique(q: int, m: Positive, r: nat)
    requires r < m
    ensures (q * m + r) / m == q
    ensures (q * m + r) % m == r
  {
    var x := q * m + r;
    assert x == x / m * m + x % m;
    ScaledBelowOne(x / m - q, m, r - x % m);
  }

  lemma ScaledBelowOne(d: int, m: int, x: int)
    requires 1 <= m && d * m == x && -m < x < m
    ensures d == 0
  {
  }

  lemma DivUnique(x: int, m: Positive, q: int)
    requires q * m <= x < q * m + m
    ensures x / m == q
  {
    DivModUnique(q, m, x - q * m);
  }

  lemma DivRoundUpBounds(x: nat, y: Positive)
    ensures DivRoundUp(x, y) * y - y < x <= DivRoundUp(x, y) * y
  {
  }

  lemma AlignUpBounds(x: nat, y: Positive)
    ensures x <= AlignUp(x, y) < x + y
    ensures AlignUp(x, y) % y == 0
  {
    DivRoundUpBounds(x, y);
    DivModUnique(DivRoundUp(x, y), y, 0);
    assert DivRoundUp(x, y) * y == AlignUp(x, y);
  }

  // A multiple of y is its own alignment.
  lemma AlignUpIdempotent(x: nat, y: Positive)
    requires x % y == 0
    ensures AlignUp(x, y) == x
  {
    DivModUnique(x / y, y, y - 1);
    assert x + y - 1 == x / y * y + (y - 1);
  }

  lemma MulMonotone(a: nat, b: nat, c: nat)
    requires a <= b
    ensures a * c <= b * c
  {
  }

  lemma ModPlusMultiple(x: int, k: int, m: Positive)
    ensures (x + k * m) % m == x % m
  {
    DivModUnique(x / m + k, m, x % m);
    assert (x / m + k) * m + x % m == x + k * m;
  }

  lemma ModAdd(x: int, y: int, m: Positive)
    ensures (x % m + y) % m == (x + y) % m
  {
    ModPlusMultiple(x % m + y, x / m, m);
    assert x + y == x % m + y + x / m * m;
  }
}
