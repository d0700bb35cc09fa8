/** What every allocation keeps: every block taken from a group has exactly one owner. */
module AllocProofs {
  import opened Arithmetic
  import opened AllocModel

  predicate Covers(r: Region, g: nat, x: nat) {
    r.bg == g && r.block <= x < r.block + r.len
  }

  /** How many of the regions have block x of group g. */
  function Owners(led: seq<Region>, g: nat, x: nat): nat {
    if led == [] then 0 else (if Covers(led[0], g, x) then 1 else 0) + Owners(led[1..], g, x)
  }

  lemma {:induction false} OwnersAdd(a: seq<Region>, b: seq<Region>, g: nat, x: nat)
    ensures Owners(a + b, g, x) == Owners(a, g, x) + Owners(b, g, x)
  {
    if a == [] {
      assert a + b == b;
    } else {
      assert (a + b)[1..] == a[1..] + b;
      OwnersAdd(a[1..], b, g, x);
    }
  }

  lemma {:induction false} TotalLenAdd(a: seq<Region>, b: seq<Region>)
    ensures TotalLen(a + b) == TotalLen(a) + TotalLen(b)
  {
    if a == [] {
      assert a + b == b;
    } else {
      assert (a + b)[1..] == a[1..] + b;
      TotalLenAdd(a[1..], b);
    }
  }

  /** Group i of st is group i of the initial state with some blocks handed out. */
  predicate From(g0: Group, g: Group) {
    g.first == g0.first && g0.firstFree <= g.firstFree && g.firstFree + g.free == g0.firstFree + g0.free
  }

  /** Handed out: between the initial first free block and the present one. */
  predicate HandedOut(g0: Group, g: Group, x: nat) {
    g0.first + g0.firstFree <= x < g.first + g.firstFree
  }

  ghost predicate Owned(init: seq<Group>, st: seq<Group>, led: seq<Region>, g: nat, x: nat) {
    Owners(led, g, x) == if g < |st| && g < |init| && HandedOut(init[g], st[g], x) then 1 else 0
  }

  /** led is every region outstanding: no block is owned twice, and none handed out is without owner. */
  ghost predicate LedgerOk(init: seq<Group>, st: seq<Group>, led: seq<Region>) {
    && |st| == |init| && (forall i :: 0 <= i < |st| ==> From(init[i], st[i]))
    && forall g, x {:trigger Owners(led, g, x)} :: Owned(init, st, led, g, x)
  }

  lemma LedgerStarts(init: seq<Group>)
    ensures LedgerOk(init, init, [])
  {
    forall g, x ensures Owned(init, init, [], g, x) {
    }
  }

  // ---- single steps ----

  lemma TakeKeeps(init: seq<Group>, st: seq<Group>, led: seq<Region>, i: nat, len: nat)
    requires LedgerOk(init, st, led) && i < |st| && len <= st[i].free
    ensures LedgerOk(init, Taken(st, i, len), led + [RegionAt(st, i, len)])
  {
    var st2, r := Taken(st, i, len), RegionAt(st, i, len);
    forall g, x ensures Owned(init, st2, led + [r], g, x) {
      OwnersAdd(led, [r], g, x);
      assert Owned(init, st, led, g, x);
      assert Owners([r], g, x) == if Covers(r, g, x) then 1 else 0;
      if g == i {
        assert From(init[i], st[i]);
      }
    }
  }

  /** Regions side by side count as one. */
  lemma SplitCovers(r: Region, n: nat, g: nat, x: nat)
    requires n <= r.len
    ensures (if Covers(r.(len := n), g, x) then 1 else 0) + (if Covers(Region(r.block + n, r.len - n, r.bg), g, x) then 1 else 0)
         == if Covers(r, g, x) then 1 else 0
  {
  }

  /** The order of the ledger and where it is split do not matter. */
  lemma SameOwners(init: seq<Group>, st: seq<Group>, led1: seq<Region>, led2: seq<Region>)
    requires LedgerOk(init, st, led1)
    requires forall g, x :: Owners(led1, g, x) == Owners(led2, g, x)
    ensures LedgerOk(init, st, led2)
  {
    forall g, x ensures Owned(init, st, led2, g, x) {
      assert Owned(init, st, led1, g, x);
    }
  }

  /** Giving back the last block of a region that ends where the group's free blocks begin. */
  lemma GiveBackKeeps(init: seq<Group>, st: seq<Group>, led: seq<Region>, r: Region)
    requires LedgerOk(init, st, led + [r]) && r.bg < |st| && r.len >= 1
    requires r.block + r.len == st[r.bg].first + st[r.bg].firstFree
    ensures st[r.bg].firstFree >= 1
    ensures LedgerOk(init, st[r.bg := st[r.bg].GiveBack(1)], led + [r.(len := r.len - 1)])
  {
    var last := r.block + r.len - 1;
    OwnersAdd(led, [r], r.bg, last);
    assert Owned(init, st, led + [r], r.bg, last);
    var st2, r2 := st[r.bg := st[r.bg].GiveBack(1)], r.(len := r.len - 1);
    forall g, x ensures Owned(init, st2, led + [r2], g, x) {
      OwnersAdd(led, [r], g, x);
      OwnersAdd(led, [r2], g, x);
      assert Owned(init, st, led + [r], g, x);
    }
    assert From(init[r.bg], st[r.bg]);
  }

  // ---- whole allocations ----

  /** Regions of one call lie in different groups, and each ends where its group's free blocks now begin. */
  ghost predicate LastTaken(st: seq<Group>, rs: seq<Region>) {
    && (forall i :: 0 <= i < |rs| ==> AtEnd(st, rs[i]))
    && (forall i, j :: 0 <= i < j < |rs| ==> rs[i].bg != rs[j].bg)
  }

  predicate AtEnd(st: seq<Group>, r: Region) {
    && r.bg < |st| && r.len >= 1
    && st[r.bg].first <= r.block && r.block + r.len == st[r.bg].first + st[r.bg].firstFree
  }

  lemma ContiguousKeeps(init: seq<Group>, st: seq<Group>, led: seq<Region>, len: nat)
    requires LedgerOk(init, st, led)
    ensures var r := Contiguous(st, len);
      && LedgerOk(init, r.st, led + r.regions)
      && (r.verdict == Granted ==> TotalLen(r.regions) == len && (len > 0 ==> LastTaken(r.st, r.regions)))
  {
    var i := FirstFit(st, len, 0);
    if i < |st| {
      TakeKeeps(init, st, led, i, len);
    } else {
      assert led + [] == led;
    }
  }

  /** A group without free blocks plays no part in what follows. */
  lemma {:induction false} MultipleSkipsFull(st: seq<Group>, len: nat, g: nat)
    requires g < |st| && st[g].free == 0 && st[g].used > 0
    ensures var r := Multiple(st, len);
      |r.st| == |st| && r.st[g] == st[g] && forall k :: 0 <= k < |r.regions| ==> r.regions[k].bg != g
    decreases Fresh(st)
  {
    var i := FirstUntouched(st, 0);
    if len > 0 && i < |st| && st[i].free < len && st[i].free > 0 {
      var st1 := Taken(st, i, st[i].free);
      assert i in Fresh(st) && i !in Fresh(st1) && Fresh(st1) <= Fresh(st);
      MultipleSkipsFull(st1, len - st[i].free, g);
    }
  }

  lemma FitsSomewhere(st: seq<Group>, len: nat, i: nat)
    requires i < |st| && len <= st[i].free
    ensures Contiguous(st, len).verdict == Granted
  {
  }

  lemma EndsCons(st: seq<Group>, first: Region, rest: seq<Region>)
    requires AtEnd(st, first) && LastTaken(st, rest) && forall k :: 0 <= k < |rest| ==> rest[k].bg != first.bg
    ensures LastTaken(st, [first] + rest)
  {
  }

  lemma ContiguousEnds(st: seq<Group>, len: nat)
    requires len > 0 && Contiguous(st, len).verdict == Granted
    ensures Contiguous(st, len).regions != [] && LastTaken(Contiguous(st, len).st, Contiguous(st, len).regions)
  {
  }

  lemma WholeAtEnd(st: seq<Group>, i: nat, st2: seq<Group>)
    requires i < |st| && st[i].free > 0 && |st2| == |st| && st2[i] == Taken(st, i, st[i].free)[i]
    ensures AtEnd(st2, RegionAt(st, i, st[i].free))
  {
  }

  /** That much needs no ledger. */
  lemma {:induction false} MultipleEnds(st: seq<Group>, len: nat)
    ensures var r := Multiple(st, len);
      r.verdict == Granted ==> LastTaken(r.st, r.regions) && (len > 0 ==> r.regions != [])
    decreases Fresh(st)
  {
    var i := FirstUntouched(st, 0);
    if len == 0 {
      assert LastTaken(st, []);
    } else if i < |st| && st[i].free > 0 {
      hide LastTaken, AtEnd, Contiguous, RegionAt;
      if len <= st[i].free {
        FitsSomewhere(st, len, i);
        ContiguousEnds(st, len);
      } else {
        var st1 := Taken(st, i, st[i].free);
        assert i in Fresh(st) && i !in Fresh(st1) && Fresh(st1) <= Fresh(st);
        var rest := Multiple(st1, len - st[i].free);
        MultipleEnds(st1, len - st[i].free);
        MultipleSkipsFull(st1, len - st[i].free, i);
        if rest.verdict == Granted {
          WholeAtEnd(st, i, rest.st);
          RegionIn(st, i, st[i].free);
          EndsCons(rest.st, RegionAt(st, i, st[i].free), rest.regions);
        }
      }
    }
  }

  lemma RegionIn(st: seq<Group>, i: nat, len: nat)
    requires i < |st|
    ensures RegionAt(st, i, len).bg == i
  {
  }

  lemma {:induction false} MultipleKeeps(init: seq<Group>, st: seq<Group>, led: seq<Region>, len: nat)
    requires LedgerOk(init, st, led)
    ensures var r := Multiple(st, len);
      && LedgerOk(init, r.st, led + r.regions)
      && (r.verdict == Granted ==> TotalLen(r.regions) == len && LastTaken(r.st, r.regions))
    decreases Fresh(st)
  {
    hide LedgerOk, LastTaken;
    var i := FirstUntouched(st, 0);
    MultipleEnds(st, len);
    if len == 0 || i == |st| {
      assert led + [] == led;
    } else if len <= st[i].free {
      ContiguousKeeps(init, st, led, len);
      FitsSomewhere(st, len, i);
    } else if st[i].free == 0 {
      assert led + [] == led;
    } else {
      var st1, first := Taken(st, i, st[i].free), RegionAt(st, i, st[i].free);
      assert i in Fresh(st) && i !in Fresh(st1) && Fresh(st1) <= Fresh(st);
      var rest := Multiple(st1, len - st[i].free);
      TakeKeeps(init, st, led, i, st[i].free);
      MultipleKeeps(init, st1, led + [first], len - st[i].free);
      assert led + ([first] + rest.regions) == led + [first] + rest.regions;
      TotalLenAdd([first], rest.regions);
      TotalLenOne(first);
    }
  }

  lemma TotalLenOne(r: Region)
    ensures TotalLen([r]) == r.len
  {
  }

  /** do_allocate: exactly the blocks asked for, each group it touches used from where it stood. */
  lemma AllocateKeeps(init: seq<Group>, st: seq<Group>, led: seq<Region>, len: nat)
    requires LedgerOk(init, st, led)
    ensures var r := Allocate(st, len);
      && LedgerOk(init, r.st, led + r.regions)
      && (r.verdict == Granted ==> TotalLen(r.regions) == len && (len > 0 ==> LastTaken(r.st, r.regions)))
  {
    ContiguousKeeps(init, st, led, len);
    MultipleKeeps(init, st, led, len);
  }

  lemma AllocateEnds(st: seq<Group>, len: nat)
    requires len > 0 && Allocate(st, len).verdict == Granted
    ensures Allocate(st, len).regions != [] && LastTaken(Allocate(st, len).st, Allocate(st, len).regions)
  {
    MultipleEnds(st, len);
  }

  // ---- when an allocation comes to an end ----

  /** Free blocks of the untouched groups below i. */
  function FreshBelow(st: seq<Group>, i: nat): nat
    requires i <= |st|
  {
    if i == 0 then 0
    else FreshBelow(st, i - 1) + if st[i - 1].used == 0 then st[i - 1].free else 0
  }

  /** i is the first group that is untouched and has nothing free. */
  predicate FirstEmpty(st: seq<Group>, i: nat) {
    && i < |st| && st[i].used == 0 && st[i].free == 0
    && forall k :: 0 <= k < i && st[k].used == 0 ==> st[k].free > 0
  }

  lemma {:induction false} FreshBelowTaken(st: seq<Group>, i: nat, k: nat)
    requires i < |st| && k <= |st| && st[i].used == 0 && st[i].free > 0
    ensures FreshBelow(Taken(st, i, st[i].free), k) == FreshBelow(st, k) - if i < k then st[i].free else 0
  {
    if k > 0 {
      FreshBelowTaken(st, i, k - 1);
    }
  }

  lemma {:induction false} FreshBelowMore(st: seq<Group>, i: nat, k: nat)
    requires i < k <= |st| && st[i].used == 0
    ensures st[i].free <= FreshBelow(st, k)
  {
    if i < k - 1 {
      FreshBelowMore(st, i, k - 1);
    }
  }

  lemma {:induction false} FreshBelowNothing(st: seq<Group>, k: nat)
    requires k <= |st| && forall j :: 0 <= j < k ==> st[j].used != 0
    ensures FreshBelow(st, k) == 0
  {
    if k > 0 {
      FreshBelowNothing(st, k - 1);
    }
  }

  /** The multi-group loop goes on for ever exactly if it gets to an untouched group without free blocks. */
  lemma {:induction false} SpinsIff(st: seq<Group>, len: nat, e: nat)
    requires FirstEmpty(st, e)
    ensures Multiple(st, len).verdict == Spinning <==> len > FreshBelow(st, e)
    decreases Fresh(st)
  {
    var i := FirstUntouched(st, 0);
    assert i <= e;
    if i == e {
      FreshBelowNothing(st, e);
    } else {
      FreshBelowMore(st, i, e);
      if len > st[i].free {
        var st1 := Taken(st, i, st[i].free);
        assert i in Fresh(st) && i !in Fresh(st1) && Fresh(st1) <= Fresh(st);
        FreshBelowTaken(st, i, e);
        SpinsIff(st1, len - st[i].free, e);
      }
    }
  }

  lemma {:induction false} NeverSpins(st: seq<Group>, len: nat)
    requires forall i :: 0 <= i < |st| && st[i].used == 0 ==> st[i].free > 0
    ensures Multiple(st, len).verdict != Spinning
    decreases Fresh(st)
  {
    var i := FirstUntouched(st, 0);
    if len > 0 && i < |st| && len > st[i].free {
      var st1 := Taken(st, i, st[i].free);
      assert i in Fresh(st) && i !in Fresh(st1) && Fresh(st1) <= Fresh(st);
      NeverSpins(st1, len - st[i].free);
    }
  }

  // ---- conservation of free blocks ----

  lemma {:induction false} FreeBlocksUpdate(st: seq<Group>, i: nat, g: Group)
    requires i < |st|
    ensures FreeBlocks(st[i := g]) == FreeBlocks(st) - st[i].free + g.free
  {
    if i == 0 {
      assert st[i := g][1..] == st[1..];
    } else {
      assert st[i := g][1..] == st[1..][i - 1 := g];
      FreeBlocksUpdate(st[1..], i - 1, g);
    }
  }

  lemma {:induction false} MultipleConserves(st: seq<Group>, len: nat)
    ensures var r := Multiple(st, len);
      FreeBlocks(r.st) + TotalLen(r.regions) == FreeBlocks(st)
    decreases Fresh(st)
  {
    var i := FirstUntouched(st, 0);
    if len > 0 && i < |st| {
      if len <= st[i].free {
        TakenConserves(st, FirstFit(st, len, 0), len);
      } else if st[i].free > 0 {
        var st1, first := Taken(st, i, st[i].free), RegionAt(st, i, st[i].free);
        assert i in Fresh(st) && i !in Fresh(st1) && Fresh(st1) <= Fresh(st);
        MultipleConserves(st1, len - st[i].free);
        TakenConserves(st, i, st[i].free);
        TotalLenAdd([first], Multiple(st1, len - st[i].free).regions);
      }
    }
  }

  lemma TakenConserves(st: seq<Group>, i: nat, len: nat)
    requires i < |st| && len <= st[i].free
    ensures FreeBlocks(Taken(st, i, len)) + TotalLen([RegionAt(st, i, len)]) == FreeBlocks(st)
  {
    FreeBlocksUpdate(st, i, st[i].Take(len));
    TotalLenOne(RegionAt(st, i, len));
  }

  /** What is handed out is gone from the free counts, no more and no less. */
  lemma AllocateConserves(st: seq<Group>, len: nat)
    ensures var r := Allocate(st, len);
      FreeBlocks(r.st) + TotalLen(r.regions) == FreeBlocks(st)
  {
    var i := FirstFit(st, len, 0);
    if i < |st| {
      FreeBlocksUpdate(st, i, st[i].Take(len));
    } else {
      MultipleConserves(st, len);
    }
  }

  /** An allocation goes on for ever exactly when it gets to an untouched group that has nothing free. */
  lemma AllocateSpinsIff(st: seq<Group>, len: nat)
    ensures Allocate(st, len).verdict == Spinning <==>
      && (forall i :: 0 <= i < |st| ==> st[i].free < len)
      && exists e :: FirstEmpty(st, e) && len > FreshBelow(st, e)
  {
    if forall i :: 0 <= i < |st| ==> st[i].free < len {
      if i :| FirstEmpty(st, i) {
        SpinsIff(st, len, i);
      } else {
        NoFirstEmpty(st, |st|);
        NeverSpins(st, len);
      }
      forall e | FirstEmpty(st, e) ensures Multiple(st, len).verdict == Spinning <==> len > FreshBelow(st, e) {
        SpinsIff(st, len, e);
      }
    }
  }

  /** The groups below e are those a request can use up before it is stuck or out of groups. */
  predicate Usable(st: seq<Group>, e: nat) {
    FirstEmpty(st, e) || (e == |st| && forall i :: 0 <= i < |st| && st[i].used == 0 ==> st[i].free > 0)
  }

  lemma {:induction false} MultipleGrantedIff(st: seq<Group>, len: nat, e: nat)
    requires Usable(st, e)
    ensures Multiple(st, len).verdict == Granted <==> len <= FreshBelow(st, e)
    decreases Fresh(st)
  {
    var i := FirstUntouched(st, 0);
    if i >= e {
      FreshBelowNothing(st, e);
    } else {
      FreshBelowMore(st, i, e);
      if len <= st[i].free {
        FitGranted(st, len, i);
      } else {
        var st1 := Taken(st, i, st[i].free);
        assert i in Fresh(st) && i !in Fresh(st1) && Fresh(st1) <= Fresh(st);
        FreshBelowTaken(st, i, e);
        MultipleGrantedIff(st1, len - st[i].free, e);
      }
    }
  }

  lemma FitGranted(st: seq<Group>, len: nat, i: nat)
    requires i < |st| && len <= st[i].free
    ensures Contiguous(st, len).verdict == Granted
  {
  }

  /**
   A request is met exactly if it fits some group, or the untouched groups before the first of them that
   has nothing free.
   */
  lemma AllocateGrantedIff(st: seq<Group>, len: nat)
    ensures Allocate(st, len).verdict == Granted <==>
      || (exists i :: 0 <= i < |st| && len <= st[i].free)
      || (exists e :: Usable(st, e) && len <= FreshBelow(st, e))
  {
    if i :| 0 <= i < |st| && len <= st[i].free {
      FitGranted(st, len, i);
    } else {
      if e :| FirstEmpty(st, e) {
        assert Usable(st, e);
      } else {
        NoFirstEmpty(st, |st|);
        assert Usable(st, |st|);
      }
      forall e | Usable(st, e) ensures Multiple(st, len).verdict == Granted <==> len <= FreshBelow(st, e) {
        MultipleGrantedIff(st, len, e);
      }
    }
  }

  lemma {:induction false} NoFirstEmpty(st: seq<Group>, n: nat)
    requires n <= |st| && forall e :: !FirstEmpty(st, e)
    ensures forall i :: 0 <= i < n && st[i].used == 0 ==> st[i].free > 0
  {
    if n > 0 {
      NoFirstEmpty(st, n - 1);
      assert !FirstEmpty(st, n - 1);
    }
  }

  /** Such a group is left as it is by a further round, which then finds itself where it was. */
  lemma SpinningRepeats(st: seq<Group>, len: nat)
    requires len > 0 && FirstUntouched(st, 0) < |st| && st[FirstUntouched(st, 0)].free == 0
    ensures var i := FirstUntouched(st, 0);
      Taken(st, i, st[i].free) == st && len - RegionAt(st, i, st[i].free).len == len
  {
    var i := FirstUntouched(st, 0);
    assert st[i].Take(0) == st[i];
  }
}
