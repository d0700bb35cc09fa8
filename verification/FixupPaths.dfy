/**
 Paths before and after the tool: which of them lead where they led, looked up as ext4 looks them up,
 past records whose inode number is 0.
 */
module FixupPaths {
  import opened Arithmetic
  import opened InodeNumbers
  import opened FixupModel
  import opened FixupTree
  import opened FixupRuns
  import opened FixupSupers
  import opened FixupConvergence

  /** The first record in use of that name. */
  function Lookup(es: seq<Entry>, name: string): (r: nat)
    ensures r <= |es| && (r < |es| ==> es[r].name == name && es[r].inode != 0)
  {
    if es == [] || (es[0].inode != 0 && es[0].name == name) then 0 else 1 + Lookup(es[1..], name)
  }

  datatype Resolved = Found(slot: Slot) | NotFound

  predicate IsReadable(table: InodeTable, disk: Disk, s: Slot) {
    s in table && table[s].isDir && OnDisk(table[s], disk)
  }

  /** Follows a path from the inode in slot s, as a mounted file system would. */
  function Resolve(table: InodeTable, disk: Disk, ipg: Positive, s: Slot, path: seq<string>): Resolved
    decreases |path|
  {
    if path == [] then Found(s)
    else if !IsReadable(table, disk, s) then NotFound
    else
      var es := ReadAll(disk, table[s].blocks);
      var i := Lookup(es, path[0]);
      if i == |es| then NotFound else Resolve(table, disk, ipg, SlotOf(es[i].inode, ipg), path[1..])
  }

  function ResolveIn(img: Image, path: seq<string>): Resolved {
    Resolve(img.table, img.disk, img.super.ipg, RootSlot(img.super.ipg), path)
  }

  // ---- which paths are safe, seen on the image before the tool is run ----

  /** The number names one slot whether it is converted or not. */
  predicate Steady(geo: Geometry, ipg: Positive, inum: nat) {
    SlotOf(inum, NewIpg(geo, ipg)) == SlotOf(inum, ipg)
  }

  /** Numbers of the first group are, and all are if there is nothing to convert. */
  lemma SteadyIff(geo: Geometry, ipg: Positive, inum: nat)
    requires 1 <= inum <= 0x1_0000_0000
    ensures Steady(geo, ipg, inum) <==> NewIpg(geo, ipg) == ipg || inum <= ipg
  {
    NewIpgBounds(geo, ipg);
    PredecessorOf(inum);
    var n, p := NewIpg(geo, ipg), inum - 1;
    if inum <= ipg {
      DivModUnique(0, ipg, p);
      DivModUnique(0, n, p);
    } else if p / n == p / ipg && p % n == p % ipg {
      var g := p / ipg;
      assert g * n + p % n == g * ipg + p % ipg;
      assert g >= 1;
      SameProduct(g, n, ipg);
    }
  }

  lemma SameProduct(g: nat, n: nat, m: nat)
    requires g >= 1 && g * n == g * m
    ensures n == m
  {
  }

  /** The k-th record of directory s is converted, or need not be. */
  ghost predicate Keeps(geo: Geometry, og: Image, rank: map<Slot, nat>, s: Slot, k: nat)
    requires IsReadable(og.table, og.disk, s) && k < |ReadAll(og.disk, og.table[s].blocks)|
  {
    var es := ReadAll(og.disk, og.table[s].blocks);
    (s in rank && k < LiveCount(es)) || Steady(geo, og.super.ipg, es[k].inode)
  }

  /** No directory on the way is hit, and every record on the way is converted or need not be. */
  ghost predicate PathSafe(geo: Geometry, og: Image, rank: map<Slot, nat>, s: Slot, path: seq<string>)
    decreases |path|
  {
    path == [] || !IsReadable(og.table, og.disk, s) ||
    var es := ReadAll(og.disk, og.table[s].blocks);
    var i := Lookup(es, path[0]);
    i == |es| ||
    (Undamaged(geo, og.table[s]) && Keeps(geo, og, rank, s, i)
     && PathSafe(geo, og, rank, SlotOf(es[i].inode, og.super.ipg), path[1..]))
  }

  // ---- one directory, before and after ----

  lemma {:induction false} SameNamesSameLookup(a: seq<Entry>, b: seq<Entry>, name: string)
    requires |a| == |b| && forall k :: 0 <= k < |a| ==> a[k].name == b[k].name && (a[k].inode == 0 <==> b[k].inode == 0)
    ensures Lookup(a, name) == Lookup(b, name)
  {
    if a != [] && !(a[0].inode != 0 && a[0].name == name) {
      SameNamesSameLookup(a[1..], b[1..], name);
    }
  }

  /** The names are the same, and the records name the same slots just where Keeps says so. */
  ghost predicate Corresponds(geo: Geometry, og: Image, rank: map<Slot, nat>, f: Image, s: Slot, after: seq<Entry>)
    requires IsReadable(og.table, og.disk, s)
  {
    var before := ReadAll(og.disk, og.table[s].blocks);
    && |before| == |after|
    && forall k :: 0 <= k < |before| ==>
         && after[k].name == before[k].name && (after[k].inode == 0 <==> before[k].inode == 0)
         && (SlotOf(after[k].inode, f.super.ipg) == SlotOf(before[k].inode, og.super.ipg) <==> Keeps(geo, og, rank, s, k))
  }

  /** A directory of the tree, converted as far as its first record with inode number 0. */
  lemma KnownDirCorresponds(geo: Geometry, og: Image, rank: map<Slot, nat>, f: Image, d: Disk, s: Slot)
    requires ImageOk(geo, og, rank) && FinalOver(geo, og, rank, f, d) && s in rank && IsReadable(og.table, og.disk, s)
    ensures DirOk(WorldOf(geo, og, rank), s)
    ensures Corresponds(geo, og, rank, f, s, Now(WorldOf(geo, og, rank), d, s))
  {
    hide Rooted, CopiesPartly, OthersApart;
    var w := WorldOf(geo, og, rank);
    assert DirOk(w, s) && InSync(w, Renumber, d, s);
    var before, after := Orig(w, s), Now(w, d, s);
    forall k | 0 <= k < Live(w, s)
      ensures after[k] == before[k].WithInode(after[k].inode) && after[k].inode != 0
      ensures SlotOf(after[k].inode, f.super.ipg) == SlotOf(before[k].inode, og.super.ipg)
    {
      FinalEntries(geo, og, rank, f, d, s, k);
    }
  }

  /** A directory that no live entry leads to is left alone. */
  lemma OtherDirCorresponds(geo: Geometry, og: Image, rank: map<Slot, nat>, f: Image, d: Disk, s: Slot)
    requires ImageOk(geo, og, rank) && FinalOver(geo, og, rank, f, d) && s !in rank && IsReadable(og.table, og.disk, s)
    ensures OnDisk(og.table[s], d)
    ensures Corresponds(geo, og, rank, f, s, ReadAll(d, og.table[s].blocks))
  {
    hide Rooted, CopiesPartly;
    ReadAllFrame(d, og.disk, og.table[s].blocks);
  }

  /** An undamaged directory can still be read, and corresponds to what it was. */
  lemma DirKeeps(geo: Geometry, og: Image, rank: map<Slot, nat>, f: Image, d: Disk, s: Slot)
    requires ImageOk(geo, og, rank) && FinalOver(geo, og, rank, f, d)
    requires IsReadable(og.table, og.disk, s) && Undamaged(geo, og.table[s])
    ensures f.table == og.table && IsReadable(f.table, f.disk, s)
    ensures Corresponds(geo, og, rank, f, s, ReadAll(f.disk, og.table[s].blocks))
  {
    SameTable(geo, og, rank, f, d);
    if s in rank {
      KnownDirCorresponds(geo, og, rank, f, d, s);
    } else {
      OtherDirCorresponds(geo, og, rank, f, d, s);
    }
    hide WellFormed, Rooted, OthersApart, CopiesPartly, Corresponds;
    UndamagedReads(geo, og, d, f, og.table[s]);
  }

  lemma DamagedIsUnreadable(geo: Geometry, og: Image, rank: map<Slot, nat>, f: Image, d: Disk, s: Slot)
    requires ImageOk(geo, og, rank) && FinalOver(geo, og, rank, f, d) && s in og.table
    requires !OnDisk(og.table[s], og.disk) || !Undamaged(geo, og.table[s])
    ensures !IsReadable(f.table, f.disk, s)
  {
    hide Rooted, CopiesPartly, WellFormed;
    if !Undamaged(geo, og.table[s]) {
      DamagedIsGone(geo, og, d, f, og.table[s]);
    } else {
      NothingAppears(geo, og, d, f);
    }
  }

  lemma NothingAppears(geo: Geometry, og: Image, d: Disk, f: Image)
    requires SupersNew(geo, og, d, f, geo.groups) && d.Keys == og.disk.Keys
    ensures f.disk.Keys <= og.disk.Keys
  {
    forall b | b in f.disk ensures b in og.disk {
      assert b in d;
    }
  }

  // ---- one path ----

  lemma {:induction false} SafePathKeeps(geo: Geometry, og: Image, rank: map<Slot, nat>, f: Image, d: Disk, s: Slot, path: seq<string>)
    requires ImageOk(geo, og, rank) && FinalOver(geo, og, rank, f, d) && PathSafe(geo, og, rank, s, path)
    ensures Resolve(f.table, f.disk, f.super.ipg, s, path) == Resolve(og.table, og.disk, og.super.ipg, s, path)
    decreases |path|
  {
    hide ImageOk, FinalOver, Keeps, Undamaged;
    SameTable(geo, og, rank, f, d);
    if path == [] {
    } else if !IsReadable(og.table, og.disk, s) {
      if s in og.table && og.table[s].isDir {
        DamagedIsUnreadable(geo, og, rank, f, d, s);
      }
    } else if !Undamaged(geo, og.table[s]) {
      DamagedIsUnreadable(geo, og, rank, f, d, s);
    } else {
      DirKeeps(geo, og, rank, f, d, s);
      var before, after := ReadAll(og.disk, og.table[s].blocks), ReadAll(f.disk, og.table[s].blocks);
      SameNamesSameLookup(before, after, path[0]);
      var i := Lookup(before, path[0]);
      if i < |before| {
        SafePathKeeps(geo, og, rank, f, d, SlotOf(before[i].inode, og.super.ipg), path[1..]);
      }
    }
  }

  lemma SameTable(geo: Geometry, og: Image, rank: map<Slot, nat>, f: Image, d: Disk)
    requires ImageOk(geo, og, rank) && FinalOver(geo, og, rank, f, d)
    ensures f.table == og.table
  {
    hide WellFormed, Rooted, AllDone, CopiesPartly;
  }

  /** The record a name leads to in directory s of the original. */
  ghost predicate LeadsTo(og: Image, s: Slot, name: string, k: nat) {
    && IsReadable(og.table, og.disk, s)
    && var es := ReadAll(og.disk, og.table[s].blocks);
    k < |es| && Lookup(es, name) == k
  }

  /** A name whose record is neither converted nor steady leads elsewhere. */
  lemma LeadsElsewhere(geo: Geometry, og: Image, rank: map<Slot, nat>, f: Image, d: Disk, s: Slot, name: string, k: nat)
    requires ImageOk(geo, og, rank) && FinalOver(geo, og, rank, f, d)
    requires LeadsTo(og, s, name, k) && Undamaged(geo, og.table[s]) && !Keeps(geo, og, rank, s, k)
    ensures Resolve(og.table, og.disk, og.super.ipg, s, [name])
         == Found(SlotOf(ReadAll(og.disk, og.table[s].blocks)[k].inode, og.super.ipg))
    ensures Resolve(f.table, f.disk, f.super.ipg, s, [name]).Found?
    ensures Resolve(f.table, f.disk, f.super.ipg, s, [name]) != Resolve(og.table, og.disk, og.super.ipg, s, [name])
  {
    DirKeeps(geo, og, rank, f, d, s);
    hide ImageOk, FinalOver, Keeps, Undamaged;
    var before, after := ReadAll(og.disk, og.table[s].blocks), ReadAll(f.disk, og.table[s].blocks);
    SameNamesSameLookup(before, after, name);
    assert [name][1..] == [];
  }

  /** Nothing is found in a directory that was hit, even if the directory itself is. */
  lemma StopsAtDamage(geo: Geometry, og: Image, rank: map<Slot, nat>, f: Image, d: Disk, s: Slot, name: string, k: nat, rest: seq<string>)
    requires ImageOk(geo, og, rank) && FinalOver(geo, og, rank, f, d)
    requires LeadsTo(og, s, name, k) && Undamaged(geo, og.table[s]) && Keeps(geo, og, rank, s, k) && rest != []
    requires var next := SlotOf(ReadAll(og.disk, og.table[s].blocks)[k].inode, og.super.ipg);
      next in og.table && !Undamaged(geo, og.table[next])
    ensures Resolve(f.table, f.disk, f.super.ipg, s, [name] + rest) == NotFound
  {
    DirKeeps(geo, og, rank, f, d, s);
    var before, after := ReadAll(og.disk, og.table[s].blocks), ReadAll(f.disk, og.table[s].blocks);
    DamagedIsUnreadable(geo, og, rank, f, d, SlotOf(before[k].inode, og.super.ipg));
    hide ImageOk, FinalOver, Keeps, Undamaged;
    SameNamesSameLookup(before, after, name);
    assert ([name] + rest)[1..] == rest;
  }

  /** On a path that is not safe there is a place from which on things have changed. */
  lemma {:induction false} UnsafePathChanges(geo: Geometry, og: Image, rank: map<Slot, nat>, f: Image, d: Disk, s: Slot, path: seq<string>)
    returns (part: seq<string>)
    requires ImageOk(geo, og, rank) && FinalOver(geo, og, rank, f, d) && !PathSafe(geo, og, rank, s, path)
    ensures Resolve(f.table, f.disk, f.super.ipg, s, part) != Resolve(og.table, og.disk, og.super.ipg, s, part)
    decreases |path|
  {
    hide ImageOk, FinalOver, Keeps, Undamaged;
    var before := ReadAll(og.disk, og.table[s].blocks);
    var i := Lookup(before, path[0]);
    var next := SlotOf(before[i].inode, og.super.ipg);
    part := [path[0]];
    assert part[1..] == [];
    if !Undamaged(geo, og.table[s]) {
      DamagedIsUnreadable(geo, og, rank, f, d, s);
    } else if !Keeps(geo, og, rank, s, i) {
      LeadsElsewhere(geo, og, rank, f, d, s, path[0], i);
    } else {
      DirKeeps(geo, og, rank, f, d, s);
      SameNamesSameLookup(before, ReadAll(f.disk, og.table[s].blocks), path[0]);
      var rest := UnsafePathChanges(geo, og, rank, f, d, next, path[1..]);
      part := [path[0]] + rest;
      assert part[1..] == rest;
    }
  }

  // ---- all paths ----

  /** In a finished image every path leads where it led if and only if every path of the original is safe. */
  lemma PathsKeepIff(geo: Geometry, og: Image, rank: map<Slot, nat>, f: Image)
    requires ImageOk(geo, og, rank) && IsFinal(geo, og, rank, f)
    ensures (forall path :: ResolveIn(f, path) == ResolveIn(og, path))
      <==> (forall path :: PathSafe(geo, og, rank, RootSlot(og.super.ipg), path))
  {
    hide Resolve, PathSafe;
    var d :| FinalOver(geo, og, rank, f, d);
    var root := RootSlot(og.super.ipg);
    SameRoot(geo, og, rank, f, d);
    hide ImageOk, FinalOver, RootSlot;
    if forall path :: PathSafe(geo, og, rank, root, path) {
      forall path ensures ResolveIn(f, path) == ResolveIn(og, path) {
        SafePathKeeps(geo, og, rank, f, d, root, path);
      }
    } else {
      var path :| !PathSafe(geo, og, rank, root, path);
      var part := UnsafePathChanges(geo, og, rank, f, d, root, path);
      assert ResolveIn(f, part) != ResolveIn(og, part);
    }
  }

  lemma SameRoot(geo: Geometry, og: Image, rank: map<Slot, nat>, f: Image, d: Disk)
    requires ImageOk(geo, og, rank) && FinalOver(geo, og, rank, f, d)
    ensures RootSlot(f.super.ipg) == RootSlot(og.super.ipg)
  {
    hide WellFormed, Rooted, AllDone, CopiesPartly, OthersApart;
    NewIpgBounds(geo, og.super.ipg);
    RootStays(geo, og.super.ipg);
  }

  /**
   After a complete run, if no directory is hit after any history, and otherwise after runs that were all
   cut short, every path leads where it led before if and only if every path of the original is safe.
   */
  lemma PathsKeepTheirMeaningIff(geo: Geometry, og: Image, rank: map<Slot, nat>, kills: seq<(Budget, nat)>, depth: nat)
    requires ImageOk(geo, og, rank) && Sane(geo, og, rank) && depth >= DepthNeeded(rank)
    requires Intact(geo, og, rank) || NoneFinishes(geo, og, kills)
    ensures var f := Run(geo, Runs(geo, og, kills), Unlimited, depth).img;
      (forall path :: ResolveIn(f, path) == ResolveIn(og, path))
      <==> (forall path :: PathSafe(geo, og, rank, RootSlot(og.super.ipg), path))
  {
    hide ImageOk, Sane, IsFinal, Run, Resolve, PathSafe;
    if Intact(geo, og, rank) {
      CrashConvergence(geo, og, rank, kills, depth);
    } else {
      FirstFinish(geo, og, rank, kills, depth);
    }
    PathsKeepIff(geo, og, rank, Run(geo, Runs(geo, og, kills), Unlimited, depth).img);
  }

  // ---- when every path is safe ----

  /** In no directory of the tree does a record in use follow one with inode number 0. */
  ghost predicate NoneBehind(geo: Geometry, og: Image, rank: map<Slot, nat>)
    requires ImageOk(geo, og, rank)
  {
    var w := WorldOf(geo, og, rank);
    forall s, k :: s in rank && Live(w, s) <= k < |Orig(w, s)| ==> Orig(w, s)[k].inode == 0
  }

  lemma {:induction false} PlainPathSafe(geo: Geometry, og: Image, rank: map<Slot, nat>, s: Slot, path: seq<string>)
    requires ImageOk(geo, og, rank) && Intact(geo, og, rank) && NoneBehind(geo, og, rank)
    requires IsReadable(og.table, og.disk, s) ==> s in rank
    ensures PathSafe(geo, og, rank, s, path)
    decreases |path|
  {
    if path != [] && IsReadable(og.table, og.disk, s) {
      var w := WorldOf(geo, og, rank);
      assert DirOk(w, s);
      var es := Orig(w, s);
      var i := Lookup(es, path[0]);
      if i < |es| {
        assert i < Live(w, s);
        assert EntryOk(w, s, es[i]);
        PlainPathSafe(geo, og, rank, SlotOf(es[i].inode, og.super.ipg), path[1..]);
      }
    }
  }

  /** Every path leads to the inode it led to before the tool was ever run, on any image of that kind. */
  lemma PathsKeepTheirMeaning(geo: Geometry, og: Image, rank: map<Slot, nat>, kills: seq<(Budget, nat)>,
                              depth: nat, path: seq<string>)
    requires ImageOk(geo, og, rank) && Sane(geo, og, rank) && depth >= DepthNeeded(rank)
    requires Intact(geo, og, rank) && NoneBehind(geo, og, rank)
    ensures ResolveIn(Run(geo, Runs(geo, og, kills), Unlimited, depth).img, path) == ResolveIn(og, path)
  {
    RootStays(geo, og.super.ipg);
    RootIsDir(geo, og, rank);
    hide ImageOk, Sane, Intact, NoneBehind, Run, Resolve, PathSafe;
    forall p ensures PathSafe(geo, og, rank, RootSlot(og.super.ipg), p) {
      PlainPathSafe(geo, og, rank, RootSlot(og.super.ipg), p);
    }
    PathsKeepTheirMeaningIff(geo, og, rank, kills, depth);
  }
}
