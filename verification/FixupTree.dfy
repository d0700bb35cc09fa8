/**
 What a pass over the directory tree keeps, wherever it is killed.

 The key fact is `Closed`: an entry for a directory that is already in its new form has below it
 only entries in their new form.  That is why a restarted pass may skip such entries, and why no
 entry is ever converted twice.
 */
module FixupTree {
  import opened InodeNumbers
  import opened Sequences
  import opened FixupModel

  /**
   The image a pass starts from: session, directory blocks, and a rank for every directory, which
   is smaller the deeper the directory lies.
   */
  datatype World = World(ss: Session, orig: Disk, rank: map<Slot, nat>)

  ghost predicate WellFormed(w: World) {
    && w.ss.ipg <= w.ss.newIpg
    && (forall s :: s in w.rank ==> DirOk(w, s))
    && (forall s, t, b :: s in w.rank && t in w.rank && b in w.ss.table[s].blocks && b in w.ss.table[t].blocks ==> s == t)
    && (forall s, k :: s in w.rank && 0 <= k < Live(w, s) ==> EntryOk(w, s, Orig(w, s)[k]))
  }

  ghost predicate DirOk(w: World, s: Slot) {
    && s in w.ss.table
    && w.ss.table[s].isDir
    && OnDisk(w.ss.table[s], w.orig)
    && Distinct(w.ss.table[s].blocks)
  }

  /** A directory's entries as they were before the tool first ran. */
  ghost function Orig(w: World, s: Slot): seq<Entry>
    requires DirOk(w, s)
  {
    ReadAll(w.orig, w.ss.table[s].blocks)
  }

  ghost function Live(w: World, s: Slot): (n: nat)
    requires DirOk(w, s)
    ensures n <= |Orig(w, s)|
  {
    LiveCount(Orig(w, s))
  }

  ghost predicate EntryOk(w: World, s: Slot, e: Entry)
    requires s in w.rank
  {
    var child := SlotOf(e.inode, w.ss.ipg);
    && Renumberable(e.inode, w.ss.ipg, w.ss.newIpg)
    && (IsDirInode(w.ss, e.inode) ==>
          child in w.rank && (!IsDots(e.name) ==> e.kind != Other && w.rank[child] < w.rank[s]))
  }

  /** Entry e names a subdirectory. */
  ghost predicate IsChild(w: World, e: Entry) {
    !IsDots(e.name) && IsDirInode(w.ss, e.inode)
  }

  ghost function Child(w: World, e: Entry): Slot {
    SlotOf(e.inode, w.ss.ipg)
  }

  /** Every directory has a parent, except the root, which ranks highest. */
  ghost predicate Rooted(w: World)
    requires WellFormed(w)
  {
    var root := RootSlot(w.ss.ipg);
    && root in w.rank
    && (forall s {:trigger w.rank[s]} :: s in w.rank ==> w.rank[s] <= w.rank[root])
    && (forall s {:trigger HasParent(w, s)} :: s in w.rank && s != root ==> HasParent(w, s))
  }

  ghost predicate HasParent(w: World, s: Slot)
    requires WellFormed(w)
  {
    exists p, k :: HasChild(w, p, k, s)
  }

  ghost predicate HasChild(w: World, p: Slot, k: nat, s: Slot)
    requires WellFormed(w)
  {
    p in w.rank && k < Live(w, p) && IsChild(w, Orig(w, p)[k]) && Child(w, Orig(w, p)[k]) == s
  }

  /** No entry marked as a directory names an inode of another type. */
  ghost predicate TypesOkAt(w: World, s: Slot)
    requires DirOk(w, s)
  {
    forall k :: 0 <= k < Live(w, s) ==>
      Orig(w, s)[k].kind == Directory && !IsDots(Orig(w, s)[k].name) ==> IsDirInode(w.ss, Orig(w, s)[k].inode)
  }

  ghost predicate TypesOk(w: World)
    requires forall s :: s in w.rank ==> DirOk(w, s)
  {
    forall s {:trigger TypesOkAt(w, s)} :: s in w.rank ==> TypesOkAt(w, s)
  }

  // ---- the two forms an entry has during a pass ----

  function Before(mode: Mode, e: Entry): Entry {
    if mode == Renumber then e.WithInode(e.inode + HIGH_BIT) else e
  }

  function After(ss: Session, mode: Mode, e: Entry): Entry {
    match mode
    case Sanity => e
    case Mark => e.WithInode(e.inode + HIGH_BIT)
    case Renumber => e.WithInode(ComputeNewInum(e.inode, ss.ipg, ss.newIpg))
  }

  /** Current entries of a directory. */
  ghost function Now(w: World, disk: Disk, s: Slot): (es: seq<Entry>)
    requires DirOk(w, s) && SameShape(w.orig, disk)
    ensures |es| == |Orig(w, s)|
  {
    SameShapeReads(w.orig, disk, w.ss.table[s].blocks);
    ReadAll(disk, w.ss.table[s].blocks)
  }

  /** What is still to be walked from the k-th live entry on. */
  ghost function Rest(w: World, disk: Disk, s: Slot, k: nat): seq<Entry>
    requires DirOk(w, s) && SameShape(w.orig, disk) && k <= Live(w, s)
  {
    Now(w, disk, s)[k..Live(w, s)]
  }

  ghost predicate InSync(w: World, mode: Mode, disk: Disk, s: Slot)
    requires DirOk(w, s) && SameShape(w.orig, disk)
  {
    forall k :: 0 <= k < |Orig(w, s)| ==>
      var e, now := Orig(w, s)[k], Now(w, disk, s)[k];
      if k < Live(w, s) then now == Before(mode, e) || now == After(w.ss, mode, e) else now == e
  }

  ghost predicate DirDone(w: World, mode: Mode, disk: Disk, s: Slot)
    requires DirOk(w, s) && SameShape(w.orig, disk)
  {
    forall k :: 0 <= k < Live(w, s) ==> Now(w, disk, s)[k] == After(w.ss, mode, Orig(w, s)[k])
  }

  ghost predicate Closed(w: World, mode: Mode, disk: Disk, s: Slot)
    requires WellFormed(w) && SameShape(w.orig, disk) && s in w.rank
  {
    forall k :: 0 <= k < Live(w, s) && IsChild(w, Orig(w, s)[k])
      && Now(w, disk, s)[k] == After(w.ss, mode, Orig(w, s)[k])
      ==> EntryOk(w, s, Orig(w, s)[k]) && DirDone(w, mode, disk, Child(w, Orig(w, s)[k]))
  }

  ghost predicate Owned(w: World, b: nat)
    requires WellFormed(w)
  {
    exists s :: s in w.rank && b in w.ss.table[s].blocks
  }

  ghost predicate Inv(w: World, mode: Mode, disk: Disk)
    requires WellFormed(w)
  {
    && SameShape(w.orig, disk)
    && (forall s {:trigger InSync(w, mode, disk, s)} {:trigger Closed(w, mode, disk, s)} :: s in w.rank ==>
          InSync(w, mode, disk, s) && Closed(w, mode, disk, s))
    && (forall b :: b in w.orig && !Owned(w, b) ==> disk[b] == w.orig[b])
  }

  /** Finished directories stay finished. */
  ghost predicate Monotone(w: World, mode: Mode, d: Disk, e: Disk)
    requires WellFormed(w) && SameShape(w.orig, d) && SameShape(w.orig, e)
  {
    forall s {:trigger DirDone(w, mode, d, s)} {:trigger DirDone(w, mode, e, s)} :: s in w.rank && DirDone(w, mode, d, s) ==> DirDone(w, mode, e, s)
  }

  // ---- facts about single entries ----

  lemma EntryForms(w: World, mode: Mode, s: Slot, k: nat)
    requires WellFormed(w) && s in w.rank && k < Live(w, s) && mode != Sanity
    ensures var e := Orig(w, s)[k];
      && EntryOk(w, s, e)
      && Before(mode, e) != After(w.ss, mode, e)
      && Before(mode, e).inode != 0 && After(w.ss, mode, e).inode != 0
      && Unmark(Before(mode, e).inode) == e.inode
      && Process(w.ss, Before(mode, e), mode) == After(w.ss, mode, e)
      && Process(w.ss, After(w.ss, mode, e), mode) == After(w.ss, mode, e)
      && (mode == Mark ==> Unmark(After(w.ss, mode, e).inode) == e.inode)
      && (mode == Renumber ==> After(w.ss, mode, e).inode < HIGH_BIT <= Before(mode, e).inode)
  {
    var e := Orig(w, s)[k];
    assert EntryOk(w, s, e);
    RenumberingKeepsSlot(e.inode, w.ss.ipg, w.ss.newIpg);
  }

  /** The walk sees the same number of live entries however far the pass has come. */
  lemma LiveUnchanged(w: World, mode: Mode, disk: Disk, s: Slot)
    requires WellFormed(w) && s in w.rank && mode != Sanity
    requires SameShape(w.orig, disk) && InSync(w, mode, disk, s)
    ensures LiveCount(Now(w, disk, s)) == Live(w, s)
  {
    var now := Now(w, disk, s);
    forall k | 0 <= k < Live(w, s) ensures now[k].inode != 0 {
      EntryForms(w, mode, s, k);
    }
    assert Live(w, s) < |now| ==> now[Live(w, s)] == Orig(w, s)[Live(w, s)];
    LiveCountUnique(now, Live(w, s));
  }

  lemma LiveCountUnique(es: seq<Entry>, n: nat)
    requires n <= |es|
    requires forall k :: 0 <= k < n ==> es[k].inode != 0
    requires n < |es| ==> es[n].inode == 0
    ensures LiveCount(es) == n
  {
  }

  // ---- writing ----

  lemma ReadAllFrame(d: Disk, e: Disk, blocks: seq<nat>)
    requires forall b <- blocks :: b in d && b in e && d[b] == e[b]
    ensures ReadAll(d, blocks) == ReadAll(e, blocks)
  {
  }

  ghost predicate Mix<T>(x: seq<T>, y: seq<T>, z: seq<T>) {
    |x| == |y| == |z| && forall k :: 0 <= k < |x| ==> x[k] == y[k] || x[k] == z[k]
  }

  lemma MixConcat<T>(x1: seq<T>, y1: seq<T>, z1: seq<T>, x2: seq<T>, y2: seq<T>, z2: seq<T>)
    requires Mix(x1, y1, z1) && Mix(x2, y2, z2)
    ensures Mix(x1 + x2, y1 + y2, z1 + z2)
  {
  }

  lemma {:induction false} WriteAllFrame(disk: Disk, blocks: seq<nat>, buf: seq<Entry>, left: Budget, b: nat)
    requires forall b <- blocks :: b in disk
    requires |buf| == |ReadAll(disk, blocks)|
    requires b in disk && b !in blocks
    ensures WriteAll(disk, blocks, buf, left).disk[b] == disk[b]
    decreases |blocks|
  {
    if blocks != [] && left != AtMost(0) {
      var n := |disk[blocks[0]]|;
      var disk' := disk[blocks[0] := buf[..n]];
      SameShapeReads(disk, disk', blocks[1..]);
      WriteAllFrame(disk', blocks[1..], buf[n..], Spend(left), b);
    }
  }

  /** A process that dies after k writes has written the first k blocks and no other, whichever k it is. */
  lemma {:induction false} KilledAfter(disk: Disk, blocks: seq<nat>, buf: seq<Entry>, k: nat)
    requires forall b <- blocks :: b in disk
    requires |buf| == |ReadAll(disk, blocks)| && Distinct(blocks) && k < |blocks|
    ensures var r, full := WriteAll(disk, blocks, buf, AtMost(k)), WriteAll(disk, blocks, buf, Unlimited);
      && r.status == Killed
      && forall i :: 0 <= i < |blocks| ==> r.disk[blocks[i]] == if i < k then full.disk[blocks[i]] else disk[blocks[i]]
  {
    if k > 0 {
      var b, rest := blocks[0], blocks[1..];
      var n := |disk[b]|;
      var disk' := disk[b := buf[..n]];
      SameShapeReads(disk, disk', rest);
      assert b !in rest;
      WriteAllFrame(disk', rest, buf[n..], AtMost(k - 1), b);
      WriteAllFrame(disk', rest, buf[n..], Unlimited, b);
      KilledAfter(disk', rest, buf[n..], k - 1);
      assert forall i :: 1 <= i < |blocks| ==> blocks[i] == rest[i - 1];
    }
  }

  /** Whatever block the write stops at, each entry is the old or the new one. */
  lemma {:induction false} WriteAllMixes(disk: Disk, blocks: seq<nat>, buf: seq<Entry>, left: Budget)
    requires forall b <- blocks :: b in disk
    requires |buf| == |ReadAll(disk, blocks)| && Distinct(blocks)
    ensures var r := WriteAll(disk, blocks, buf, left);
      && Mix(ReadAll(r.disk, blocks), ReadAll(disk, blocks), buf)
      && (r.status == Done ==> ReadAll(r.disk, blocks) == buf)
    decreases |blocks|
  {
    if blocks != [] && left != AtMost(0) {
      var b, rest := blocks[0], blocks[1..];
      var n := |disk[b]|;
      var disk' := disk[b := buf[..n]];
      SameShapeReads(disk, disk', rest);
      assert b !in rest;
      WriteAllMixes(disk', rest, buf[n..], Spend(left));
      ReadAllFrame(disk, disk', rest);
      WriteAllFrame(disk', rest, buf[n..], Spend(left), b);
      var r := WriteAll(disk', rest, buf[n..], Spend(left));
      assert buf == buf[..n] + buf[n..];
      MixConcat(buf[..n], disk[b], buf[..n], ReadAll(r.disk, rest), ReadAll(disk, rest), buf[n..]);
    }
  }

  ghost predicate ChildrenDone(w: World, mode: Mode, disk: Disk, s: Slot, from: nat)
    requires WellFormed(w) && SameShape(w.orig, disk) && s in w.rank
  {
    forall k :: from <= k < Live(w, s) && IsChild(w, Orig(w, s)[k])
      ==> EntryOk(w, s, Orig(w, s)[k]) && DirDone(w, mode, disk, Child(w, Orig(w, s)[k]))
  }

  /** d and e agree outside directory s. */
  ghost predicate SameElsewhere(w: World, d: Disk, e: Disk, s: Slot)
    requires WellFormed(w) && SameShape(w.orig, d) && SameShape(w.orig, e)
  {
    && (forall t :: t in w.rank && t != s ==> Now(w, d, t) == Now(w, e, t))
    && (forall b :: b in w.orig && !Owned(w, b) ==> d[b] == e[b])
  }

  /** Converting some entries of a directory whose subdirectories are finished keeps the invariant. */
  lemma ConvertingKeeps(w: World, mode: Mode, d: Disk, e: Disk, s: Slot, buf: seq<Entry>)
    requires WellFormed(w) && s in w.rank
    requires Inv(w, mode, d) && ChildrenDone(w, mode, d, s, 0)
    requires SameShape(w.orig, e) && SameElsewhere(w, d, e, s)
    requires Mix(Now(w, e, s), Now(w, d, s), buf)
    requires forall k :: 0 <= k < Live(w, s) ==> buf[k] == After(w.ss, mode, Orig(w, s)[k])
    requires forall k :: Live(w, s) <= k < |buf| ==> buf[k] == Orig(w, s)[k]
    ensures Inv(w, mode, e) && Monotone(w, mode, d, e)
  {
    assert InSync(w, mode, d, s);
    assert InSync(w, mode, e, s);
    forall t | t in w.rank && DirDone(w, mode, d, t) ensures DirDone(w, mode, e, t) {
      if t != s {
        assert Now(w, d, t) == Now(w, e, t);
      }
    }
    forall t | t in w.rank && t != s ensures InSync(w, mode, e, t) && Closed(w, mode, e, t) {
      assert Now(w, d, t) == Now(w, e, t);
      assert InSync(w, mode, d, t) && Closed(w, mode, d, t);
    }
    assert Closed(w, mode, e, s);
  }

  lemma WriteAllElsewhere(w: World, disk: Disk, s: Slot, buf: seq<Entry>, left: Budget)
    requires WellFormed(w) && s in w.rank && SameShape(w.orig, disk) && |buf| == |Now(w, disk, s)|
    ensures var r := WriteAll(disk, w.ss.table[s].blocks, buf, left);
      SameShape(w.orig, r.disk) && SameElsewhere(w, disk, r.disk, s)
  {
    var blocks := w.ss.table[s].blocks;
    var r := WriteAll(disk, blocks, buf, left);
    forall b | b in disk && b !in blocks ensures r.disk[b] == disk[b] {
      WriteAllFrame(disk, blocks, buf, left, b);
    }
    forall t | t in w.rank && t != s ensures Now(w, disk, t) == Now(w, r.disk, t) {
      ReadAllFrame(disk, r.disk, w.ss.table[t].blocks);
    }
  }

  lemma ProcessedBuffer(w: World, mode: Mode, disk: Disk, s: Slot, buf: seq<Entry>)
    requires WellFormed(w) && s in w.rank && mode != Sanity
    requires SameShape(w.orig, disk) && InSync(w, mode, disk, s)
    requires buf == ProcessAll(w.ss, Now(w, disk, s), mode)
    ensures forall k :: 0 <= k < Live(w, s) ==> buf[k] == After(w.ss, mode, Orig(w, s)[k])
    ensures forall k :: Live(w, s) <= k < |buf| ==> buf[k] == Orig(w, s)[k]
  {
    LiveUnchanged(w, mode, disk, s);
    forall k | 0 <= k < Live(w, s) ensures buf[k] == After(w.ss, mode, Orig(w, s)[k]) {
      EntryForms(w, mode, s, k);
    }
  }

  lemma WriteBackKeeps(w: World, mode: Mode, disk: Disk, s: Slot, left: Budget)
    requires WellFormed(w) && s in w.rank && mode != Sanity
    requires Inv(w, mode, disk) && ChildrenDone(w, mode, disk, s, 0)
    ensures var r := WriteAll(disk, w.ss.table[s].blocks, ProcessAll(w.ss, Now(w, disk, s), mode), left);
      && Inv(w, mode, r.disk) && Monotone(w, mode, disk, r.disk) && SameElsewhere(w, disk, r.disk, s)
      && (r.status == Done ==> DirDone(w, mode, r.disk, s))
  {
    var buf := ProcessAll(w.ss, Now(w, disk, s), mode);
    var r := WriteAll(disk, w.ss.table[s].blocks, buf, left);
    WriteAllMixes(disk, w.ss.table[s].blocks, buf, left);
    WriteAllElsewhere(w, disk, s, buf, left);
    assert InSync(w, mode, disk, s);
    ProcessedBuffer(w, mode, disk, s, buf);
    ConvertingKeeps(w, mode, disk, r.disk, s, buf);
  }

  // ---- the recursion ----

  /** Work that keeps the invariant and touches only directories ranked below r. */
  ghost predicate Below(w: World, mode: Mode, d: Disk, e: Disk, r: nat)
    requires WellFormed(w) && SameShape(w.orig, d)
  {
    && Inv(w, mode, e)
    && Monotone(w, mode, d, e)
    && forall t :: t in w.rank && w.rank[t] >= r ==> Now(w, d, t) == Now(w, e, t)
  }

  lemma BelowTransitive(w: World, mode: Mode, d: Disk, e: Disk, f: Disk, r1: nat, r2: nat, r: nat)
    requires WellFormed(w) && SameShape(w.orig, d) && SameShape(w.orig, e)
    requires Below(w, mode, d, e, r1) && Below(w, mode, e, f, r2) && r1 <= r && r2 <= r
    ensures Below(w, mode, d, f, r)
  {
  }

  ghost predicate DirOutcome(w: World, mode: Mode, disk: Disk, s: Slot, left: Budget, depth: nat, r: Walk)
    requires WellFormed(w) && SameShape(w.orig, disk) && s in w.rank
  {
    && Below(w, mode, disk, r.disk, w.rank[s] + 1)
    && r.status != Failed
    && (r.status == Done ==> DirDone(w, mode, r.disk, s))
    && (left == Unlimited && depth > w.rank[s] ==> r.status == Done && r.left == Unlimited)
  }

  ghost predicate VisitOutcome(w: World, mode: Mode, disk: Disk, s: Slot, k: nat, left: Budget, depth: nat, r: Walk)
    requires WellFormed(w) && SameShape(w.orig, disk) && s in w.rank
  {
    && Below(w, mode, disk, r.disk, w.rank[s])
    && r.status != Failed
    && (r.status == Done ==> ChildrenDone(w, mode, r.disk, s, k))
    && (left == Unlimited && depth >= w.rank[s] ==> r.status == Done && r.left == Unlimited)
  }

  /** Whether the walk descends: exactly into subdirectories not known to be finished. */
  lemma DescendsWhereNeeded(w: World, mode: Mode, disk: Disk, s: Slot, k: nat)
    requires WellFormed(w) && s in w.rank && mode != Sanity && k < Live(w, s)
    requires Inv(w, mode, disk) && TypesOk(w)
    ensures EntryOk(w, s, Orig(w, s)[k])
    ensures Recurses(w.ss, Now(w, disk, s)[k], mode) ==>
              IsChild(w, Orig(w, s)[k]) && Unmark(Now(w, disk, s)[k].inode) == Orig(w, s)[k].inode
    ensures !Recurses(w.ss, Now(w, disk, s)[k], mode) && IsChild(w, Orig(w, s)[k]) ==>
              DirDone(w, mode, disk, Child(w, Orig(w, s)[k]))
  {
    EntryForms(w, mode, s, k);
    assert InSync(w, mode, disk, s) && Closed(w, mode, disk, s);
    assert TypesOkAt(w, s);
  }

  lemma VisitThenWrite(w: World, mode: Mode, disk: Disk, s: Slot, left: Budget, depth: nat, v: Walk)
    requires WellFormed(w) && s in w.rank && mode != Sanity && Inv(w, mode, disk)
    requires depth > 0 && VisitOutcome(w, mode, disk, s, 0, left, depth - 1, v) && v.status == Done
    ensures DirOutcome(w, mode, disk, s, left, depth,
      WriteAll(v.disk, w.ss.table[s].blocks, ProcessAll(w.ss, Now(w, disk, s), mode), v.left))
  {
    WriteBackKeeps(w, mode, v.disk, s, v.left);
    var r := WriteAll(v.disk, w.ss.table[s].blocks, ProcessAll(w.ss, Now(w, v.disk, s), mode), v.left);
    assert Now(w, disk, s) == Now(w, v.disk, s);
    assert Below(w, mode, v.disk, r.disk, w.rank[s] + 1);
    BelowTransitive(w, mode, disk, v.disk, r.disk, w.rank[s], w.rank[s] + 1, w.rank[s] + 1);
  }

  lemma ChildThenRest(w: World, mode: Mode, disk: Disk, s: Slot, k: nat, left: Budget, depth: nat,
                      c: Slot, r: Walk, v: Walk)
    requires WellFormed(w) && s in w.rank && mode != Sanity && k < Live(w, s) && Inv(w, mode, disk)
    requires c in w.rank && c == Child(w, Orig(w, s)[k]) && w.rank[c] < w.rank[s]
    requires DirOutcome(w, mode, disk, c, left, depth, r) && r.status == Done
    requires VisitOutcome(w, mode, r.disk, s, k + 1, r.left, depth, v)
    ensures VisitOutcome(w, mode, disk, s, k, left, depth, v)
  {
    assert Inv(w, mode, r.disk);
    BelowTransitive(w, mode, disk, r.disk, v.disk, w.rank[c] + 1, w.rank[s], w.rank[s]);
    if v.status == Done {
      assert DirDone(w, mode, v.disk, c);
      OneMoreChild(w, mode, v.disk, s, k);
    }
  }

  lemma OneMoreChild(w: World, mode: Mode, disk: Disk, s: Slot, k: nat)
    requires WellFormed(w) && s in w.rank && k < Live(w, s) && Inv(w, mode, disk)
    requires IsChild(w, Orig(w, s)[k]) ==> Child(w, Orig(w, s)[k]) in w.rank && DirDone(w, mode, disk, Child(w, Orig(w, s)[k]))
    requires ChildrenDone(w, mode, disk, s, k + 1)
    ensures ChildrenDone(w, mode, disk, s, k)
  {
    assert EntryOk(w, s, Orig(w, s)[k]);
  }

  lemma ChildStopped(w: World, mode: Mode, disk: Disk, s: Slot, k: nat, left: Budget, depth: nat, c: Slot, r: Walk)
    requires WellFormed(w) && s in w.rank && Inv(w, mode, disk) && c in w.rank && w.rank[c] < w.rank[s]
    requires DirOutcome(w, mode, disk, c, left, depth, r) && r.status != Done
    ensures VisitOutcome(w, mode, disk, s, k, left, depth, r)
  {
  }

  lemma SkipThenRest(w: World, mode: Mode, disk: Disk, s: Slot, k: nat, left: Budget, depth: nat, v: Walk)
    requires WellFormed(w) && s in w.rank && mode != Sanity && k < Live(w, s) && Inv(w, mode, disk)
    requires EntryOk(w, s, Orig(w, s)[k])
    requires IsChild(w, Orig(w, s)[k]) ==> DirDone(w, mode, disk, Child(w, Orig(w, s)[k]))
    requires VisitOutcome(w, mode, disk, s, k + 1, left, depth, v)
    ensures VisitOutcome(w, mode, disk, s, k, left, depth, v)
  {
    if IsChild(w, Orig(w, s)[k]) {
      assert DirDone(w, mode, v.disk, Child(w, Orig(w, s)[k]));
    }
  }

  /** A walk that stopped early still leaves the directory in a state the invariant allows. */
  lemma VisitStopped(w: World, mode: Mode, disk: Disk, s: Slot, left: Budget, depth: nat, v: Walk)
    requires WellFormed(w) && s in w.rank && Inv(w, mode, disk)
    requires depth > 0 && VisitOutcome(w, mode, disk, s, 0, left, depth - 1, v) && v.status != Done
    ensures DirOutcome(w, mode, disk, s, left, depth, v)
  {
  }

  lemma KilledAtOnce(w: World, mode: Mode, disk: Disk, s: Slot, left: Budget) returns (r: Walk)
    requires WellFormed(w) && s in w.rank && Inv(w, mode, disk)
    ensures r == RecurseDir(w.ss, disk, w.ss.table[s], mode, left, 0)
    ensures DirOutcome(w, mode, disk, s, left, 0, r)
  {
    r := Walk(disk, left, Killed);
  }

  lemma {:induction false} RecurseDirKeeps(w: World, mode: Mode, disk: Disk, s: Slot, left: Budget, depth: nat)
    returns (r: Walk)
    requires WellFormed(w) && s in w.rank && mode != Sanity
    requires Inv(w, mode, disk) && TypesOk(w)
    ensures r == RecurseDir(w.ss, disk, w.ss.table[s], mode, left, depth)
    ensures DirOutcome(w, mode, disk, s, left, depth, r)
    decreases depth, 0
  {
    hide WellFormed, Inv, TypesOk, VisitOutcome, DirOutcome, Visit, RecurseDir;
    if depth == 0 {
      r := KilledAtOnce(w, mode, disk, s, left);
    } else {
      var v := VisitKeeps(w, mode, disk, s, 0, left, depth - 1);
      r := RecurseDirFromVisit(w, mode, disk, s, left, depth, v);
    }
  }

  lemma RecurseDirFromVisit(w: World, mode: Mode, disk: Disk, s: Slot, left: Budget, depth: nat, v: Walk)
    returns (r: Walk)
    requires WellFormed(w) && s in w.rank && mode != Sanity && Inv(w, mode, disk) && depth > 0
    requires v == Visit(w.ss, disk, Rest(w, disk, s, 0), mode, left, depth - 1)
    requires VisitOutcome(w, mode, disk, s, 0, left, depth - 1, v)
    ensures r == RecurseDir(w.ss, disk, w.ss.table[s], mode, left, depth)
    ensures DirOutcome(w, mode, disk, s, left, depth, r)
  {
    r := RecurseDirUnfolds(w, mode, disk, s, left, depth, v);
    if v.status == Done {
      VisitThenWrite(w, mode, disk, s, left, depth, v);
    } else {
      VisitStopped(w, mode, disk, s, left, depth, v);
    }
  }

  /** recurse_dir on a known directory: walk its live entries, then write it back. */
  lemma RecurseDirUnfolds(w: World, mode: Mode, disk: Disk, s: Slot, left: Budget, depth: nat, v: Walk)
    returns (r: Walk)
    requires WellFormed(w) && s in w.rank && mode != Sanity && Inv(w, mode, disk) && depth > 0
    requires v == Visit(w.ss, disk, Rest(w, disk, s, 0), mode, left, depth - 1)
    ensures r == RecurseDir(w.ss, disk, w.ss.table[s], mode, left, depth)
    ensures v.status != Done ==> r == v
    ensures |Now(w, v.disk, s)| == |Now(w, disk, s)|
    ensures v.status == Done ==>
              r == WriteAll(v.disk, w.ss.table[s].blocks, ProcessAll(w.ss, Now(w, disk, s), mode), v.left)
  {
    var es := Now(w, disk, s);
    assert InSync(w, mode, disk, s);
    LiveUnchanged(w, mode, disk, s);
    assert Rest(w, disk, s, 0) == es[..LiveCount(es)];
    r := RecurseDir(w.ss, disk, w.ss.table[s], mode, left, depth);
  }

  lemma {:induction false} VisitKeeps(w: World, mode: Mode, disk: Disk, s: Slot, k: nat, left: Budget, depth: nat)
    returns (v: Walk)
    requires WellFormed(w) && s in w.rank && mode != Sanity && k <= Live(w, s)
    requires Inv(w, mode, disk) && TypesOk(w)
    ensures v == Visit(w.ss, disk, Rest(w, disk, s, k), mode, left, depth)
    ensures VisitOutcome(w, mode, disk, s, k, left, depth, v)
    decreases depth, 1 + Live(w, s) - k
  {
    if k == Live(w, s) {
      v := VisitedAll(w, mode, disk, s, left, depth);
    } else {
      DescendsWhereNeeded(w, mode, disk, s, k);
      var r;
      v, r := VisitUnfolds(w, mode, disk, s, k, left, depth);
      if !Recurses(w.ss, Now(w, disk, s)[k], mode) {
        var rest := VisitKeeps(w, mode, disk, s, k + 1, left, depth);
        SkipThenRest(w, mode, disk, s, k, left, depth, v);
      } else {
        var c := Child(w, Orig(w, s)[k]);
        var r' := RecurseDirKeeps(w, mode, disk, c, left, depth);
        if r.status == Done {
          var rest := VisitKeeps(w, mode, r.disk, s, k + 1, r.left, depth);
          ChildThenRest(w, mode, disk, s, k, left, depth, c, r, v);
        } else {
          ChildStopped(w, mode, disk, s, k, left, depth, c, r);
        }
      }
    }
  }

  lemma VisitedAll(w: World, mode: Mode, disk: Disk, s: Slot, left: Budget, depth: nat) returns (v: Walk)
    requires WellFormed(w) && s in w.rank && mode != Sanity && Inv(w, mode, disk)
    ensures v == Visit(w.ss, disk, Rest(w, disk, s, Live(w, s)), mode, left, depth)
    ensures VisitOutcome(w, mode, disk, s, Live(w, s), left, depth, v)
  {
    v := Walk(disk, left, Done);
  }

  /** One step of the walk: skip the entry, or do its subdirectory first. */
  lemma VisitUnfolds(w: World, mode: Mode, disk: Disk, s: Slot, k: nat, left: Budget, depth: nat)
    returns (v: Walk, r: Walk)
    requires WellFormed(w) && s in w.rank && mode != Sanity && k < Live(w, s)
    requires SameShape(w.orig, disk)
    requires Recurses(w.ss, Now(w, disk, s)[k], mode) ==>
               IsChild(w, Orig(w, s)[k]) && Unmark(Now(w, disk, s)[k].inode) == Orig(w, s)[k].inode
    ensures v == Visit(w.ss, disk, Rest(w, disk, s, k), mode, left, depth)
    ensures !Recurses(w.ss, Now(w, disk, s)[k], mode) ==>
              v == Visit(w.ss, disk, Rest(w, disk, s, k + 1), mode, left, depth)
    ensures Recurses(w.ss, Now(w, disk, s)[k], mode) ==>
      && r == RecurseDir(w.ss, disk, w.ss.table[Child(w, Orig(w, s)[k])], mode, left, depth)
      && (r.status != Done ==> v == r)
      && (r.status == Done && Now(w, disk, s) == Now(w, r.disk, s) ==>
            v == Visit(w.ss, r.disk, Rest(w, r.disk, s, k + 1), mode, r.left, depth))
  {
    var es := Rest(w, disk, s, k);
    assert es[0] == Now(w, disk, s)[k] && es[1..] == Rest(w, disk, s, k + 1);
    v := Visit(w.ss, disk, es, mode, left, depth);
    r := v;
    if Recurses(w.ss, es[0], mode) {
      r := RecurseDir(w.ss, disk, w.ss.table[Child(w, Orig(w, s)[k])], mode, left, depth);
    }
  }
}
