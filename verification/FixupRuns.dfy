/**
 Whole passes from the root directory: what the sanity pass accepts, and that a pass which has done
 the root has done every directory.
 */
module FixupRuns {
  import opened Arithmetic
  import opened InodeNumbers
  import opened FixupModel
  import opened FixupTree

  // ---- the sanity pass ----

  /** The types of all entries in the subtree of s are right. */
  ghost predicate TypesBelow(w: World, s: Slot)
    requires WellFormed(w) && s in w.rank
    decreases w.rank[s]
  {
    TypesOkAt(w, s) && forall k :: 0 <= k < Live(w, s) && IsChild(w, Orig(w, s)[k]) ==>
      EntryOk(w, s, Orig(w, s)[k]) && TypesBelow(w, Child(w, Orig(w, s)[k]))
  }

  /** The same for the entries from the k-th on. */
  ghost predicate TypesFrom(w: World, s: Slot, k: nat)
    requires WellFormed(w) && s in w.rank && k <= Live(w, s)
  {
    forall j :: k <= j < Live(w, s) ==>
      var e := Orig(w, s)[j];
      && (e.kind == Directory && !IsDots(e.name) ==> IsDirInode(w.ss, e.inode))
      && (IsChild(w, e) ==> EntryOk(w, s, e) && TypesBelow(w, Child(w, e)))
  }

  /** The sanity pass accepts a subtree only if every type in it is right, and then it does accept. */
  lemma {:induction false} SanityVerdict(w: World, s: Slot, left: Budget, depth: nat, r: Walk)
    requires WellFormed(w) && s in w.rank
    requires r == RecurseDir(w.ss, w.orig, w.ss.table[s], Sanity, left, depth)
    ensures r.status == Done ==> TypesBelow(w, s)
    ensures TypesBelow(w, s) ==> r.status != Failed
    ensures TypesBelow(w, s) && depth > w.rank[s] ==> r.status == Done
    decreases depth, 0
  {
    if depth > 0 {
      var es := Orig(w, s);
      assert es[..LiveCount(es)] == es[0..Live(w, s)];
      SanityVisitVerdict(w, s, 0, left, depth - 1, Visit(w.ss, w.orig, es[0..Live(w, s)], Sanity, left, depth - 1));
      assert TypesFrom(w, s, 0) <==> TypesBelow(w, s);
    }
  }

  lemma {:induction false} SanityVisitVerdict(w: World, s: Slot, k: nat, left: Budget, depth: nat, v: Walk)
    requires WellFormed(w) && s in w.rank && k <= Live(w, s)
    requires v == Visit(w.ss, w.orig, Orig(w, s)[k..Live(w, s)], Sanity, left, depth)
    ensures v.status == Done ==> TypesFrom(w, s, k)
    ensures TypesFrom(w, s, k) ==> v.status != Failed
    ensures TypesFrom(w, s, k) && depth >= w.rank[s] ==> v.status == Done
    decreases depth, 1 + Live(w, s) - k
  {
    if k < Live(w, s) {
      var es, e := Orig(w, s)[k..Live(w, s)], Orig(w, s)[k];
      assert es[1..] == Orig(w, s)[k + 1..Live(w, s)] && es[0] == e;
      assert EntryOk(w, s, e);
      assert Unmark(e.inode) == e.inode;
      if !Recurses(w.ss, e, Sanity) {
        SanityVisitVerdict(w, s, k + 1, left, depth, v);
      } else if IsDirInode(w.ss, e.inode) {
        var c := Child(w, e);
        var r := RecurseDir(w.ss, w.orig, w.ss.table[c], Sanity, left, depth);
        SanityVerdict(w, c, left, depth, r);
        SanityReadsOnly(w.ss, w.orig, w.ss.table[c], left, depth);
        if r.status == Done {
          SanityVisitVerdict(w, s, k + 1, r.left, depth, v);
        }
      }
    }
  }

  // ---- from the root to every directory ----

  lemma ParentOf(w: World, s: Slot) returns (p: Slot, k: nat)
    requires WellFormed(w) && Rooted(w) && s in w.rank && s != RootSlot(w.ss.ipg)
    ensures p in w.rank && k < Live(w, p) && EntryOk(w, p, Orig(w, p)[k])
    ensures IsChild(w, Orig(w, p)[k]) && Child(w, Orig(w, p)[k]) == s
    ensures RootSlot(w.ss.ipg) in w.rank && w.rank[s] < w.rank[p] <= w.rank[RootSlot(w.ss.ipg)]
  {
    assert HasParent(w, s);
    p, k :| HasChild(w, p, k, s);
    assert EntryOk(w, p, Orig(w, p)[k]);
  }

  lemma {:induction false} TypesEverywhere(w: World, s: Slot)
    requires WellFormed(w) && Rooted(w) && s in w.rank && TypesBelow(w, RootSlot(w.ss.ipg))
    ensures TypesBelow(w, s)
    decreases w.rank[RootSlot(w.ss.ipg)] - w.rank[s]
  {
    if s != RootSlot(w.ss.ipg) {
      var p, k := ParentOf(w, s);
      TypesEverywhere(w, p);
    }
  }

  /** The sanity pass over the root directory accepts exactly the trees whose types are all right. */
  lemma SanityOnRoot(w: World, left: Budget, depth: nat, r: Walk)
    requires WellFormed(w) && Rooted(w)
    requires r == RecurseDir(w.ss, w.orig, w.ss.table[RootSlot(w.ss.ipg)], Sanity, left, depth)
    ensures r.disk == w.orig
    ensures r.status == Done ==> TypesOk(w)
    ensures TypesOk(w) ==> r.status != Failed
    ensures TypesOk(w) && depth > w.rank[RootSlot(w.ss.ipg)] ==> r.status == Done
  {
    var root := RootSlot(w.ss.ipg);
    SanityReadsOnly(w.ss, w.orig, w.ss.table[root], left, depth);
    SanityVerdict(w, root, left, depth, r);
    if TypesBelow(w, root) {
      forall s | s in w.rank ensures TypesOkAt(w, s) {
        TypesEverywhere(w, s);
      }
    }
    if TypesOk(w) {
      TypesBelowFromAll(w, root);
    }
  }

  lemma {:induction false} TypesBelowFromAll(w: World, s: Slot)
    requires WellFormed(w) && TypesOk(w) && s in w.rank
    ensures TypesBelow(w, s)
    decreases w.rank[s]
  {
    forall k | 0 <= k < Live(w, s) && IsChild(w, Orig(w, s)[k])
      ensures EntryOk(w, s, Orig(w, s)[k]) && TypesBelow(w, Child(w, Orig(w, s)[k]))
    {
      assert EntryOk(w, s, Orig(w, s)[k]);
      TypesBelowFromAll(w, Child(w, Orig(w, s)[k]));
    }
  }

  ghost predicate AllDone(w: World, mode: Mode, disk: Disk)
    requires WellFormed(w)
  {
    Inv(w, mode, disk) && forall s :: s in w.rank ==> DirDone(w, mode, disk, s)
  }

  lemma {:induction false} DoneEverywhere(w: World, mode: Mode, disk: Disk, s: Slot)
    requires WellFormed(w) && Rooted(w) && Inv(w, mode, disk) && s in w.rank
    requires DirDone(w, mode, disk, RootSlot(w.ss.ipg))
    ensures DirDone(w, mode, disk, s)
    decreases w.rank[RootSlot(w.ss.ipg)] - w.rank[s]
  {
    if s != RootSlot(w.ss.ipg) {
      var p, k := ParentOf(w, s);
      DoneEverywhere(w, mode, disk, p);
      assert Closed(w, mode, disk, p);
    }
  }

  /** A whole pass: whatever happens the invariant holds, and a finished pass converted everything. */
  lemma TreePassKeeps(w: World, mode: Mode, disk: Disk, left: Budget, depth: nat) returns (r: Walk)
    requires WellFormed(w) && Rooted(w) && TypesOk(w) && mode != Sanity && Inv(w, mode, disk)
    ensures r == RecurseDir(w.ss, disk, w.ss.table[RootSlot(w.ss.ipg)], mode, left, depth)
    ensures Inv(w, mode, r.disk) && r.status != Failed
    ensures r.status == Done ==> AllDone(w, mode, r.disk)
    ensures left == Unlimited && depth > w.rank[RootSlot(w.ss.ipg)] ==> r.status == Done && r.left == Unlimited
  {
    var root := RootSlot(w.ss.ipg);
    r := RecurseDirKeeps(w, mode, disk, root, left, depth);
    if r.status == Done {
      forall s | s in w.rank ensures DirDone(w, mode, r.disk, s) {
        DoneEverywhere(w, mode, r.disk, s);
      }
    }
  }

  // ---- from one pass to the next ----

  lemma MarkingStarts(w: World)
    requires WellFormed(w)
    ensures Inv(w, Mark, w.orig)
  {
    forall s | s in w.rank ensures InSync(w, Mark, w.orig, s) && Closed(w, Mark, w.orig, s) {
      forall k | 0 <= k < Live(w, s)
        ensures Now(w, w.orig, s)[k] == Before(Mark, Orig(w, s)[k]) != After(w.ss, Mark, Orig(w, s)[k])
      {
        EntryForms(w, Mark, s, k);
      }
    }
  }

  lemma RenumberingStarts(w: World, disk: Disk)
    requires WellFormed(w) && AllDone(w, Mark, disk)
    ensures Inv(w, Renumber, disk)
  {
    forall s | s in w.rank ensures InSync(w, Renumber, disk, s) && Closed(w, Renumber, disk, s) {
      assert DirDone(w, Mark, disk, s) && InSync(w, Mark, disk, s);
      forall k | 0 <= k < Live(w, s)
        ensures Now(w, disk, s)[k] == Before(Renumber, Orig(w, s)[k]) != After(w.ss, Renumber, Orig(w, s)[k])
      {
        EntryForms(w, Renumber, s, k);
      }
    }
  }
}
