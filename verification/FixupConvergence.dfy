/**
 Crash convergence over whole runs of the inode-renumbering tool: however many runs are killed, and
 wherever, the next complete run leaves every inode number converted exactly once, every free count
 raised exactly once, and every path leading to the inode it led to before.
 */
module FixupConvergence {
  import opened Arithmetic
  import opened InodeNumbers
  import opened FixupModel
  import opened FixupTree
  import opened FixupRuns
  import opened FixupSupers

  function WorldOf(geo: Geometry, img: Image, rank: map<Slot, nat>): World {
    World(SessionOf(geo, img), img.disk, rank)
  }

  /** An image the tool may be started on. */
  ghost predicate ImageOk(geo: Geometry, og: Image, rank: map<Slot, nat>) {
    && og.phase == Unset && !og.super.unmountable
    && geo.blockSize >= 1024 && CountersFit(geo, og)
    && WellFormed(WorldOf(geo, og, rank)) && Rooted(WorldOf(geo, og, rank)) && OthersApart(WorldOf(geo, og, rank))
  }

  /** Directories that no live entry leads to share no block with those that one does, nor does any block map. */
  ghost predicate OthersApart(w: World)
    requires WellFormed(w)
  {
    && (forall s, b :: s in w.ss.table && w.ss.table[s].isDir && s !in w.rank && b in w.ss.table[s].blocks ==> !Owned(w, b))
    && (forall s, b :: s in w.ss.table && w.ss.table[s].isDir && b in w.ss.table[s].maps ==> !Owned(w, b))
  }

  /** What the tool checks before it changes anything. */
  ghost predicate Sane(geo: Geometry, og: Image, rank: map<Slot, nat>)
    requires ImageOk(geo, og, rank)
  {
    TypesOk(WorldOf(geo, og, rank)) && CountsConsistent(geo, og.super, NewIpg(geo, og.super.ipg))
  }

  // ---- the states an image passes through ----

  /** In the marking or renumbering phase only directory blocks differ from the original. */
  ghost predicate AtTreePhase(geo: Geometry, og: Image, rank: map<Slot, nat>, img: Image, phase: Phase, mode: Mode)
    requires ImageOk(geo, og, rank)
  {
    && img == og.(phase := phase, super := og.super.(unmountable := true), disk := img.disk)
    && Inv(WorldOf(geo, og, rank), mode, img.disk)
  }

  /** The directories were all converted, as in d, when the superblock pass began. */
  ghost predicate SuperPhaseOver(geo: Geometry, og: Image, rank: map<Slot, nat>, img: Image, d: Disk)
    requires ImageOk(geo, og, rank)
  {
    && img.phase == UpdatingSuper && img.super.unmountable
    && AllDone(WorldOf(geo, og, rank), Renumber, d)
    && (SupersOld(geo, og, d, img) || SupersNew(geo, og, d, img, 0))
  }

  ghost predicate AtSuperPhase(geo: Geometry, og: Image, rank: map<Slot, nat>, img: Image)
    requires ImageOk(geo, og, rank)
  {
    exists d :: SuperPhaseOver(geo, og, rank, img, d)
  }

  ghost predicate FinalOver(geo: Geometry, og: Image, rank: map<Slot, nat>, img: Image, d: Disk)
    requires ImageOk(geo, og, rank)
  {
    && img.phase == Unset && !img.super.unmountable
    && AllDone(WorldOf(geo, og, rank), Renumber, d)
    && SupersNew(geo, og, d, img, geo.groups)
  }

  /**
   What a complete run leaves: everything converted exactly once, and mountable again, but for blocks
   that a superblock copy has hit.
   */
  ghost predicate IsFinal(geo: Geometry, og: Image, rank: map<Slot, nat>, img: Image)
    requires ImageOk(geo, og, rank)
  {
    exists d :: FinalOver(geo, og, rank, img, d)
  }

  ghost predicate InProgress(geo: Geometry, og: Image, rank: map<Slot, nat>, img: Image)
    requires ImageOk(geo, og, rank)
  {
    || img == og
    || AtTreePhase(geo, og, rank, img, Marking, Mark)
    || AtTreePhase(geo, og, rank, img, Renumbering, Renumber)
    || AtSuperPhase(geo, og, rank, img)
  }

  // ---- one run ----

  /** What a step of a run may leave behind, and when it must complete. */
  ghost predicate StepOk(o: Outcome, complete: bool) {
    o.status != Failed && (complete ==> o.status == Done && o.left == Unlimited)
  }

  lemma SanityPhaseKeeps(geo: Geometry, og: Image, rank: map<Slot, nat>, left: Budget, depth: nat, o: Outcome)
    requires ImageOk(geo, og, rank)
    requires o == SanityPhase(geo, SessionOf(geo, og), og.table[RootSlot(og.super.ipg)], og, left, depth)
    ensures o.status != Done ==> o.img == og
    ensures o.status == Done ==> AtTreePhase(geo, og, rank, o.img, Marking, Mark) && Sane(geo, og, rank)
    ensures Sane(geo, og, rank) ==>
              StepOk(o, left == Unlimited && depth > rank[RootSlot(og.super.ipg)])
  {
    var w := WorldOf(geo, og, rank);
    var r := RecurseDir(w.ss, og.disk, og.table[RootSlot(og.super.ipg)], Sanity, left, depth);
    SanityOnRoot(w, left, depth, r);
    MarkingStarts(w);
  }

  lemma MarkPhaseKeeps(geo: Geometry, og: Image, rank: map<Slot, nat>, img: Image, left: Budget, depth: nat, o: Outcome)
    requires ImageOk(geo, og, rank) && Sane(geo, og, rank)
    requires AtTreePhase(geo, og, rank, img, Marking, Mark)
    requires o == TreePhase(SessionOf(geo, og), og.table[RootSlot(og.super.ipg)], img, Mark, Renumbering, left, depth)
    ensures o.status != Done ==> AtTreePhase(geo, og, rank, o.img, Marking, Mark)
    ensures o.status == Done ==> AtTreePhase(geo, og, rank, o.img, Renumbering, Renumber)
    ensures StepOk(o, left == Unlimited && depth > rank[RootSlot(og.super.ipg)])
  {
    var w := WorldOf(geo, og, rank);
    var r := TreePassKeeps(w, Mark, img.disk, left, depth);
    if r.status == Done {
      RenumberingStarts(w, r.disk);
    }
  }

  lemma RenumberPhaseKeeps(geo: Geometry, og: Image, rank: map<Slot, nat>, img: Image, left: Budget, depth: nat, o: Outcome)
    requires ImageOk(geo, og, rank) && Sane(geo, og, rank)
    requires AtTreePhase(geo, og, rank, img, Renumbering, Renumber)
    requires o == TreePhase(SessionOf(geo, og), og.table[RootSlot(og.super.ipg)], img, Renumber, UpdatingSuper, left, depth)
    ensures o.status != Done ==> AtTreePhase(geo, og, rank, o.img, Renumbering, Renumber)
    ensures o.status == Done ==> AtSuperPhase(geo, og, rank, o.img)
    ensures StepOk(o, left == Unlimited && depth > rank[RootSlot(og.super.ipg)])
  {
    var w := WorldOf(geo, og, rank);
    var r := TreePassKeeps(w, Renumber, img.disk, left, depth);
    if o.status == Done {
      assert BitmapsPartly(geo, og, o.img.bitmaps, 0);
      assert SuperPhaseOver(geo, og, rank, o.img, r.disk);
    }
  }

  lemma SuperPhaseKeeps(geo: Geometry, og: Image, rank: map<Slot, nat>, img: Image, left: Budget, o: Outcome)
    requires ImageOk(geo, og, rank) && Sane(geo, og, rank)
    requires AtSuperPhase(geo, og, rank, img)
    requires o == SuperPhase(geo, img, NewIpg(geo, og.super.ipg), left)
    ensures o.status != Done ==> AtSuperPhase(geo, og, rank, o.img)
    ensures o.status == Done ==> IsFinal(geo, og, rank, o.img)
    ensures StepOk(o, left == Unlimited)
  {
    var d :| SuperPhaseOver(geo, og, rank, img, d);
    var u := UpdateSupers(geo, img, NewIpg(geo, og.super.ipg), left);
    UpdateSupersKeeps(geo, og, d, img, left, u);
    if o.status == Done {
      assert FinalOver(geo, og, rank, o.img, d);
    } else {
      assert SuperPhaseOver(geo, og, rank, o.img, d);
    }
  }

  /** What a run on a sane image comes to. */
  ghost predicate RunOk(geo: Geometry, og: Image, rank: map<Slot, nat>, o: Outcome, complete: bool)
    requires ImageOk(geo, og, rank)
  {
    && (o.status != Done ==> InProgress(geo, og, rank, o.img))
    && (o.status == Done ==> IsFinal(geo, og, rank, o.img))
    && StepOk(o, complete)
  }

  lemma FromSuperPhase(geo: Geometry, og: Image, rank: map<Slot, nat>, ss: Session, o: Outcome)
    requires ImageOk(geo, og, rank) && Sane(geo, og, rank) && ss.newIpg == NewIpg(geo, og.super.ipg)
    requires AtSuperPhase(geo, og, rank, o.img) && o.status == Done
    ensures RunOk(geo, og, rank, ThenUpdateSupers(geo, ss, o), o.left == Unlimited)
  {
    SuperPhaseKeeps(geo, og, rank, o.img, o.left, ThenUpdateSupers(geo, ss, o));
  }

  lemma FromRenumberPhase(geo: Geometry, og: Image, rank: map<Slot, nat>, ss: Session, o: Outcome, depth: nat)
    requires ImageOk(geo, og, rank) && Sane(geo, og, rank) && ss == SessionOf(geo, og)
    requires RootSlot(og.super.ipg) in og.table
    requires AtTreePhase(geo, og, rank, o.img, Renumbering, Renumber) && o.status == Done
    ensures RunOk(geo, og, rank, ThenUpdateSupers(geo, ss, ThenRenumber(ss, og.table[RootSlot(og.super.ipg)], o, depth)),
                  o.left == Unlimited && depth > rank[RootSlot(og.super.ipg)])
  {
    var o3 := ThenRenumber(ss, og.table[RootSlot(og.super.ipg)], o, depth);
    RenumberPhaseKeeps(geo, og, rank, o.img, o.left, depth, o3);
    if o3.status == Done {
      FromSuperPhase(geo, og, rank, ss, o3);
    }
  }

  lemma FromMarkPhase(geo: Geometry, og: Image, rank: map<Slot, nat>, ss: Session, o: Outcome, depth: nat)
    requires ImageOk(geo, og, rank) && Sane(geo, og, rank) && ss == SessionOf(geo, og)
    requires RootSlot(og.super.ipg) in og.table
    requires AtTreePhase(geo, og, rank, o.img, Marking, Mark) && o.status == Done
    ensures var root := og.table[RootSlot(og.super.ipg)];
      RunOk(geo, og, rank, ThenUpdateSupers(geo, ss, ThenRenumber(ss, root, ThenMark(ss, root, o, depth), depth)),
            o.left == Unlimited && depth > rank[RootSlot(og.super.ipg)])
  {
    var o2 := ThenMark(ss, og.table[RootSlot(og.super.ipg)], o, depth);
    MarkPhaseKeeps(geo, og, rank, o.img, o.left, depth, o2);
    if o2.status == Done {
      FromRenumberPhase(geo, og, rank, ss, o2, depth);
    }
  }

  /** The root's number, 2, names the same slot before and after. */
  lemma RootStays(geo: Geometry, ipg: Positive)
    requires ROOT_INO <= ipg
    ensures RootSlot(NewIpg(geo, ipg)) == RootSlot(ipg) == Slot(0, 1)
  {
    NewIpgBounds(geo, ipg);
    PredecessorOf(ROOT_INO);
  }

  lemma RootIsDir(geo: Geometry, og: Image, rank: map<Slot, nat>)
    requires ImageOk(geo, og, rank)
    ensures RootSlot(og.super.ipg) in rank
    ensures RootSlot(og.super.ipg) in og.table && og.table[RootSlot(og.super.ipg)].isDir
  {
    assert DirOk(WorldOf(geo, og, rank), RootSlot(og.super.ipg));
  }

  /** The stack a run needs to get to the bottom of the tree. */
  function DepthNeeded(rank: map<Slot, nat>): nat {
    if Slot(0, 1) in rank then rank[Slot(0, 1)] + 1 else 0
  }

  lemma FirstRunKeeps(geo: Geometry, og: Image, rank: map<Slot, nat>, left: Budget, depth: nat, o: Outcome)
    requires ImageOk(geo, og, rank) && Sane(geo, og, rank)
    requires o == Run(geo, og, left, depth)
    ensures RunOk(geo, og, rank, o, left == Unlimited && depth >= DepthNeeded(rank))
  {
    hide WellFormed, SanityPhase, ThenMark, ThenRenumber, ThenUpdateSupers;
    RootStays(geo, og.super.ipg);
    RootIsDir(geo, og, rank);
    var root, ss := og.table[RootSlot(og.super.ipg)], SessionOf(geo, og);
    var o1 := SanityPhase(geo, ss, root, og, left, depth);
    SanityPhaseKeeps(geo, og, rank, left, depth, o1);
    if o1.status == Done {
      FromMarkPhase(geo, og, rank, ss, o1, depth);
    } else {
      SkipPhases(geo, ss, root, o1, depth);
    }
  }

  lemma SkipPhases(geo: Geometry, ss: Session, root: Inode, o: Outcome, depth: nat)
    ensures o.status != Done || o.img.phase != Marking ==> ThenMark(ss, root, o, depth) == o
    ensures o.status != Done || o.img.phase != Renumbering ==> ThenRenumber(ss, root, o, depth) == o
    ensures o.status != Done || o.img.phase != UpdatingSuper ==> ThenUpdateSupers(geo, ss, o) == o
  {
  }

  /** A run started on any image an earlier run may have left. */
  lemma RunKeeps(geo: Geometry, og: Image, rank: map<Slot, nat>, img: Image, left: Budget, depth: nat, o: Outcome)
    requires ImageOk(geo, og, rank) && Sane(geo, og, rank) && InProgress(geo, og, rank, img)
    requires o == Run(geo, img, left, depth)
    ensures RunOk(geo, og, rank, o, left == Unlimited && depth >= DepthNeeded(rank))
  {
    if img == og {
      FirstRunKeeps(geo, og, rank, left, depth, o);
    } else {
      hide ImageOk, Sane, InProgress, AtTreePhase, AtSuperPhase, RunOk, ThenMark, ThenRenumber, ThenUpdateSupers;
      hide Run, SessionOf, RootSlot;
      Resumes(geo, og, rank, img, left, depth);
      var root, ss := og.table[RootSlot(og.super.ipg)], SessionOf(geo, img);
      var start := Outcome(img, left, Done);
      SkipPhases(geo, ss, root, start, depth);
      if img.phase == Marking {
        FromMarkPhase(geo, og, rank, ss, start, depth);
      } else if img.phase == Renumbering {
        FromRenumberPhase(geo, og, rank, ss, start, depth);
      } else {
        FromSuperPhase(geo, og, rank, ss, start);
      }
      EnoughDepth(geo, og, rank);
    }
  }

  lemma EnoughDepth(geo: Geometry, og: Image, rank: map<Slot, nat>)
    requires ImageOk(geo, og, rank)
    ensures RootSlot(og.super.ipg) in rank && DepthNeeded(rank) == rank[RootSlot(og.super.ipg)] + 1
  {
    RootStays(geo, og.super.ipg);
    RootIsDir(geo, og, rank);
  }

  lemma RootNumberFits(geo: Geometry, og: Image, rank: map<Slot, nat>)
    requires ImageOk(geo, og, rank)
    ensures ROOT_INO <= og.super.ipg
  {
  }

  /** A run that is not the first one. */
  lemma RunJoinsIn(geo: Geometry, img: Image, left: Budget, depth: nat, root: Inode)
    requires img.phase != Unset && RootSlot(img.super.ipg) in img.table
    requires root == img.table[RootSlot(img.super.ipg)] && root.isDir
    ensures var ss := SessionOf(geo, img);
      Run(geo, img, left, depth)
      == ThenUpdateSupers(geo, ss, ThenRenumber(ss, root, ThenMark(ss, root, Outcome(img, left, Done), depth), depth))
  {
    hide ThenMark, ThenRenumber, ThenUpdateSupers, SessionOf;
  }

  /** What is known of the image it finds. */
  lemma KnownPhase(geo: Geometry, og: Image, rank: map<Slot, nat>, img: Image)
    requires ImageOk(geo, og, rank) && InProgress(geo, og, rank, img) && img != og
    ensures img.table == og.table && (img.super.ipg == og.super.ipg || img.super.ipg == NewIpg(geo, og.super.ipg))
    ensures match img.phase
            case Marking => AtTreePhase(geo, og, rank, img, Marking, Mark) && img.super.ipg == og.super.ipg
            case Renumbering => AtTreePhase(geo, og, rank, img, Renumbering, Renumber) && img.super.ipg == og.super.ipg
            case _ => img.phase == UpdatingSuper && AtSuperPhase(geo, og, rank, img)
  {
    hide ImageOk, Inv, CopiesPartly, BitmapsPartly, AllDone;
  }

  /** Where a run joins in, and with what it knows. */
  lemma Resumes(geo: Geometry, og: Image, rank: map<Slot, nat>, img: Image, left: Budget, depth: nat)
    requires ImageOk(geo, og, rank) && InProgress(geo, og, rank, img) && img != og
    ensures RootSlot(og.super.ipg) in og.table && SessionOf(geo, img).newIpg == NewIpg(geo, og.super.ipg)
    ensures var root, ss := og.table[RootSlot(og.super.ipg)], SessionOf(geo, img);
      Run(geo, img, left, depth)
      == ThenUpdateSupers(geo, ss, ThenRenumber(ss, root, ThenMark(ss, root, Outcome(img, left, Done), depth), depth))
    ensures match img.phase
            case Marking => AtTreePhase(geo, og, rank, img, Marking, Mark) && SessionOf(geo, img) == SessionOf(geo, og)
            case Renumbering => AtTreePhase(geo, og, rank, img, Renumbering, Renumber) && SessionOf(geo, img) == SessionOf(geo, og)
            case _ => img.phase == UpdatingSuper && AtSuperPhase(geo, og, rank, img)
  {
    hide InProgress, AtTreePhase, AtSuperPhase, Run, ThenMark, ThenRenumber, ThenUpdateSupers, NewIpg, RootSlot;
    RootIsDir(geo, og, rank);
    RootNumberFits(geo, og, rank);
    hide ImageOk;
    KnownPhase(geo, og, rank, img);
    RootStays(geo, og.super.ipg);
    NewIpgBounds(geo, og.super.ipg);
    RunJoinsIn(geo, img, left, depth, og.table[RootSlot(og.super.ipg)]);
  }

  /** An image that fails the checks is never written to. */
  lemma InsaneImageUntouched(geo: Geometry, og: Image, rank: map<Slot, nat>, left: Budget, depth: nat)
    requires ImageOk(geo, og, rank) && !Sane(geo, og, rank)
    ensures Run(geo, og, left, depth).img == og && Run(geo, og, left, depth).status != Done
  {
    RootStays(geo, og.super.ipg);
    RootIsDir(geo, og, rank);
    NewIpgBounds(geo, og.super.ipg);
    var o := SanityPhase(geo, SessionOf(geo, og), og.table[RootSlot(og.super.ipg)], og, left, depth);
    SanityPhaseKeeps(geo, og, rank, left, depth, o);
  }

  // ---- what a finished image holds ----

  /** No superblock copy hits a block of the directory, or one that maps it. */
  ghost predicate Undamaged(geo: Geometry, dir: Inode) {
    (forall b <- dir.blocks :: !IsHit(geo, b)) && (forall b <- dir.maps :: !IsHit(geo, b))
  }

  /** No superblock copy hits a directory of the tree. */
  ghost predicate Intact(geo: Geometry, og: Image, rank: map<Slot, nat>) {
    forall s :: s in rank && s in og.table ==> Undamaged(geo, og.table[s])
  }

  /** In converted blocks every live entry names the slot it named before. */
  lemma FinalEntries(geo: Geometry, og: Image, rank: map<Slot, nat>, f: Image, d: Disk, s: Slot, k: nat)
    requires ImageOk(geo, og, rank) && FinalOver(geo, og, rank, f, d)
    requires s in rank && k < Live(WorldOf(geo, og, rank), s)
    ensures var w, e := WorldOf(geo, og, rank), Orig(WorldOf(geo, og, rank), s)[k];
      var e' := Now(w, d, s)[k];
      && e' == e.WithInode(ComputeNewInum(e.inode, w.ss.ipg, w.ss.newIpg))
      && 1 <= e'.inode < HIGH_BIT
      && SlotOf(e'.inode, f.super.ipg) == SlotOf(e.inode, og.super.ipg)
  {
    var w := WorldOf(geo, og, rank);
    assert DirDone(w, Renumber, d, s);
    assert EntryOk(w, s, Orig(w, s)[k]);
    RenumberingKeepsSlot(Orig(w, s)[k].inode, w.ss.ipg, w.ss.newIpg);
  }

  /** A directory that is not hit is in the finished image what it was when the superblock pass began. */
  lemma UndamagedReads(geo: Geometry, og: Image, d: Disk, f: Image, dir: Inode)
    requires SupersNew(geo, og, d, f, geo.groups)
    requires OnDisk(dir, d) && Undamaged(geo, dir)
    ensures OnDisk(dir, f.disk) && ReadAll(f.disk, dir.blocks) == ReadAll(d, dir.blocks)
  {
    ReadAllFrame(f.disk, d, dir.blocks);
  }

  lemma DamagedIsGone(geo: Geometry, og: Image, d: Disk, f: Image, dir: Inode)
    requires SupersNew(geo, og, d, f, geo.groups) && !Undamaged(geo, dir)
    ensures !OnDisk(dir, f.disk)
  {
    if b :| b in dir.blocks && IsHit(geo, b) {
      assert b !in f.disk;
    } else {
      var b :| b in dir.maps && IsHit(geo, b);
      assert b !in f.disk;
    }
  }

  // ---- a finished image is again one the tool may be started on ----

  lemma FinalDir(geo: Geometry, og: Image, rank: map<Slot, nat>, f: Image, d: Disk, s: Slot)
    requires ImageOk(geo, og, rank) && FinalOver(geo, og, rank, f, d) && s in rank && Intact(geo, og, rank)
    ensures DirOk(WorldOf(geo, og, rank), s) && DirOk(WorldOf(geo, f, rank), s)
    ensures Orig(WorldOf(geo, f, rank), s) == Now(WorldOf(geo, og, rank), d, s)
    ensures Live(WorldOf(geo, f, rank), s) == Live(WorldOf(geo, og, rank), s)
  {
    var w, w' := WorldOf(geo, og, rank), WorldOf(geo, f, rank);
    assert DirOk(w, s);
    assert InSync(w, Renumber, d, s);
    UndamagedReads(geo, og, d, f, og.table[s]);
    LiveUnchanged(w, Renumber, d, s);
  }

  lemma FinalEntryOk(geo: Geometry, og: Image, rank: map<Slot, nat>, f: Image, d: Disk, s: Slot, k: nat)
    requires ImageOk(geo, og, rank) && FinalOver(geo, og, rank, f, d) && s in rank && Intact(geo, og, rank)
    requires DirOk(WorldOf(geo, f, rank), s) && k < Live(WorldOf(geo, f, rank), s)
    ensures EntryOk(WorldOf(geo, f, rank), s, Orig(WorldOf(geo, f, rank), s)[k])
  {
    var w, w' := WorldOf(geo, og, rank), WorldOf(geo, f, rank);
    NewIpgBounds(geo, og.super.ipg);
    FinalDir(geo, og, rank, f, d, s);
    FinalEntries(geo, og, rank, f, d, s, k);
    assert EntryOk(w, s, Orig(w, s)[k]);
    RenumberingAgainIsIdentity(Orig(w', s)[k].inode, w'.ss.ipg);
  }

  lemma FinalIsWellFormed(geo: Geometry, og: Image, rank: map<Slot, nat>, f: Image, d: Disk)
    requires ImageOk(geo, og, rank) && FinalOver(geo, og, rank, f, d) && Intact(geo, og, rank)
    ensures WellFormed(WorldOf(geo, f, rank))
  {
    var w' := WorldOf(geo, f, rank);
    forall s | s in rank ensures DirOk(w', s) {
      FinalDir(geo, og, rank, f, d, s);
    }
    forall s, k | s in rank && 0 <= k < Live(w', s) ensures EntryOk(w', s, Orig(w', s)[k]) {
      FinalEntryOk(geo, og, rank, f, d, s, k);
    }
  }

  lemma FinalIsRooted(geo: Geometry, og: Image, rank: map<Slot, nat>, f: Image, d: Disk)
    requires ImageOk(geo, og, rank) && FinalOver(geo, og, rank, f, d) && Intact(geo, og, rank)
    requires WellFormed(WorldOf(geo, f, rank))
    ensures Rooted(WorldOf(geo, f, rank))
  {
    var w, w' := WorldOf(geo, og, rank), WorldOf(geo, f, rank);
    NewIpgBounds(geo, og.super.ipg);
    RootStays(geo, og.super.ipg);
    forall s | s in rank && s != RootSlot(w'.ss.ipg) ensures HasParent(w', s) {
      var p, k := ParentOf(w, s);
      FinalDir(geo, og, rank, f, d, p);
      FinalEntries(geo, og, rank, f, d, p, k);
      assert HasChild(w', p, k, s);
    }
  }

  lemma FinalTypesOk(geo: Geometry, og: Image, rank: map<Slot, nat>, f: Image, d: Disk)
    requires ImageOk(geo, og, rank) && FinalOver(geo, og, rank, f, d) && Intact(geo, og, rank) && TypesOk(WorldOf(geo, og, rank))
    requires WellFormed(WorldOf(geo, f, rank))
    ensures TypesOk(WorldOf(geo, f, rank))
  {
    var w, w' := WorldOf(geo, og, rank), WorldOf(geo, f, rank);
    forall s | s in rank ensures TypesOkAt(w', s) {
      FinalDir(geo, og, rank, f, d, s);
      assert TypesOkAt(w, s);
      forall k | 0 <= k < Live(w', s) && Orig(w', s)[k].kind == Directory && !IsDots(Orig(w', s)[k].name)
        ensures IsDirInode(w'.ss, Orig(w', s)[k].inode)
      {
        FinalEntries(geo, og, rank, f, d, s, k);
      }
    }
  }

  lemma FinalIsOk(geo: Geometry, og: Image, rank: map<Slot, nat>, f: Image)
    requires ImageOk(geo, og, rank) && Sane(geo, og, rank) && IsFinal(geo, og, rank, f) && Intact(geo, og, rank)
    ensures ImageOk(geo, f, rank) && Sane(geo, f, rank) && Intact(geo, f, rank)
  {
    hide WellFormed, Rooted, TypesOk, AllDone, CopiesPartly, OthersApart;
    var d :| FinalOver(geo, og, rank, f, d);
    FinalIsWellFormed(geo, og, rank, f, d);
    FinalIsRooted(geo, og, rank, f, d);
    FinalTypesOk(geo, og, rank, f, d);
    NewIpgBounds(geo, og.super.ipg);
    RaisingAgainAddsNothing(geo, og, f.super);
    SameOthers(WorldOf(geo, og, rank), WorldOf(geo, f, rank));
  }

  lemma SameOthers(w: World, w': World)
    requires WellFormed(w) && WellFormed(w') && w.ss.table == w'.ss.table && w.rank == w'.rank
    requires OthersApart(w)
    ensures OthersApart(w')
  {
    forall b ensures Owned(w', b) == Owned(w, b) {
    }
  }

  /** Finishing a finished image once more changes nothing at all. */
  lemma FinalAgain(geo: Geometry, og: Image, rank: map<Slot, nat>, f: Image, x: Image)
    requires ImageOk(geo, og, rank) && IsFinal(geo, og, rank, f) && Intact(geo, og, rank)
    requires ImageOk(geo, f, rank) && IsFinal(geo, f, rank, x)
    ensures x == f
  {
    hide ImageOk, AllDone, SupersNew;
    var d :| FinalOver(geo, og, rank, f, d);
    var d2 :| FinalOver(geo, f, rank, x, d2);
    FinalAgainDisk(geo, og, rank, f, d, x, d2);
    FinalAgainSupers(geo, og, f, d, x, rank);
  }

  lemma NoneLeft(geo: Geometry, d: Disk, disk: Disk, b: nat)
    requires BlocksPartly(geo, d, disk, geo.groups) && b in disk
    ensures !IsHit(geo, b)
  {
  }

  lemma FinalAgainSupers(geo: Geometry, og: Image, f: Image, d: Disk, x: Image, rank: map<Slot, nat>)
    requires ImageOk(geo, og, rank) && ImageOk(geo, f, rank)
    requires FinalOver(geo, og, rank, f, d) && FinalOver(geo, f, rank, x, f.disk)
    ensures x == f
  {
    hide WellFormed, Rooted, OthersApart, AllDone, ReachesHome, LandsOn;
    FinalAgainCounters(geo, og, d, f);
    assert x.backups == f.backups by {
      hide CountsPartly, BlocksPartly;
      forall g | g in x.backups ensures g in f.backups && x.backups[g] == f.backups[g] {
        assert IsBackupGroup(geo, g) && ReachesHome(geo, g) ==> g in f.backups;
      }
    }
    assert x.backupCounts == f.backupCounts by {
      hide BackupsPartly, BlocksPartly;
      forall g | g in x.backupCounts ensures g in f.backupCounts && x.backupCounts[g] == f.backupCounts[g] {
        assert IsBackupGroup(geo, g) ==> g in f.backupCounts;
      }
    }
    assert x.disk == f.disk by {
      hide BackupsPartly, CountsPartly;
      forall b | b in f.disk ensures b in x.disk {
        NoneLeft(geo, d, f.disk, b);
      }
    }
  }

  lemma FinalAgainCounters(geo: Geometry, og: Image, d: Disk, f: Image)
    requires CountersFit(geo, og) && SupersNew(geo, og, d, f, geo.groups) && !f.super.unmountable
    ensures NewSuper(geo, f) == f.super && NewCounts(geo, f) == f.freeCounts && NewBitmaps(geo, f) == f.bitmaps
  {
    hide CopiesPartly;
    NewIpgBounds(geo, og.super.ipg);
    assert NewCounts(geo, f) == f.freeCounts;
    forall i | 0 <= i < |f.bitmaps| ensures NewBitmaps(geo, f)[i] == f.bitmaps[i] {
      NothingInRange(f.bitmaps[i], f.super.ipg);
    }
    assert NewBitmaps(geo, f) == f.bitmaps;
  }

  lemma NothingInRange(bits: set<nat>, n: nat)
    ensures ClearBits(bits, n, n) == bits
  {
  }

  lemma FinalAgainDir(geo: Geometry, og: Image, rank: map<Slot, nat>, f: Image, d: Disk, x: Image, d2: Disk, s: Slot)
    requires ImageOk(geo, og, rank) && FinalOver(geo, og, rank, f, d) && Intact(geo, og, rank)
    requires ImageOk(geo, f, rank) && FinalOver(geo, f, rank, x, d2) && s in rank
    ensures Now(WorldOf(geo, f, rank), d2, s) == Orig(WorldOf(geo, f, rank), s)
  {
    hide CopiesPartly, Rooted, OthersApart;
    var w' := WorldOf(geo, f, rank);
    NewIpgBounds(geo, og.super.ipg);
    FinalDir(geo, og, rank, f, d, s);
    assert InSync(w', Renumber, d2, s) && DirDone(w', Renumber, d2, s);
    forall k | 0 <= k < |Orig(w', s)| ensures Now(w', d2, s)[k] == Orig(w', s)[k] {
      if k < Live(w', s) {
        FinalEntries(geo, og, rank, f, d, s, k);
        RenumberingAgainIsIdentity(Orig(w', s)[k].inode, w'.ss.ipg);
      }
    }
  }

  lemma FinalAgainDisk(geo: Geometry, og: Image, rank: map<Slot, nat>, f: Image, d: Disk, x: Image, d2: Disk)
    requires ImageOk(geo, og, rank) && FinalOver(geo, og, rank, f, d) && Intact(geo, og, rank)
    requires ImageOk(geo, f, rank) && FinalOver(geo, f, rank, x, d2)
    ensures d2 == f.disk
  {
    hide CopiesPartly, Rooted, OthersApart;
    var w' := WorldOf(geo, f, rank);
    forall b | b in f.disk ensures d2[b] == f.disk[b] {
      if Owned(w', b) {
        var s :| s in w'.rank && b in w'.ss.table[s].blocks;
        FinalAgainDir(geo, og, rank, f, d, x, d2, s);
        EqualReadsEqualBlocks(d2, f.disk, w'.ss.table[s].blocks, b);
      }
    }
  }

  lemma {:induction false} EqualReadsEqualBlocks(d: Disk, e: Disk, blocks: seq<nat>, b: nat)
    requires SameShape(d, e) && (forall b <- blocks :: b in d) && b in blocks
    requires ReadAll(d, blocks) == ReadAll(e, blocks)
    ensures d[b] == e[b]
  {
    var n := |d[blocks[0]]|;
    assert d[blocks[0]] == ReadAll(d, blocks)[..n] && e[blocks[0]] == ReadAll(e, blocks)[..n];
    if b != blocks[0] {
      assert ReadAll(d, blocks[1..]) == ReadAll(d, blocks)[n..] == ReadAll(e, blocks)[n..] == ReadAll(e, blocks[1..]);
      EqualReadsEqualBlocks(d, e, blocks[1..], b);
    }
  }

  // ---- any history of runs ----

  /** Reached from og by some history: a first pass under way, or a later one over a finished image. */
  ghost predicate Reached(geo: Geometry, og: Image, rank: map<Slot, nat>, img: Image)
    requires ImageOk(geo, og, rank)
  {
    || InProgress(geo, og, rank, img)
    || exists f :: IsFinal(geo, og, rank, f) && ImageOk(geo, f, rank) && InProgress(geo, f, rank, img)
  }

  lemma RunFromReached(geo: Geometry, og: Image, rank: map<Slot, nat>, img: Image, left: Budget, depth: nat, o: Outcome)
    requires ImageOk(geo, og, rank) && Sane(geo, og, rank) && Intact(geo, og, rank) && Reached(geo, og, rank, img)
    requires o == Run(geo, img, left, depth)
    ensures Reached(geo, og, rank, o.img)
    ensures o.status == Done ==> IsFinal(geo, og, rank, o.img)
    ensures left == Unlimited && depth >= DepthNeeded(rank) ==> o.status == Done
  {
    if InProgress(geo, og, rank, img) {
      RunKeeps(geo, og, rank, img, left, depth, o);
    } else {
      var f :| IsFinal(geo, og, rank, f) && ImageOk(geo, f, rank) && InProgress(geo, f, rank, img);
      FinalIsOk(geo, og, rank, f);
      RunKeeps(geo, f, rank, img, left, depth, o);
      if o.status == Done {
        FinalAgain(geo, og, rank, f, o.img);
      }
    }
    if o.status == Done {
      FinalIsOk(geo, og, rank, o.img);
    }
  }

  lemma {:induction false} RunsFromReached(geo: Geometry, og: Image, rank: map<Slot, nat>, img: Image, kills: seq<(Budget, nat)>)
    requires ImageOk(geo, og, rank) && Sane(geo, og, rank) && Intact(geo, og, rank) && Reached(geo, og, rank, img)
    ensures Reached(geo, og, rank, Runs(geo, img, kills))
    decreases |kills|
  {
    if kills != [] {
      var o := Run(geo, img, kills[0].0, kills[0].1);
      RunFromReached(geo, og, rank, img, kills[0].0, kills[0].1, o);
      RunsFromReached(geo, og, rank, o.img, kills[1..]);
    }
  }

  /**
   Crash convergence.  After any history of runs, each killed anywhere or not at all, one complete
   run finishes the conversion of a sane image whose directories no superblock copy hits.
   */
  lemma CrashConvergence(geo: Geometry, og: Image, rank: map<Slot, nat>, kills: seq<(Budget, nat)>, depth: nat)
    requires ImageOk(geo, og, rank) && Sane(geo, og, rank) && Intact(geo, og, rank) && depth >= DepthNeeded(rank)
    ensures var o := Run(geo, Runs(geo, og, kills), Unlimited, depth);
      o.status == Done && IsFinal(geo, og, rank, o.img)
  {
    RunsFromReached(geo, og, rank, og, kills);
    var img := Runs(geo, og, kills);
    RunFromReached(geo, og, rank, img, Unlimited, depth, Run(geo, img, Unlimited, depth));
  }

  /** None of the runs gets to its end. */
  ghost predicate NoneFinishes(geo: Geometry, img: Image, kills: seq<(Budget, nat)>)
    decreases |kills|
  {
    kills == [] ||
    var o := Run(geo, img, kills[0].0, kills[0].1);
    o.status != Done && NoneFinishes(geo, o.img, kills[1..])
  }

  lemma {:induction false} KilledRunsKeep(geo: Geometry, og: Image, rank: map<Slot, nat>, img: Image, kills: seq<(Budget, nat)>)
    requires ImageOk(geo, og, rank) && Sane(geo, og, rank) && InProgress(geo, og, rank, img) && NoneFinishes(geo, img, kills)
    ensures InProgress(geo, og, rank, Runs(geo, img, kills))
    decreases |kills|
  {
    if kills != [] {
      var o := Run(geo, img, kills[0].0, kills[0].1);
      RunKeeps(geo, og, rank, img, kills[0].0, kills[0].1, o);
      KilledRunsKeep(geo, og, rank, o.img, kills[1..]);
    }
  }

  /** The first run that is not cut short finishes any sane image, hit or not. */
  lemma FirstFinish(geo: Geometry, og: Image, rank: map<Slot, nat>, kills: seq<(Budget, nat)>, depth: nat)
    requires ImageOk(geo, og, rank) && Sane(geo, og, rank) && NoneFinishes(geo, og, kills) && depth >= DepthNeeded(rank)
    ensures var o := Run(geo, Runs(geo, og, kills), Unlimited, depth);
      o.status == Done && IsFinal(geo, og, rank, o.img)
  {
    KilledRunsKeep(geo, og, rank, og, kills);
    var img := Runs(geo, og, kills);
    RunKeeps(geo, og, rank, img, Unlimited, depth, Run(geo, img, Unlimited, depth));
  }

  // ---- converted exactly once ----

  /** The entries a directory ought to have in the end. */
  ghost function Goal(geo: Geometry, og: Image, rank: map<Slot, nat>, s: Slot): (es: seq<Entry>)
    requires ImageOk(geo, og, rank) && s in rank
  {
    var w := WorldOf(geo, og, rank);
    assert DirOk(w, s);
    var orig := Orig(w, s);
    seq(|orig|, k requires 0 <= k < |orig| =>
      if k < Live(w, s) then orig[k].WithInode(ComputeNewInum(orig[k].inode, og.super.ipg, NewIpg(geo, og.super.ipg)))
      else orig[k])
  }

  /** Every directory reads as it ought to, and every counter of the primary copy is raised once. */
  ghost predicate Converted(geo: Geometry, og: Image, rank: map<Slot, nat>, f: Image)
    requires ImageOk(geo, og, rank)
  {
    && f.phase == Unset && f.super == NewSuper(geo, og) && f.freeCounts == NewCounts(geo, og)
    && BitsCleared(og.bitmaps, f.bitmaps, og.super.ipg, NewIpg(geo, og.super.ipg)) && f.table == og.table
    && forall s :: s in rank ==> ReadsAs(f, s, Goal(geo, og, rank, s))
  }

  ghost predicate ReadsAs(f: Image, s: Slot, es: seq<Entry>) {
    s in f.table && OnDisk(f.table[s], f.disk) && ReadAll(f.disk, f.table[s].blocks) == es
  }

  /** A finished image is converted if and only if no superblock copy hit a directory. */
  lemma FinalIsConvertedIff(geo: Geometry, og: Image, rank: map<Slot, nat>, f: Image)
    requires ImageOk(geo, og, rank) && IsFinal(geo, og, rank, f)
    ensures Converted(geo, og, rank, f) <==> Intact(geo, og, rank)
  {
    hide CopiesPartly, OthersApart, Rooted;
    var d :| FinalOver(geo, og, rank, f, d);
    var w := WorldOf(geo, og, rank);
    NewBitmapsAreCleared(geo, og);
    forall s | s in rank ensures ReadsAs(f, s, Goal(geo, og, rank, s)) <==> Undamaged(geo, og.table[s]) {
      DirReadsIff(geo, og, rank, f, d, s);
    }
    assert forall s | s in rank :: DirOk(w, s);
  }

  lemma DirReadsIff(geo: Geometry, og: Image, rank: map<Slot, nat>, f: Image, d: Disk, s: Slot)
    requires ImageOk(geo, og, rank) && FinalOver(geo, og, rank, f, d) && s in rank
    ensures s in og.table
    ensures ReadsAs(f, s, Goal(geo, og, rank, s)) <==> Undamaged(geo, og.table[s])
  {
    hide CopiesPartly, OthersApart, Rooted;
    var w := WorldOf(geo, og, rank);
    assert DirOk(w, s);
    if Undamaged(geo, og.table[s]) {
      UndamagedReads(geo, og, d, f, og.table[s]);
      assert InSync(w, Renumber, d, s) && DirDone(w, Renumber, d, s);
      assert Now(w, d, s) == Goal(geo, og, rank, s);
    } else {
      DamagedIsGone(geo, og, d, f, og.table[s]);
    }
  }

  /**
   The tool converges on an image, whatever runs came before and wherever they were killed, if and only
   if no superblock copy hits a directory.
   */
  lemma ConvergesIff(geo: Geometry, og: Image, rank: map<Slot, nat>, depth: nat)
    requires ImageOk(geo, og, rank) && Sane(geo, og, rank) && depth >= DepthNeeded(rank)
    ensures (forall kills ::
        var o := Run(geo, Runs(geo, og, kills), Unlimited, depth); o.status == Done && Converted(geo, og, rank, o.img))
      <==> Intact(geo, og, rank)
  {
    hide ImageOk, Sane, Intact, IsFinal, Converted, Run;
    if Intact(geo, og, rank) {
      forall kills
        ensures var o := Run(geo, Runs(geo, og, kills), Unlimited, depth); o.status == Done && Converted(geo, og, rank, o.img)
      {
        CrashConvergence(geo, og, rank, kills, depth);
        FinalIsConvertedIff(geo, og, rank, Run(geo, Runs(geo, og, kills), Unlimited, depth).img);
      }
    } else {
      FirstFinish(geo, og, rank, [], depth);
      FinalIsConvertedIff(geo, og, rank, Run(geo, Runs(geo, og, []), Unlimited, depth).img);
    }
  }

  /** The condition in terms of the image: none is hit above 1 KiB, and block g * blocksPerGroup otherwise. */
  lemma IntactIff(geo: Geometry, og: Image, rank: map<Slot, nat>)
    requires geo.blockSize >= 1024 && forall s :: s in rank ==> s in og.table
    ensures Intact(geo, og, rank) <==>
      geo.blockSize > 1024
      || forall s, g: nat :: s in rank && IsBackupGroup(geo, g) ==>
           g * geo.blocksPerGroup !in og.table[s].blocks && g * geo.blocksPerGroup !in og.table[s].maps
  {
    forall b ensures IsHit(geo, b) <==>
      geo.blockSize == 1024 && exists g: nat :: IsBackupGroup(geo, g) && g * geo.blocksPerGroup == b
    {
      HitIff(geo, b);
    }
    hide IsHit;
    if Intact(geo, og, rank) && geo.blockSize == 1024 {
      forall s, g: nat | s in rank && IsBackupGroup(geo, g) 
        ensures g * geo.blocksPerGroup !in og.table[s].blocks && g * geo.blocksPerGroup !in og.table[s].maps
      {
        assert IsHit(geo, g * geo.blocksPerGroup);
        assert Undamaged(geo, og.table[s]);
      }
    }
  }

  /** The backup superblocks are all renewed, if and only if blocks are above 1 KiB or there was nothing to renew. */
  lemma BackupsRenewedIff(geo: Geometry, og: Image, rank: map<Slot, nat>, f: Image)
    requires ImageOk(geo, og, rank) && IsFinal(geo, og, rank, f)
    requires forall g :: IsBackupGroup(geo, g) ==> g in og.backups
    ensures (forall g :: IsBackupGroup(geo, g) ==> g in f.backups && f.backups[g] == NewSuper(geo, og))
      <==> geo.blockSize > 1024 || forall g :: IsBackupGroup(geo, g) ==> og.backups[g] == NewSuper(geo, og)
    ensures forall g :: IsBackupGroup(geo, g) ==> g in f.backupCounts && f.backupCounts[g] == NewCounts(geo, og)
  {
    hide WellFormed, AllDone, OthersApart, Rooted;
    var d :| FinalOver(geo, og, rank, f, d);
    forall g | IsBackupGroup(geo, g) ensures ReachesHome(geo, g) <==> geo.blockSize > 1024 {
      BackupsReachTheirPlace(geo.blockSize, geo.blocksPerGroup, g);
    }
    hide ReachesHome, LandsOn;
  }

  /** An image that fails the checks survives any history of runs unchanged. */
  lemma {:induction false} InsaneImageSurvives(geo: Geometry, og: Image, rank: map<Slot, nat>, kills: seq<(Budget, nat)>)
    requires ImageOk(geo, og, rank) && !Sane(geo, og, rank)
    ensures Runs(geo, og, kills) == og
    decreases |kills|
  {
    if kills != [] {
      InsaneImageUntouched(geo, og, rank, kills[0].0, kills[0].1);
      InsaneImageSurvives(geo, og, rank, kills[1..]);
    }
  }
}
