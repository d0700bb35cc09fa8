/** What holds of a process at every point of every history, from start-up on. */
module LinkerTheorems {
  import opened LinkerModel
  import opened LinkerCounts
  import opened LinkerGraph
  import opened LinkerLog
  import opened LinkerUnload
  import opened LinkerProcess
  import opened LinkerStartup

  ghost function Afterwards(files: Files, main: Name, st: State, ops: seq<Op>): History {
    Run(files, main, Process(st, multiset{}, multiset{}), ops)
  }

  lemma AfterwardsOk(files: Files, main: Name, needed: seq<Path>, free: nat, st: State, ops: seq<Op>)
    requires Started(files, main, needed, free, st)
    ensures var h := Afterwards(files, main, st, ops);
      h.Up? && ProcessOk(h.p, main, st.libs.Keys) && Pool(h.p.st) == free + 1
  {
    StartupOk(files, main, needed, free, st);
    RunKeeps(files, main, Process(st, multiset{}, multiset{}), ops, st.libs.Keys);
  }

  // ---- reference counts over all histories ----

  /** The references that something gives back some day. */
  ghost function Counted(p: Process, main: Name, x: Name): nat {
    (if x == main then 1 else 0) + p.handles[x] + Uses(p.st, {}, x)
  }

  /**
   After any history every library's ref_count is its open handles plus the DT_NEEDED entries that
   name it (plus one for the program) plus what failed loads lost; soinfos are neither lost nor made up.
   */
  lemma CountsAreExact(files: Files, main: Name, needed: seq<Path>, free: nat, st: State, ops: seq<Op>, x: Name)
    requires Started(files, main, needed, free, st)
    ensures var h := Afterwards(files, main, st, ops);
      && h.Up?
      && Pool(h.p.st) == free + 1
      && (x in h.p.st.libs ==> h.p.st.libs[x].refs == Counted(h.p, main, x) + h.p.lost[x])
      && (Counted(h.p, main, x) + h.p.lost[x] > 0 ==> x in h.p.st.libs)
  {
    hide ProcessOk, Started, Run, Balanced;
    AfterwardsOk(files, main, needed, free, st, ops);
    var p := Afterwards(files, main, st, ops).p;
    OkIsCounted(p, main, st.libs.Keys, x);
  }

  /**
   The counts are exact, with nothing lost, if and only if every load of the history that failed did so
   before any library it needs had been found.
   */
  lemma NothingLostIff(files: Files, main: Name, needed: seq<Path>, free: nat, st: State, ops: seq<Op>)
    requires Started(files, main, needed, free, st)
    ensures var h := Afterwards(files, main, st, ops);
      && h.Up?
      && ((forall x <- h.p.st.libs :: h.p.st.libs[x].refs == Counted(h.p, main, x))
          <==> NeverLoses(files, main, Process(st, multiset{}, multiset{}), ops))
  {
    StartupOk(files, main, needed, free, st);
    HistoryLosesIff(files, main, Process(st, multiset{}, multiset{}), ops, st.libs.Keys);
    var p := Afterwards(files, main, st, ops).p;
    forall x
      ensures x in p.st.libs ==> p.st.libs[x].refs == Counted(p, main, x) + p.lost[x]
      ensures x in p.lost ==> x in p.st.libs
    {
      CountsAreExact(files, main, needed, free, st, ops, x);
    }
    if p.lost != multiset{} {
      var x :| x in p.lost;
      assert p.st.libs[x].refs != Counted(p, main, x);
    }
  }

  // ---- loaded means reachable ----

  /** Each library of the path needs the next. */
  ghost predicate IsPath(st: State, path: seq<Name>) {
    path != [] && forall i :: 0 <= i < |path| - 1 ==> NeedsDirectly(st, path[i], path[i + 1])
  }

  ghost predicate NeedsDirectly(st: State, l: Name, m: Name) {
    l in st.libs && m in BaseNames(st.libs[l].needed)
  }

  ghost predicate Leads(st: State, l: Name, m: Name) {
    exists path :: IsPath(st, path) && path[0] == l && path[|path| - 1] == m
  }

  lemma LeadsOn(st: State, l: Name, m: Name, n: Name)
    requires Leads(st, l, m) && (m == n || NeedsDirectly(st, m, n))
    ensures Leads(st, l, n)
  {
    if m != n {
      var before :| IsPath(st, before) && before[0] == l && before[|before| - 1] == m;
      var path := before + [n];
      forall i | 0 <= i < |path| - 1 ensures NeedsDirectly(st, path[i], path[i + 1]) {
        if i < |before| - 1 {
          assert NeedsDirectly(st, before[i], before[i + 1]);
        }
      }
      assert IsPath(st, path) && path[0] == l && path[|path| - 1] == n;
    }
  }

  lemma LeadsToItself(st: State, l: Name)
    ensures Leads(st, l, l)
  {
    assert IsPath(st, [l]) && [l][0] == l;
  }

  lemma {:induction false} LeadsThrough(st: State, l: Name, path: seq<Name>)
    requires IsPath(st, path) && Leads(st, l, path[0])
    ensures Leads(st, l, path[|path| - 1])
    decreases |path|
  {
    if |path| > 1 {
      var before := path[..|path| - 1];
      forall i | 0 <= i < |before| - 1 ensures NeedsDirectly(st, before[i], before[i + 1]) {
        assert NeedsDirectly(st, path[i], path[i + 1]);
      }
      LeadsThrough(st, l, before);
      assert NeedsDirectly(st, path[|path| - 2], path[|path| - 1]);
      LeadsOn(st, l, before[|before| - 1], path[|path| - 1]);
    }
  }

  /** Through DT_NEEDED from the program or from an open handle. */
  ghost predicate Reachable(p: Process, main: Name, n: Name) {
    exists l :: Leads(p.st, l, n) && (l == main || l in p.handles)
  }

  /** The same, from a reference that a failed load left behind. */
  ghost predicate Stranded(p: Process, n: Name) {
    exists l :: Leads(p.st, l, n) && l in p.lost
  }

  /** Why a library is loaded: something outside refers to it, or a later linked library needs it. */
  lemma ReasonLoaded(p: Process, main: Name, keep: set<Name>, n: Name) returns (l: Option<Name>)
    requires ProcessOk(p, main, keep) && n in p.st.libs
    ensures l == None ==> n == main || n in p.handles || n in p.lost
    ensures l.Some? ==> NeedsDirectly(p.st, l.value, n) && p.st.libs[n].stamp < p.st.libs[l.value].stamp < p.st.clock
  {
    if n == main || n in p.handles || n in p.lost {
      l := None;
    } else {
      assert CountedAt(p.st, n, Owed(main, p.handles, p.lost)(n), {});
      var m := main;
      if n in keep {
        assert HeldBy(p.st, main, keep, n);
        m :| Holds(p.st, keep, m, n);
      } else {
        m := UserOf(p.st.order, p.st.libs, {}, n);
      }
      CountPositive(BaseNames(p.st.libs[m].needed), n);
      assert RankedAt(p.st, m);
      l := Some(m);
    }
  }

  lemma {:induction false} LoadedIsReachable(p: Process, main: Name, keep: set<Name>, n: Name)
    requires ProcessOk(p, main, keep) && n in p.st.libs
    ensures Reachable(p, main, n) || Stranded(p, n)
    decreases if p.st.libs[n].stamp < p.st.clock then p.st.clock - p.st.libs[n].stamp else 0
  {
    var l := ReasonLoaded(p, main, keep, n);
    assert RankedAt(p.st, n);
    match l {
      case None =>
        LeadsToItself(p.st, n);
      case Some(m) =>
        LoadedIsReachable(p, main, keep, m);
        var r :| Leads(p.st, r, m) && (r == main || r in p.handles || r in p.lost);
        LeadsOn(p.st, r, m, n);
    }
  }

  lemma NeededIsLoaded(p: Process, main: Name, keep: set<Name>, l: Name, n: Name)
    requires ProcessOk(p, main, keep) && NeedsDirectly(p.st, l, n)
    ensures n in p.st.libs
  {
    CountPositive(BaseNames(p.st.libs[l].needed), n);
    UsesContains(p.st.order, l, p.st.libs, {}, n);
    assert CountedAt(p.st, n, Owed(main, p.handles, p.lost)(n), {});
  }

  lemma {:induction false} ReachableIsLoaded(p: Process, main: Name, keep: set<Name>, path: seq<Name>)
    requires ProcessOk(p, main, keep)
    requires IsPath(p.st, path) && (path[0] == main || path[0] in p.handles || path[0] in p.lost)
    ensures path[|path| - 1] in p.st.libs
  {
    var n := path[|path| - 1];
    if |path| > 1 {
      assert NeedsDirectly(p.st, path[|path| - 2], path[|path| - 1]);
      NeededIsLoaded(p, main, keep, path[|path| - 2], n);
    } else {
      assert CountedAt(p.st, n, Owed(main, p.handles, p.lost)(n), {});
    }
  }

  /**
   After any history a library is loaded exactly if it can be reached through DT_NEEDED from the program,
   an open handle or a reference that a failed load lost.  In particular no library in use is ever unloaded.
   */
  lemma LoadedIffReachable(files: Files, main: Name, needed: seq<Path>, free: nat, st: State, ops: seq<Op>, n: Name)
    requires Started(files, main, needed, free, st)
    ensures var h := Afterwards(files, main, st, ops);
      h.Up? && (n in h.p.st.libs <==> Reachable(h.p, main, n) || Stranded(h.p, n))
  {
    AfterwardsOk(files, main, needed, free, st, ops);
    var p := Afterwards(files, main, st, ops).p;
    if Reachable(p, main, n) || Stranded(p, n) {
      var l :| Leads(p.st, l, n) && (l == main || l in p.handles || l in p.lost);
      var path :| IsPath(p.st, path) && path[0] == l && path[|path| - 1] == n;
      ReachableIsLoaded(p, main, st.libs.Keys, path);
    }
    if n in p.st.libs {
      LoadedIsReachable(p, main, st.libs.Keys, n);
    }
  }

  lemma ReachableThrough(p: Process, main: Name, x: Name, n: Name)
    requires Reachable(p, main, x) && Leads(p.st, x, n)
    ensures Reachable(p, main, n)
  {
    var l :| Leads(p.st, l, x) && (l == main || l in p.handles);
    var path :| IsPath(p.st, path) && path[0] == x && path[|path| - 1] == n;
    LeadsThrough(p.st, l, path);
  }

  lemma LostIsLoaded(p: Process, main: Name, keep: set<Name>, x: Name)
    requires ProcessOk(p, main, keep) && x in p.lost
    ensures x in p.st.libs
  {
    assert CountedAt(p.st, x, Owed(main, p.handles, p.lost)(x), {});
  }

  /** Only what is in use is loaded, if and only if every library with a lost reference is in use. */
  lemma OnlyTheReachableIff(files: Files, main: Name, needed: seq<Path>, free: nat, st: State, ops: seq<Op>)
    requires Started(files, main, needed, free, st)
    ensures var h := Afterwards(files, main, st, ops);
      && h.Up?
      && ((forall n <- h.p.st.libs :: Reachable(h.p, main, n)) <==> (forall x <- h.p.lost :: Reachable(h.p, main, x)))
  {
    hide ProcessOk, Leads, Started, Afterwards;
    AfterwardsOk(files, main, needed, free, st, ops);
    var p := Afterwards(files, main, st, ops).p;
    forall x <- p.lost ensures x in p.st.libs {
      LostIsLoaded(p, main, st.libs.Keys, x);
    }
    if forall x <- p.lost :: Reachable(p, main, x) {
      forall n <- p.st.libs ensures Reachable(p, main, n) {
        LoadedIffReachable(files, main, needed, free, st, ops, n);
        if !Reachable(p, main, n) {
          var x :| Leads(p.st, x, n) && x in p.lost;
          ReachableThrough(p, main, x, n);
        }
      }
    }
  }

  /** A library with a lost reference stays loaded, whatever follows. */
  lemma LostIsNeverUnloaded(files: Files, main: Name, needed: seq<Path>, free: nat, st: State, ops: seq<Op>, more: seq<Op>, x: Name)
    requires Started(files, main, needed, free, st)
    ensures var h := Afterwards(files, main, st, ops);
      && h.Up?
      && var h2 := Run(files, main, h.p, more);
      h2.Up? && (x in h.p.lost ==> x in h2.p.st.libs)
  {
    hide ProcessOk, Started, Afterwards, Run, NeverLoses;
    AfterwardsOk(files, main, needed, free, st, ops);
    var p := Afterwards(files, main, st, ops).p;
    RunKeeps(files, main, p, more, st.libs.Keys);
    HistoryLosesIff(files, main, p, more, st.libs.Keys);
    if x in p.lost {
      LostIsLoaded(Run(files, main, p, more).p, main, st.libs.Keys, x);
    }
  }

  // ---- no cycles ----

  lemma {:induction false} StampsFall(st: State, path: seq<Name>)
    requires Ranked(st) && IsPath(st, path) && forall n <- path :: n in st.libs
    ensures |path| > 1 ==> st.libs[path[|path| - 1]].stamp < st.libs[path[0]].stamp
    decreases |path|
  {
    if |path| > 1 {
      assert NeedsDirectly(st, path[0], path[1]);
      var rest := path[1..];
      forall i | 0 <= i < |rest| - 1 ensures NeedsDirectly(st, rest[i], rest[i + 1]) {
        assert NeedsDirectly(st, path[i + 1], path[i + 2]);
      }
      StampsFall(st, rest);
    }
  }

  /** Libraries that need each other in a circle are never loaded. */
  lemma NoCycles(files: Files, main: Name, needed: seq<Path>, free: nat, st: State, ops: seq<Op>, path: seq<Name>)
    requires Started(files, main, needed, free, st)
    ensures var h := Afterwards(files, main, st, ops);
      h.Up? && (IsPath(h.p.st, path) && |path| > 1 ==> path[0] != path[|path| - 1])
  {
    AfterwardsOk(files, main, needed, free, st, ops);
    var p := Afterwards(files, main, st, ops).p;
    if IsPath(p.st, path) && |path| > 1 {
      forall i | 0 <= i < |path| ensures path[i] in p.st.libs {
        OnPathIsLoaded(p, main, st.libs.Keys, path, i);
      }
      StampsFall(p.st, path);
    }
  }

  lemma OnPathIsLoaded(p: Process, main: Name, keep: set<Name>, path: seq<Name>, i: nat)
    requires ProcessOk(p, main, keep) && IsPath(p.st, path) && |path| > 1 && i < |path|
    ensures path[i] in p.st.libs
  {
    if i < |path| - 1 {
      assert NeedsDirectly(p.st, path[i], path[i + 1]);
    } else {
      assert NeedsDirectly(p.st, path[i - 1], path[i]);
      NeededIsLoaded(p, main, keep, path[i - 1], path[i]);
    }
  }

  // ---- order of initialisers and terminators ----

  /**
   Over any history initialisers and terminators run in proper order, and everything the program
   or an open handle refers to is initialised, together with all it needs.
   */
  lemma InitialisersInOrder(files: Files, main: Name, needed: seq<Path>, free: nat, st: State, ops: seq<Op>)
    requires Started(files, main, needed, free, st)
    ensures var h := Afterwards(files, main, st, ops);
      && h.Up? && Proper(h.p.st.log)
      && (forall n :: n == main || n in h.p.handles ==> n in Running(h.p.st.log))
      && (forall n <- Running(h.p.st.log) :: n in h.p.st.libs &&
            forall y <- BaseNames(h.p.st.libs[n].needed) :: y in Running(h.p.st.log))
  {
    AfterwardsOk(files, main, needed, free, st, ops);
    RunningIsClosed(Afterwards(files, main, st, ops).p.st.log);
  }

  // ---- libdl ----

  lemma PlainNameIsItself(path: Path)
    requires '/' !in path
    ensures BaseName(path) == Name(path)
  {
  }

  /** If nothing refers to libdl after start-up, opening and closing it dereferences null. */
  lemma UnreferencedLibdlFaults(files: Files, main: Name, needed: seq<Path>, free: nat, st: State, path: Path)
    requires BaseName(path) == LIBDL
    requires Startup(files, main, needed, free) == Some(st) && LIBDL in st.libs && st.libs[LIBDL].refs == 0
    ensures Afterwards(files, main, st, [Open(Some(path)), Close(LIBDL)]) == Crashed
  {
    StartupOk(files, main, needed, free, st);
    var p := Process(st, multiset{}, multiset{});
    RanksAgree(st);
    var p1 := LibdlOpens(files, main, p, path);
    CrashesAfter(files, main, p, Open(Some(path)), p1, Close(LIBDL));
  }

  lemma CrashesAfter(files: Files, main: Name, p: Process, op: Op, p1: Process, op1: Op)
    requires CanStep(main, p) && Step(files, main, p, op) == Up(p1)
    requires CanStep(main, p1) && Step(files, main, p1, op1) == Crashed
    ensures Run(files, main, p, [op, op1]) == Crashed
  {
    assert [op, op1][1..] == [op1];
    CrashesAtOnce(files, main, p1, op1);
  }

  lemma CrashesAtOnce(files: Files, main: Name, p: Process, op: Op)
    requires CanStep(main, p) && Step(files, main, p, op) == Crashed
    ensures Run(files, main, p, [op]) == Crashed
  {
  }

  lemma FindsWhatIsLinked(files: Files, st: State, path: Path)
    requires BaseName(path) in st.libs && st.libs[BaseName(path)].linked
    ensures FindLibrary(files, st, path) == Loaded(Referenced(st, BaseName(path)), true)
  {
    assert FindLibraryInternal(files, st, path) == Loaded(st, true);
  }

  lemma LibdlOpens(files: Files, main: Name, p: Process, path: Path) returns (p1: Process)
    requires Orderly(p.st) && main in p.st.libs && LIBDL in p.st.libs
    requires p.st.libs[LIBDL].refs == 0 && BaseName(path) == LIBDL
    ensures DlOpen(files, main, p, Some(path)) == Up(p1)
    ensures CanStep(main, p1) && LIBDL in p1.handles && LIBDL in p1.st.libs
    ensures p1.st.libs[LIBDL] == p.st.libs[LIBDL].(refs := 1, inited := p1.st.libs[LIBDL].inited)
  {
    FindsWhatIsLinked(files, p.st, path);
    ReferencedOrderly(p.st, LIBDL);
    var c := InitsOrderly(Referenced(p.st, LIBDL), LIBDL);
    p1 := Process(c.st, p.handles + multiset{LIBDL}, p.lost);
  }

  /** No history crashes the linker if and only if libdl has a reference that stays. */
  lemma NeverFaultsIffLibdlIsHeld(files: Files, main: Name, needed: seq<Path>, free: nat, st: State)
    requires Startup(files, main, needed, free) == Some(st)
    ensures LIBDL in st.libs
    ensures (forall ops :: Afterwards(files, main, st, ops).Up?) <==> st.libs[LIBDL].refs >= 1
  {
    hide Run, Sound, LinkedRanked, InUseRuns, Startup;
    StartupOk(files, main, needed, free, st);
    if st.libs[LIBDL].refs >= 1 {
      forall ops ensures Afterwards(files, main, st, ops).Up? {
        RunKeeps(files, main, Process(st, multiset{}, multiset{}), ops, st.libs.Keys);
      }
    } else {
      PlainNameIsItself("libdl.so");
      UnreferencedLibdlFaults(files, main, needed, free, st, "libdl.so");
    }
  }
}
