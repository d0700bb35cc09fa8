/**
 Whole histories of a process: start-up, then any sequence of dlopen and dlclose.

 A process's `lost` is what failed loads never gave back: references that their already finished
 dependencies were given.
 */
module LinkerProcess {
  import opened LinkerModel
  import opened LinkerLeaks
  import opened LinkerCounts
  import opened LinkerGraph
  import opened LinkerLog
  import opened LinkerUnload
  import opened LinkerSuccess

  const LIBDL := Name("libdl.so")

  /** dlopen(NULL) is Open(None). */
  datatype Op = Open(path: Option<Path>) | Close(lib: Name)

  datatype Process = Process(st: State, handles: multiset<Name>, lost: multiset<Name>)

  datatype History = Up(p: Process) | Crashed

  // ---- start-up ----

  /** solist holds the linker's own libdl, which has no dynamic section and no references. */
  function Bare(free: nat): State {
    State([LIBDL], map[LIBDL := Lib([], false, 0, true, false, 0)], free, 1, [])
  }

  /** __linker_init_post_relocation: count the program once, link it, run all initialisers. */
  function Startup(files: Files, main: Name, needed: seq<Path>, free: nat): Option<State> {
    if main == LIBDL || |main.text| >= SOINFO_NAME_LEN || free == 0 then None
    else
      var r := LinkImage(files, Referenced(Alloc(Bare(free), main, needed), main), ElfFile(true, needed, true));
      if !r.ok then None
      else
        match CallConstructors(Linked(r.st, main), main)
        case Fine(st) => Some(st)
        case Fault => None
  }

  // ---- dlopen and dlclose ----

  ghost function DlOpen(files: Files, main: Name, p: Process, path: Option<Path>): History
    requires main in p.st.libs
  {
    var r := if path == None then Loaded(Referenced(p.st, main), true) else FindLibrary(files, p.st, path.value);
    var n := if path == None then main else BaseName(path.value);
    if !r.ok then Up(Process(r.st, p.handles, p.lost + LostByFind(files, p.st, path.value)))
    else
      match CallConstructors(r.st, n)
      case Fine(st) => Up(Process(st, p.handles + multiset{n}, p.lost))
      case Fault => Crashed
  }

  /** Closing what is not open is the caller's error and is not modelled. */
  ghost function DlClose(p: Process, n: Name): History
    requires Ranked(p.st)
  {
    if n !in p.handles then Up(p)
    else
      match Unload(p.st, n)
      case Fine(st) => Up(Process(st, p.handles - multiset{n}, p.lost))
      case Fault => Crashed
  }

  ghost predicate CanStep(main: Name, p: Process) {
    main in p.st.libs && Ranked(p.st)
  }

  ghost function Step(files: Files, main: Name, p: Process, op: Op): History
    requires CanStep(main, p)
  {
    match op
    case Open(path) => DlOpen(files, main, p, path)
    case Close(lib) => DlClose(p, lib)
  }

  ghost function Run(files: Files, main: Name, p: Process, ops: seq<Op>): History
    decreases |ops|
  {
    if ops == [] then Up(p)
    else if !CanStep(main, p) then Crashed
    else
      match Step(files, main, p, ops[0])
      case Up(p') => Run(files, main, p', ops[1..])
      case Crashed => Crashed
  }

  // ---- the invariant ----

  ghost function Owed(main: Name, handles: multiset<Name>, lost: multiset<Name>): Debt {
    x => (if x == main then 1 else 0) + handles[x] + lost[x]
  }

  ghost predicate ProcessOk(p: Process, main: Name, keep: set<Name>) {
    && main in p.st.libs
    && Sound(p.st, Owed(main, p.handles, p.lost), {}, main, keep)
    && LinkedRanked(p.st)
    && InUseRuns(p.st, main, p.handles)
  }

  /** The program and every library with an open handle are initialised. */
  ghost predicate InUseRuns(st: State, main: Name, handles: multiset<Name>) {
    main in Running(st.log) && forall n <- handles :: n in Running(st.log)
  }

  lemma OkIsCounted(p: Process, main: Name, keep: set<Name>, x: Name)
    requires ProcessOk(p, main, keep)
    ensures CountedAt(p.st, x, Owed(main, p.handles, p.lost)(x), {})
  {
  }

  lemma RanksAgree(st: State)
    requires LinkedRanked(st) && AllLinked(st)
    ensures Ranked(st)
  {
    forall n, x | n in st.libs && x in BaseNames(st.libs[n].needed) && x in st.libs
      ensures st.libs[x].stamp < st.libs[n].stamp
    {
      assert RankedAt(st, n);
    }
  }

  lemma RanksShrink(st1: State, st2: State)
    requires LinkedRanked(st1) && Thins(st1, st2)
    requires forall n <- st2.libs :: forall y <- st2.libs[n].needed :: BaseName(y) in st2.libs
    ensures LinkedRanked(st2)
  {
    forall n ensures RankedAt(st2, n) {
      assert RankedAt(st1, n);
    }
  }

  /** The part of soundness that does not speak of references. */
  ghost predicate Orderly(st: State) {
    LinkedRanked(st) && AllLinked(st) && LogOk(st, {})
  }

  lemma ReferencedOrderly(st: State, n: Name)
    requires Orderly(st) && n in st.libs
    ensures Orderly(Referenced(st, n))
  {
    var st2 := Referenced(st, n);
    RanksAgree(st);
    RefsOnlyKeeps(st, st2, {});
    forall m ensures RankedAt(st2, m) {
      assert RankedAt(st, m);
    }
  }

  lemma InitsOrderly(st: State, n: Name) returns (r: Outcome)
    requires Orderly(st) && n in st.libs
    ensures r == CallConstructors(st, n) && r.Fine? && OnlyInits(st, r.st)
    ensures Orderly(r.st) && Ranked(r.st) && n in Running(r.st.log)
    ensures forall m <- Running(st.log) :: m in Running(r.st.log)
  {
    r := ConstructorsKeep(st, {}, n);
    OnlyInitsKeepsRanks(st, r.st);
    RanksAgree(r.st);
  }

  /** What a library in use needs is loaded. */
  lemma NeededAreLoaded(st: State, owed: Debt, n: Name, y: Path)
    requires Balanced(st, owed, {}) && AllLinked(st) && n in st.libs && y in st.libs[n].needed
    ensures BaseName(y) in st.libs
  {
    var i :| 0 <= i < |st.libs[n].needed| && st.libs[n].needed[i] == y;
    assert BaseNames(st.libs[n].needed)[i] == BaseName(y);
    CountPositive(BaseNames(st.libs[n].needed), BaseName(y));
    UsesContains(st.order, n, st.libs, {}, BaseName(y));
    assert CountedAt(st, BaseName(y), owed(BaseName(y)), {});
  }

  // ---- dlopen ----

  ghost function Sum(a: Debt, b: multiset<Name>): Debt {
    x => a(x) + b[x]
  }

  /** What is owed after a load. */
  ghost function After(owed: Debt, files: Files, st: State, path: Path, ok: bool): Debt {
    if ok then Plus(owed, BaseName(path)) else Sum(owed, LostByFind(files, st, path))
  }

  lemma LoadBalances(files: Files, st: State, path: Path, owed: Debt) returns (r: Loaded)
    requires Balanced(st, owed, {})
    ensures r == FindLibrary(files, st, path) && Pool(r.st) == Pool(st)
    ensures Balanced(r.st, After(owed, files, st, path, r.ok), {})
  {
    hide CountedAt, FindLibrary, LostByFind, Extends, Listed;
    var n := BaseName(path);
    assert CountedAt(st, n, owed(n), {});
    r := FindLibraryCounts(files, st, path, n, owed(n));
    if r.ok {
      SuccessLosesNothing(files, st, path);
    }
    forall x
      ensures CountedAt(r.st, x, After(owed, files, st, path, r.ok)(x), {})
    {
      assert CountedAt(st, x, owed(x), {});
      var r' := FindLibraryCounts(files, st, path, x, owed(x));
    }
  }

  lemma AnchoredGrows(st: State, st2: State, main: Name, keep: set<Name>)
    requires Anchored(st, main, keep, {})
    requires forall l <- st.libs :: l in st2.libs && st2.libs[l].linked == st.libs[l].linked && st2.libs[l].needed == st.libs[l].needed
    requires forall l <- st2.libs :: !st2.libs[l].hasDynamic ==> l in st.libs && !st.libs[l].hasDynamic
    ensures Anchored(st2, main, keep, {})
  {
    forall m | m in keep ensures HeldBy(st2, main, keep, m) {
      assert HeldBy(st, main, keep, m);
      if m != main {
        var l :| Holds(st, keep, l, m);
        assert Holds(st2, keep, l, m);
      }
    }
  }

  lemma LoadKeepsSound(files: Files, st: State, path: Path, owed: Debt, main: Name, keep: set<Name>) returns (r: Loaded)
    requires Sound(st, owed, {}, main, keep) && LinkedRanked(st)
    ensures r == FindLibrary(files, st, path) && LinkedRanked(r.st) && Pool(r.st) == Pool(st)
    ensures Sound(r.st, After(owed, files, st, path, r.ok), {}, main, keep)
  {
    hide Balanced, Anchored, LogOk, AllLinked, Ranked, LinkedRanked, FindLibrary, Extends, NewOnesLinked, After;
    r := LoadBalances(files, st, path, owed);
    var r' := FindLibraryRanks(files, st, path);
    GrownIsSound(st, r.st, main, keep);
    RanksAgree(r.st);
  }

  /** What is new after a load disturbs nothing. */
  lemma GrownIsSound(st: State, st2: State, main: Name, keep: set<Name>)
    requires AllLinked(st) && Anchored(st, main, keep, {}) && LogOk(st, {}) && Extends(st, st2) && NewOnesLinked(st, st2, {})
    requires forall m <- st.libs :: m !in keep ==> st.libs[m].refs >= 1
    ensures AllLinked(st2) && Anchored(st2, main, keep, {}) && LogOk(st2, {})
    ensures forall m <- st2.libs :: m !in keep ==> st2.libs[m].refs >= 1
  {
    AnchoredGrows(st, st2, main, keep);
    hide Anchored;
    forall m ensures m in Running(st2.log) <==> IsRunning(st2, {}, m) {
      assert m in Running(st.log) <==> IsRunning(st, {}, m);
    }
  }

  lemma InitsKeepSound(st: State, n: Name, owed: Debt, main: Name, keep: set<Name>) returns (r: Outcome)
    requires Sound(st, owed, {}, main, keep) && LinkedRanked(st) && n in st.libs
    ensures r == CallConstructors(st, n) && r.Fine? && Sound(r.st, owed, {}, main, keep) && LinkedRanked(r.st)
    ensures n in Running(r.st.log) && (forall m <- Running(st.log) :: m in Running(r.st.log)) && Pool(r.st) == Pool(st)
  {
    r := InitsOrderly(st, n);
    forall x ensures CountedAt(r.st, x, owed(x), {}) {
      assert CountedAt(st, x, owed(x), {});
      UsesSame(st.order, st.libs, {}, r.st.libs, {}, x);
    }
    AnchoredGrows(st, r.st, main, keep);
  }

  lemma ReferenceBalances(st: State, n: Name, owed: Debt)
    requires Balanced(st, owed, {}) && n in st.libs && st.libs[n].linked
    ensures Balanced(Referenced(st, n), Plus(owed, n), {})
  {
    forall x ensures CountedAt(Referenced(st, n), x, Plus(owed, n)(x), {}) {
      assert CountedAt(st, x, owed(x), {});
      ReferenceCounted(st, n, x, owed(x));
    }
  }

  lemma ReferenceKeepsSound(st: State, n: Name, owed: Debt, main: Name, keep: set<Name>)
    requires Sound(st, owed, {}, main, keep) && LinkedRanked(st) && n in st.libs
    ensures Sound(Referenced(st, n), Plus(owed, n), {}, main, keep) && LinkedRanked(Referenced(st, n))
  {
    var st2 := Referenced(st, n);
    ReferenceBalances(st, n, owed);
    ReferencedOrderly(st, n);
    RanksAgree(st2);
    AnchoredStays(st, {}, st2, {}, main, keep);
  }

  lemma SameDebtSound(st: State, a: Debt, b: Debt, main: Name, keep: set<Name>)
    requires Sound(st, a, {}, main, keep) && forall x :: a(x) == b(x)
    ensures Sound(st, b, {}, main, keep)
  {
    SameDebt(st, a, b, {});
  }

  lemma OpenKeeps(files: Files, main: Name, p: Process, path: Option<Path>, keep: set<Name>)
    requires ProcessOk(p, main, keep)
    ensures DlOpen(files, main, p, path).Up? && ProcessOk(DlOpen(files, main, p, path).p, main, keep)
    ensures Pool(DlOpen(files, main, p, path).p.st) == Pool(p.st)
  {
    hide Sound, LinkedRanked, FindLibrary, CallConstructors, Running, LostByFind;
    var owed := Owed(main, p.handles, p.lost);
    match path {
      case None =>
        ReferenceKeepsSound(p.st, main, owed, main, keep);
        OpenedOk(p, main, Referenced(p.st, main), main, keep);
      case Some(name) =>
        var r := LoadKeepsSound(files, p.st, name, owed, main, keep);
        if r.ok {
          OpenedOk(p, main, r.st, BaseName(name), keep);
        } else {
          var more := LostByFind(files, p.st, name);
          SameDebtSound(r.st, Sum(owed, more), Owed(main, p.handles, p.lost + more), main, keep);
        }
    }
  }

  lemma OpenedOk(p: Process, main: Name, st: State, n: Name, keep: set<Name>)
    requires Sound(st, Plus(Owed(main, p.handles, p.lost), n), {}, main, keep) && LinkedRanked(st)
    requires n in st.libs && main in st.libs
    requires InUseRuns(st, main, p.handles)
    ensures CallConstructors(st, n).Fine? && Pool(CallConstructors(st, n).st) == Pool(st)
    ensures ProcessOk(Process(CallConstructors(st, n).st, p.handles + multiset{n}, p.lost), main, keep)
  {
    var owed := Owed(main, p.handles, p.lost);
    var c := InitsKeepSound(st, n, Plus(owed, n), main, keep);
    SameDebtSound(c.st, Plus(owed, n), Owed(main, p.handles + multiset{n}, p.lost), main, keep);
  }

  /**
   What dlopen returns.  A library that is loaded, or that a plan of loading includes, is given one more
   handle, the program always, and no other handle changes; any other name opens nothing.
   */
  lemma OpenSucceedsIff(files: Files, main: Name, p: Process, path: Option<Path>, keep: set<Name>)
    requires ProcessOk(p, main, keep)
    requires path.Some? ==> BaseName(path.value) in p.st.libs || OneFileEach(files, path.value)
    ensures var r := DlOpen(files, main, p, path);
      r.Up? &&
      match path
      case None => r.p.handles == p.handles + multiset{main}
      case Some(name) =>
        var n := BaseName(name);
        r.p.handles ==
          if n in p.st.libs || exists rank :: Plan(files, name, p.st, rank) && n in rank then p.handles + multiset{n}
          else p.handles
  {
    hide FindLibrary, CallConstructors, LostByFind, Plan, OneFileEach, InUseRuns;
    OpenKeeps(files, main, p, path, keep);
    if path.Some? {
      FindSucceedsIff(files, p.st, path.value);
    }
  }

  lemma CloseKeeps(main: Name, p: Process, n: Name, keep: set<Name>)
    requires ProcessOk(p, main, keep)
    ensures DlClose(p, n).Up? && ProcessOk(DlClose(p, n).p, main, keep)
    ensures Pool(DlClose(p, n).p.st) == Pool(p.st)
  {
    if n in p.handles {
      var rest := Owed(main, p.handles - multiset{n}, p.lost);
      SameDebtSound(p.st, Owed(main, p.handles, p.lost), Plus(rest, n), main, keep);
      var r := UnloadKeeps(p.st, n, rest, {}, main, keep);
      assert CountedAt(r.st, main, rest(main), {});
      forall m, y | m in r.st.libs && y in r.st.libs[m].needed ensures BaseName(y) in r.st.libs {
        NeededAreLoaded(r.st, rest, m, y);
      }
      RanksShrink(p.st, r.st);
      forall m | m == main || m in p.handles - multiset{n} ensures m in Running(r.st.log) {
        StillRunning(p.st, r.st, m, rest, {});
      }
    }
  }

  lemma StepKeeps(files: Files, main: Name, p: Process, op: Op, keep: set<Name>)
    requires ProcessOk(p, main, keep)
    ensures CanStep(main, p) && Step(files, main, p, op).Up?
    ensures ProcessOk(Step(files, main, p, op).p, main, keep) && Pool(Step(files, main, p, op).p.st) == Pool(p.st)
  {
    hide InUseRuns, Unload, LogOk, Balanced, Anchored;
    match op {
      case Open(path) => OpenKeeps(files, main, p, path, keep);
      case Close(lib) => CloseKeeps(main, p, lib, keep);
    }
  }

  lemma {:induction false} RunKeeps(files: Files, main: Name, p: Process, ops: seq<Op>, keep: set<Name>)
    requires ProcessOk(p, main, keep)
    ensures Run(files, main, p, ops).Up? && ProcessOk(Run(files, main, p, ops).p, main, keep)
    ensures Pool(Run(files, main, p, ops).p.st) == Pool(p.st)
    decreases |ops|
  {
    hide ProcessOk, Step, CanStep;
    if ops != [] {
      StepKeeps(files, main, p, ops[0], keep);
      RunKeeps(files, main, Step(files, main, p, ops[0]).p, ops[1..], keep);
    }
  }

  // ---- what is lost over a history ----

  /** An open that fails does so early: before any library the one asked for needs has been found. */
  ghost predicate LosesNothing(files: Files, p: Process, op: Op) {
    op.Close? || op.path == None
    || FindLibrary(files, p.st, op.path.value).ok || FailsEarly(files, p.st, op.path.value)
  }

  /** The same for every step of a history. */
  ghost predicate NeverLoses(files: Files, main: Name, p: Process, ops: seq<Op>)
    decreases |ops|
  {
    ops == [] || !CanStep(main, p)
    || (LosesNothing(files, p, ops[0]) &&
        var h := Step(files, main, p, ops[0]); h.Up? ==> NeverLoses(files, main, h.p, ops[1..]))
  }

  lemma StepLosesIff(files: Files, main: Name, p: Process, op: Op)
    requires CanStep(main, p) && Step(files, main, p, op).Up?
    ensures var p' := Step(files, main, p, op).p;
      p.lost <= p'.lost && (p'.lost == p.lost <==> LosesNothing(files, p, op))
  {
    if op.Open? && op.path.Some? {
      FailsWithoutLossIff(files, p.st, op.path.value);
      var more := LostByFind(files, p.st, op.path.value);
      if more != multiset{} {
        var x :| x in more;
        assert (p.lost + more)[x] > p.lost[x];
      }
    }
  }

  /** A history loses no reference exactly if every load in it that fails fails early. */
  lemma {:induction false} HistoryLosesIff(files: Files, main: Name, p: Process, ops: seq<Op>, keep: set<Name>)
    requires ProcessOk(p, main, keep)
    ensures Run(files, main, p, ops).Up?
    ensures var q := Run(files, main, p, ops).p;
      p.lost <= q.lost && (q.lost == p.lost <==> NeverLoses(files, main, p, ops))
    decreases |ops|
  {
    hide ProcessOk, LosesNothing, Step, CanStep;
    if ops != [] {
      StepKeeps(files, main, p, ops[0], keep);
      StepLosesIff(files, main, p, ops[0]);
      HistoryLosesIff(files, main, Step(files, main, p, ops[0]).p, ops[1..], keep);
    }
  }
}
