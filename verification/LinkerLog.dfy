/** The order of initialisers and terminators, as the System V gABI, chapter 5, asks for it. */
module LinkerLog {
  import opened LinkerModel
  import opened LinkerCounts
  import opened LinkerGraph

  /** Libraries initialised and not terminated since, each with what it needs. */
  ghost function Running(log: seq<Event>): map<Name, seq<Name>> {
    if log == [] then map[] else AfterEvent(Running(log[..|log| - 1]), log[|log| - 1])
  }

  ghost function AfterEvent(before: map<Name, seq<Name>>, e: Event): map<Name, seq<Name>> {
    match e
    case Init(n, deps) => before[n := deps]
    case Fini(n) => before - {n}
  }

  /**
   No library is initialised twice without being terminated in between, none before everything it
   needs is running; only a running library is terminated, and not while a running one needs it.
   */
  ghost predicate Proper(log: seq<Event>) {
    log == [] || (Proper(log[..|log| - 1]) && ProperEvent(Running(log[..|log| - 1]), log[|log| - 1]))
  }

  ghost predicate ProperEvent(before: map<Name, seq<Name>>, e: Event) {
    match e
    case Init(n, deps) => n !in before && forall y <- deps :: y in before
    case Fini(n) => n in before && forall m <- before :: m != n ==> n !in before[m]
  }

  lemma LogAppend(log: seq<Event>, e: Event)
    requires Proper(log) && ProperEvent(Running(log), e)
    ensures Proper(log + [e])
    ensures Running(log + [e]) == AfterEvent(Running(log), e)
  {
    assert (log + [e])[..|log|] == log;
  }

  /** What a running library needs is running. */
  lemma {:induction false} RunningIsClosed(log: seq<Event>)
    requires Proper(log)
    ensures forall n <- Running(log) :: forall y <- Running(log)[n] :: y in Running(log)
    decreases |log|
  {
    if log != [] {
      RunningIsClosed(log[..|log| - 1]);
    }
  }

  /** n's initialisers have run; `pending` are those whose flag is set but which have not run yet. */
  ghost predicate IsRunning(st: State, gone: set<Name>, n: Name) {
    n in st.libs && st.libs[n].inited && n !in gone
  }

  /** The log agrees with the flags, but for libraries in `gone`: just being unloaded or initialised. */
  ghost predicate LogOk(st: State, gone: set<Name>) {
    && Proper(st.log)
    && (forall n {:trigger IsRunning(st, gone, n)} ::
          n in Running(st.log) <==> IsRunning(st, gone, n))
    && (forall n <- Running(st.log) :: n in st.libs && Running(st.log)[n] == BaseNames(st.libs[n].needed))
  }

  ghost predicate AllLinked(st: State) {
    forall n <- st.libs :: st.libs[n].linked
  }

  // ---- initialisers ----

  ghost predicate CanInit(st: State, gone: set<Name>, n: Name) {
    && LinkedRanked(st) && AllLinked(st) && LogOk(st, gone)
    && n in st.libs
    && forall m <- gone :: m in st.libs && st.libs[n].stamp < st.libs[m].stamp && st.libs[m].inited
  }

  /** Initialising a library initialises all it needs first, each at most once. */
  lemma {:induction false} ConstructorsKeep(st: State, gone: set<Name>, n: Name) returns (r: Outcome)
    requires CanInit(st, gone, n)
    ensures r == CallConstructors(st, n)
    ensures r.Fine? && LogOk(r.st, gone) && n in Running(r.st.log)
    ensures forall m <- Running(st.log) :: m in Running(r.st.log)
    decreases Uninited(st), 0
  {
    if st.libs[n].inited {
      assert IsRunning(st, gone, n);
      r := Fine(st);
    } else {
      var st1 := WithLib(st, n, st.libs[n].(inited := true));
      assert n in Uninited(st) && n !in Uninited(st1) && Uninited(st1) <= Uninited(st);
      StartInit(st, gone, n, st1);
      r := AllConstructorsKeep(st1, gone + {n}, BaseNames(st.libs[n].needed), st.libs[n].stamp);
      FinishInit(r.st, gone, n);
      r := Fine(r.st.(log := r.st.log + [Init(n, BaseNames(st.libs[n].needed))]));
    }
  }

  lemma StartInit(st: State, gone: set<Name>, n: Name, st1: State)
    requires CanInit(st, gone, n) && !st.libs[n].inited && st1 == WithLib(st, n, st.libs[n].(inited := true))
    ensures LinkedRanked(st1) && AllLinked(st1) && LogOk(st1, gone + {n})
    ensures forall y <- BaseNames(st.libs[n].needed) :: y in st1.libs && st1.libs[y].stamp < st.libs[n].stamp
  {
    assert RankedAt(st, n);
    forall m ensures RankedAt(st1, m) {
      assert RankedAt(st, m);
    }
    assert !IsRunning(st, gone, n);
    forall m ensures m in Running(st.log) <==> IsRunning(st1, gone + {n}, m) {
      assert IsRunning(st, gone, m) <==> m in Running(st.log);
    }
  }

  lemma FinishInit(st: State, gone: set<Name>, n: Name)
    requires LogOk(st, gone + {n}) && n !in gone && n in st.libs && st.libs[n].inited
    requires forall y <- BaseNames(st.libs[n].needed) :: y in Running(st.log)
    ensures var st2 := st.(log := st.log + [Init(n, BaseNames(st.libs[n].needed))]);
      LogOk(st2, gone) && n in Running(st2.log) && forall m <- Running(st.log) :: m in Running(st2.log)
  {
    var e := Init(n, BaseNames(st.libs[n].needed));
    var st2 := st.(log := st.log + [e]);
    assert !IsRunning(st, gone + {n}, n);
    LogAppend(st.log, e);
    forall m ensures m in Running(st2.log) <==> IsRunning(st2, gone, m) {
      assert IsRunning(st, gone + {n}, m) <==> m in Running(st.log);
    }
  }

  lemma {:induction false} AllConstructorsKeep(st: State, gone: set<Name>, names: seq<Name>, bound: nat) returns (r: Outcome)
    requires LinkedRanked(st) && AllLinked(st) && LogOk(st, gone)
    requires forall m <- gone :: m in st.libs && bound <= st.libs[m].stamp && st.libs[m].inited
    requires forall y <- names :: y in st.libs && st.libs[y].stamp < bound
    ensures r == CallAllConstructors(st, names)
    ensures r.Fine? && LogOk(r.st, gone) && forall y <- names :: y in Running(r.st.log)
    ensures forall m <- Running(st.log) :: m in Running(r.st.log)
    decreases Uninited(st), 1 + |names|
  {
    if names == [] {
      r := Fine(st);
    } else {
      var r1 := ConstructorsKeep(st, gone, names[0]);
      OnlyInitsKeepsRanks(st, r1.st);
      r := AllConstructorsKeep(r1.st, gone, names[1..], bound);
    }
  }

  lemma OnlyInitsKeepsRanks(st1: State, st2: State)
    requires OnlyInits(st1, st2) && LinkedRanked(st1) && AllLinked(st1)
    ensures LinkedRanked(st2) && AllLinked(st2)
    ensures Uninited(st2) <= Uninited(st1)
  {
    forall m ensures RankedAt(st2, m) {
      assert RankedAt(st1, m);
    }
  }
}
