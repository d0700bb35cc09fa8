/**
 The unload cascade: it gives back exactly the references the unloaded libraries held, never takes
 a library away from one that still needs it, and never meets a null pointer as long as the
 linker's built-in libdl is needed by something that stays.
 */
module LinkerUnload {
  import opened LinkerModel
  import opened LinkerCounts
  import opened LinkerGraph
  import opened LinkerLog

  /** References owed to each library from outside the library graph. */
  type Debt = Name -> nat

  ghost function Plus(owed: Debt, n: Name): Debt {
    x => owed(x) + if x == n then 1 else 0
  }

  ghost function PlusAll(owed: Debt, names: seq<Name>): Debt {
    x => owed(x) + Count(names, x)
  }

  ghost predicate Balanced(st: State, owed: Debt, dying: set<Name>) {
    && Listed(st)
    && forall x {:trigger CountedAt(st, x, owed(x), dying)} :: CountedAt(st, x, owed(x), dying)
  }

  /** Libraries that stay for good: the program itself and what it needs, libdl among them. */
  ghost predicate Anchored(st: State, main: Name, keep: set<Name>, dying: set<Name>) {
    && (forall m <- keep :: m in st.libs && m !in dying)
    && (forall m {:trigger HeldBy(st, main, keep, m)} :: m in keep ==> HeldBy(st, main, keep, m))
    && (forall m <- st.libs :: !st.libs[m].hasDynamic ==> m in keep)
  }

  ghost predicate HeldBy(st: State, main: Name, keep: set<Name>, m: Name) {
    m == main || exists l :: Holds(st, keep, l, m)
  }

  ghost predicate Holds(st: State, keep: set<Name>, l: Name, m: Name) {
    l in keep && l in st.libs && st.libs[l].linked && Count(BaseNames(st.libs[l].needed), m) > 0
  }

  lemma AnchoredStays(st: State, dying: set<Name>, st2: State, dying2: set<Name>, main: Name, keep: set<Name>)
    requires Anchored(st, main, keep, dying)
    requires forall l <- keep :: l in st2.libs && l !in dying2
    requires forall l <- st2.libs :: l in st.libs && st2.libs[l] == st.libs[l].(refs := st2.libs[l].refs)
    ensures Anchored(st2, main, keep, dying2)
  {
    forall m | m in keep ensures m in st2.libs && m !in dying2 && HeldBy(st2, main, keep, m) {
      assert HeldBy(st, main, keep, m);
      if m != main {
        var l :| Holds(st, keep, l, m);
        assert Holds(st2, keep, l, m);
      }
    }
  }

  /** A library that stays never gives up its last reference. */
  lemma KeptIsReferenced(st: State, n: Name, rest: Debt, dying: set<Name>, main: Name, keep: set<Name>)
    requires Balanced(st, Plus(rest, n), dying) && Anchored(st, main, keep, dying)
    requires rest(main) >= 1 && n in keep
    ensures n in st.libs && st.libs[n].refs >= 2
  {
    assert CountedAt(st, n, Plus(rest, n)(n), dying);
    assert HeldBy(st, main, keep, n);
    if n != main {
      var l :| Holds(st, keep, l, n);
      assert HeldBy(st, main, keep, l);
      UsesContains(st.order, l, st.libs, dying, n);
    }
  }

  lemma DropCounted(st: State, n: Name, rest: Debt, dying: set<Name>)
    requires Balanced(st, Plus(rest, n), dying) && n in st.libs && st.libs[n].refs >= 1
    ensures Balanced(WithLib(st, n, st.libs[n].(refs := st.libs[n].refs - 1)), rest, dying)
  {
    var st2 := WithLib(st, n, st.libs[n].(refs := st.libs[n].refs - 1));
    forall x ensures CountedAt(st2, x, rest(x), dying) {
      assert CountedAt(st, x, Plus(rest, n)(x), dying);
      UsesSame(st.order, st.libs, dying, st2.libs, dying, x);
    }
  }

  /** Taking a library's last reference frees what it held. */
  lemma CascadeStarts(st: State, n: Name, rest: Debt, dying: set<Name>)
    requires Balanced(st, Plus(rest, n), dying)
    requires n in st.libs && st.libs[n].refs == 1
    ensures st.libs[n].linked && n !in dying && rest(n) == 0 && Uses(st, dying, n) == 0
    ensures Balanced(st.(log := st.log + [Fini(n)]), PlusAll(rest, BaseNames(st.libs[n].needed)), dying + {n})
  {
    assert CountedAt(st, n, Plus(rest, n)(n), dying);
    var st1, names := st.(log := st.log + [Fini(n)]), BaseNames(st.libs[n].needed);
    UsesContains(st.order, n, st.libs, dying, n);
    forall x ensures CountedAt(st1, x, PlusAll(rest, names)(x), dying + {n}) {
      assert CountedAt(st, x, Plus(rest, n)(x), dying);
      UsesChange(st.order, n, st.libs, dying, st.libs, dying + {n}, x);
    }
  }

  lemma ReleaseCounted(st: State, n: Name, rest: Debt, dying: set<Name>)
    requires Balanced(st, rest, dying + {n}) && n in st.libs && n !in dying
    ensures Balanced(Release(st, n), rest, dying)
  {
    var st2 := Release(st, n);
    ListWithout(st.order, n);
    forall x ensures CountedAt(st2, x, rest(x), dying) {
      assert CountedAt(st, x, rest(x), dying + {n});
      UsesWithout(st.order, n, st.libs, dying + {n}, x);
      UsesSame(st2.order, st.libs, dying + {n}, st2.libs, dying, x);
    }
  }

  /** A terminator runs while everything that needs the library has already been terminated. */
  lemma TerminatorInOrder(st: State, n: Name, dying: set<Name>)
    requires Listed(st) && LogOk(st, dying) && Uses(st, dying, n) == 0 && AllLinked(st) && n in Running(st.log)
    ensures LogOk(st.(log := st.log + [Fini(n)]), dying + {n})
  {
    var st1 := st.(log := st.log + [Fini(n)]);
    forall m | m in Running(st.log) ensures n !in Running(st.log)[m] {
      assert IsRunning(st, dying, m);
      UsesContains(st.order, m, st.libs, dying, n);
      CountPositive(BaseNames(st.libs[m].needed), n);
    }
    LogAppend(st.log, Fini(n));
    forall m ensures m in Running(st1.log) <==> IsRunning(st1, dying + {n}, m) {
      assert m in Running(st.log) <==> IsRunning(st, dying, m);
    }
  }

  lemma {:induction false} CountPositive(xs: seq<Name>, x: Name)
    ensures x in xs <==> Count(xs, x) > 0
  {
    if xs != [] {
      CountPositive(xs[1..], x);
    }
  }

  lemma ReleaseLogOk(st: State, n: Name, dying: set<Name>)
    requires LogOk(st, dying + {n})
    ensures LogOk(Release(st, n), dying)
  {
    forall m ensures m in Running(st.log) <==> IsRunning(Release(st, n), dying, m) {
      assert m in Running(st.log) <==> IsRunning(st, dying + {n}, m);
    }
    forall m | m in Running(st.log) ensures m != n {
      assert IsRunning(st, dying + {n}, m);
    }
  }

  /** Everything the cascade keeps. */
  ghost predicate Sound(st: State, owed: Debt, dying: set<Name>, main: Name, keep: set<Name>) {
    && Ranked(st) && AllLinked(st) && Balanced(st, owed, dying) && Anchored(st, main, keep, dying) && LogOk(st, dying)
    && forall m <- st.libs :: m !in dying && m !in keep ==> st.libs[m].refs >= 1
  }

  lemma {:induction false} UnloadKeeps(st: State, n: Name, rest: Debt, dying: set<Name>, main: Name, keep: set<Name>)
    returns (r: Outcome)
    requires Sound(st, Plus(rest, n), dying, main, keep) && rest(main) >= 1 && n in Running(st.log)
    ensures r == Unload(st, n)
    ensures r.Fine? && Sound(r.st, rest, dying, main, keep)
    ensures Pool(r.st) == Pool(st) && forall d <- dying :: d in st.libs ==> d in r.st.libs
    decreases if n in st.libs then st.libs[n].stamp + 1 else 0, 0
  {
    hide Sound, Running;
    LastReference(st, n, rest, dying, main, keep);
    if st.libs[n].refs != 1 {
      var st2 := DropKeeps(st, n, rest, dying, main, keep);
      r := Fine(st2);
    } else {
      var st1 := CascadeStartsSound(st, n, rest, dying, main, keep);
      r := UnloadAllKeeps(st1, BaseNames(st.libs[n].needed), st.libs[n].stamp, rest, dying + {n}, main, keep);
      CascadeEndsSound(r.st, n, rest, dying, main, keep);
      r := Fine(Release(r.st, n));
    }
  }

  /** A running library with one reference left is not one that stays for good. */
  lemma LastReference(st: State, n: Name, rest: Debt, dying: set<Name>, main: Name, keep: set<Name>)
    requires Sound(st, Plus(rest, n), dying, main, keep) && rest(main) >= 1 && n in Running(st.log)
    ensures Ranked(st) && n in st.libs && n !in dying && st.libs[n].refs >= 1
    ensures st.libs[n].refs == 1 ==> n !in keep && st.libs[n].hasDynamic
  {
    hide Running, Proper, UsesOf, Distinct, Elements;
    assert CountedAt(st, n, Plus(rest, n)(n), dying);
    assert IsRunning(st, dying, n);
    if n in keep {
      KeptIsReferenced(st, n, rest, dying, main, keep);
    }
  }

  lemma CascadeStartsSound(st: State, n: Name, rest: Debt, dying: set<Name>, main: Name, keep: set<Name>) returns (st1: State)
    requires Sound(st, Plus(rest, n), dying, main, keep)
    requires n in Running(st.log) && n in st.libs && st.libs[n].refs == 1 && n !in keep
    ensures st1 == st.(log := st.log + [Fini(n)]) && n !in dying
    ensures Sound(st1, PlusAll(rest, BaseNames(st.libs[n].needed)), dying + {n}, main, keep)
    ensures forall x <- BaseNames(st.libs[n].needed) :: x in st.libs ==> st.libs[x].stamp < st.libs[n].stamp
    ensures forall x <- BaseNames(st.libs[n].needed) :: x in Running(st1.log)
  {
    st1 := st.(log := st.log + [Fini(n)]);
    CascadeStarts(st, n, rest, dying);
    TerminatorInOrder(st, n, dying);
    NeededKeepRunning(st, n, dying);
    StampsBelow(st, n);
    AnchoredStays(st, dying, st1, dying + {n}, main, keep);
  }

  /** What a library needed is still running once it has been terminated. */
  lemma NeededKeepRunning(st: State, n: Name, dying: set<Name>)
    requires Ranked(st) && LogOk(st, dying) && n in Running(st.log)
    ensures forall x <- BaseNames(st.libs[n].needed) :: x in Running(st.log + [Fini(n)])
  {
    RunningIsClosed(st.log);
    assert (st.log + [Fini(n)])[..|st.log|] == st.log;
    StampsBelow(st, n);
    forall x <- BaseNames(st.libs[n].needed) ensures x in Running(st.log + [Fini(n)]) {
      assert x in Running(st.log)[n];
      assert x in st.libs && st.libs[x].stamp < st.libs[n].stamp;
    }
  }

  /** A library something still refers to stays initialised through an unload. */
  lemma StillRunning(st: State, st2: State, m: Name, rest: Debt, dying: set<Name>)
    requires Thins(st, st2) && LogOk(st, dying) && LogOk(st2, dying) && Balanced(st2, rest, dying)
    requires m in Running(st.log) && rest(m) >= 1
    ensures m in Running(st2.log)
  {
    assert IsRunning(st, dying, m);
    assert CountedAt(st2, m, rest(m), dying);
    assert IsRunning(st2, dying, m);
  }

  lemma CascadeEndsSound(st: State, n: Name, rest: Debt, dying: set<Name>, main: Name, keep: set<Name>)
    requires Sound(st, rest, dying + {n}, main, keep) && n in st.libs && n !in dying
    ensures Sound(Release(st, n), rest, dying, main, keep) && Pool(Release(st, n)) == Pool(st)
  {
    ReleaseCounted(st, n, rest, dying);
    ReleaseLogOk(st, n, dying);
    ListWithout(st.order, n);
    AnchoredStays(st, dying + {n}, Release(st, n), dying, main, keep);
  }

  lemma StampsBelow(st: State, n: Name)
    requires Ranked(st) && n in st.libs
    ensures forall x <- BaseNames(st.libs[n].needed) :: x in st.libs ==> st.libs[x].stamp < st.libs[n].stamp
  {
  }

  lemma DropKeeps(st: State, n: Name, rest: Debt, dying: set<Name>, main: Name, keep: set<Name>) returns (st2: State)
    requires Sound(st, Plus(rest, n), dying, main, keep) && n in st.libs && st.libs[n].refs >= 2
    ensures st2 == WithLib(st, n, st.libs[n].(refs := st.libs[n].refs - 1))
    ensures Sound(st2, rest, dying, main, keep)
  {
    hide Balanced, Anchored, LogOk, AllLinked, Ranked;
    st2 := WithLib(st, n, st.libs[n].(refs := st.libs[n].refs - 1));
    DropCounted(st, n, rest, dying);
    hide Running, Count;
    KeepIsLoaded(st, main, keep, dying);
    RefsOnlyKeeps(st, st2, dying);
    AnchoredStays(st, dying, st2, dying, main, keep);
  }

  lemma KeepIsLoaded(st: State, main: Name, keep: set<Name>, dying: set<Name>)
    requires Anchored(st, main, keep, dying)
    ensures forall m <- keep :: m in st.libs && m !in dying
  {
  }

  ghost predicate RefsOnly(st: State, st2: State) {
    && st2.order == st.order && st2.log == st.log && st2.clock == st.clock && st2.libs.Keys == st.libs.Keys
    && forall m <- st.libs :: st2.libs[m] == st.libs[m].(refs := st2.libs[m].refs)
  }

  lemma RefsOnlyKeeps(st: State, st2: State, dying: set<Name>)
    requires RefsOnly(st, st2) && Ranked(st) && AllLinked(st) && LogOk(st, dying)
    ensures Ranked(st2) && AllLinked(st2) && LogOk(st2, dying)
  {
    forall m ensures m in Running(st2.log) <==> IsRunning(st2, dying, m) {
      assert m in Running(st.log) <==> IsRunning(st, dying, m);
    }
  }

  lemma {:induction false} UnloadAllKeeps(st: State, names: seq<Name>, bound: nat, rest: Debt, dying: set<Name>,
                                          main: Name, keep: set<Name>)
    returns (r: Outcome)
    requires Sound(st, PlusAll(rest, names), dying, main, keep) && rest(main) >= 1
    requires forall x <- names :: x in Running(st.log)
    requires forall x <- names :: x in st.libs ==> st.libs[x].stamp < bound
    ensures r == UnloadAll(st, names, bound)
    ensures r.Fine? && Sound(r.st, rest, dying, main, keep)
    ensures Pool(r.st) == Pool(st) && forall d <- dying :: d in st.libs ==> d in r.st.libs
    decreases bound, 1 + |names|
  {
    if names == [] {
      SameDebt(st, PlusAll(rest, names), rest, dying);
      r := Fine(st);
    } else {
      DebtSplit(rest, names);
      SameDebt(st, PlusAll(rest, names), Plus(PlusAll(rest, names[1..]), names[0]), dying);
      r := UnloadKeeps(st, names[0], PlusAll(rest, names[1..]), dying, main, keep);
      forall x <- names[1..] ensures x in Running(r.st.log) {
        CountPositive(names[1..], x);
        StillRunning(st, r.st, x, PlusAll(rest, names[1..]), dying);
      }
      r := UnloadAllKeeps(r.st, names[1..], bound, rest, dying, main, keep);
    }
  }

  lemma DebtSplit(rest: Debt, names: seq<Name>)
    requires names != []
    ensures forall x :: PlusAll(rest, names)(x) == Plus(PlusAll(rest, names[1..]), names[0])(x)
  {
    forall x ensures PlusAll(rest, names)(x) == Plus(PlusAll(rest, names[1..]), names[0])(x) {
      assert Count(names, x) == (if names[0] == x then 1 else 0) + Count(names[1..], x);
    }
  }

  lemma SameDebt(st: State, a: Debt, b: Debt, dying: set<Name>)
    requires Balanced(st, a, dying) && forall x :: a(x) == b(x)
    ensures Balanced(st, b, dying)
  {
    forall x ensures CountedAt(st, x, b(x), dying) {
      assert CountedAt(st, x, a(x), dying);
    }
  }
}
