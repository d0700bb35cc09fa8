/** Start-up of a process: the program and all it needs, linked, counted and initialised. */
module LinkerStartup {
  import opened LinkerModel
  import opened LinkerLeaks
  import opened LinkerCounts
  import opened LinkerGraph
  import opened LinkerLog
  import opened LinkerUnload
  import opened LinkerProcess

  ghost function Nothing(): Debt { x => 0 }

  // ---- start-up ----

  lemma BareIsFine(free: nat, x: Name)
    ensures Listed(Bare(free)) && CountedAt(Bare(free), x, 0, {})
    ensures LinkedRanked(Bare(free)) && Pool(Bare(free)) == free + 1
  {
    var st := Bare(free);
    assert st.order == [LIBDL] && st.order[1..] == [];
    assert Elements(st.order) == {LIBDL};
    assert Count(BaseNames(st.libs[LIBDL].needed), x) == 0;
    assert UsesOf(st.order[1..], st.libs, {}, x) == 0;
    forall n ensures RankedAt(st, n) {
    }
  }

  // ---- the program's own reference, counted before it is linked ----

  lemma ReferencedTwice(st: State, m: Name, n: Name)
    requires n in st.libs && m in st.libs
    ensures n in Referenced(st, m).libs && m in Referenced(st, n).libs
    ensures Referenced(Referenced(st, n), m) == Referenced(Referenced(st, m), n)
    ensures m != n ==> Referenced(st, m).libs[n] == st.libs[n]
  {
    if m != n {
      assert Referenced(Referenced(st, n), m).libs == Referenced(Referenced(st, m), n).libs;
    }
  }

  lemma AllocReferenced(st: State, m: Name, needed: seq<Path>, n: Name)
    requires n in st.libs && m !in st.libs && st.free > 0
    ensures Alloc(Referenced(st, n), m, needed) == Referenced(Alloc(st, m, needed), n)
    ensures Alloc(st, m, needed).libs.Keys == st.libs.Keys + {m} && Alloc(st, m, needed).libs[n] == st.libs[n]
  {
    assert Alloc(Referenced(st, n), m, needed).libs == Referenced(Alloc(st, m, needed), n).libs;
  }

  lemma FinishReferenced(r: Loaded, m: Name, relocOk: bool, n: Name)
    requires n in r.st.libs && m in r.st.libs && m != n
    ensures var f := FinishLoad(r, m, relocOk);
      && n in f.st.libs && f.st.libs[n] == r.st.libs[n]
      && FinishLoad(Loaded(Referenced(r.st, n), r.ok), m, relocOk) == Loaded(Referenced(f.st, n), f.ok)
  {
    var f, g := FinishLoad(r, m, relocOk), FinishLoad(Loaded(Referenced(r.st, n), r.ok), m, relocOk);
    assert g.st.libs == Referenced(f.st, n).libs;
  }

  lemma ReferencedKeys(st: State, n: Name)
    requires n in st.libs
    ensures Referenced(st, n).libs.Keys == st.libs.Keys && Referenced(st, n).free == st.free
    ensures forall m <- st.libs :: Referenced(st, n).libs[m].linked == st.libs[m].linked
  {
  }

  /** A library that is being linked is not touched by the loads this leads to. */
  lemma {:induction false} FindCommutes(files: Files, st: State, name: Path, n: Name)
    requires n in st.libs && !st.libs[n].linked
    ensures var r := FindLibrary(files, st, name);
      && n in r.st.libs && !r.st.libs[n].linked
      && FindLibrary(files, Referenced(st, n), name) == Loaded(Referenced(r.st, n), r.ok)
    decreases Missing(files, st), 0, 2
  {
    hide Referenced, FindLibraryInternal;
    InternalCommutes(files, st, name, n);
    var r := FindLibraryInternal(files, st, name);
    if r.ok {
      ReferencedTwice(r.st, BaseName(name), n);
    }
  }

  lemma {:induction false} InternalCommutes(files: Files, st: State, name: Path, n: Name)
    requires n in st.libs && !st.libs[n].linked
    ensures var r := FindLibraryInternal(files, st, name);
      && n in r.st.libs && !r.st.libs[n].linked
      && FindLibraryInternal(files, Referenced(st, n), name) == Loaded(Referenced(r.st, n), r.ok)
    decreases Missing(files, st), 0, 1
  {
    hide Referenced, Alloc, FinishLoad, LinkImage;
    var m := BaseName(name);
    ReferencedKeys(st, n);
    if m !in st.libs && Loadable(files, st, name) {
      var file := files[name];
      var st1 := Alloc(st, m, file.needed);
      AllocReferenced(st, m, file.needed, n);
      assert name in Missing(files, st) && name !in Missing(files, st1);
      ImageCommutes(files, st1, file, n);
      FinishReferenced(LinkImage(files, st1, file), m, file.relocOk, n);
    }
  }

  lemma {:induction false} ImageCommutes(files: Files, st: State, file: ElfFile, n: Name)
    requires n in st.libs && !st.libs[n].linked
    ensures var r := LinkImage(files, st, file);
      && n in r.st.libs && !r.st.libs[n].linked
      && LinkImage(files, Referenced(st, n), file) == Loaded(Referenced(r.st, n), r.ok)
    decreases Missing(files, st), 2, 0
  {
    if file.headerOk {
      NeededCommutes(files, st, file.needed, n);
    }
  }

  lemma {:induction false} NeededCommutes(files: Files, st: State, names: seq<Path>, n: Name)
    requires n in st.libs && !st.libs[n].linked
    ensures var r := LinkNeeded(files, st, names);
      && n in r.st.libs && !r.st.libs[n].linked
      && LinkNeeded(files, Referenced(st, n), names) == Loaded(Referenced(r.st, n), r.ok)
    decreases Missing(files, st), 1, |names|
  {
    if names != [] {
      FindCommutes(files, st, names[0], n);
      var r := FindLibrary(files, st, names[0]);
      if r.ok {
        MissingShrinks(files, st, r.st);
        NeededCommutes(files, r.st, names[1..], n);
      }
    }
  }

  /** The state before initialisers: everything counted, linked and ranked. */
  lemma ProgramLinked(files: Files, main: Name, needed: seq<Path>, free: nat) returns (r: Loaded)
    requires main != LIBDL && free > 0
    ensures r == LinkImage(files, Alloc(Bare(free), main, needed), ElfFile(true, needed, true))
    ensures main in r.st.libs
    ensures r.ok ==>
      && LinkedRanked(Linked(r.st, main)) && AllLinked(Linked(r.st, main))
      && Balanced(Linked(r.st, main), Nothing(), {})
      && Pool(r.st) == free + 1
      && (forall m <- r.st.libs :: m != main && m != LIBDL ==> r.st.libs[m].refs >= 1)
      && (forall m <- r.st.libs :: !r.st.libs[m].inited && (!r.st.libs[m].hasDynamic ==> m == LIBDL))
      && r.st.log == []
  {
    r := ProgramRanked(files, main, needed, free);
    if r.ok {
      forall x ensures Listed(Linked(r.st, main)) && CountedAt(Linked(r.st, main), x, Nothing()(x), {}) {
        ProgramCounted(files, main, needed, free, x);
      }
      ProgramCounted(files, main, needed, free, main);
    }
  }

  lemma ProgramRanked(files: Files, main: Name, needed: seq<Path>, free: nat) returns (r: Loaded)
    requires main != LIBDL && free > 0
    ensures r == LinkImage(files, Alloc(Bare(free), main, needed), ElfFile(true, needed, true))
    ensures main in r.st.libs
    ensures NewOnesLinked(Alloc(Bare(free), main, needed), r.st, {})
    ensures r.ok ==> LinkedRanked(Linked(r.st, main))
  {
    var st0 := Bare(free);
    var st1 := Alloc(st0, main, needed);
    BareIsFine(free, main);
    forall m ensures RankedAt(st1, m) {
      assert RankedAt(st0, m);
    }
    r := LinkImageRanks(files, st1, ElfFile(true, needed, true));
    FinishLoadRanks(r, main, true);
  }

  lemma ProgramCounted(files: Files, main: Name, needed: seq<Path>, free: nat, x: Name)
    requires main != LIBDL && free > 0
    ensures var r := LinkImage(files, Alloc(Bare(free), main, needed), ElfFile(true, needed, true));
      && Pool(r.st) == free + 1
      && (r.ok ==> Listed(Linked(r.st, main)) && CountedAt(Linked(r.st, main), x, 0, {}))
  {
    hide CountedAt, Listed, LostByLoop, LinkNeeded;
    BareIsFine(free, x);
    AllocCounted(Bare(free), main, needed, x, 0);
    var r := LinkImageCounts(files, Alloc(Bare(free), main, needed), ElfFile(true, needed, true), x, 0);
    if r.ok {
      LinkCounted(r.st, main, x, 0);
    }
  }

  lemma NothingRunning(st: State)
    requires st.log == [] && forall m <- st.libs :: !st.libs[m].inited
    ensures LogOk(st, {})
  {
    forall n ensures n in Running(st.log) <==> IsRunning(st, {}, n) {
    }
  }

  /** The same once the program's own reference is counted. */
  lemma ProgramReferenced(files: Files, main: Name, needed: seq<Path>, free: nat) returns (r: Loaded)
    requires main != LIBDL && free > 0
    ensures r == LinkImage(files, Alloc(Bare(free), main, needed), ElfFile(true, needed, true))
    ensures main in r.st.libs
    ensures r.ok ==> var st := Referenced(Linked(r.st, main), main);
      && Orderly(st) && Balanced(st, Plus(Nothing(), main), {})
      && Pool(st) == free + 1
      && (forall m <- st.libs :: m != LIBDL ==> st.libs[m].refs >= 1 && st.libs[m].hasDynamic)
  {
    r := ProgramLinked(files, main, needed, free);
    if r.ok {
      var st1 := Linked(r.st, main);
      NothingRunning(st1);
      ReferencedOrderly(st1, main);
      ReferenceBalances(st1, main, Nothing());
    }
  }

  /** It makes no difference that the program is counted before it is linked. */
  lemma ProgramCountedFirst(files: Files, main: Name, needed: seq<Path>, free: nat)
    requires main != LIBDL && free > 0
    ensures var st1, file := Alloc(Bare(free), main, needed), ElfFile(true, needed, true);
      var r, r' := LinkImage(files, st1, file), LinkImage(files, Referenced(st1, main), file);
      && main in r.st.libs && main in r'.st.libs
      && r'.ok == r.ok && Linked(r'.st, main) == Referenced(Linked(r.st, main), main)
  {
    hide LinkImage;
    var st1, file := Alloc(Bare(free), main, needed), ElfFile(true, needed, true);
    ImageCommutes(files, st1, file, main);
    LinkedReferenced(LinkImage(files, st1, file).st, main);
  }

  lemma LinkedReferenced(st: State, n: Name)
    requires n in st.libs
    ensures Linked(Referenced(st, n), n) == Referenced(Linked(st, n), n)
  {
    assert Linked(Referenced(st, n), n).libs == Referenced(Linked(st, n), n).libs;
  }

  /** Start-up leaves a sound process, provided something the program needs also needs libdl. */
  lemma StartupOk(files: Files, main: Name, needed: seq<Path>, free: nat, st: State)
    requires Startup(files, main, needed, free) == Some(st)
    ensures main in st.libs && LIBDL in st.libs && Pool(st) == free + 1
    ensures Orderly(st)
    ensures st.libs[LIBDL].linked && !st.libs[LIBDL].hasDynamic && st.libs[LIBDL].needed == []
    ensures st.libs[LIBDL].refs >= 1 ==> ProcessOk(Process(st, multiset{}, multiset{}), main, st.libs.Keys)
  {
    hide LinkImage, CallConstructors, Orderly, ProcessOk, Balanced;
    var r := ProgramReferenced(files, main, needed, free);
    ProgramCountedFirst(files, main, needed, free);
    StartupFinishes(Referenced(Linked(r.st, main), main), main, st);
  }

  /** A program whose libraries can be loaded is started; its initialisers change no more than flags. */
  lemma StartsIfLinked(files: Files, main: Name, needed: seq<Path>, free: nat) returns (st: State)
    requires main != LIBDL && |main.text| < SOINFO_NAME_LEN && free > 0
    requires LinkNeeded(files, Alloc(Bare(free), main, needed), needed).ok
    ensures Startup(files, main, needed, free) == Some(st)
    ensures var st1 := LinkNeeded(files, Alloc(Bare(free), main, needed), needed).st;
      main in st1.libs && OnlyInits(Referenced(Linked(st1, main), main), st)
  {
    var r := ProgramReferenced(files, main, needed, free);
    assert r == LinkNeeded(files, Alloc(Bare(free), main, needed), needed);
    ProgramCountedFirst(files, main, needed, free);
    var c := InitsOrderly(Referenced(Linked(r.st, main), main), main);
    st := c.st;
  }

  /** And no other is. */
  lemma StartsIff(files: Files, main: Name, needed: seq<Path>, free: nat)
    ensures Startup(files, main, needed, free).Some? <==>
      main != LIBDL && |main.text| < 128 && free > 0 && LinkNeeded(files, Alloc(Bare(free), main, needed), needed).ok
  {
    hide CallConstructors, LinkNeeded;
    if main != LIBDL && |main.text| < 128 && free > 0 {
      if LinkNeeded(files, Alloc(Bare(free), main, needed), needed).ok {
        var st := StartsIfLinked(files, main, needed, free);
      } else {
        ProgramCountedFirst(files, main, needed, free);
      }
    }
  }

  lemma StartupFinishes(st2: State, main: Name, st: State)
    requires Orderly(st2) && Balanced(st2, Plus(Nothing(), main), {}) && CallConstructors(st2, main) == Fine(st)
    requires main in st2.libs && LIBDL in st2.libs
    requires forall m <- st2.libs :: m != LIBDL ==> st2.libs[m].refs >= 1 && st2.libs[m].hasDynamic
    ensures Orderly(st) && OnlyInits(st2, st)
    ensures st.libs[LIBDL].refs >= 1 ==> ProcessOk(Process(st, multiset{}, multiset{}), main, st.libs.Keys)
  {
    hide LinkedRanked, AllLinked, LogOk, Balanced, Anchored, CallConstructors, Running, Ranked;
    var c := InitsOrderly(st2, main);
    if st.libs[LIBDL].refs >= 1 {
      StartupSound(st2, main);
      SameDebtSound(st, Plus(Nothing(), main), Owed(main, multiset{}, multiset{}), main, st.libs.Keys);
    }
  }

  lemma StartupSound(st: State, main: Name)
    requires Orderly(st) && Balanced(st, Plus(Nothing(), main), {})
    requires main in st.libs && forall m <- st.libs :: st.libs[m].refs >= 1
    ensures CallConstructors(st, main).Fine?
    ensures var st2 := CallConstructors(st, main).st;
      Sound(st2, Plus(Nothing(), main), {}, main, st2.libs.Keys) && main in Running(st2.log)
  {
    EverythingHeld(st, main);
    RanksAgree(st);
    var c := InitsKeepSound(st, main, Plus(Nothing(), main), main, st.libs.Keys);
  }

  /** At start-up whatever is referred to is needed by something loaded. */
  lemma EverythingHeld(st: State, main: Name)
    requires Balanced(st, Plus(Nothing(), main), {}) && AllLinked(st)
    requires forall m <- st.libs :: m != main ==> st.libs[m].refs >= 1
    ensures Anchored(st, main, st.libs.Keys, {})
  {
    forall m | m in st.libs.Keys ensures HeldBy(st, main, st.libs.Keys, m) {
      if m != main {
        assert CountedAt(st, m, Plus(Nothing(), main)(m), {});
        var l := UserOf(st.order, st.libs, {}, m);
        assert Holds(st, st.libs.Keys, l, m);
      }
    }
  }

  ghost predicate Started(files: Files, main: Name, needed: seq<Path>, free: nat, st: State) {
    Startup(files, main, needed, free) == Some(st) && LIBDL in st.libs && st.libs[LIBDL].refs >= 1
  }
}
