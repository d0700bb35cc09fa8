/** Processes on which the linker does less than it should. */
module LinkerFailures {
  import opened LinkerModel
  import opened LinkerLeaks
  import opened LinkerCounts
  import opened LinkerLog
  import opened LinkerProcess
  import opened LinkerStartup
  import opened LinkerTheorems

  const APP := Name("app")

  // ---- a reference that is never given back ----

  /** a.so needs b.so, which is there, and c.so, which is not. */
  function HalfThere(): Files {
    map["a.so" := ElfFile(true, ["b.so", "c.so"], true), "b.so" := ElfFile(true, [], true)]
  }

  lemma BareNames()
    ensures BaseName("libdl.so") == LIBDL && BaseName("a.so") == Name("a.so")
    ensures BaseName("b.so") == Name("b.so") && BaseName("c.so") == Name("c.so")
  {
    PlainNameIsItself("libdl.so");
    PlainNameIsItself("a.so");
    PlainNameIsItself("b.so");
    PlainNameIsItself("c.so");
  }

  lemma AppLinks(files: Files, free: nat)
    requires free > 0
    ensures var st1 := Alloc(Bare(free), APP, ["libdl.so"]);
      LIBDL in st1.libs && LinkNeeded(files, st1, ["libdl.so"]) == Loaded(Referenced(st1, LIBDL), true)
  {
    BareNames();
    var st1 := Alloc(Bare(free), APP, ["libdl.so"]);
    hide FindLibrary, Alloc;
    assert LIBDL in st1.libs && st1.libs[LIBDL].linked;
    FindsWhatIsLinked(files, st1, "libdl.so");
    assert ["libdl.so"][1..] == [];
  }

  /** The program needs libdl and nothing else. */
  lemma AppStarts(files: Files, free: nat) returns (st: State)
    requires free > 0
    ensures Started(files, APP, ["libdl.so"], free, st)
    ensures st.libs.Keys == {LIBDL, APP} && st.free == free - 1
    ensures Ranked(st)
    ensures st.libs[LIBDL].needed == [] && st.libs[APP].needed == ["libdl.so"]
  {
    hide LinkNeeded, CallConstructors, ProcessOk, Startup, LogOk, BaseName, AfterLastSlash;
    AppLinks(files, free);
    st := StartsIfLinked(files, APP, ["libdl.so"], free);
    StartupOk(files, APP, ["libdl.so"], free, st);
    RanksAgree(st);
  }

  /** The state with b.so loaded and given one reference. */
  function WithB(st: State): State
    requires st.free >= 1
  {
    var b := Name("b.so");
    Referenced(Linked(Alloc(st, b, []), b), b)
  }

  lemma LoopFails(st1: State)
    requires Name("b.so") !in st1.libs && Name("c.so") !in st1.libs && st1.free >= 1
    ensures LinkNeeded(HalfThere(), st1, ["b.so", "c.so"]) == Loaded(WithB(st1), false)
    ensures LostByLoop(HalfThere(), st1, ["b.so", "c.so"]) == multiset{Name("b.so")}
  {
    hide WithB;
    var files := HalfThere();
    BareNames();
    LoadsB(st1);
    CIsMissing(WithB(st1));
    assert ["b.so", "c.so"][1..] == ["c.so"];
  }

  lemma CIsMissing(st: State)
    requires Name("c.so") !in st.libs
    ensures LinkNeeded(HalfThere(), st, ["c.so"]) == Loaded(st, false)
    ensures LostByLoop(HalfThere(), st, ["c.so"]) == multiset{}
  {
    BareNames();
    assert FindLibraryInternal(HalfThere(), st, "c.so") == Loaded(st, false);
  }

  lemma LoadsBThenFails(st: State)
    requires Name("a.so") !in st.libs && Name("b.so") !in st.libs && Name("c.so") !in st.libs && st.free >= 2
    ensures var st1 := Alloc(st, Name("a.so"), ["b.so", "c.so"]);
      FindLibrary(HalfThere(), st, "a.so") == Loaded(Release(WithB(st1), Name("a.so")), false)
    ensures LostByFind(HalfThere(), st, "a.so") == multiset{Name("b.so")}
  {
    hide WithB, LinkNeeded, LostByLoop;
    var files, a := HalfThere(), Name("a.so");
    BareNames();
    var st1 := Alloc(st, a, ["b.so", "c.so"]);
    LoopFails(st1);
    assert LinkImage(files, st1, files["a.so"]) == Loaded(WithB(st1), false);
    assert FindLibraryInternal(files, st, "a.so") == FinishLoad(Loaded(WithB(st1), false), a, true);
  }

  lemma LoadsB(st1: State)
    requires Name("b.so") !in st1.libs && st1.free >= 1
    ensures FindLibrary(HalfThere(), st1, "b.so") == Loaded(WithB(st1), true)
    ensures Name("c.so") !in st1.libs ==> Name("c.so") !in WithB(st1).libs
  {
    var files := HalfThere();
    BareNames();
    var st2 := Alloc(st1, Name("b.so"), []);
    assert LinkImage(files, st2, ElfFile(true, [], true)) == Loaded(st2, true);
    assert FindLibraryInternal(files, st1, "b.so") == FinishLoad(Loaded(st2, true), Name("b.so"), true);
  }

  /**
   Opening a.so fails, and b.so is left loaded for good: it was never initialised, no handle is open,
   and nothing that is loaded needs it.
   */
  lemma FailedLoadLeavesALibrary(more: seq<Op>) returns (st: State)
    ensures Started(HalfThere(), APP, ["libdl.so"], 3, st)
    ensures var h := Afterwards(HalfThere(), APP, st, [Open(Some("a.so"))]);
      && h.Up? && h.p.handles == multiset{}
      && Name("b.so") in h.p.st.libs && !h.p.st.libs[Name("b.so")].inited && h.p.st.libs[Name("b.so")].refs == 1
      && !Reachable(h.p, APP, Name("b.so"))
      && Run(HalfThere(), APP, h.p, more).Up? && Name("b.so") in Run(HalfThere(), APP, h.p, more).p.st.libs
  {
    hide LostByFind, FindLibrary, Started, CallConstructors;
    var files, b := HalfThere(), Name("b.so");
    st := AppStarts(files, 3);
    var p := AFails(st);
    NobodyNeedsB(p);
    LostIsNeverUnloaded(files, APP, ["libdl.so"], 3, st, [Open(Some("a.so"))], more, b);
  }

  lemma AFails(st: State) returns (p: Process)
    requires st.libs.Keys == {LIBDL, APP} && st.free == 2 && Ranked(st)
    requires st.libs[LIBDL].needed == [] && st.libs[APP].needed == ["libdl.so"]
    ensures Afterwards(HalfThere(), APP, st, [Open(Some("a.so"))]) == Up(p)
    ensures p.handles == multiset{} && p.lost == multiset{Name("b.so")} && p.st.libs.Keys == {LIBDL, APP, Name("b.so")}
    ensures p.st.libs[LIBDL].needed == [] && p.st.libs[APP].needed == ["libdl.so"]
    ensures var l := p.st.libs[Name("b.so")]; !l.inited && l.refs == 1 && l.needed == []
  {
    hide LostByFind, FindLibrary;
    var files := HalfThere();
    LoadsBThenFails(st);
    var r := FindLibrary(files, st, "a.so");
    var p0 := Process(st, multiset{}, multiset{});
    p := Process(r.st, multiset{}, multiset{} + multiset{Name("b.so")});
    assert Step(files, APP, p0, Open(Some("a.so"))) == Up(p);
    assert [Open(Some("a.so"))][1..] == [];
    assert Run(files, APP, p, []) == Up(p);
  }

  lemma NobodyNeedsB(p: Process)
    requires p.handles == multiset{} && p.st.libs.Keys == {LIBDL, APP, Name("b.so")}
    requires p.st.libs[LIBDL].needed == [] && p.st.libs[APP].needed == ["libdl.so"] && p.st.libs[Name("b.so")].needed == []
    ensures !Reachable(p, APP, Name("b.so"))
  {
    hide NeedsDirectly;
    if Reachable(p, APP, Name("b.so")) {
      var l :| Leads(p.st, l, Name("b.so")) && l == APP;
      var path :| IsPath(p.st, path) && path[0] == l && path[|path| - 1] == Name("b.so");
      assert |path| > 1;
      var k := |path| - 2;
      assert NeedsDirectly(p.st, path[k], path[k + 1]);
      NoEdgeToB(p.st, path[k]);
    }
  }

  lemma NoEdgeToB(st: State, l: Name)
    requires st.libs.Keys == {LIBDL, APP, Name("b.so")}
    requires st.libs[LIBDL].needed == [] && st.libs[APP].needed == ["libdl.so"] && st.libs[Name("b.so")].needed == []
    ensures !NeedsDirectly(st, l, Name("b.so"))
  {
    hide BaseName;
    BareNames();
    assert BaseNames(["libdl.so"]) == [LIBDL];
    if l in st.libs {
      assert l == LIBDL || l == APP || l == Name("b.so");
    }
  }

  // ---- libdl without a reference ----

  /** A program that needs nothing can open and close libdl once; closing it follows a null pointer. */
  lemma LibdlFaults() returns (st: State)
    ensures Startup(map[], APP, [], 1) == Some(st)
    ensures Afterwards(map[], APP, st, [Open(Some("libdl.so")), Close(LIBDL)]) == Crashed
  {
    BareNames();
    st := StartsIfLinked(map[], APP, [], 1);
    UnreferencedLibdlFaults(map[], APP, [], 1, st, "libdl.so");
  }
}
