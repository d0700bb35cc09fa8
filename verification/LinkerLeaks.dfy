/**
 What a failed load costs: references that its finished dependencies were given and that nobody gives
 back.  And when it costs nothing.
 */
module LinkerLeaks {
  import opened LinkerModel

  /** The references a find_library that fails has handed out; none if it succeeds. */
  function LostByFind(files: Files, st: State, name: Path): multiset<Name>
    decreases Missing(files, st), 0, 1
  {
    var n := BaseName(name);
    if n in st.libs || !Loadable(files, st, name) || !files[name].headerOk then multiset{}
    else
      var st1, needed := Alloc(st, n, files[name].needed), files[name].needed;
      assert name in Missing(files, st) && name !in Missing(files, st1);
      if !LinkNeeded(files, st1, needed).ok then LostByLoop(files, st1, needed)
      else if files[name].relocOk then multiset{} else multiset(BaseNames(needed))
  }

  /** The same for a DT_NEEDED loop: what it collected before a library could not be found. */
  function LostByLoop(files: Files, st: State, names: seq<Path>): multiset<Name>
    decreases Missing(files, st), 1, |names|
  {
    if names == [] then multiset{}
    else
      var r := FindLibrary(files, st, names[0]);
      MissingShrinks(files, st, r.st);
      if !r.ok then LostByFind(files, st, names[0])
      else if LinkNeeded(files, r.st, names[1..]).ok then multiset{}
      else multiset{BaseName(names[0])} + LostByLoop(files, r.st, names[1..])
  }

  /** Whether a library that is not on solist yet can be loaded. */
  lemma LoadsIf(files: Files, st: State, name: Path)
    requires BaseName(name) !in st.libs && Loadable(files, st, name)
    ensures var file, st1 := files[name], Alloc(st, BaseName(name), files[name].needed);
      FindLibrary(files, st, name).ok <==> file.headerOk && file.relocOk && LinkNeeded(files, st1, file.needed).ok
    ensures var n, st2 := BaseName(name), LinkNeeded(files, Alloc(st, BaseName(name), files[name].needed), files[name].needed).st;
      n in st2.libs && (FindLibrary(files, st, name).ok ==> FindLibrary(files, st, name).st == Referenced(Linked(st2, n), n))
  {
    var file, st1 := files[name], Alloc(st, BaseName(name), files[name].needed);
    assert FindLibraryInternal(files, st, name) == FinishLoad(LinkImage(files, st1, file), BaseName(name), file.relocOk);
  }

  lemma LoopGoesOn(files: Files, st: State, names: seq<Path>)
    requires names != []
    ensures LinkNeeded(files, st, names).ok <==>
      FindLibrary(files, st, names[0]).ok && LinkNeeded(files, FindLibrary(files, st, names[0]).st, names[1..]).ok
  {
  }

  lemma NothingNeeded(files: Files, st: State)
    ensures LinkNeeded(files, st, []) == Loaded(st, true) && BaseNames([]) == []
  {
  }

  lemma SuccessLosesNothing(files: Files, st: State, name: Path)
    requires FindLibrary(files, st, name).ok
    ensures LostByFind(files, st, name) == multiset{}
  {
    if BaseName(name) !in st.libs && Loadable(files, st, name) {
      LoadsIf(files, st, name);
    }
  }

  /**
   The load fails before any library it needs has been found: following the first entry of each
   library leads to one that cannot be loaded, and not to one that can.
   */
  predicate FailsEarly(files: Files, st: State, name: Path)
    decreases Missing(files, st)
  {
    var n := BaseName(name);
    if n in st.libs then !st.libs[n].linked
    else if !Loadable(files, st, name) || !files[name].headerOk then true
    else if files[name].needed == [] then !files[name].relocOk
    else
      var st1 := Alloc(st, n, files[name].needed);
      assert name in Missing(files, st) && name !in Missing(files, st1);
      FailsEarly(files, st1, files[name].needed[0])
  }

  /** A load fails without loss exactly if it fails early. */
  lemma {:induction false} FailsWithoutLossIff(files: Files, st: State, name: Path)
    ensures !FindLibrary(files, st, name).ok && LostByFind(files, st, name) == multiset{} <==> FailsEarly(files, st, name)
    decreases Missing(files, st)
  {
    var n := BaseName(name);
    if n in st.libs || !Loadable(files, st, name) {
    } else if !files[name].headerOk || files[name].needed == [] {
      LoadsIf(files, st, name);
      NothingNeeded(files, Alloc(st, n, files[name].needed));
    } else {
      var st1, needed := Alloc(st, n, files[name].needed), files[name].needed;
      assert name in Missing(files, st) && name !in Missing(files, st1);
      LoadsIf(files, st, name);
      LoopGoesOn(files, st1, needed);
      FailsWithoutLossIff(files, st1, needed[0]);
      assert BaseNames(needed)[0] in multiset(BaseNames(needed));
      if FindLibrary(files, st1, needed[0]).ok {
        SuccessLosesNothing(files, st1, needed[0]);
        assert !LinkNeeded(files, st1, needed).ok ==> BaseName(needed[0]) in LostByLoop(files, st1, needed);
      }
    }
  }
}
