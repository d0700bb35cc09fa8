/**
 The shape of the library graph: linked libraries never form a cycle, everything a linked library
 needs is linked, and a load only ever adds linked libraries that something refers to.
 */
module LinkerGraph {
  import opened LinkerModel
  import opened LinkerCounts

  /** What a linked library needs is linked, and was linked before it. */
  ghost predicate RankedAt(st: State, n: Name) {
    n in st.libs && st.libs[n].linked ==>
      && st.libs[n].stamp < st.clock
      && forall y <- st.libs[n].needed ::
           BaseName(y) in st.libs && st.libs[BaseName(y)].linked && st.libs[BaseName(y)].stamp < st.libs[n].stamp
  }

  ghost predicate LinkedRanked(st: State) {
    forall n {:trigger RankedAt(st, n)} :: RankedAt(st, n)
  }

  /**
   A library that appeared between st1 and st2 is linked, not initialised, and referred to, except
   that nothing refers yet to the one in `except`.
   */
  ghost predicate NewOnesLinked(st1: State, st2: State, except: set<Name>) {
    forall m <- st2.libs :: m !in st1.libs ==>
      && st2.libs[m].hasDynamic && !st2.libs[m].inited
      && st2.libs[m].linked && (m !in except ==> st2.libs[m].refs >= 1)
  }

  lemma {:induction false} FindLibraryRanks(files: Files, st: State, name: Path) returns (r: Loaded)
    requires LinkedRanked(st)
    ensures r == FindLibrary(files, st, name)
    ensures LinkedRanked(r.st) && NewOnesLinked(st, r.st, {})
    decreases Missing(files, st), 0, 2
  {
    r := FindInternalRanks(files, st, name);
    if r.ok {
      var r' := Loaded(Referenced(r.st, BaseName(name)), true);
      forall n ensures RankedAt(r'.st, n) {
        assert RankedAt(r.st, n);
      }
      r := r';
    }
  }

  lemma {:induction false} FindInternalRanks(files: Files, st: State, name: Path) returns (r: Loaded)
    requires LinkedRanked(st)
    ensures r == FindLibraryInternal(files, st, name)
    ensures LinkedRanked(r.st) && NewOnesLinked(st, r.st, if r.ok then {BaseName(name)} else {})
    decreases Missing(files, st), 0, 1
  {
    var n := BaseName(name);
    if n !in st.libs && Loadable(files, st, name) {
      var st1 := Alloc(st, n, files[name].needed);
      forall m ensures RankedAt(st1, m) {
        assert RankedAt(st, m);
      }
      assert name in Missing(files, st) && name !in Missing(files, st1);
      r := LinkImageRanks(files, st1, files[name]);
      FinishLoadRanks(r, n, files[name].relocOk);
      r := FinishLoad(r, n, files[name].relocOk);
    } else {
      r := Loaded(st, n in st.libs && st.libs[n].linked);
    }
  }

  lemma FinishLoadRanks(r: Loaded, n: Name, relocOk: bool)
    requires LinkedRanked(r.st) && n in r.st.libs && !r.st.libs[n].linked
    requires r.ok ==> forall x <- r.st.libs[n].needed :: BaseName(x) in r.st.libs && r.st.libs[BaseName(x)].linked
    ensures LinkedRanked(FinishLoad(r, n, relocOk).st)
  {
    var st2 := FinishLoad(r, n, relocOk).st;
    forall m ensures RankedAt(st2, m) {
      assert RankedAt(r.st, m);
      if m in r.st.libs && r.st.libs[m].linked {
        forall y <- r.st.libs[m].needed ensures BaseName(y) != n {
        }
      } else if m == n && r.ok && relocOk {
        forall y <- r.st.libs[n].needed ensures r.st.libs[BaseName(y)].stamp < r.st.clock {
          assert RankedAt(r.st, BaseName(y));
        }
      }
    }
  }

  lemma {:induction false} LinkImageRanks(files: Files, st: State, file: ElfFile) returns (r: Loaded)
    requires LinkedRanked(st)
    ensures r == LinkImage(files, st, file)
    ensures LinkedRanked(r.st) && NewOnesLinked(st, r.st, {})
    decreases Missing(files, st), 2, 0
  {
    if file.headerOk {
      r := LinkNeededRanks(files, st, file.needed);
    } else {
      r := Loaded(st, false);
    }
  }

  lemma {:induction false} LinkNeededRanks(files: Files, st: State, names: seq<Path>) returns (r: Loaded)
    requires LinkedRanked(st)
    ensures r == LinkNeeded(files, st, names)
    ensures LinkedRanked(r.st) && NewOnesLinked(st, r.st, {})
    decreases Missing(files, st), 1, |names|
  {
    if names == [] {
      r := Loaded(st, true);
    } else {
      var r1 := FindLibraryRanks(files, st, names[0]);
      r := r1;
      if r1.ok {
        MissingShrinks(files, st, r1.st);
        r := LinkNeededRanks(files, r1.st, names[1..]);
      }
    }
  }
}
