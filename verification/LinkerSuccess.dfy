/** When a library can be loaded: exactly when what it needs can be put in an order to load it in. */
module LinkerSuccess {
  import opened LinkerModel
  import opened LinkerLeaks

  /** A name the load may come to ask for. */
  predicate Asked(files: Files, name: Path, x: Path) {
    x == name || exists p <- files :: x in files[p].needed
  }

  /** Paths that end alike lead to one file, or to none. */
  ghost predicate OneFileEach(files: Files, name: Path) {
    forall p, q :: Asked(files, name, p) && Asked(files, name, q) && BaseName(p) == BaseName(q) ==>
      (p in files <==> q in files) && (p in files ==> files[p] == files[q])
  }

  /** Either loaded and linked already, or to be loaded before `bound`. */
  predicate Ready(st: State, rank: map<Name, nat>, x: Path, bound: nat) {
    var n := BaseName(x);
    if n in st.libs then st.libs[n].linked else n in rank && rank[n] < bound
  }

  /** The file of x is in order, and all that it needs is ready before it. */
  predicate CanLoad(files: Files, st: State, rank: map<Name, nat>, x: Path, bound: nat) {
    && x in files && files[x].headerOk && files[x].relocOk && |BaseName(x).text| < 128
    && forall y <- files[x].needed :: Ready(st, rank, y, bound)
  }

  /**
   An order in which to load libraries that are not loaded yet: every one of them after what it needs,
   so there is no cycle among them, and no more than the pool has soinfos for.
   */
  ghost predicate Plan(files: Files, name: Path, st: State, rank: map<Name, nat>) {
    && rank.Keys !! st.libs.Keys && |rank.Keys| <= st.free
    && forall x :: Asked(files, name, x) && BaseName(x) in rank ==> CanLoad(files, st, rank, x, rank[BaseName(x)])
  }

  // ---- a plan leads to success ----

  /** In the course of a load that follows a plan. */
  ghost predicate Midway(st0: State, rank: map<Name, nat>, st: State, bound: nat) {
    && (forall n <- st0.libs :: n in st.libs && st.libs[n].linked == st0.libs[n].linked)
    && (forall n <- st.libs :: Underway(st0, rank, st, n, bound))
    && |rank.Keys - st.libs.Keys| <= st.free
  }

  /** What is not linked yet comes at `bound` or later. */
  predicate Underway(st0: State, rank: map<Name, nat>, st: State, n: Name, bound: nat)
    requires n in st.libs
  {
    n in st0.libs || (n in rank && (st.libs[n].linked || rank[n] >= bound))
  }

  predicate NewAreLinked(st: State, st2: State) {
    forall n <- st2.libs :: n in st.libs || st2.libs[n].linked
  }

  lemma {:induction false} FindFollowsPlan(files: Files, name: Path, st0: State, rank: map<Name, nat>, st: State, x: Path, bound: nat)
    requires Plan(files, name, st0, rank) && Asked(files, name, x) && Ready(st0, rank, x, bound)
    requires Midway(st0, rank, st, bound)
    ensures var r := FindLibrary(files, st, x); r.ok && Midway(st0, rank, r.st, bound) && NewAreLinked(st, r.st)
    decreases bound, 0
  {
    hide Plan, CanLoad, Loadable, BaseName, Asked, Ready, Midway, NewAreLinked, FindLibrary, LinkNeeded;
    if BaseName(x) in st.libs {
      FoundLoaded(files, st0, rank, st, x, bound);
    } else {
      var st1 := StartLoad(files, name, st0, rank, st, x, bound);
      LoopFollowsPlan(files, name, st0, rank, st1, x, 0);
      assert files[x].needed[0..] == files[x].needed;
      EndLoad(files, st0, rank, st, x, bound);
    }
  }

  lemma FoundLoaded(files: Files, st0: State, rank: map<Name, nat>, st: State, x: Path, bound: nat)
    requires BaseName(x) in st.libs && Ready(st0, rank, x, bound) && Midway(st0, rank, st, bound)
    ensures var r := FindLibrary(files, st, x); r.ok && Midway(st0, rank, r.st, bound) && NewAreLinked(st, r.st)
  {
    hide BaseName, Midway, NewAreLinked;
    var n := BaseName(x);
    NowLinked(st0, rank, st, x, bound);
    assert FindLibraryInternal(files, st, x) == Loaded(st, true);
    SameFlags(st0, rank, st, n, bound);
  }

  lemma NowLinked(st0: State, rank: map<Name, nat>, st: State, x: Path, bound: nat)
    requires BaseName(x) in st.libs && Ready(st0, rank, x, bound) && Midway(st0, rank, st, bound)
    ensures st.libs[BaseName(x)].linked
  {
  }

  lemma SameFlags(st0: State, rank: map<Name, nat>, st: State, n: Name, bound: nat)
    requires n in st.libs && Midway(st0, rank, st, bound)
    ensures Midway(st0, rank, Referenced(st, n), bound) && NewAreLinked(st, Referenced(st, n))
  {
    var st2 := Referenced(st, n);
    assert st2.libs.Keys == st.libs.Keys;
    forall m <- st2.libs ensures Underway(st0, rank, st2, m, bound) {
      assert Underway(st0, rank, st, m, bound);
    }
  }

  lemma EndLoad(files: Files, st0: State, rank: map<Name, nat>, st: State, x: Path, bound: nat)
    requires BaseName(x) !in st.libs && Loadable(files, st, x) && files[x].headerOk && files[x].relocOk
    requires BaseName(x) in rank && rank[BaseName(x)] < bound && Midway(st0, rank, st, bound)
    requires var st1 := Alloc(st, BaseName(x), files[x].needed); var r := LinkNeeded(files, st1, files[x].needed);
      r.ok && Midway(st0, rank, r.st, rank[BaseName(x)]) && NewAreLinked(st1, r.st)
    ensures var r := FindLibrary(files, st, x); r.ok && Midway(st0, rank, r.st, bound) && NewAreLinked(st, r.st)
  {
    var n := BaseName(x);
    var st1 := Alloc(st, n, files[x].needed);
    hide BaseName, Loadable, Midway, NewAreLinked, FindLibrary, LinkNeeded, Alloc, Referenced, Linked;
    var st2 := LinkNeeded(files, st1, files[x].needed).st;
    LoadsIf(files, st, x);
    NowComplete(st0, rank, st, st1, st2, n, files[x].needed, bound);
    SameFlags(st0, rank, Linked(st2, n), n, bound);
    StillNew(st, Linked(st2, n), n);
  }

  lemma StillNew(st: State, st2: State, n: Name)
    requires n in st2.libs && NewAreLinked(st, st2)
    ensures NewAreLinked(st, Referenced(st2, n))
  {
  }

  lemma NowComplete(st0: State, rank: map<Name, nat>, st: State, st1: State, st2: State, n: Name, needed: seq<Path>, bound: nat)
    requires st.free > 0 && n !in st.libs && st1 == Alloc(st, n, needed) && n in rank && rank[n] < bound
    requires Midway(st0, rank, st, bound) && Midway(st0, rank, st2, rank[n]) && NewAreLinked(st1, st2) && Extends(st1, st2)
    ensures n in st2.libs && n in Linked(st2, n).libs
    ensures Midway(st0, rank, Linked(st2, n), bound) && NewAreLinked(st, Linked(st2, n))
  {
    assert n in st1.libs && n !in st0.libs;
    var st3 := Linked(st2, n);
    assert st3.libs.Keys == st2.libs.Keys;
    hide Midway, Underway, Alloc;
    forall m <- st3.libs ensures Underway(st0, rank, st3, m, bound) && (m in st.libs || st3.libs[m].linked) {
      OneComplete(st0, rank, st, st1, st2, n, needed, bound, m);
    }
    Gathered(st0, rank, st2, st3, n, bound);
  }

  lemma OneComplete(st0: State, rank: map<Name, nat>, st: State, st1: State, st2: State, n: Name, needed: seq<Path>, bound: nat, m: Name)
    requires st.free > 0 && n !in st.libs && st1 == Alloc(st, n, needed) && n in rank && rank[n] < bound
    requires Midway(st0, rank, st, bound) && Midway(st0, rank, st2, rank[n]) && NewAreLinked(st1, st2) && Extends(st1, st2)
    requires n in st2.libs && m in st2.libs
    ensures m in Linked(st2, n).libs && Underway(st0, rank, Linked(st2, n), m, bound)
    ensures m in st.libs || Linked(st2, n).libs[m].linked
  {
    assert Underway(st0, rank, st2, m, rank[n]);
    if m in st.libs {
      assert Underway(st0, rank, st, m, bound) && m in st1.libs;
    }
  }

  lemma Gathered(st0: State, rank: map<Name, nat>, st2: State, st3: State, n: Name, bound: nat)
    requires n in st2.libs && n !in st0.libs && st3 == Linked(st2, n) && exists b :: Midway(st0, rank, st2, b)
    requires forall m <- st3.libs :: Underway(st0, rank, st3, m, bound)
    ensures Midway(st0, rank, st3, bound)
  {
    hide Underway;
    var b :| Midway(st0, rank, st2, b);
    assert st3.libs.Keys == st2.libs.Keys;
  }

  lemma StartLoad(files: Files, name: Path, st0: State, rank: map<Name, nat>, st: State, x: Path, bound: nat) returns (st1: State)
    requires Plan(files, name, st0, rank) && Asked(files, name, x) && Ready(st0, rank, x, bound)
    requires Midway(st0, rank, st, bound) && BaseName(x) !in st.libs
    ensures BaseName(x) in rank && rank[BaseName(x)] < bound && CanLoad(files, st0, rank, x, rank[BaseName(x)])
    ensures Loadable(files, st, x) && x in files && files[x].headerOk && files[x].relocOk && st1 == Alloc(st, BaseName(x), files[x].needed)
    ensures Midway(st0, rank, st1, rank[BaseName(x)])
  {
    hide BaseName;
    var n := BaseName(x);
    assert n in rank.Keys - st.libs.Keys;
    st1 := Alloc(st, n, files[x].needed);
    hide Plan, CanLoad, Midway;
    Begun(st0, rank, st, n, files[x].needed, bound);
  }

  lemma Begun(st0: State, rank: map<Name, nat>, st: State, n: Name, needed: seq<Path>, bound: nat)
    requires Midway(st0, rank, st, bound) && n !in st.libs && n in rank && rank[n] < bound && st.free > 0
    ensures Midway(st0, rank, Alloc(st, n, needed), rank[n])
  {
    hide Underway;
    var st1 := Alloc(st, n, needed);
    OneFewer(rank.Keys, st.libs.Keys, st1.libs.Keys, n);
    forall m <- st1.libs ensures Underway(st0, rank, st1, m, rank[n]) {
      StillUnderway(st0, rank, st, n, needed, bound, m);
    }
  }

  lemma OneFewer(rank: set<Name>, keys: set<Name>, keys1: set<Name>, n: Name)
    requires n in rank && n !in keys && keys1 == keys + {n}
    ensures |rank - keys1| == |rank - keys| - 1
  {
    assert rank - keys1 == rank - keys - {n};
  }

  lemma StillUnderway(st0: State, rank: map<Name, nat>, st: State, n: Name, needed: seq<Path>, bound: nat, m: Name)
    requires n !in st.libs && n in rank && rank[n] < bound && st.free > 0 && m in Alloc(st, n, needed).libs
    requires m in st.libs ==> Underway(st0, rank, st, m, bound)
    ensures Underway(st0, rank, Alloc(st, n, needed), m, rank[n])
  {
  }

  lemma {:induction false} LoopFollowsPlan(files: Files, name: Path, st0: State, rank: map<Name, nat>, st: State, x: Path, i: nat)
    requires Plan(files, name, st0, rank) && BaseName(x) in rank && CanLoad(files, st0, rank, x, rank[BaseName(x)])
    requires i <= |files[x].needed| && Midway(st0, rank, st, rank[BaseName(x)])
    ensures var r := LinkNeeded(files, st, files[x].needed[i..]);
      r.ok && Midway(st0, rank, r.st, rank[BaseName(x)]) && NewAreLinked(st, r.st)
    decreases rank[BaseName(x)], 1, |files[x].needed| - i
  {
    var names := files[x].needed[i..];
    if names != [] {
      assert names[1..] == files[x].needed[i + 1..] && names[0] in files[x].needed;
      FindFollowsPlan(files, name, st0, rank, st, names[0], rank[BaseName(x)]);
      var r := FindLibrary(files, st, names[0]);
      LoopFollowsPlan(files, name, st0, rank, r.st, x, i + 1);
    }
  }

  // ---- success leaves a plan ----

  /** What is asked for as y is linked, and before `stamp` unless it was there from the start. */
  predicate Done(st: State, st2: State, y: Path, stamp: nat) {
    var b := BaseName(y);
    b in st2.libs && st2.libs[b].linked && (b in st.libs || st2.libs[b].stamp < stamp)
  }

  /** Library n was loaded from the file at p, after all that it needs. */
  predicate MadeFrom(files: Files, name: Path, st: State, st2: State, n: Name, p: Path) {
    && n in st2.libs && st2.libs[n].linked && st.clock <= st2.libs[n].stamp < st2.clock
    && Asked(files, name, p) && BaseName(p) == n && p in files && files[p].headerOk && files[p].relocOk
    && |n.text| < SOINFO_NAME_LEN && forall y <- files[p].needed :: Done(st, st2, y, st2.libs[n].stamp)
  }

  ghost predicate IsMade(files: Files, name: Path, st: State, st2: State, n: Name) {
    exists p :: MadeFrom(files, name, st, st2, n, p)
  }

  ghost predicate Made(files: Files, name: Path, st: State, st2: State) {
    && |st2.libs.Keys - st.libs.Keys| + st2.free == st.free
    && forall n <- st2.libs :: n in st.libs || IsMade(files, name, st, st2, n)
  }

  lemma StaysMade(files: Files, name: Path, st: State, st1: State, st2: State, n: Name)
    requires IsMade(files, name, st, st1, n) && Extends(st1, st2)
    ensures IsMade(files, name, st, st2, n)
  {
    hide BaseName, Asked;
    var p :| MadeFrom(files, name, st, st1, n, p);
    assert n in st1.libs;
    forall y <- files[p].needed ensures Done(st, st2, y, st2.libs[n].stamp) {
      assert Done(st, st1, y, st1.libs[n].stamp) && BaseName(y) in st1.libs;
    }
    assert MadeFrom(files, name, st, st2, n, p);
  }

  /** Seen from further back. */
  lemma WasMade(files: Files, name: Path, st: State, st1: State, st2: State, n: Name)
    requires IsMade(files, name, st1, st2, n) && Extends(st1, st2) && st.clock <= st1.clock
    requires forall b <- st1.libs :: b in st.libs || IsMade(files, name, st, st1, b)
    ensures IsMade(files, name, st, st2, n)
  {
    hide BaseName, Asked;
    var p :| MadeFrom(files, name, st1, st2, n, p);
    forall y <- files[p].needed ensures Done(st, st2, y, st2.libs[n].stamp) {
      assert Done(st1, st2, y, st2.libs[n].stamp);
      if BaseName(y) in st1.libs && BaseName(y) !in st.libs {
        MadeBefore(files, name, st, st1, BaseName(y));
      }
    }
    assert MadeFrom(files, name, st, st2, n, p);
  }

  lemma MadeBefore(files: Files, name: Path, st: State, st1: State, b: Name)
    requires IsMade(files, name, st, st1, b)
    ensures b in st1.libs && st1.libs[b].stamp < st1.clock
  {
    var q :| MadeFrom(files, name, st, st1, b, q);
  }

  lemma MadeThen(files: Files, name: Path, st: State, st1: State, st2: State)
    requires Extends(st, st1) && Extends(st1, st2) && Made(files, name, st, st1) && Made(files, name, st1, st2)
    ensures Made(files, name, st, st2)
  {
    hide IsMade;
    CountThen(st.libs.Keys, st1.libs.Keys, st2.libs.Keys);
    forall n <- st2.libs | n !in st.libs ensures IsMade(files, name, st, st2, n) {
      if n in st1.libs {
        StaysMade(files, name, st, st1, st2, n);
      } else {
        WasMade(files, name, st, st1, st2, n);
      }
    }
  }

  lemma CountThen<T>(a: set<T>, b: set<T>, c: set<T>)
    requires a <= b <= c
    ensures |c - a| == |b - a| + |c - b|
  {
    assert c - a == (b - a) + (c - b);
  }

  lemma {:induction false} FindMakes(files: Files, name: Path, st: State, x: Path)
    requires Asked(files, name, x) && FindLibrary(files, st, x).ok
    ensures Made(files, name, st, FindLibrary(files, st, x).st)
    decreases Missing(files, st), 0, 2
  {
    hide BaseName, Made, Referenced;
    if BaseName(x) in st.libs {
      assert FindLibraryInternal(files, st, x) == Loaded(st, true);
      NothingMade(files, name, st, BaseName(x));
    } else {
      var st1 := LoadGoesOn(files, st, x);
      assert x in Missing(files, st) && x !in Missing(files, st1);
      LoopMakes(files, name, st1, files[x].needed);
      LoadMade(files, name, st, x, LinkNeeded(files, st1, files[x].needed).st);
    }
  }

  lemma NothingMade(files: Files, name: Path, st: State, n: Name)
    requires n in st.libs
    ensures Made(files, name, st, Referenced(st, n))
  {
    assert Referenced(st, n).libs.Keys - st.libs.Keys == {};
  }

  lemma LoadGoesOn(files: Files, st: State, x: Path) returns (st1: State)
    requires BaseName(x) !in st.libs && FindLibrary(files, st, x).ok
    ensures Loadable(files, st, x) && st1 == Alloc(st, BaseName(x), files[x].needed)
    ensures var n, r := BaseName(x), LinkNeeded(files, st1, files[x].needed);
      files[x].headerOk && files[x].relocOk && r.ok && n in r.st.libs && FindLibrary(files, st, x).st == Referenced(Linked(r.st, n), n)
  {
    hide BaseName, LinkNeeded;
    assert Loadable(files, st, x) by {
      assert !Loadable(files, st, x) ==> FindLibraryInternal(files, st, x) == Loaded(st, false);
    }
    st1 := Alloc(st, BaseName(x), files[x].needed);
    LoadsIf(files, st, x);
  }

  lemma LoadMade(files: Files, name: Path, st: State, x: Path, st2: State)
    requires Asked(files, name, x) && BaseName(x) !in st.libs && Loadable(files, st, x) && files[x].headerOk && files[x].relocOk
    requires var st1 := Alloc(st, BaseName(x), files[x].needed); Extends(st1, st2) && Made(files, name, st1, st2)
    requires forall y <- files[x].needed :: BaseName(y) in st2.libs && st2.libs[BaseName(y)].linked
    ensures BaseName(x) in st2.libs && Made(files, name, st, Referenced(Linked(st2, BaseName(x)), BaseName(x)))
  {
    SelfMade(files, name, st, x, st2);
    hide BaseName, IsMade, Asked, Loadable;
    var n := BaseName(x);
    var st3 := Referenced(Linked(st2, n), n);
    OneMore(st, n, files[x].needed, st2);
    forall m <- st3.libs | m !in st.libs ensures IsMade(files, name, st, st3, m) {
      if m != n {
        OtherMade(files, name, st, x, st2, m);
      }
    }
  }

  lemma OneMore(st: State, n: Name, needed: seq<Path>, st2: State)
    requires st.free > 0 && n !in st.libs
    requires var st1 := Alloc(st, n, needed); Extends(st1, st2) && |st2.libs.Keys - st1.libs.Keys| + st2.free == st1.free
    ensures n in st2.libs && Referenced(Linked(st2, n), n).libs.Keys == st2.libs.Keys
    ensures |st2.libs.Keys - st.libs.Keys| + st2.free == st.free
  {
    var st1 := Alloc(st, n, needed);
    SameKeys(st1, st2);
    OneKey(st, n, needed);
    CountThen(st.libs.Keys, st1.libs.Keys, st2.libs.Keys);
    KeysStay(st2, n);
  }

  lemma SameKeys(st1: State, st2: State)
    requires Extends(st1, st2)
    ensures st1.libs.Keys <= st2.libs.Keys
  {
  }

  lemma OneKey(st: State, n: Name, needed: seq<Path>)
    requires st.free > 0 && n !in st.libs
    ensures Alloc(st, n, needed).libs.Keys - st.libs.Keys == {n} && st.libs.Keys <= Alloc(st, n, needed).libs.Keys
  {
  }

  lemma KeysStay(st: State, n: Name)
    requires n in st.libs
    ensures n in Linked(st, n).libs && Referenced(Linked(st, n), n).libs.Keys == st.libs.Keys
  {
  }

  lemma SelfMade(files: Files, name: Path, st: State, x: Path, st2: State)
    requires Asked(files, name, x) && BaseName(x) !in st.libs && Loadable(files, st, x) && files[x].headerOk && files[x].relocOk
    requires var st1 := Alloc(st, BaseName(x), files[x].needed); Extends(st1, st2) && Made(files, name, st1, st2)
    requires forall y <- files[x].needed :: BaseName(y) in st2.libs && st2.libs[BaseName(y)].linked
    ensures BaseName(x) in st2.libs && IsMade(files, name, st, Referenced(Linked(st2, BaseName(x)), BaseName(x)), BaseName(x))
  {
    hide BaseName, IsMade, Asked;
    var n, st1 := BaseName(x), Alloc(st, BaseName(x), files[x].needed);
    assert n in st1.libs && !st2.libs[n].linked;
    var st3 := Referenced(Linked(st2, n), n);
    forall y <- files[x].needed ensures Done(st, st3, y, st3.libs[n].stamp) {
      var b := BaseName(y);
      if b !in st1.libs {
        MadeBefore(files, name, st1, st2, b);
      }
    }
    assert MadeFrom(files, name, st, st3, n, x);
    assert IsMade(files, name, st, st3, n) by {
      Witnessed(files, name, st, st3, n, x);
    }
  }

  lemma Witnessed(files: Files, name: Path, st: State, st2: State, n: Name, p: Path)
    requires MadeFrom(files, name, st, st2, n, p)
    ensures IsMade(files, name, st, st2, n)
  {
  }

  lemma OtherMade(files: Files, name: Path, st: State, x: Path, st2: State, m: Name)
    requires BaseName(x) !in st.libs && Loadable(files, st, x) && m != BaseName(x) && m !in st.libs && m in st2.libs
    requires var st1 := Alloc(st, BaseName(x), files[x].needed); Extends(st1, st2) && Made(files, name, st1, st2)
    ensures BaseName(x) in st2.libs && IsMade(files, name, st, Referenced(Linked(st2, BaseName(x)), BaseName(x)), m)
  {
    hide BaseName, Asked;
    var n, st1 := BaseName(x), Alloc(st, BaseName(x), files[x].needed);
    assert n in st1.libs && !st2.libs[n].linked;
    var st3 := Referenced(Linked(st2, n), n);
    var p :| MadeFrom(files, name, st1, st2, m, p);
    forall y <- files[p].needed ensures Done(st, st3, y, st3.libs[m].stamp) {
      assert Done(st1, st2, y, st2.libs[m].stamp);
      assert BaseName(y) != n;
    }
    assert MadeFrom(files, name, st, st3, m, p);
  }

  lemma {:induction false} LoopMakes(files: Files, name: Path, st: State, names: seq<Path>)
    requires (forall y <- names :: Asked(files, name, y)) && LinkNeeded(files, st, names).ok
    ensures Made(files, name, st, LinkNeeded(files, st, names).st)
    decreases Missing(files, st), 1, |names|
  {
    hide Made, Asked, Extends;
    if names == [] {
      NothingYet(files, name, st);
    } else {
      var r := FindLibrary(files, st, names[0]);
      FindMakes(files, name, st, names[0]);
      MissingShrinks(files, st, r.st);
      LoopMakes(files, name, r.st, names[1..]);
      MadeThen(files, name, st, r.st, LinkNeeded(files, r.st, names[1..]).st);
    }
  }

  lemma NothingYet(files: Files, name: Path, st: State)
    ensures Made(files, name, st, st)
  {
    assert st.libs.Keys - st.libs.Keys == {};
  }

  /** The order in which they were completed. */
  ghost function Stamps(st: State, st2: State): map<Name, nat> {
    map n | n in st2.libs && n !in st.libs :: st2.libs[n].stamp
  }

  lemma MadeIsPlan(files: Files, name: Path, st: State, st2: State)
    requires OneFileEach(files, name) && Made(files, name, st, st2) && Extends(st, st2)
    ensures Plan(files, name, st, Stamps(st, st2))
  {
    hide BaseName, Asked, CanLoad, OneFileEach, IsMade;
    var rank := Stamps(st, st2);
    assert rank.Keys == st2.libs.Keys - st.libs.Keys;
    forall x | Asked(files, name, x) && BaseName(x) in rank ensures CanLoad(files, st, rank, x, rank[BaseName(x)]) {
      MadeCanLoad(files, name, st, st2, x);
    }
  }

  lemma MadeCanLoad(files: Files, name: Path, st: State, st2: State, x: Path)
    requires OneFileEach(files, name) && Asked(files, name, x) && Extends(st, st2)
    requires BaseName(x) in st2.libs && BaseName(x) !in st.libs && IsMade(files, name, st, st2, BaseName(x))
    ensures CanLoad(files, st, Stamps(st, st2), x, st2.libs[BaseName(x)].stamp)
  {
    hide BaseName, Asked;
    var n, rank := BaseName(x), Stamps(st, st2);
    var p :| MadeFrom(files, name, st, st2, n, p);
    assert p in files && x in files && files[x] == files[p];
    hide OneFileEach;
    forall y <- files[x].needed ensures Ready(st, rank, y, st2.libs[n].stamp) {
      assert Done(st, st2, y, st2.libs[n].stamp);
    }
  }

  /**
   find_library succeeds if and only if the library is linked already or a plan includes it: what is not
   loaded of all that it needs has readable, well-formed files, no cycle, and soinfos enough.
   */
  lemma FindSucceedsIff(files: Files, st: State, name: Path)
    requires BaseName(name) in st.libs || OneFileEach(files, name)
    ensures FindLibrary(files, st, name).ok <==>
      if BaseName(name) in st.libs then st.libs[BaseName(name)].linked
      else exists rank :: Plan(files, name, st, rank) && BaseName(name) in rank
  {
    hide BaseName, OneFileEach, Plan, Made;
    var n, r := BaseName(name), FindLibrary(files, st, name);
    if n in st.libs {
      assert FindLibraryInternal(files, st, name) == Loaded(st, st.libs[n].linked);
    } else {
      if r.ok {
        FindMakes(files, name, st, name);
        MadeIsPlan(files, name, st, r.st);
        assert n in Stamps(st, r.st);
      }
      if exists rank :: Plan(files, name, st, rank) && n in rank {
        var rank :| Plan(files, name, st, rank) && n in rank;
        PlanSucceeds(files, st, name, rank);
      }
    }
  }

  lemma PlanSucceeds(files: Files, st: State, name: Path, rank: map<Name, nat>)
    requires Plan(files, name, st, rank) && BaseName(name) in rank
    ensures FindLibrary(files, st, name).ok
  {
    assert rank.Keys - st.libs.Keys == rank.Keys;
    FindFollowsPlan(files, name, st, rank, st, name, rank[BaseName(name)] + 1);
  }
}
