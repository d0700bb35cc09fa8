/**
 Reference counting: each library's ref_count is the number of references owed to it from outside
 (open handles, the running program, and what failed loads never gave back) plus the number of
 DT_NEEDED entries of linked libraries that name it.
 */
module LinkerCounts {
  import opened LinkerModel
  import opened LinkerLeaks

  // ---- the list of loaded libraries ----

  ghost function Elements(order: seq<Name>): set<Name> {
    if order == [] then {} else {order[0]} + Elements(order[1..])
  }

  ghost predicate Distinct(order: seq<Name>) {
    order == [] || (order[0] !in Elements(order[1..]) && Distinct(order[1..]))
  }

  /** solist holds each loaded library once. */
  ghost predicate Listed(st: State) {
    Distinct(st.order) && Elements(st.order) == st.libs.Keys
  }

  lemma {:induction false} ListAppend(order: seq<Name>, n: Name)
    ensures Elements(order + [n]) == Elements(order) + {n}
    ensures Distinct(order) && n !in Elements(order) ==> Distinct(order + [n])
  {
    if order == [] {
      assert order + [n] == [n];
    } else {
      assert (order + [n])[1..] == order[1..] + [n];
      ListAppend(order[1..], n);
    }
  }

  lemma {:induction false} ListWithout(order: seq<Name>, n: Name)
    requires Distinct(order) && n in Elements(order)
    ensures Elements(Without(order, n)) == Elements(order) - {n}
    ensures Distinct(Without(order, n)) && |Without(order, n)| == |order| - 1
  {
    if order[0] != n {
      ListWithout(order[1..], n);
      assert Without(order, n)[1..] == Without(order[1..], n);
    }
  }

  // ---- who needs whom ----

  ghost function Count(xs: seq<Name>, x: Name): nat {
    if xs == [] then 0 else (if xs[0] == x then 1 else 0) + Count(xs[1..], x)
  }

  lemma CountBaseNames(names: seq<Path>, x: Name)
    requires names != []
    ensures Count(BaseNames(names), x) == (if BaseName(names[0]) == x then 1 else 0) + Count(BaseNames(names[1..]), x)
  {
    assert BaseNames(names)[1..] == BaseNames(names[1..]);
  }

  /** How often library n asks for x; a library being unloaded no longer counts. */
  ghost function NeedsOf(libs: map<Name, Lib>, dying: set<Name>, n: Name, x: Name): nat {
    if n in libs && libs[n].linked && n !in dying then Count(BaseNames(libs[n].needed), x) else 0
  }

  ghost function UsesOf(order: seq<Name>, libs: map<Name, Lib>, dying: set<Name>, x: Name): nat {
    if order == [] then 0 else NeedsOf(libs, dying, order[0], x) + UsesOf(order[1..], libs, dying, x)
  }

  lemma {:induction false} UsesSame(order: seq<Name>, l1: map<Name, Lib>, d1: set<Name>, l2: map<Name, Lib>, d2: set<Name>, x: Name)
    requires forall m <- Elements(order) :: NeedsOf(l1, d1, m, x) == NeedsOf(l2, d2, m, x)
    ensures UsesOf(order, l1, d1, x) == UsesOf(order, l2, d2, x)
  {
    if order != [] {
      UsesSame(order[1..], l1, d1, l2, d2, x);
    }
  }

  lemma {:induction false} UsesAppend(order: seq<Name>, n: Name, libs: map<Name, Lib>, dying: set<Name>, x: Name)
    ensures UsesOf(order + [n], libs, dying, x) == UsesOf(order, libs, dying, x) + NeedsOf(libs, dying, n, x)
  {
    if order == [] {
      assert order + [n] == [n];
    } else {
      assert (order + [n])[1..] == order[1..] + [n];
      UsesAppend(order[1..], n, libs, dying, x);
    }
  }

  /** Taking a library off the list takes away what it needs. */
  lemma {:induction false} UsesWithout(order: seq<Name>, n: Name, libs: map<Name, Lib>, dying: set<Name>, x: Name)
    requires n in Elements(order)
    ensures UsesOf(Without(order, n), libs, dying, x) + NeedsOf(libs, dying, n, x) == UsesOf(order, libs, dying, x)
  {
    if order[0] != n {
      UsesWithout(order[1..], n, libs, dying, x);
      assert Without(order, n)[1..] == Without(order[1..], n);
    }
  }

  /** Changing one library changes the total by the difference in what it needs. */
  lemma {:induction false} UsesChange(order: seq<Name>, n: Name, l1: map<Name, Lib>, d1: set<Name>,
                                      l2: map<Name, Lib>, d2: set<Name>, x: Name)
    requires Distinct(order) && n in Elements(order)
    requires forall m <- Elements(order) :: m != n ==> NeedsOf(l1, d1, m, x) == NeedsOf(l2, d2, m, x)
    ensures UsesOf(order, l1, d1, x) + NeedsOf(l2, d2, n, x) == UsesOf(order, l2, d2, x) + NeedsOf(l1, d1, n, x)
  {
    if order[0] == n {
      UsesSame(order[1..], l1, d1, l2, d2, x);
    } else {
      UsesChange(order[1..], n, l1, d1, l2, d2, x);
    }
  }

  lemma {:induction false} UsesContains(order: seq<Name>, l: Name, libs: map<Name, Lib>, dying: set<Name>, x: Name)
    requires l in Elements(order)
    ensures NeedsOf(libs, dying, l, x) <= UsesOf(order, libs, dying, x)
  {
    if order[0] != l {
      UsesContains(order[1..], l, libs, dying, x);
    }
  }

  /** Every use has a user. */
  lemma {:induction false} UserOf(order: seq<Name>, libs: map<Name, Lib>, dying: set<Name>, x: Name) returns (l: Name)
    requires UsesOf(order, libs, dying, x) > 0
    ensures l in Elements(order) && NeedsOf(libs, dying, l, x) > 0
  {
    if NeedsOf(libs, dying, order[0], x) > 0 {
      l := order[0];
    } else {
      l := UserOf(order[1..], libs, dying, x);
    }
  }

  // ---- the invariant, for one library x ----

  ghost function Uses(st: State, dying: set<Name>, x: Name): nat {
    UsesOf(st.order, st.libs, dying, x)
  }

  /** x is on solist, fully linked and not on its way out. */
  ghost predicate Live(st: State, dying: set<Name>, x: Name) {
    x in st.libs && st.libs[x].linked && x !in dying
  }

  ghost predicate CountedAt(st: State, x: Name, owed: nat, dying: set<Name>) {
    && (x in st.libs && x !in dying ==> st.libs[x].refs == owed + Uses(st, dying, x))
    && (owed + Uses(st, dying, x) > 0 ==> Live(st, dying, x))
  }

  // ---- loading ----

  ghost function Pool(st: State): nat { st.free + |st.order| }

  lemma AllocCounted(st: State, n: Name, needed: seq<Path>, x: Name, owed: nat)
    requires Listed(st) && CountedAt(st, x, owed, {}) && n !in st.libs && st.free > 0
    ensures var st1 := Alloc(st, n, needed);
      Listed(st1) && CountedAt(st1, x, owed, {}) && Pool(st1) == Pool(st)
  {
    var st1 := Alloc(st, n, needed);
    ListAppend(st.order, n);
    UsesAppend(st.order, n, st1.libs, {}, x);
    UsesSame(st.order, st.libs, {}, st1.libs, {}, x);
  }

  /** Completing a link turns the references the loop collected into counted uses. */
  lemma LinkCounted(st: State, n: Name, x: Name, owed: nat)
    requires Listed(st) && n in st.libs && !st.libs[n].linked
    requires CountedAt(st, x, owed + Count(BaseNames(st.libs[n].needed), x), {})
    ensures Listed(Linked(st, n)) && CountedAt(Linked(st, n), x, owed, {}) && Pool(Linked(st, n)) == Pool(st)
  {
    UsesChange(st.order, n, st.libs, {}, Linked(st, n).libs, {}, x);
  }

  lemma ReleaseUnlinkedCounted(st: State, n: Name, x: Name, owed: nat)
    requires Listed(st) && n in st.libs && !st.libs[n].linked && CountedAt(st, x, owed, {})
    ensures Listed(Release(st, n)) && CountedAt(Release(st, n), x, owed, {}) && Pool(Release(st, n)) == Pool(st)
  {
    var st2 := Release(st, n);
    ListWithout(st.order, n);
    UsesWithout(st.order, n, st.libs, {}, x);
    UsesSame(st2.order, st.libs, {}, st2.libs, {}, x);
  }

  lemma ReferenceCounted(st: State, n: Name, x: Name, owed: nat)
    requires Listed(st) && Live(st, {}, n) && CountedAt(st, x, owed, {})
    ensures Listed(Referenced(st, n))
    ensures CountedAt(Referenced(st, n), x, owed + if n == x then 1 else 0, {})
  {
    UsesSame(st.order, st.libs, {}, Referenced(st, n).libs, {}, x);
  }

  lemma {:induction false} CountIsMultiplicity(xs: seq<Name>, x: Name)
    ensures multiset(xs)[x] == Count(xs, x)
  {
    if xs != [] {
      assert xs == [xs[0]] + xs[1..];
      CountIsMultiplicity(xs[1..], x);
    }
  }

  /** find_library: a success is counted once; a failure leaves behind exactly what LostByFind says. */
  lemma {:induction false} FindLibraryCounts(files: Files, st: State, name: Path, x: Name, owed: nat)
    returns (r: Loaded)
    requires Listed(st) && CountedAt(st, x, owed, {})
    ensures r == FindLibrary(files, st, name)
    ensures Listed(r.st) && Pool(r.st) == Pool(st)
    ensures CountedAt(r.st, x, owed + LostByFind(files, st, name)[x] + (if r.ok && BaseName(name) == x then 1 else 0), {})
    decreases Missing(files, st), 0, 2
  {
    hide CountedAt, Listed, FindLibraryInternal, LostByFind, Extends;
    r := FindInternalCounts(files, st, name, x, owed);
    if r.ok {
      SuccessLosesNothing(files, st, name);
      ReferenceCounted(r.st, BaseName(name), x, owed);
      r := Loaded(Referenced(r.st, BaseName(name)), true);
    }
  }

  lemma {:induction false} FindInternalCounts(files: Files, st: State, name: Path, x: Name, owed: nat)
    returns (r: Loaded)
    requires Listed(st) && CountedAt(st, x, owed, {})
    ensures r == FindLibraryInternal(files, st, name)
    ensures Listed(r.st) && Pool(r.st) == Pool(st)
    ensures CountedAt(r.st, x, owed + LostByFind(files, st, name)[x], {})
    decreases Missing(files, st), 0, 1
  {
    hide CountedAt, Listed, LinkNeeded, LostByLoop, Count;
    var n := BaseName(name);
    if n !in st.libs && Loadable(files, st, name) {
      var file := files[name];
      var st1 := Alloc(st, n, file.needed);
      AllocCounted(st, n, file.needed, x, owed);
      assert name in Missing(files, st) && name !in Missing(files, st1);
      r := LinkImageCounts(files, st1, file, x, owed);
      FinishLoadCounts(r, n, file.relocOk, x, owed, if file.headerOk then LostByLoop(files, st1, file.needed)[x] else 0);
      CountIsMultiplicity(BaseNames(file.needed), x);
      r := FinishLoad(r, n, file.relocOk);
    } else {
      r := Loaded(st, n in st.libs && st.libs[n].linked);
    }
  }

  lemma {:induction false} LinkImageCounts(files: Files, st: State, file: ElfFile, x: Name, owed: nat)
    returns (r: Loaded)
    requires Listed(st) && CountedAt(st, x, owed, {})
    ensures r == LinkImage(files, st, file)
    ensures Listed(r.st) && Pool(r.st) == Pool(st)
    ensures r.ok ==> file.headerOk && LostByLoop(files, st, file.needed)[x] == 0
    ensures var lost := if file.headerOk then LostByLoop(files, st, file.needed)[x] else 0;
      CountedAt(r.st, x, owed + lost + (if r.ok then Count(BaseNames(file.needed), x) else 0), {})
    decreases Missing(files, st), 2, 0
  {
    hide CountedAt, Listed, LinkNeeded, LostByLoop, Extends;
    if file.headerOk {
      r := LinkNeededCounts(files, st, file.needed, x, owed);
    } else {
      r := Loaded(st, false);
    }
  }

  /** What a library that cannot be finished collected is lost; otherwise nothing more is. */
  lemma FinishLoadCounts(r: Loaded, n: Name, relocOk: bool, x: Name, owed: nat, lost: nat)
    requires Listed(r.st) && n in r.st.libs && !r.st.libs[n].linked && (r.ok ==> lost == 0)
    requires CountedAt(r.st, x, owed + lost + (if r.ok then Count(BaseNames(r.st.libs[n].needed), x) else 0), {})
    ensures var r' := FinishLoad(r, n, relocOk);
      && Listed(r'.st) && Pool(r'.st) == Pool(r.st)
      && CountedAt(r'.st, x, owed + (if !r.ok then lost else if relocOk then 0 else Count(BaseNames(r.st.libs[n].needed), x)), {})
  {
    if r.ok && relocOk {
      LinkCounted(r.st, n, x, owed);
    } else {
      ReleaseUnlinkedCounted(r.st, n, x, owed + if r.ok then Count(BaseNames(r.st.libs[n].needed), x) else lost);
    }
  }

  lemma {:induction false} LinkNeededCounts(files: Files, st: State, names: seq<Path>, x: Name, owed: nat)
    returns (r: Loaded)
    requires Listed(st) && CountedAt(st, x, owed, {})
    ensures r == LinkNeeded(files, st, names)
    ensures Listed(r.st) && Pool(r.st) == Pool(st)
    ensures r.ok ==> LostByLoop(files, st, names)[x] == 0
    ensures CountedAt(r.st, x, owed + LostByLoop(files, st, names)[x] + (if r.ok then Count(BaseNames(names), x) else 0), {})
    decreases Missing(files, st), 1, |names|
  {
    hide CountedAt, Listed, FindLibrary, LostByFind, Extends;
    if names == [] {
      r := Loaded(st, true);
    } else {
      r := FindLibraryCounts(files, st, names[0], x, owed);
      if r.ok {
        SuccessLosesNothing(files, st, names[0]);
        MissingShrinks(files, st, r.st);
        CountBaseNames(names, x);
        r := LinkNeededCounts(files, r.st, names[1..], x, owed + if BaseName(names[0]) == x then 1 else 0);
      }
    }
  }
}
