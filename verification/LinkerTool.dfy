/** The linker at work on its soinfo objects, step for step what LinkerModel computes. */
module LinkerTool {
  import opened LinkerModel
  import opened LinkerLeaks
  import opened LinkerHeap
  import LinkerSuccess
  import P = LinkerProcess

  /** What one element of solist says. */
  datatype Row = Row(name: Name, lib: Lib)

  ghost function RowsOf(xs: seq<SoInfo>): (rows: seq<Row>)
    reads xs
    ensures |rows| == |xs|
    ensures forall i :: 0 <= i < |xs| ==> rows[i] == Row(xs[i].name, xs[i].info)
  {
    seq(|xs|, i requires 0 <= i < |xs| reads xs => Row(xs[i].name, xs[i].info))
  }

  /** The rows are the libraries of st, in solist order. */
  ghost predicate Matches(rows: seq<Row>, st: State) {
    && |rows| == |st.order|
    && (forall i :: 0 <= i < |rows| ==>
          rows[i].name == st.order[i] && rows[i].name in st.libs && st.libs[rows[i].name] == rows[i].lib)
    && (forall n {:trigger HasRow(rows, n)} :: n in st.libs ==> HasRow(rows, n))
  }

  ghost predicate HasRow(rows: seq<Row>, n: Name) {
    exists i :: 0 <= i < |rows| && rows[i].name == n
  }

  ghost predicate OnlyRow(rows: seq<Row>, k: nat)
    requires k < |rows|
  {
    forall i :: 0 <= i < |rows| && i != k ==> rows[i].name != rows[k].name
  }

  /** The first element is the static libdl_info, which has no dynamic section. */
  ghost predicate Headed(st: State) {
    st.order != [] && st.order[0] in st.libs && !st.libs[st.order[0]].hasDynamic
  }

  /** Elements stay where they are as long as their library does. */
  ghost predicate Stays(who1: map<Name, SoInfo>, who2: map<Name, SoInfo>) {
    forall n <- who1 :: n in who2 && who2[n] == who1[n]
  }

  ghost predicate Remains(who1: map<Name, SoInfo>, who2: map<Name, SoInfo>) {
    forall n <- who2 :: n in who1 && who2[n] == who1[n]
  }

  lemma RemainsOn(who1: map<Name, SoInfo>, who2: map<Name, SoInfo>, who3: map<Name, SoInfo>)
    ensures Remains(who1, who1)
    ensures Remains(who1, who2) && Remains(who2, who3) ==> Remains(who1, who3)
  {
  }

  /** who[n] is the element of solist for the library n. */
  ghost predicate Placed(nodes: seq<SoInfo>, order: seq<Name>, who: map<Name, SoInfo>) {
    |nodes| == |order| && forall i :: 0 <= i < |order| ==> order[i] in who && who[order[i]] == nodes[i]
  }

  /** Relinking the list does not change what its elements say. */
  twostate lemma SameRows(xs: seq<SoInfo>)
    requires forall i :: 0 <= i < |xs| ==> xs[i].name == old(xs[i].name) && xs[i].info == old(xs[i].info)
    ensures RowsOf(xs) == old(RowsOf(xs))
  {
  }

  lemma RowsWithout(xs: seq<SoInfo>, k: nat)
    requires k < |xs|
    ensures RowsOf(xs[..k] + xs[k + 1..]) == RowsOf(xs)[..k] + RowsOf(xs)[k + 1..]
  {
  }

  lemma KeepsDynamic(st1: State, st2: State, n: Name)
    requires Extends(st1, st2) && n in st1.libs
    ensures n in st2.libs && st2.libs[n].hasDynamic == st1.libs[n].hasDynamic
  {
  }

  lemma LinkingKeeps(files: Files, st: State, file: ElfFile, n: Name)
    requires n in st.libs
    ensures n in LinkImage(files, st, file).st.libs
  {
  }

  lemma InitialisingKeeps(st: State, n: Name, m: Name)
    requires m in st.libs && CallConstructors(st, n).Fine?
    ensures m in CallConstructors(st, n).st.libs
  {
  }

  /** One turn of the DT_NEEDED loop. */
  lemma NeededFrom(files: Files, st: State, names: seq<Path>, i: nat)
    requires i <= |names|
    ensures i == |names| ==> LinkNeeded(files, st, names[i..]) == Loaded(st, true)
    ensures i < |names| ==>
              var r := FindLibrary(files, st, names[i]);
              && Missing(files, r.st) <= Missing(files, st)
              && LinkNeeded(files, st, names[i..]) == if r.ok then LinkNeeded(files, r.st, names[i + 1..]) else r
  {
    if i < |names| {
      MissingShrinks(files, st, FindLibrary(files, st, names[i]).st);
      assert names[i..][0] == names[i] && names[i..][1..] == names[i + 1..];
    }
  }

  /** The DT_NEEDED loop of soinfo_unload may run on names, the needs of n. */
  ghost predicate CanUnload(st: State, names: seq<Name>, bound: nat, n: Name) {
    && Ranked(st) && (forall x <- names :: x in st.libs ==> st.libs[x].stamp < bound)
    && n in st.libs && st.libs[n].stamp == bound && st.libs[n].hasDynamic
  }

  /** What is left of that loop at turn i. */
  ghost function UnloadRest(st: State, names: seq<Name>, i: nat, bound: nat, n: Name): Outcome
    requires CanUnload(st, names, bound, n) && i <= |names|
  {
    UnloadAll(st, names[i..], bound)
  }

  /** One turn of the loop. */
  lemma UnloadFrom(st: State, names: seq<Name>, i: nat, bound: nat, n: Name)
    requires i < |names| && CanUnload(st, names, bound, n)
    ensures Ranked(st) && (names[i] in st.libs ==> st.libs[names[i]].stamp < bound)
    ensures match Unload(st, names[i])
            case Fault => UnloadRest(st, names, i, bound, n) == Fault
            case Fine(st2) =>
              && CanUnload(st2, names, bound, n)
              && UnloadRest(st, names, i, bound, n) == UnloadRest(st2, names, i + 1, bound, n)
  {
    assert names[i..][0] == names[i] && names[i..][1..] == names[i + 1..];
    assert names[i] in names;
  }

  lemma UnloadEnd(st: State, names: seq<Name>, bound: nat, n: Name)
    requires CanUnload(st, names, bound, n)
    ensures UnloadRest(st, names, |names|, bound, n) == Fine(st)
  {
  }

  /** Unloading a library that has only one reference. */
  lemma UnloadLast(st: State, n: Name)
    requires Ranked(st) && n in st.libs && st.libs[n].refs == 1 && st.libs[n].hasDynamic
    ensures var st1, l := st.(log := st.log + [Fini(n)]), st.libs[n];
            && CanUnload(st1, BaseNames(l.needed), l.stamp, n)
            && match UnloadRest(st1, BaseNames(l.needed), 0, l.stamp, n)
               case Fine(st2) => CanUnload(st2, BaseNames(l.needed), l.stamp, n) && Unload(st, n) == Fine(Release(st2, n))
               case Fault => Unload(st, n) == Fault
  {
    var names := BaseNames(st.libs[n].needed);
    assert names[0..] == names;
  }

  /** What CallConstructors does between setting the flag and calling the library's own initialisers. */
  lemma ConstructFirst(st: State, st1: State, n: Name)
    requires n in st.libs && !st.libs[n].inited && st1 == WithLib(st, n, st.libs[n].(inited := true))
    ensures Uninited(st1) < Uninited(st)
    ensures var names := BaseNames(st.libs[n].needed);
            var r := CallAllConstructors(st1, names);
            CallConstructors(st, n) == if r.Fine? then Fine(r.st.(log := r.st.log + [Init(n, names)])) else Fault
  {
    assert n in Uninited(st) && n !in Uninited(st1);
  }

  /** One turn of the DT_NEEDED loop of CallConstructors. */
  lemma ConstructFrom(st: State, names: seq<Name>, i: nat)
    requires i <= |names|
    ensures i == |names| ==> CallAllConstructors(st, names[i..]) == Fine(st)
    ensures i < |names| ==>
              var r := CallConstructors(st, names[i]);
              && (r.Fault? ==> CallAllConstructors(st, names[i..]) == Fault)
              && (r.Fine? ==> Uninited(r.st) <= Uninited(st))
              && (r.Fine? ==> CallAllConstructors(st, names[i..]) == CallAllConstructors(r.st, names[i + 1..]))
  {
    if i < |names| {
      assert names[i..][0] == names[i] && names[i..][1..] == names[i + 1..];
    }
  }

  lemma MatchesAppended(rows: seq<Row>, st: State, n: Name, needed: seq<Path>)
    requires Matches(rows, st) && n !in st.libs && st.free > 0
    ensures Matches(rows + [Row(n, Lib(needed, true, 0, false, false, 0))], Alloc(st, n, needed))
  {
    var st2, rows2 := Alloc(st, n, needed), rows + [Row(n, Lib(needed, true, 0, false, false, 0))];
    forall m | m in st2.libs ensures HasRow(rows2, m) {
      if m == n {
        assert rows2[|rows|].name == m;
      } else {
        assert HasRow(rows, m);
        var i :| 0 <= i < |rows| && rows[i].name == m;
        assert rows2[i].name == m;
      }
    }
  }

  lemma PlacedAppended(nodes: seq<SoInfo>, order: seq<Name>, who: map<Name, SoInfo>, o: SoInfo, n: Name)
    requires Placed(nodes, order, who) && n !in who
    ensures Placed(nodes + [o], order + [n], who[n := o])
  {
  }

  lemma MatchesRemoved(rows: seq<Row>, st: State, k: nat)
    requires Matches(rows, st) && k < |rows| && OnlyRow(rows, k)
    ensures Matches(rows[..k] + rows[k + 1..], Release(st, st.order[k]))
    ensures Without(st.order, st.order[k]) == st.order[..k] + st.order[k + 1..]
    ensures forall i :: 0 <= i < |st.order| && i != k ==> st.order[i] != st.order[k]
  {
    var n := st.order[k];
    var st2, rows2 := Release(st, n), rows[..k] + rows[k + 1..];
    assert rows[k].name == n;
    forall i | 0 <= i < |rows| && i != k ensures st.order[i] != n {
      assert rows[i].name == st.order[i];
    }
    WithoutAt(st.order, k);
    assert forall i :: 0 <= i < |rows2| ==> rows2[i] == rows[if i < k then i else i + 1];
    assert forall i :: 0 <= i < |rows2| ==> st2.order[i] == st.order[if i < k then i else i + 1];
    forall m | m in st2.libs ensures HasRow(rows2, m) {
      assert HasRow(rows, m);
      HasOtherRow(rows, k, m);
    }
  }

  lemma HasOtherRow(rows: seq<Row>, k: nat, m: Name)
    requires k < |rows| && HasRow(rows, m) && rows[k].name != m
    ensures HasRow(rows[..k] + rows[k + 1..], m)
  {
    var rows2 := rows[..k] + rows[k + 1..];
    var i :| 0 <= i < |rows| && rows[i].name == m;
    assert rows2[if i < k then i else i - 1].name == m;
  }

  lemma PlacedRemoved(nodes: seq<SoInfo>, order: seq<Name>, who: map<Name, SoInfo>, k: nat)
    requires Placed(nodes, order, who) && k < |nodes|
    requires forall i :: 0 <= i < |order| && i != k ==> order[i] != order[k]
    ensures Placed(nodes[..k] + nodes[k + 1..], order[..k] + order[k + 1..], who - {order[k]})
  {
    var order2, nodes2 := order[..k] + order[k + 1..], nodes[..k] + nodes[k + 1..];
    forall i | 0 <= i < |order2| ensures order2[i] in who - {order[k]} && who[order2[i]] == nodes2[i] {
      assert order2[i] == order[if i < k then i else i + 1];
    }
  }

  lemma MatchesChanged(rows: seq<Row>, st: State, k: nat, l: Lib)
    requires Matches(rows, st) && k < |rows| && OnlyRow(rows, k)
    ensures Matches(rows[k := Row(rows[k].name, l)], WithLib(st, rows[k].name, l))
  {
    var rows2, st2 := rows[k := Row(rows[k].name, l)], WithLib(st, rows[k].name, l);
    forall m | m in st2.libs ensures HasRow(rows2, m) {
      assert HasRow(rows, m);
      var i :| 0 <= i < |rows| && rows[i].name == m;
      assert rows2[i].name == m;
    }
  }

  lemma {:induction false} WithoutAt(order: seq<Name>, k: nat)
    requires k < |order| && forall i :: 0 <= i < k ==> order[i] != order[k]
    ensures Without(order, order[k]) == order[..k] + order[k + 1..]
  {
    if k > 0 {
      var rest := order[1..];
      WithoutAt(rest, k - 1);
      assert order[..k] == [order[0]] + rest[..k - 1];
      assert order[k + 1..] == rest[k..];
    }
  }

  class Linker {
    const list: SoList
    const pool: Pool
    var log: seq<Event>
    var clock: nat
    ghost var st: State
    ghost var who: map<Name, SoInfo>

    ghost function Repr(): set<object>
      reads this, list, pool
    {
      {this, list, pool} + list.repr + pool.repr
    }

    /** solist stands for st. */
    ghost predicate Listed()
      reads this`st, this`who, list, list.repr
    {
      && list.Valid()
      && Matches(RowsOf(list.nodes), st) && Placed(list.nodes, st.order, who)
      && Headed(st)
    }

    ghost predicate Valid()
      reads this, list, pool, list.repr, pool.repr
    {
      Listed() && pool.Valid() && list.repr !! pool.repr && who.Keys == st.libs.Keys
      && st.free == pool.Available() && st.log == log && st.clock == clock
    }

    /** si is the element for the library n. */
    ghost predicate Holds(si: SoInfo, n: Name)
      reads this, si, list
    {
      n in st.libs && n in who && who[n] == si && si in list.repr && si.name == n && si.info == st.libs[n]
    }

    /** The initial solist: the static libdl_info alone. */
    constructor (libdl: Name, perPage: nat, pages: nat)
      requires perPage >= 1
      ensures Valid() && fresh(Repr())
      ensures st == State([libdl], map[libdl := Lib([], false, 0, true, false, 0)], Slots(pages, perPage), 1, [])
    {
      var si := new SoInfo.Static(libdl);
      list := new SoList(si);
      pool := new Pool(perPage, pages);
      log, clock := [], 1;
      st := State([libdl], map[libdl := Lib([], false, 0, true, false, 0)], Slots(pages, perPage), 1, []);
      ghost var none: map<Name, SoInfo> := map[];
      who := none[libdl := si];
      new;
      assert RowsOf(list.nodes)[0].name == libdl;
      assert HasRow(RowsOf(list.nodes), libdl);
    }

    /** find_loaded_library, on a base name. */
    method FindLoaded(n: Name) returns (si: SoInfo?)
      requires Listed()
      ensures si == null <==> n !in st.libs
      ensures si != null ==> Holds(si, n)
    {
      ghost var k;
      si, k := list.Find(n);
      ghost var rows := RowsOf(list.nodes);
      assert n in st.libs ==> HasRow(rows, n);
      assert si != null ==> rows[k].name == st.order[k];
    }

    /** Initialises an element taken from the pool and puts it at the end of solist. */
    method Enlist(o: SoInfo, n: Name, needed: seq<Path>)
      requires Listed() && n !in st.libs && n !in who && o !in list.repr && st.free > 0
      modifies this`st, this`who, list, list.repr, o
      ensures Listed() && list.repr == old(list.repr) + {o}
      ensures st == Alloc(old(st), n, needed) && who == old(who)[n := o] && Holds(o, n)
    {
      ghost var rows, nodes := RowsOf(list.nodes), list.nodes;
      MatchesAppended(rows, st, n, needed);
      PlacedAppended(nodes, st.order, who, o, n);
      st, who := Alloc(st, n, needed), who[n := o];
      o.Reset(n, needed);
      list.Append(o);
      SameRows(nodes);
      assert RowsOf(list.nodes) == rows + [Row(n, o.info)];
    }

    /** soinfo_alloc */
    method SoInfoAlloc(n: Name, needed: seq<Path>) returns (si: SoInfo?)
      requires Valid() && n !in st.libs
      modifies this`st, this`who, list, pool, list.repr, pool.repr
      ensures Valid() && fresh(Repr() - old(Repr()))
      ensures si == null <==> |n.text| >= SOINFO_NAME_LEN || old(st.free) == 0
      ensures si == null ==> st == old(st) && who == old(who)
      ensures si != null ==> st == Alloc(old(st), n, needed) && who == old(who)[n := si] && Holds(si, n)
    {
      hide SoList.Valid, Pool.Valid, Matches, Placed;
      if |n.text| >= SOINFO_NAME_LEN {
        return null;
      }
      var ok := pool.EnsureNonEmpty();
      if !ok {
        return null;
      }
      si := pool.Take();
      Enlist(si, n, needed);
    }

    /** Where the library n is on solist. */
    lemma Position(n: Name) returns (k: nat)
      requires Listed() && n in st.libs && n in who
      ensures k < |list.nodes| && list.nodes[k] == who[n] && list.nodes[k].name == st.order[k] == n
      ensures OnlyAt(list.nodes, k) && OnlyRow(RowsOf(list.nodes), k)
    {
      var rows := RowsOf(list.nodes);
      assert HasRow(rows, n);
      k :| 0 <= k < |rows| && rows[k].name == n;
      ChainedOnce(list.nodes, k);
      forall i | 0 <= i < |rows| && i != k ensures rows[i].name != n {
        assert st.order[i] == rows[i].name;
      }
    }

    lemma Removal(n: Name) returns (k: nat, rest: seq<SoInfo>)
      requires Listed() && n in st.libs && n in who
      ensures k < |list.nodes| && list.nodes[k] == who[n] && (st.libs[n].hasDynamic ==> k > 0) && rest == list.nodes[..k] + list.nodes[k + 1..]
      ensures Matches(RowsOf(rest), Release(st, n)) && Placed(rest, Release(st, n).order, who - {n})
    {
      k := Position(n);
      rest := list.nodes[..k] + list.nodes[k + 1..];
      RowsWithout(list.nodes, k);
      MatchesRemoved(RowsOf(list.nodes), st, k);
      PlacedRemoved(list.nodes, st.order, who, k);
    }

    /** The unlinking of si. */
    method Delist(si: SoInfo, ghost n: Name)
      requires Listed() && Holds(si, n) && si.info.hasDynamic
      modifies this`st, this`who, list, list.repr`next
      ensures Listed() && list.repr == old(list.repr) - {si} && si in old(list.repr)
      ensures st == Release(old(st), n) && who == old(who) - {n}
    {
      ghost var k, rest := Removal(n);
      st, who := Release(st, n), who - {n};
      list.Remove(si, k, rest);
      SameRows(rest);
    }

    /** soinfo_free */
    method SoInfoFree(si: SoInfo, ghost n: Name)
      requires Valid() && Holds(si, n) && si.info.hasDynamic
      modifies this`st, this`who, list, pool, list.repr`next
      ensures Valid() && Repr() == old(Repr())
      ensures st == Release(old(st), n) && who == old(who) - {n}
    {
      hide SoList.Valid, Matches, Placed;
      Delist(si, n);
      pool.Push(si);
    }

    /** Writes to the fields of si; `ticks` moves the clock of st. */
    method Write(si: SoInfo, info: Lib, ghost n: Name, ghost ticks: nat)
      requires Listed() && Holds(si, n) && info.hasDynamic == si.info.hasDynamic
      modifies this`st, si`info
      ensures Listed() && st == WithLib(old(st), n, info).(clock := old(st.clock) + ticks) && Holds(si, n)
    {
      ghost var rows := RowsOf(list.nodes);
      ghost var k := Position(n);
      MatchesChanged(rows, st, k, info);
      st := WithLib(st, n, info).(clock := st.clock + ticks);
      si.info := info;
      assert RowsOf(list.nodes) == rows[k := Row(n, info)];
    }

    lemma Held(n: Name)
      requires Listed() && n in st.libs && n in who
      ensures Holds(who[n], n)
    {
      var k := Position(n);
      assert RowsOf(list.nodes)[k] == Row(n, who[n].info);
    }

    /** find_library_internal for a name that is not null; si is the library found. */
    method FindLibraryInternal(files: Files, name: Path) returns (si: SoInfo?)
      requires Valid()
      modifies Repr()
      ensures Valid() && fresh(Repr() - old(Repr())) && Stays(old(who), who)
      ensures LinkerModel.FindLibraryInternal(files, old(st), name) == Loaded(st, si != null)
      ensures si != null ==> Holds(si, BaseName(name))
      decreases Missing(files, st), 0, 1
    {
      hide Listed, Pool.Valid, Extends;
      var n := BaseName(name);
      si := FindLoaded(n);
      if si != null {
        if !si.info.linked {
          si := null;
        }
        return;
      }
      si := LoadLibrary(files, name);
      if si != null {
        assert name in Missing(files, old(st)) && name !in Missing(files, st);
        si := LinkLoaded(files, si, files[name], n);
      }
    }

    /** The end of find_library_internal: a library that cannot be linked is freed. */
    method LinkLoaded(files: Files, si: SoInfo, file: ElfFile, ghost n: Name) returns (found: SoInfo?)
      requires Valid() && Holds(si, n) && si.info.hasDynamic
      modifies Repr()
      ensures Valid() && fresh(Repr() - old(Repr())) && Stays(old(who) - {n}, who)
      ensures FinishLoad(LinkerModel.LinkImage(files, old(st), file), n, file.relocOk) == Loaded(st, found != null)
      ensures found != null ==> Holds(found, n) && found == si
      decreases Missing(files, st), 3
    {
      hide Listed, Pool.Valid, Extends;
      var ok := LinkImage(files, file);
      KeepsDynamic(old(st), st, n);
      Held(n);
      if ok && file.relocOk {
        MarkLinked(si, n);
        found := si;
      } else {
        SoInfoFree(si, n);
        found := null;
      }
    }

    /** load_library: the soinfo is allocated when the file turns out to be readable. */
    method LoadLibrary(files: Files, name: Path) returns (si: SoInfo?)
      requires Valid() && BaseName(name) !in st.libs
      modifies this`st, this`who, list, pool, list.repr, pool.repr
      ensures Valid() && fresh(Repr() - old(Repr()))
      ensures si != null <==> Loadable(files, old(st), name)
      ensures si == null ==> st == old(st) && who == old(who)
      ensures si != null ==>
                && st == Alloc(old(st), BaseName(name), files[name].needed)
                && who == old(who)[BaseName(name) := si] && Holds(si, BaseName(name))
    {
      hide Listed, Pool.Valid, Extends;
      if name !in files {
        return null;
      }
      si := SoInfoAlloc(BaseName(name), files[name].needed);
    }

    /** flags |= FLAG_LINKED */
    method MarkLinked(si: SoInfo, ghost n: Name)
      requires Valid() && Holds(si, n)
      modifies this`st, this`clock, si`info
      ensures Valid() && st == Linked(old(st), n) && Holds(si, n)
    {
      hide Listed, Pool.Valid;
      Write(si, si.info.(linked := true, stamp := clock), n, 1);
      clock := clock + 1;
    }

    /** find_library */
    method FindLibrary(files: Files, name: Path) returns (si: SoInfo?)
      requires Valid()
      modifies Repr()
      ensures Valid() && fresh(Repr() - old(Repr())) && Stays(old(who), who)
      ensures LinkerModel.FindLibrary(files, old(st), name) == Loaded(st, si != null)
      ensures si != null ==> Holds(si, BaseName(name))
      decreases Missing(files, st), 0, 2
    {
      hide Listed, Pool.Valid, Extends;
      si := FindLibraryInternal(files, name);
      if si != null {
        Write(si, si.info.(refs := si.info.refs + 1), BaseName(name), 0);
      }
    }

    /** soinfo_link_image up to the end of the DT_NEEDED loop, which the first failure ends. */
    method LinkImage(files: Files, file: ElfFile) returns (ok: bool)
      requires Valid()
      modifies Repr()
      ensures Valid() && fresh(Repr() - old(Repr())) && Stays(old(who), who)
      ensures LinkerModel.LinkImage(files, old(st), file) == Loaded(st, ok)
      decreases Missing(files, st), 2, 0
    {
      hide Listed, Pool.Valid, Extends, LinkNeeded, LinkerModel.FindLibrary, Missing;
      if !file.headerOk {
        return false;
      }
      var i := 0;
      assert file.needed[i..] == file.needed;
      while i < |file.needed|
        invariant 0 <= i <= |file.needed|
        invariant Valid() && fresh(Repr() - old(Repr())) && Stays(old(who), who)
        invariant Missing(files, st) <= Missing(files, old(st))
        invariant LinkerModel.LinkImage(files, old(st), file) == LinkNeeded(files, st, file.needed[i..])
      {
        NeededFrom(files, st, file.needed, i);
        var si := FindLibrary(files, file.needed[i]);
        if si == null {
          return false;
        }
        i := i + 1;
      }
      NeededFrom(files, st, file.needed, i);
      return true;
    }

    /** A function of a library is called. */
    method Record(e: Event)
      requires Valid()
      modifies this`log, this`st
      ensures Valid() && st == old(st).(log := old(st).log + [e])
    {
      log, st := log + [e], st.(log := st.log + [e]);
    }

    /** soinfo_unload on what find_loaded_library said; not ok when a null pointer would be followed. */
    method SoInfoUnload(si: SoInfo?, ghost n: Name) returns (ok: bool)
      requires Valid() && Ranked(st)
      requires if si == null then n !in st.libs else Holds(si, n)
      modifies Repr()
      ensures ok <==> Unload(old(st), n).Fine?
      ensures ok ==> Valid() && Repr() == old(Repr()) && Remains(old(who), who)
      ensures ok ==> st == Unload(old(st), n).st
      decreases if n in st.libs then st.libs[n].stamp + 1 else 0, 3
    {
      hide Listed, Pool.Valid, UnloadAll, Ranked, Thins, Spares;
      if si == null {
        return false;
      }
      if si.info.refs != 1 {
        Write(si, si.info.(refs := Decrement(si.info.refs)), n, 0);
        return true;
      }
      if !si.info.hasDynamic {
        return false;
      }
      ok := UnloadOnly(si, n);
    }

    method UnloadOnly(si: SoInfo, ghost n: Name) returns (ok: bool)
      requires Valid() && Ranked(st) && Holds(si, n) && si.info.refs == 1 && si.info.hasDynamic
      modifies Repr()
      ensures ok <==> Unload(old(st), n).Fine?
      ensures ok ==> Valid() && Repr() == old(Repr()) && Remains(old(who), who)
      ensures ok ==> st == Unload(old(st), n).st
      decreases st.libs[n].stamp + 1, 2
    {
      hide Listed, Pool.Valid, UnloadRest, Unload, Ranked, Thins;
      UnloadLast(st, n);
      Record(Fini(si.name));
      ok := UnloadNeeded(si.info.needed, BaseNames(si.info.needed), si.info.stamp, n);
      if ok {
        Held(n);
        SoInfoFree(si, n);
      }
    }

    /** One turn of the DT_NEEDED loop of soinfo_unload. */
    method UnloadNext(path: Path, ghost names: seq<Name>, ghost i: nat, ghost bound: nat, ghost n: Name) returns (ok: bool)
      requires Valid() && CanUnload(st, names, bound, n) && i < |names| && names[i] == BaseName(path)
      modifies Repr()
      ensures !ok ==> UnloadRest(old(st), names, i, bound, n) == Fault
      ensures ok ==> Valid() && Repr() == old(Repr()) && Remains(old(who), who) && CanUnload(st, names, bound, n)
      ensures ok ==> UnloadRest(old(st), names, i, bound, n) == UnloadRest(st, names, i + 1, bound, n)
      decreases bound + 1, 0
    {
      hide Listed, Pool.Valid, Unload, CanUnload, UnloadRest, Ranked, Thins, Spares;
      UnloadFrom(st, names, i, bound, n);
      var x := FindLoaded(BaseName(path));
      ok := SoInfoUnload(x, names[i]);
    }

    /** The DT_NEEDED loop of soinfo_unload. */
    method UnloadNeeded(needed: seq<Path>, ghost names: seq<Name>, ghost bound: nat, ghost n: Name) returns (ok: bool)
      requires Valid() && CanUnload(st, names, bound, n) && names == BaseNames(needed)
      modifies Repr()
      ensures ok ==> Valid() && Repr() == old(Repr()) && Remains(old(who), who) && CanUnload(st, names, bound, n)
      ensures UnloadRest(old(st), names, 0, bound, n) == if ok then Fine(st) else Fault
      decreases bound + 1, 1
    {
      hide Listed, Pool.Valid, CanUnload, UnloadRest, Remains;
      var i := 0;
      RemainsOn(who, who, who);
      while i < |needed|
        invariant 0 <= i <= |needed|
        invariant Valid() && Repr() == old(Repr()) && Remains(old(who), who) && CanUnload(st, names, bound, n)
        invariant UnloadRest(old(st), names, 0, bound, n) == UnloadRest(st, names, i, bound, n)
      {
        ghost var who1 := who;
        ok := UnloadNext(needed[i], names, i, bound, n);
        if !ok {
          return;
        }
        RemainsOn(old(who), who1, who);
        i := i + 1;
      }
      UnloadEnd(st, names, bound, n);
      return true;
    }

    /** soinfo::CallConstructors on what find_loaded_library said. */
    method CallConstructors(si: SoInfo?, ghost n: Name) returns (ok: bool)
      requires Valid()
      requires if si == null then n !in st.libs else Holds(si, n)
      modifies Repr()
      ensures ok <==> LinkerModel.CallConstructors(old(st), n).Fine?
      ensures ok ==> Valid() && Repr() == old(Repr()) && who == old(who)
      ensures ok ==> st == LinkerModel.CallConstructors(old(st), n).st
      decreases Uninited(st), 1
    {
      hide Listed, Pool.Valid, CallAllConstructors, Uninited, OnlyInits;
      if si == null {
        return false;
      }
      if si.info.inited {
        return true;
      }
      var needed := si.info.needed;
      Write(si, si.info.(inited := true), n, 0);
      ConstructFirst(old(st), st, n);
      ok := ConstructNeeded(needed);
      if ok {
        Held(n);
        Record(Init(si.name, BaseNames(needed)));
      }
    }

    /** The DT_NEEDED loop of soinfo::CallConstructors. */
    method ConstructNeeded(needed: seq<Path>) returns (ok: bool)
      requires Valid()
      modifies Repr()
      ensures ok <==> CallAllConstructors(old(st), BaseNames(needed)).Fine?
      ensures ok ==> Valid() && Repr() == old(Repr()) && who == old(who)
      ensures ok ==> st == CallAllConstructors(old(st), BaseNames(needed)).st
      decreases Uninited(st), 2
    {
      hide Listed, Pool.Valid, CallAllConstructors, LinkerModel.CallConstructors, Uninited, OnlyInits;
      var i := 0;
      assert BaseNames(needed)[i..] == BaseNames(needed);
      while i < |needed|
        invariant 0 <= i <= |needed|
        invariant Valid() && Repr() == old(Repr()) && who == old(who) && Uninited(st) <= Uninited(old(st))
        invariant CallAllConstructors(old(st), BaseNames(needed)) == CallAllConstructors(st, BaseNames(needed)[i..])
      {
        ConstructFrom(st, BaseNames(needed), i);
        var x := FindLoaded(BaseName(needed[i]));
        ok := CallConstructors(x, BaseNames(needed)[i]);
        if !ok {
          return;
        }
        i := i + 1;
      }
      ConstructFrom(st, BaseNames(needed), i);
      return true;
    }

    /** The program's own soinfo, with the reference that start-up gives it. */
    method CountProgram(main: Name, needed: seq<Path>) returns (si: SoInfo?)
      requires Valid() && main !in st.libs
      modifies Repr()
      ensures Valid() && fresh(Repr() - old(Repr()))
      ensures si == null <==> |main.text| >= SOINFO_NAME_LEN || old(st.free) == 0
      ensures si != null ==> Holds(si, main) && st == Referenced(Alloc(old(st), main, needed), main)
    {
      hide Listed, Pool.Valid;
      si := SoInfoAlloc(main, needed);
      if si != null {
        Write(si, si.info.(refs := 1), main, 0);
      }
    }

    /** The program's own soinfo: allocated, counted, linked. */
    method LinkProgram(files: Files, main: Name, needed: seq<Path>) returns (si: SoInfo?)
      requires Valid() && st == P.Bare(st.free) && main != P.LIBDL
      modifies Repr()
      ensures si != null ==> Valid() && fresh(Repr() - old(Repr())) && Holds(si, main)
      ensures if |main.text| >= SOINFO_NAME_LEN || old(st.free) == 0 then si == null
              else
                var r := LinkerModel.LinkImage(files, Referenced(Alloc(old(st), main, needed), main), ElfFile(true, needed, true));
                main in r.st.libs && (si != null <==> r.ok) && (si != null ==> st == Linked(r.st, main))
    {
      hide Listed, Pool.Valid, LinkerModel.LinkImage, Extends, Referenced, Alloc, Linked;
      si := CountProgram(main, needed);
      if si == null {
        return;
      }
      ghost var st1 := st;
      LinkingKeeps(files, st1, ElfFile(true, needed, true), main);
      var linked := LinkImage(files, ElfFile(true, needed, true));
      if !linked {
        return null;
      }
      Held(main);
      MarkLinked(si, main);
    }

    /** __linker_init_post_relocation, for the program and all it leads to. */
    method StartUp(files: Files, main: Name, needed: seq<Path>) returns (si: SoInfo?, ok: bool)
      requires Valid() && st == P.Bare(st.free) && main != P.LIBDL
      modifies Repr()
      ensures ok ==> Valid() && fresh(Repr() - old(Repr())) && si != null && Holds(si, main)
      ensures P.Startup(files, main, needed, old(st.free)) == if ok then Some(st) else None
    {
      hide Listed, Pool.Valid, LinkerModel.LinkImage, LinkerModel.CallConstructors, Extends, OnlyInits;
      si := LinkProgram(files, main, needed);
      if si == null {
        return si, false;
      }
      ghost var st1 := st;
      ok := CallConstructors(si, main);
      if ok {
        InitialisingKeeps(st1, main, main);
        Held(main);
      }
    }

    /** do_dlopen; `somain` is what find_library finds for a null name. */
    method DoDlOpen(files: Files, somain: SoInfo, path: Option<Path>, ghost main: Name, ghost p: P.Process)
      returns (si: SoInfo?, ok: bool)
      requires Valid() && Holds(somain, main) && p.st == st
      modifies Repr()
      ensures !ok ==> P.DlOpen(files, main, p, path) == P.Crashed
      ensures ok ==> Valid() && fresh(Repr() - old(Repr()))
      ensures ok && si == null ==> path.Some? && P.DlOpen(files, main, p, path) == P.Up(P.Process(st, p.handles, p.lost + LostByFind(files, old(st), path.value)))
      ensures ok && si != null ==>
                && si.name in st.libs && who[si.name] == si
                && P.DlOpen(files, main, p, path) == P.Up(P.Process(st, p.handles + multiset{si.name}, p.lost))
                && si.name == (if path == None then main else BaseName(path.value))
      ensures path == None ==> si != null
      ensures path.Some? && BaseName(path.value) in old(st.libs) ==>
                (si != null <==> old(st.libs)[BaseName(path.value)].linked)
      ensures path.Some? && BaseName(path.value) !in old(st.libs) && LinkerSuccess.OneFileEach(files, path.value) ==>
                (si != null <==> exists rank :: LinkerSuccess.Plan(files, path.value, old(st), rank) && BaseName(path.value) in rank)
    {
      hide LinkerSuccess.Plan, LinkerSuccess.OneFileEach, Listed, Pool.Valid, LinkerModel.FindLibrary, LinkerModel.CallConstructors, Extends, OnlyInits;
      ghost var n := if path == None then main else BaseName(path.value);
      if path == None {
        Write(somain, somain.info.(refs := somain.info.refs + 1), main, 0);
        si := somain;
      } else {
        if BaseName(path.value) in st.libs || LinkerSuccess.OneFileEach(files, path.value) {
          LinkerSuccess.FindSucceedsIff(files, st, path.value);
        }
        si := FindLibrary(files, path.value);
        if si == null {
          return null, true;
        }
      }
      ok := CallConstructors(si, n);
      if ok {
        Held(n);
      }
    }

    /** do_dlclose on an open handle. */
    method DoDlClose(si: SoInfo, ghost n: Name, ghost p: P.Process) returns (ok: bool)
      requires Valid() && Ranked(st) && Holds(si, n) && p.st == st && n in p.handles
      modifies Repr()
      ensures !ok ==> P.DlClose(p, n) == P.Crashed
      ensures ok ==> Valid() && Repr() == old(Repr())
      ensures ok ==> P.DlClose(p, n) == P.Up(P.Process(st, p.handles - multiset{n}, p.lost))
    {
      hide Listed, Pool.Valid, Unload, Ranked;
      ok := SoInfoUnload(si, n);
    }
  }
}
