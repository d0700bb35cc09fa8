/**
 The dynamic linker's library graph as a function of its state: loading with its DT_NEEDED
 recursion, reference counts, the unload cascade, and initialisers and terminators as log events.
 */
module LinkerModel {
  type Path = string

  /** What soinfo::name holds: the part of a path after its last slash. */
  datatype Name = Name(text: string)

  datatype Option<T> = None | Some(value: T)

  /**
   What load_library and soinfo_link_image find in a library file: whether the checks before the
   DT_NEEDED loop pass, the names it needs, and whether relocation and protection then succeed.
   */
  datatype ElfFile = ElfFile(headerOk: bool, needed: seq<Path>, relocOk: bool)

  type Files = map<Path, ElfFile>

  /** A soinfo; `stamp` is when its linking was completed. */
  datatype Lib = Lib(needed: seq<Path>, hasDynamic: bool, refs: nat, linked: bool, inited: bool, stamp: nat)

  datatype Event = Init(name: Name, deps: seq<Name>) | Fini(name: Name)

  /** solist is `order`; `free` counts the soinfos the pool can still supply. */
  datatype State = State(order: seq<Name>, libs: map<Name, Lib>, free: nat, clock: nat, log: seq<Event>)

  const SOINFO_NAME_LEN := 128

  /** The part of a path after its last slash, or all of it. */
  function AfterLastSlash(path: Path): (r: string)
    ensures '/' !in r
    ensures r == path || exists i :: 0 <= i < |path| && path[i] == '/' && path[i + 1..] == r
  {
    if path == [] then []
    else
      var r := AfterLastSlash(path[1..]);
      if '/' in path[1..] || path[0] == '/' then
        assert r == path[1..] || exists i :: 0 <= i < |path[1..]| && path[1..][i] == '/' && path[1..][i + 1..] == r;
        r
      else path
  }

  function BaseName(path: Path): Name {
    Name(AfterLastSlash(path))
  }

  function BaseNames(paths: seq<Path>): (r: seq<Name>)
    ensures |r| == |paths|
    ensures forall i :: 0 <= i < |r| ==> r[i] == BaseName(paths[i])
  {
    seq(|paths|, i requires 0 <= i < |paths| => BaseName(paths[i]))
  }

  /** st2 has every library st1 has, with reference counts that only grew. */
  predicate Extends(st1: State, st2: State) {
    && (forall n <- st1.libs ::
          n in st2.libs && st2.libs[n] == st1.libs[n].(refs := st2.libs[n].refs) && st1.libs[n].refs <= st2.libs[n].refs)
    && st1.clock <= st2.clock && st1.log == st2.log
  }

  /** Files whose library is not on solist yet: what bounds the recursion. */
  function Missing(files: Files, st: State): set<Path> {
    set p <- files.Keys | BaseName(p) !in st.libs
  }

  lemma MissingShrinks(files: Files, st1: State, st2: State)
    requires Extends(st1, st2)
    ensures Missing(files, st2) <= Missing(files, st1)
  {
  }

  /** solist without the first entry called n. */
  function Without(order: seq<Name>, n: Name): seq<Name> {
    if order == [] then []
    else if order[0] == n then order[1..]
    else [order[0]] + Without(order[1..], n)
  }

  // ---- the soinfo list ----

  /** soinfo_alloc after a successful load: appended, one soinfo fewer to give. */
  function Alloc(st: State, n: Name, needed: seq<Path>): State
    requires st.free > 0
  {
    st.(order := st.order + [n],
        libs := st.libs[n := Lib(needed, true, 0, false, false, 0)],
        free := st.free - 1)
  }

  /** soinfo_free */
  function Release(st: State, n: Name): State {
    st.(order := Without(st.order, n), libs := st.libs - {n}, free := st.free + 1)
  }

  function WithLib(st: State, n: Name, l: Lib): State {
    st.(libs := st.libs[n := l])
  }

  /** ref_count++ */
  function Referenced(st: State, n: Name): State
    requires n in st.libs
  {
    WithLib(st, n, st.libs[n].(refs := st.libs[n].refs + 1))
  }

  /** flags |= FLAG_LINKED */
  function Linked(st: State, n: Name): State
    requires n in st.libs
  {
    WithLib(st, n, st.libs[n].(linked := true, stamp := st.clock)).(clock := st.clock + 1)
  }

  // ---- loading ----

  datatype Loaded = Loaded(st: State, ok: bool)

  /** The end of soinfo_link_image, and what find_library_internal makes of it. */
  function FinishLoad(r: Loaded, n: Name, relocOk: bool): Loaded
    requires n in r.st.libs
  {
    if r.ok && relocOk then Loaded(Linked(r.st, n), true) else Loaded(Release(r.st, n), false)
  }

  /** find_library_internal for a name that is not null. */
  function FindLibraryInternal(files: Files, st: State, name: Path): (r: Loaded)
    ensures Extends(st, r.st)
    ensures r.ok ==> BaseName(name) in r.st.libs && r.st.libs[BaseName(name)].linked
    decreases Missing(files, st), 0, 1
  {
    var n := BaseName(name);
    if n in st.libs then Loaded(st, st.libs[n].linked)
    else if !Loadable(files, st, name) then Loaded(st, false)
    else
      var st1 := Alloc(st, n, files[name].needed);
      assert name in Missing(files, st) && name !in Missing(files, st1);
      FinishLoad(LinkImage(files, st1, files[name]), n, files[name].relocOk)
  }

  /** load_library succeeds: the file can be read and a soinfo can be had for it. */
  predicate Loadable(files: Files, st: State, name: Path) {
    name in files && |BaseName(name).text| < SOINFO_NAME_LEN && st.free > 0
  }

  /** soinfo_link_image up to the end of the DT_NEEDED loop. */
  function LinkImage(files: Files, st: State, file: ElfFile): (r: Loaded)
    ensures Extends(st, r.st)
    ensures r.ok ==> forall x <- file.needed :: BaseName(x) in r.st.libs && r.st.libs[BaseName(x)].linked
    decreases Missing(files, st), 2, 0
  {
    if file.headerOk then LinkNeeded(files, st, file.needed) else Loaded(st, false)
  }

  /** find_library: the caller's reference is counted when the library is found. */
  function FindLibrary(files: Files, st: State, name: Path): (r: Loaded)
    ensures Extends(st, r.st)
    ensures r.ok ==> BaseName(name) in r.st.libs && r.st.libs[BaseName(name)].linked
    decreases Missing(files, st), 0, 2
  {
    var r := FindLibraryInternal(files, st, name);
    if !r.ok then r
    else Loaded(Referenced(r.st, BaseName(name)), true)
  }

  /** The DT_NEEDED loop of soinfo_link_image; the first failure ends it. */
  function LinkNeeded(files: Files, st: State, names: seq<Path>): (r: Loaded)
    ensures Extends(st, r.st)
    ensures r.ok ==> forall x <- names :: BaseName(x) in r.st.libs && r.st.libs[BaseName(x)].linked
    decreases Missing(files, st), 1, |names|
  {
    if names == [] then Loaded(st, true)
    else
      var r := FindLibrary(files, st, names[0]);
      if !r.ok then r
      else
        MissingShrinks(files, st, r.st);
        LinkNeeded(files, r.st, names[1..])
  }

  // ---- unloading ----

  /** Fault: the code would dereference a null pointer. */
  datatype Outcome = Fine(st: State) | Fault

  /** A library is always older than those that need it. */
  ghost predicate Ranked(st: State) {
    forall n, x :: n in st.libs && x in BaseNames(st.libs[n].needed) && x in st.libs ==>
      st.libs[x].stamp < st.libs[n].stamp
  }

  /** st2 keeps some of the libraries of st1, unchanged but for reference counts. */
  ghost predicate Thins(st1: State, st2: State) {
    && (forall n <- st2.libs :: n in st1.libs && st2.libs[n] == st1.libs[n].(refs := st2.libs[n].refs))
    && st2.clock == st1.clock
  }

  /** Libraries no older than `bound` are still there, but for those in `out`. */
  ghost predicate Spares(st1: State, st2: State, bound: nat, out: set<Name>) {
    forall m <- st1.libs :: m !in out && st1.libs[m].stamp >= bound ==> m in st2.libs
  }

  /** ref_count-- on a size_t of 32 bits. */
  function Decrement(refs: nat): nat {
    if refs == 0 then 0xFFFF_FFFF else refs - 1
  }

  /** soinfo_unload(find_loaded_library(n)) */
  ghost function Unload(st: State, n: Name): (r: Outcome)
    requires Ranked(st)
    ensures r.Fine? ==> Ranked(r.st) && Thins(st, r.st)
    ensures r.Fine? && n in st.libs ==> Spares(st, r.st, st.libs[n].stamp, {n})
    decreases if n in st.libs then st.libs[n].stamp + 1 else 0, 0
  {
    if n !in st.libs then Fault
    else
      var l := st.libs[n];
      if l.refs != 1 then Fine(WithLib(st, n, l.(refs := Decrement(l.refs))))
      else if !l.hasDynamic then Fault
      else
        var r := UnloadAll(st.(log := st.log + [Fini(n)]), BaseNames(l.needed), l.stamp);
        if r.Fault? then Fault else Fine(Release(r.st, n))
  }

  ghost function UnloadAll(st: State, names: seq<Name>, bound: nat): (r: Outcome)
    requires Ranked(st)
    requires forall x <- names :: x in st.libs ==> st.libs[x].stamp < bound
    ensures r.Fine? ==> Ranked(r.st) && Thins(st, r.st)
    ensures r.Fine? ==> Spares(st, r.st, bound, {})
    decreases bound, 1 + |names|
  {
    if names == [] then Fine(st)
    else
      var r := Unload(st, names[0]);
      if r.Fault? then Fault else UnloadAll(r.st, names[1..], bound)
  }

  // ---- initialisers ----

  function Uninited(st: State): set<Name> {
    set n <- st.libs | !st.libs[n].inited
  }

  /** Only the constructors_called flags and the log differ, and flags are only set. */
  predicate OnlyInits(st1: State, st2: State) {
    && st1.order == st2.order && st1.libs.Keys == st2.libs.Keys && st1.free == st2.free && st1.clock == st2.clock
    && (forall n <- st1.libs ::
          st2.libs[n] == st1.libs[n].(inited := st2.libs[n].inited) && (st1.libs[n].inited ==> st2.libs[n].inited))
  }

  /** soinfo::CallConstructors on find_loaded_library(n) */
  function CallConstructors(st: State, n: Name): (r: Outcome)
    ensures r.Fine? ==> OnlyInits(st, r.st)
    decreases Uninited(st), 0
  {
    if n !in st.libs then Fault
    else if st.libs[n].inited then Fine(st)
    else
      var st1 := WithLib(st, n, st.libs[n].(inited := true));
      assert n in Uninited(st) && n !in Uninited(st1) && Uninited(st1) <= Uninited(st);
      var r := CallAllConstructors(st1, BaseNames(st.libs[n].needed));
      if r.Fault? then Fault else Fine(r.st.(log := r.st.log + [Init(n, BaseNames(st.libs[n].needed))]))
  }

  function CallAllConstructors(st: State, names: seq<Name>): (r: Outcome)
    ensures r.Fine? ==> OnlyInits(st, r.st)
    decreases Uninited(st), 1 + |names|
  {
    if names == [] then Fine(st)
    else
      var r := CallConstructors(st, names[0]);
      if r.Fault? then Fault
      else
        assert Uninited(r.st) <= Uninited(st);
        CallAllConstructors(r.st, names[1..])
  }
}
