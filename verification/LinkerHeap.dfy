/**
 The linker's data structures: soinfo objects threaded on the pool's free list and on solist.
 Each operation is proved to act on them as LinkerModel says.
 */
module LinkerHeap {
  import opened LinkerModel

  class SoInfo {
    var name: Name
    var next: SoInfo?
    var info: Lib

    constructor ()
      ensures next == null
    {
      name, next, info := Name(""), null, Lib([], false, 0, false, false, 0);
    }

    /** The static libdl_info. */
    constructor Static(libdl: Name)
      ensures next == null && name == libdl && info == Lib([], false, 0, true, false, 0)
    {
      name, next, info := libdl, null, Lib([], false, 0, true, false, 0);
    }

    /** The memset and strlcpy in soinfo_alloc, and what load_library and soinfo_link_image then set. */
    method Reset(name: Name, needed: seq<Path>)
      modifies this
      ensures this.name == name && info == Lib(needed, true, 0, false, false, 0)
    {
      this.name, next, info := name, null, Lib(needed, true, 0, false, false, 0);
    }
  }

  // ---- lists of soinfos ----

  ghost function After(xs: seq<SoInfo>, i: nat): SoInfo? {
    if i + 1 < |xs| then xs[i + 1] else null
  }

  ghost predicate Chained(xs: seq<SoInfo>)
    reads xs
  {
    forall i {:trigger After(xs, i)} :: 0 <= i < |xs| ==> xs[i].next == After(xs, i)
  }

  /** A chain that ends in null does not meet itself. */
  lemma {:induction false} ChainedDiffer(xs: seq<SoInfo>, i: nat, j: nat)
    requires Chained(xs) && i < j < |xs|
    ensures xs[i] != xs[j]
    decreases |xs| - j
  {
    assert xs[i].next == After(xs, i) && xs[j].next == After(xs, j);
    if j + 1 < |xs| {
      ChainedDiffer(xs, i + 1, j + 1);
    }
  }

  ghost predicate OnlyAt(xs: seq<SoInfo>, k: nat)
    requires k < |xs|
  {
    forall i :: 0 <= i < |xs| && i != k ==> xs[i] != xs[k]
  }

  lemma ChainedOnce(xs: seq<SoInfo>, k: nat)
    requires Chained(xs) && k < |xs|
    ensures OnlyAt(xs, k)
  {
    forall i | 0 <= i < |xs| && i != k ensures xs[i] != xs[k] {
      if i < k {
        ChainedDiffer(xs, i, k);
      } else {
        ChainedDiffer(xs, k, i);
      }
    }
  }

  ghost predicate Within(xs: seq<SoInfo>, s: set<SoInfo>) {
    forall i :: 0 <= i < |xs| ==> xs[i] in s
  }

  ghost function First(xs: seq<SoInfo>): SoInfo? {
    if xs == [] then null else xs[0]
  }

  /** The soinfos in so many pages. */
  ghost function Slots(pages: nat, perPage: nat): nat {
    if pages == 0 then 0 else perPage + Slots(pages - 1, perPage)
  }

  /** The pool: a free list, and the pages the kernel will still map. */
  class Pool {
    const perPage: nat
    var head: SoInfo?
    var pagesLeft: nat
    ghost var items: seq<SoInfo>
    ghost var repr: set<SoInfo>

    ghost predicate Valid()
      reads this, repr
    {
      perPage >= 1 && Within(items, repr) && Chained(items) && head == First(items)
    }

    ghost function Available(): nat
      reads this
    {
      |items| + Slots(pagesLeft, perPage)
    }

    constructor (perPage: nat, pages: nat)
      requires perPage >= 1
      ensures Valid() && repr == {} && Available() == Slots(pages, perPage)
    {
      this.perPage, head, pagesLeft := perPage, null, pages;
      items, repr := [], {};
    }

    /** Puts an element at the head. */
    method Push(si: SoInfo)
      requires Valid() && si !in repr
      modifies this`head, this`items, this`repr, si`next
      ensures Valid() && repr == old(repr) + {si}
      ensures items == [si] + old(items) && pagesLeft == old(pagesLeft)
    {
      si.next := head;
      head := si;
      forall i | 0 <= i < |items| + 1 ensures ([si] + items)[i].next == After([si] + items, i) {
        assert i > 0 ==> items[i - 1].next == After(items, i - 1);
      }
      items, repr := [si] + items, repr + {si};
    }

    /** ensure_free_list_non_empty: maps a page and chains its entries, last one first. */
    method EnsureNonEmpty() returns (ok: bool)
      requires Valid()
      modifies this
      ensures Valid() && Available() == old(Available()) && fresh(repr - old(repr)) && old(repr) <= repr
      ensures ok <==> items != []
      ensures ok <==> Available() > 0
    {
      if head != null {
        return true;
      }
      if pagesLeft == 0 {
        return false;
      }
      pagesLeft := pagesLeft - 1;
      var i := perPage;
      while i > 0
        invariant 0 <= i <= perPage && |items| == perPage - i
        invariant Valid() && fresh(repr - old(repr)) && old(repr) <= repr
        invariant pagesLeft == old(pagesLeft) - 1
      {
        i := i - 1;
        var si := new SoInfo();
        Push(si);
      }
      return true;
    }

    /** Takes the head element off the free list. */
    method Take() returns (si: SoInfo)
      requires Valid() && items != []
      modifies this`head, this`items, this`repr
      ensures si == old(items[0]) && si in old(repr)
      ensures Valid() && repr == old(repr) - {si} && Available() == old(Available()) - 1
    {
      si := head;
      ChainedOnce(items, 0);
      assert si.next == After(items, 0);
      head := si.next;
      forall i | 0 <= i < |items| - 1 ensures items[1..][i].next == After(items[1..], i) {
        assert items[i + 1].next == After(items, i + 1);
      }
      items, repr := items[1..], repr - {si};
    }
  }

  lemma Unchained(xs: seq<SoInfo>, k: nat)
    requires 0 < k < |xs| && xs[k - 1].next == After(xs, k)
    requires forall i {:trigger After(xs, i)} :: 0 <= i < |xs| && i != k - 1 ==> xs[i].next == After(xs, i)
    ensures Chained(xs[..k] + xs[k + 1..])
  {
    var rest := xs[..k] + xs[k + 1..];
    forall i | 0 <= i < |rest| ensures rest[i].next == After(rest, i) {
      assert i != k - 1 ==> xs[i].next == After(xs, i);
      assert i != k - 2 && i + 1 < |xs| ==> xs[i + 1].next == After(xs, i + 1);
    }
  }

  /** solist and sonext: never empty, since the static libdl_info is always its first element. */
  class SoList {
    var head: SoInfo
    var tail: SoInfo
    ghost var nodes: seq<SoInfo>
    ghost var repr: set<SoInfo>

    ghost predicate Valid()
      reads this, repr
    {
      && Within(nodes, repr) && Chained(nodes)
      && nodes != [] && head == nodes[0] && tail == nodes[|nodes| - 1]
    }

    constructor (libdl: SoInfo)
      requires libdl.next == null
      ensures Valid() && nodes == [libdl] && repr == {libdl}
    {
      head, tail := libdl, libdl;
      nodes, repr := [libdl], {libdl};
    }

    /** The end of soinfo_alloc. */
    method Append(si: SoInfo)
      requires Valid() && si !in repr
      modifies this`tail, this`nodes, this`repr, tail`next, si`next
      ensures Valid() && nodes == old(nodes) + [si] && repr == old(repr) + {si}
    {
      ChainedOnce(nodes, |nodes| - 1);
      si.next := null;
      tail.next := si;
      tail := si;
      forall i | 0 <= i < |nodes| + 1 ensures (nodes + [si])[i].next == After(nodes + [si], i) {
        assert i < |nodes| ==> old(nodes[i].next) == After(nodes, i);
      }
      nodes, repr := nodes + [si], repr + {si};
    }

    /** The first element called n. */
    method Find(n: Name) returns (si: SoInfo?, ghost k: nat)
      requires Valid()
      ensures k <= |nodes| && forall i :: 0 <= i < k ==> nodes[i].name != n
      ensures si == null <==> k == |nodes|
      ensures si != null ==> si == nodes[k] && si.name == n
    {
      si, k := head, 0;
      while si != null
        invariant k <= |nodes| && si == if k < |nodes| then nodes[k] else null
        invariant forall i :: 0 <= i < k ==> nodes[i].name != n
        decreases |nodes| - k
      {
        if si.name == n {
          return;
        }
        assert si.next == After(nodes, k);
        si, k := si.next, k + 1;
      }
    }

    /** The element before si; there is always one, the first being the static libdl_info. */
    method Before(si: SoInfo, ghost k: nat) returns (prev: SoInfo)
      requires Valid() && 0 < k < |nodes| && nodes[k] == si
      ensures prev == nodes[k - 1]
    {
      ChainedOnce(nodes, k);
      prev := head;
      var trav := head.next;
      ghost var j := 1;
      assert head.next == After(nodes, 0);
      while trav != si
        invariant 1 <= j <= k && prev == nodes[j - 1] && trav == nodes[j]
        decreases k - j
      {
        assert trav.next == After(nodes, j);
        prev, trav, j := trav, trav.next, j + 1;
      }
    }

    /** The unlinking in soinfo_free. */
    method Remove(si: SoInfo, ghost k: nat, ghost rest: seq<SoInfo>)
      requires Valid() && 0 < k < |nodes| && nodes[k] == si && rest == nodes[..k] + nodes[k + 1..]
      modifies this, repr`next
      ensures Valid() && nodes == rest && repr == old(repr) - {si}
      ensures si.next == old(si.next)
    {
      var prev := Before(si, k);
      ChainedOnce(nodes, k);
      ChainedOnce(nodes, k - 1);
      assert si.next == After(nodes, k);
      prev.next := si.next;
      if si == tail {
        tail := prev;
      }
      Unchained(nodes, k);
      nodes, repr := rest, repr - {si};
    }
  }
}
