/** ElfReader: reserves room for a library and lays its segments out in it, in 32-bit addresses. */
module ElfReader {
  import opened Arithmetic
  import opened ElfSegments

  const PHDR_SIZE := 32

  /** Every loadable segment's pages lie within [lo, hi), and the bounds are reached. */
  ghost predicate Spans(ps: seq<Phdr>, n: nat, lo: nat, hi: nat)
    requires n <= |ps|
  {
    && (forall i :: 0 <= i < n && ps[i].kind == Load ==> lo <= ps[i].vaddr && ps[i].vaddr + ps[i].memsz <= hi)
    && (exists i :: 0 <= i < n && ps[i].kind == Load && ps[i].vaddr == lo)
    && (exists i :: 0 <= i < n && ps[i].kind == Load && ps[i].vaddr + ps[i].memsz == hi)
  }

  ghost predicate NothingToLoad(ps: seq<Phdr>, n: nat)
    requires n <= |ps|
  {
    forall i :: 0 <= i < n ==> ps[i].kind != Load
  }

  lemma SpansMore(ps: seq<Phdr>, n: nat, lo: nat, hi: nat)
    requires n < |ps| && ps[n].kind == Load && (NothingToLoad(ps, n) || Spans(ps, n, lo, hi))
    ensures var p := ps[n];
      if NothingToLoad(ps, n) then Spans(ps, n + 1, p.vaddr, p.vaddr + p.memsz)
      else Spans(ps, n + 1, if p.vaddr < lo then p.vaddr else lo,
                 if p.vaddr + p.memsz > hi then p.vaddr + p.memsz else hi)
  {
    var p := ps[n];
    if !NothingToLoad(ps, n) {
      var i :| 0 <= i < n && ps[i].kind == Load && ps[i].vaddr == lo;
      var j :| 0 <= j < n && ps[j].kind == Load && ps[j].vaddr + ps[j].memsz == hi;
      assert ps[i].vaddr == lo && ps[j].vaddr + ps[j].memsz == hi;
    }
  }

  /** phdr_table_get_load_size: the page-aligned extent of the loadable segments, 0 if there are none. */
  method LoadSize(ps: seq<Phdr>) returns (size: nat, min: nat, max: nat)
    requires AllWellMade(ps)
    ensures size == max - min && max <= WORD32 && min % PAGE_SIZE == 0
    ensures NothingToLoad(ps, |ps|) ==> size == 0
    ensures !NothingToLoad(ps, |ps|) ==>
      exists lo, hi :: Spans(ps, |ps|, lo, hi) && min == PageStart(lo) && max == PageEnd(hi)
  {
    var minV: nat, maxV: nat := 0xFFFF_FFFF, 0;
    var found := false;
    var i := 0;
    while i < |ps|
      invariant 0 <= i <= |ps| && found == !NothingToLoad(ps, i)
      invariant if found then Spans(ps, i, minV, maxV) else minV == 0xFFFF_FFFF && maxV == 0
      invariant 0 <= minV < WORD32 && 0 <= maxV && maxV + PAGE_SIZE <= WORD32
    {
      if ps[i].kind == Load {
        assert WellMade(ps[i]);
        SpansMore(ps, i, minV, maxV);
        found := true;
        if ps[i].vaddr < minV {
          minV := ps[i].vaddr;
        }
        if ps[i].vaddr + ps[i].memsz > maxV {
          maxV := ps[i].vaddr + ps[i].memsz;
        }
      }
      i := i + 1;
    }
    if !found {
      minV := 0;
    }
    PageBounds(minV);
    PageBounds(maxV);
    PageEndMonotone(minV, maxV);
    min, max := PageStart(minV), PageEnd(maxV);
    size := max - min;
  }

  /** The pages of a loadable segment are within the reserved range. */
  lemma SpansPages(ps: seq<Phdr>, lo: nat, hi: nat, i: nat)
    requires Spans(ps, |ps|, lo, hi) && i < |ps| && ps[i].kind == Load && WellMade(ps[i])
    ensures PageStart(lo) <= Low(ps[i]) <= PageEnd(ps[i].vaddr + ps[i].filesz) <= High(ps[i]) <= PageEnd(hi)
  {
    PageEndMonotone(lo, ps[i].vaddr);
    PageEndMonotone(ps[i].vaddr + ps[i].filesz, ps[i].vaddr + ps[i].memsz);
    PageEndMonotone(ps[i].vaddr + ps[i].memsz, hi);
    PageBounds(ps[i].vaddr);
    PageBounds(ps[i].vaddr + ps[i].filesz);
  }

  /** What the kernel promises of a mapping of so many bytes. */
  predicate PageAligned(start: nat, size: nat) {
    start % PAGE_SIZE == 0 && start + size < WORD32
  }

  lemma PagesWithin(ps: seq<Phdr>, min: nat, max: nat)
    requires AllWellMade(ps)
    requires exists lo, hi :: Spans(ps, |ps|, lo, hi) && min == PageStart(lo) && max == PageEnd(hi)
    ensures forall i :: 0 <= i < |ps| && ps[i].kind == Load ==>
      min <= Low(ps[i]) <= PageEnd(ps[i].vaddr + ps[i].filesz) <= High(ps[i]) <= max
  {
    var lo, hi :| Spans(ps, |ps|, lo, hi) && min == PageStart(lo) && max == PageEnd(hi);
    forall i | 0 <= i < |ps| && ps[i].kind == Load
      ensures min <= Low(ps[i]) <= PageEnd(ps[i].vaddr + ps[i].filesz) <= High(ps[i]) <= max
    {
      SpansPages(ps, lo, hi, i);
    }
  }

  /** Moving by whole pages. */
  lemma SamePage(v: nat, w: nat)
    requires (w - v) % PAGE_SIZE == 0
    ensures PageOffset(w) == PageOffset(v) && PageStart(w) + v == PageStart(v) + w
  {
  }

  lemma EndIsStart(v: nat)
    ensures PageEnd(v) == PageStart(v + PAGE_SIZE - 1)
  {
  }

  class Reader {
    const file: seq<Byte>
    const table: seq<Phdr>
    const phoff: nat
    var loadStart: nat
    var loadSize: nat
    var loadBias: nat
    var loadedPhdr: nat
    // the reserved range of memory, from loadStart on
    var mem: array<Byte>
    ghost var min: nat

    constructor (file: seq<Byte>, table: seq<Phdr>, phoff: nat)
      ensures this.file == file && this.table == table && this.phoff == phoff
      ensures loadStart == loadSize == loadBias == loadedPhdr == mem.Length == 0
    {
      this.file, this.table, this.phoff := file, table, phoff;
      loadStart, loadSize, loadBias, loadedPhdr, min := 0, 0, 0, 0, 0;
      mem := new Byte[0];
    }

    /** The range reserved holds all segments' pages, the lowest of them first. */
    ghost predicate Reserved()
      reads this
    {
      && mem.Length == loadSize && loadStart % PAGE_SIZE == 0 && loadStart + loadSize < WORD32
      && min % PAGE_SIZE == 0 && min + loadSize <= WORD32
      && loadBias < WORD32 && (loadBias == loadStart - min || loadBias == loadStart - min + WORD32)
      && forall i :: 0 <= i < |table| && table[i].kind == Load ==> Within(table[i])
    }

    /** p_vaddr + load_bias_, in 32 bits. */
    function Addr(v: nat): nat
      reads this`loadBias
    {
      (v + loadBias) % WORD32
    }

    ghost predicate Within(p: Phdr)
      reads this
    {
      min <= Low(p) <= PageEnd(p.vaddr + p.filesz) <= High(p) <= min + loadSize
    }

    /** ReserveAddressSpace; `start` is where the kernel finds room, if it does. */
    method ReserveAddressSpace(start: nat -> nat, granted: bool) returns (ok: bool)
      requires AllWellMade(table)
      requires forall size :: 0 < size <= WORD32 ==> PageAligned(start(size), size)
      modifies this
      ensures ok ==> Reserved() && fresh(mem)
      ensures ok <==> granted && !NothingToLoad(table, |table|) && loadSize > 0
      ensures NothingToLoad(table, |table|) ==> loadSize == 0
      ensures !NothingToLoad(table, |table|) ==>
        exists lo, hi :: Spans(table, |table|, lo, hi) && min == PageStart(lo) && loadSize == PageEnd(hi) - PageStart(lo)
    {
      hide Spans, PageStart, PageEnd, WellMade, Low, High;
      var size, minV, maxV := LoadSize(table);
      loadSize, min := size, minV;
      if size == 0 || !granted {
        return false;
      }
      assert PageAligned(start(size), size);
      loadStart := start(size);
      loadBias := (loadStart - minV) % WORD32;
      mem := new Byte[size];
      PagesWithin(table, minV, maxV);
      return true;
    }

    /** mmap of file pages at a fixed address in the reserved range. */
    method MapFile(at: nat, len: nat, fileAt: nat)
      requires at + len <= mem.Length
      modifies mem
      ensures forall x :: 0 <= x < mem.Length ==>
        mem[x] == if at <= x < at + len then FileByte(file, fileAt + x - at) else old(mem[x])
    {
      forall x | at <= x < at + len {
        mem[x] := FileByte(file, fileAt + x - at);
      }
    }

    /** memset to zero, and mmap of zero pages. */
    method Zero(at: nat, len: nat)
      requires at + len <= mem.Length
      modifies mem
      ensures forall x :: 0 <= x < mem.Length ==> mem[x] == if at <= x < at + len then 0 else old(mem[x])
    {
      forall x | at <= x < at + len {
        mem[x] := 0;
      }
    }

    /** The bias takes every address into the reserved range, whatever wraps around, and keeps pages. */
    lemma Translated(v: nat)
      requires Reserved() && min <= v <= min + loadSize
      ensures Addr(v) == loadStart + v - min
      ensures var a := loadStart + v - min;
        && PageOffset(a) == PageOffset(v)
        && PageStart(a) + min == PageStart(v) + loadStart && PageEnd(a) + min == PageEnd(v) + loadStart
    {
      hide PageStart, PageEnd, PageOffset;
      SamePage(v, loadStart + v - min);
      SamePage(v + PAGE_SIZE - 1, loadStart + v - min + PAGE_SIZE - 1);
      EndIsStart(v);
      EndIsStart(loadStart + v - min);
    }

    lemma Places(p: Phdr)
      requires Reserved() && WellMade(p) && Within(p)
      ensures p.filesz <= p.memsz
      ensures var s := Addr(p.vaddr);
        && s == loadStart + p.vaddr - min && s + p.memsz < WORD32
        && PageStart(s) == loadStart + Low(p) - min
        && PageEnd(s + p.filesz) == loadStart + PageEnd(p.vaddr + p.filesz) - min
        && PageEnd(s + p.memsz) == loadStart + High(p) - min
        && PageOffset(s + p.filesz) == PageOffset(p.vaddr + p.filesz)
      ensures PageStart(p.offset) + p.vaddr == p.offset + Low(p)
      ensures loadStart + Low(p) - min >= loadStart && High(p) - min <= mem.Length == loadSize
    {
      hide PageStart, PageEnd, PageOffset, Reserved, Addr, WellMade, Within;
      Congruent(p);
      ReservedBounds();
      BytesWithin(p);
      Translated(p.vaddr);
      Translated(p.vaddr + p.filesz);
      Translated(p.vaddr + p.memsz);
    }

    lemma BytesWithin(p: Phdr)
      requires Reserved() && WellMade(p) && Within(p)
      ensures min <= Low(p) <= p.vaddr <= p.vaddr + p.filesz <= p.vaddr + p.memsz <= High(p) <= min + loadSize == min + mem.Length
      ensures PageEnd(p.vaddr + p.filesz) <= High(p)
    {
      FilePartWithin(p);
    }

    lemma ReservedBounds()
      requires Reserved()
      ensures loadStart + loadSize < WORD32
    {
    }

    lemma Congruent(p: Phdr)
      requires WellMade(p)
      ensures PageStart(p.offset) + p.vaddr == p.offset + Low(p)
    {
    }

    /** The end of the file part, and of its last page. */
    lemma FilePages(p: Phdr)
      requires WellMade(p)
      ensures var e := p.vaddr + p.filesz;
        && Low(p) <= p.vaddr <= e <= PageEnd(e)
        && (PageOffset(e) == 0 ==> e == PageEnd(e)) && (PageOffset(e) > 0 ==> e + PAGE_SIZE - PageOffset(e) == PageEnd(e))
      ensures p.offset + p.filesz == PageStart(p.offset) ==> Low(p) == PageEnd(p.vaddr + p.filesz)
    {
    }

    /** Byte x of the range after that: file pages from a to b, and zeros from e on, or from b on, up to c. */
    function Laid(p: Phdr, a: nat, e: nat, b: nat, c: nat, x: nat, was: Byte): Byte {
      if b <= x < c || (p.writable && e <= x < b) then 0
      else if a <= x < b then FileByte(file, PageStart(p.offset) + x - a)
      else was
    }

    lemma LaidIsAfter(p: Phdr, x: nat, was: Byte)
      requires Reserved() && WellMade(p) && Within(p)
      ensures var e := p.vaddr + p.filesz;
        Laid(p, Low(p) - min, e - min, PageEnd(e) - min, High(p) - min, x, was) == After(p, file, min + x, was)
    {
      FilePages(p);
      Congruent(p);
      hide PageStart, PageEnd, FileByte, Reserved;
    }

    /** LoadSegments, for one segment. */
    method LoadSegment(p: Phdr, ghost was: seq<Byte>)
      requires Reserved() && WellMade(p) && Within(p) && mem[..] == was
      modifies mem
      ensures forall x :: 0 <= x < mem.Length ==> mem[x] == After(p, file, min + x, was[x])
    {
      hide PageStart, PageEnd, PageOffset, Low, High, FileByte, Addr, After, WellMade, Reserved, Within;
      Places(p);
      FilePages(p);
      BytesWithin(p);
      forall x | 0 <= x < mem.Length ensures var e := p.vaddr + p.filesz;
        Laid(p, Low(p) - min, e - min, PageEnd(e) - min, High(p) - min, x, was[x]) == After(p, file, min + x, was[x])
      {
        LaidIsAfter(p, x, was[x]);
      }
      var segStart := Addr(p.vaddr);
      var segEnd := (segStart + p.memsz) % WORD32;
      assert segEnd == segStart + p.memsz;
      var fileLength := p.offset + p.filesz - PageStart(p.offset);
      var fileEnd := segStart + p.filesz;
      if fileLength != 0 {
        MapFile(PageStart(segStart) - loadStart, PageEnd(fileEnd) - PageStart(segStart), PageStart(p.offset));
      }
      if p.writable && PageOffset(fileEnd) > 0 {
        Zero(fileEnd - loadStart, PAGE_SIZE - PageOffset(fileEnd));
      }
      if PageEnd(segEnd) > PageEnd(fileEnd) {
        Zero(PageEnd(fileEnd) - loadStart, PageEnd(segEnd) - PageEnd(fileEnd));
      }
    }

    /** LoadSegments */
    method LoadSegments()
      requires Reserved() && AllWellMade(table)
      modifies mem
      ensures AllLoaded(old(mem[..]))
    {
      hide Reserved, After;
      ghost var was := mem[..];
      var i := 0;
      while i < |table|
        invariant 0 <= i <= |table|
        invariant mem.Length == |was| && forall x :: 0 <= x < |was| ==> mem[x] == AfterAll(table, i, file, min + x, was[x])
      {
        if table[i].kind == Load {
          ReservedWithin(i);
          LoadSegment(table[i], mem[..]);
        }
        i := i + 1;
      }
    }

    lemma ReservedWithin(i: nat)
      requires Reserved() && i < |table| && table[i].kind == Load
      ensures Within(table[i])
    {
    }

    // ---- a segment in memory ----

    /** Byte k of a segment, at its biased address: the file's below filesz, and 0 behind. */
    ghost predicate ByteLoaded(p: Phdr, k: nat)
      reads this, mem
    {
      var a := Addr(p.vaddr + k);
      && loadStart <= a < loadStart + mem.Length
      && mem[a - loadStart] == if k < p.filesz && p.offset + k < |file| then file[p.offset + k] else 0
    }

    /** Memory as LoadSegments leaves it. */
    ghost predicate AllLoaded(was: seq<Byte>)
      reads this, mem
    {
      mem.Length == |was| && forall x :: 0 <= x < mem.Length ==> mem[x] == AfterAll(table, |table|, file, min + x, was[x])
    }

    /** After LoadSegments a segment is in memory as the file has it exactly if it is writable or its tail is clean. */
    lemma LoadedIff(was: seq<Byte>, i: nat)
      requires Reserved() && Loadable(table) && AllLoaded(was) && i < |table| && table[i].kind == Load
      ensures (forall k :: 0 <= k < table[i].memsz ==> ByteLoaded(table[i], k)) <==> table[i].writable || CleanTail(table[i], file)
    {
      var p, m, lo := table[i], mem[..], min;
      var image := (v: nat) => if lo <= v < lo + |m| then m[v - lo] else 0;
      var before := (v: nat) => if lo <= v < lo + |was| then was[v - lo] else 0;
      InRange(p, i);
      hide Addr, PageStart, PageEnd, Low, High, Reserved, CleanTail, After;
      SegmentsImagedIff(table, file, image, before, i);
      forall k | 0 <= k < p.memsz
        ensures ByteLoaded(p, k) <==> image(p.vaddr + k) == Wanted(p, file, p.vaddr + k)
      {
        ByteIs(p, k);
      }
      if Imaged(p, file, image) {
        forall k | 0 <= k < p.memsz ensures ByteLoaded(p, k) {
          assert image(p.vaddr + k) == Wanted(p, file, p.vaddr + k);
        }
      } else {
        var v :| p.vaddr <= v < p.vaddr + p.memsz && image(v) != Wanted(p, file, v);
        assert !ByteLoaded(p, v - p.vaddr);
      }
    }

    lemma InRange(p: Phdr, i: nat)
      requires Reserved() && i < |table| && table[i].kind == Load && p == table[i]
      ensures Within(p) && min <= Low(p) <= p.vaddr && p.vaddr + p.memsz <= High(p) <= min + mem.Length
    {
      FilePartWithin(p);
    }

    lemma ByteIs(p: Phdr, k: nat)
      requires Reserved() && Within(p) && k < p.memsz
      ensures min <= p.vaddr + k < min + mem.Length
      ensures ByteLoaded(p, k) <==> mem[p.vaddr + k - min] == Wanted(p, file, p.vaddr + k)
    {
      FilePartWithin(p);
      Translated(p.vaddr + k);
    }

    // ---- the program header table in memory ----

    /** The header table at this address lies in the file part of a loaded segment. */
    ghost predicate InFilePart(loaded: nat, i: nat)
      reads this
      requires i < |table|
    {
      var segStart := Addr(table[i].vaddr);
      table[i].kind == Load && segStart <= loaded && loaded + |table| * 32 <= segStart + table[i].filesz
    }

    /** What CheckPhdr looks at, in 32 bits. */
    ghost predicate Accepted(loaded: nat, i: nat)
      reads this
      requires i < |table|
    {
      var segStart := Addr(table[i].vaddr);
      && table[i].kind == Load && segStart <= loaded
      && (loaded + |table| * PHDR_SIZE) % WORD32 <= (segStart + table[i].filesz) % WORD32
    }

    /** CheckPhdr */
    method CheckPhdr(loaded: nat) returns (ok: bool)
      modifies this`loadedPhdr
      ensures ok <==> exists i :: 0 <= i < |table| && Accepted(loaded, i)
      ensures loadedPhdr == if ok then loaded else old(loadedPhdr)
    {
      var loadedEnd := (loaded + |table| * PHDR_SIZE) % WORD32;
      var i := 0;
      while i < |table|
        invariant 0 <= i <= |table| && forall k :: 0 <= k < i ==> !Accepted(loaded, k)
        invariant loadedPhdr == old(loadedPhdr)
      {
        var segStart := Addr(table[i].vaddr);
        var segEnd := (segStart + table[i].filesz) % WORD32;
        if table[i].kind == Load && segStart <= loaded && loadedEnd <= segEnd {
          loadedPhdr := loaded;
          assert Accepted(loaded, i);
          return true;
        }
        assert !Accepted(loaded, i);
        i := i + 1;
      }
      return false;
    }

    /** A table that passes lies in the file part of a segment exactly if its end does not wrap around. */
    lemma AcceptedIff(loaded: nat, i: nat)
      requires Reserved() && AllWellMade(table) && i < |table| && loaded < WORD32 && |table| * PHDR_SIZE < WORD32
      requires Accepted(loaded, i)
      ensures InFilePart(loaded, i) <==> loaded + |table| * PHDR_SIZE < WORD32
    {
      hide Addr, Reserved, Low, High, PageStart, PageEnd;
      ReservedWithin(i);
      Places(table[i]);
    }

    /** Such tables are accepted whenever the segment is not at the very bottom of memory. */
    lemma WrappingIsAccepted(loaded: nat, i: nat)
      requires Reserved() && AllWellMade(table) && i < |table| && table[i].kind == Load
      requires loaded < WORD32 <= loaded + |table| * PHDR_SIZE && |table| * PHDR_SIZE <= Addr(table[i].vaddr) <= loaded
      ensures Accepted(loaded, i) && forall k :: 0 <= k < |table| ==> !InFilePart(loaded, k)
    {
      hide Addr, Reserved, AllWellMade;
      var size := |table| * PHDR_SIZE;
      ModPlusMultiple(loaded + size - WORD32, 1, WORD32);
      SmallMod(loaded + size - WORD32);
      SegmentEnds(i);
      SmallMod(Addr(table[i].vaddr) + table[i].filesz);
      assert Accepted(loaded, i);
      hide Accepted;
      forall k | 0 <= k < |table| ensures !InFilePart(loaded, k) {
        if table[k].kind == Load {
          SegmentEnds(k);
        }
      }
    }

    lemma SegmentEnds(k: nat)
      requires Reserved() && AllWellMade(table) && k < |table| && table[k].kind == Load
      ensures Addr(table[k].vaddr) + table[k].filesz < WORD32
    {
      hide Addr, Reserved, Low, High, PageStart, PageEnd;
      ReservedWithin(k);
      Places(table[k]);
    }

    /** FindPhdr: a PT_PHDR entry decides; otherwise the first loadable segment, if it starts the file. */
    method FindPhdr() returns (ok: bool)
      modifies this`loadedPhdr
      ensures ok <==> HasHeaderAddress() && exists i :: 0 <= i < |table| && Accepted(Addr(HeaderAddress()), i)
      ensures loadedPhdr == if ok then Addr(HeaderAddress()) else old(loadedPhdr)
    {
      var h := Scan(PhdrTable);
      if h < |table| {
        var loaded := Addr(table[h].vaddr);
        assert loaded == Addr(HeaderAddress());
        ok := CheckPhdr(loaded);
        assert loaded == Addr(HeaderAddress());
        return;
      }
      var l := Scan(Load);
      if l < |table| && table[l].offset == 0 {
        var loaded := (Addr(table[l].vaddr) + phoff) % WORD32;
        AddrAdd(table[l].vaddr, phoff);
        assert loaded == Addr(HeaderAddress());
        ok := CheckPhdr(loaded);
        assert loaded == Addr(HeaderAddress());
        return;
      }
      return false;
    }

    method Scan(kind: Kind) returns (i: nat)
      ensures i == FirstOf(table, kind)
    {
      i := 0;
      assert table[0..] == table;
      while i < |table| && table[i].kind != kind
        invariant i <= |table| && FirstOf(table, kind) == i + FirstOf(table[i..], kind)
      {
        assert table[i..][1..] == table[i + 1..];
        i := i + 1;
      }
    }

    /** Where in the file the memory at loadedPhdr, in segment i, comes from. */
    ghost function FilePosition(i: nat): int
      reads this
      requires i < |table|
    {
      table[i].offset + loadedPhdr - Addr(table[i].vaddr)
    }

    /** There is a PT_PHDR entry, or a loadable segment, the first of which starts the file. */
    ghost predicate HasHeaderAddress() {
      var h, l := FirstOf(table, PhdrTable), FirstOf(table, Load);
      h < |table| || (l < |table| && table[l].offset == 0)
    }

    /** The virtual address FindPhdr reckons with. */
    ghost function HeaderAddress(): nat
      requires HasHeaderAddress()
    {
      var h, l := FirstOf(table, PhdrTable), FirstOf(table, Load);
      if h < |table| then table[h].vaddr else table[l].vaddr + phoff
    }

    lemma AddrAdd(v: nat, w: nat)
      ensures (Addr(v) + w) % WORD32 == Addr(v + w)
    {
      ModAdd(v + loadBias, w, WORD32);
    }

    /**
     Memory at loadedPhdr is the file's own header table exactly when segment i puts virtual addresses to the file offsets
     that go with it.
     */
    lemma PhdrIsTheFilesIff(was: seq<Byte>, i: nat, v: nat)
      requires Reserved() && Loadable(table) && AllLoaded(was) && phoff < WORD32
      requires i < |table| && InFilePart(loadedPhdr, i) && loadedPhdr == Addr(v)
      ensures FilePosition(i) == phoff <==> (v - phoff - (table[i].vaddr - table[i].offset)) % WORD32 == 0
      ensures FilePosition(i) == phoff ==> forall k :: 0 <= k < |table| * PHDR_SIZE ==> PhdrByte(k)
    {
      hide Low, High, PageStart, PageEnd, AllLoaded, PageDisjoint;
      var p := table[i];
      PositionIff(v, p.vaddr, p.offset, p.filesz);
      if FilePosition(i) == phoff {
        forall k | 0 <= k < |table| * PHDR_SIZE ensures PhdrByte(k) {
          PhdrFromFile(was, i, k);
        }
      }
    }

    /** Byte k of what loadedPhdr points to is byte k of the file's header table. */
    ghost predicate PhdrByte(k: nat)
      reads this, mem
    {
      && loadStart <= loadedPhdr + k < loadStart + mem.Length
      && mem[loadedPhdr + k - loadStart] == if phoff + k < |file| then file[phoff + k] else 0
    }

    lemma PositionIff(v: nat, w: nat, offset: nat, filesz: nat)
      requires Addr(w) <= Addr(v) <= Addr(w) + filesz && offset + filesz < WORD32 && phoff < WORD32
      ensures offset + Addr(v) - Addr(w) == phoff <==> (v - phoff - (w - offset)) % WORD32 == 0
    {
      var q: int := offset + Addr(v) - Addr(w) - phoff;
      var m: int := (v + loadBias) / WORD32 - (w + loadBias) / WORD32;
      assert v - phoff - (w - offset) == q + m * WORD32;
      ModPlusMultiple(q, m, WORD32);
      assert q < WORD32 && q + WORD32 > 0;
    }

    /** Without a PT_PHDR entry: a header table in the first segment is the one found. */
    lemma FirstSegmentHasIt(was: seq<Byte>)
      requires Reserved() && Loadable(table) && AllLoaded(was)
      requires var l := FirstOf(table, Load);
        FirstOf(table, PhdrTable) == |table| && l < |table| && table[l].offset == 0 && phoff + |table| * PHDR_SIZE <= table[l].filesz
      requires loadedPhdr == Addr(HeaderAddress())
      ensures Accepted(loadedPhdr, FirstOf(table, Load))
      ensures forall k :: 0 <= k < |table| * PHDR_SIZE ==> PhdrByte(k)
    {
      var l, p := FirstOf(table, Load), table[FirstOf(table, Load)];
      assert WellMade(p);
      StartsTheFile(l);
      hide AllLoaded, PageDisjoint, Reserved, Addr, WellMade, Loadable, FirstOf;
      SmallMod(loadedPhdr + |table| * PHDR_SIZE);
      SmallMod(Addr(p.vaddr) + p.filesz);
      assert InFilePart(loadedPhdr, l);
      PhdrIsTheFilesIff(was, l, p.vaddr + phoff);
    }

    lemma StartsTheFile(l: nat)
      requires Reserved() && l < |table| && table[l].kind == Load && WellMade(table[l])
      requires phoff <= table[l].filesz
      ensures Addr(table[l].vaddr + phoff) == Addr(table[l].vaddr) + phoff
      ensures Addr(table[l].vaddr) + table[l].filesz < WORD32
    {
      InRange(table[l], l);
      Translated(table[l].vaddr);
      Translated(table[l].vaddr + phoff);
      ReservedBounds();
    }

    lemma SmallMod(x: nat)
      requires x < WORD32
      ensures x % WORD32 == x
    {
    }

    /** What FindPhdr settles on is a stretch of the file, as far as the file part reaches. */
    lemma PhdrFromFile(was: seq<Byte>, i: nat, k: nat)
      requires Reserved() && Loadable(table) && AllLoaded(was)
      requires i < |table| && InFilePart(loadedPhdr, i) && k < |table| * PHDR_SIZE
      ensures FilePosition(i) >= 0 && loadStart <= loadedPhdr + k < loadStart + mem.Length
      ensures mem[loadedPhdr + k - loadStart] == FileByte(file, FilePosition(i) + k)
    {
      var p := table[i];
      FilePartWithin(p);
      hide PageStart, PageEnd, Reserved, AllWellMade, PageDisjoint, After, Addr;
      ReservedWithin(i);
      Places(p);
      var x := loadedPhdr + k - loadStart;
      OthersKeep(table, |table|, i, file, min + x, was[x]);
      FilePart(p, file, min + x, AfterAll(table, i, file, min + x, was[x]));
      assert min + x + p.offset - p.vaddr == p.offset + (loadedPhdr - Addr(p.vaddr)) + k;
    }
  }

  lemma FilePartWithin(p: Phdr)
    ensures Low(p) <= p.vaddr && p.vaddr + p.memsz <= High(p)
  {
    PageBounds(p.vaddr);
    PageBounds(p.vaddr + p.memsz);
  }

  lemma FilePart(p: Phdr, file: seq<Byte>, v: nat, was: Byte)
    requires WellMade(p) && p.vaddr <= v < p.vaddr + p.filesz
    ensures After(p, file, v, was) == FileByte(file, v + p.offset - p.vaddr)
  {
    PageBounds(p.vaddr);
    PageBounds(p.vaddr + p.filesz);
  }

  function FirstOf(ps: seq<Phdr>, kind: Kind): (i: nat)
    ensures i <= |ps| && (i < |ps| ==> ps[i].kind == kind)
    ensures forall k :: 0 <= k < i ==> ps[k].kind != kind
  {
    if ps == [] || ps[0].kind == kind then 0 else 1 + FirstOf(ps[1..], kind)
  }
}
