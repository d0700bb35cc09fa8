/** The memory image of an ELF file's loadable segments, and how much room it takes. */
module ElfSegments {
  import opened Arithmetic

  type Byte = bv8

  const PAGE_SIZE := 4096

  function PageStart(x: nat): nat {
    x - x % PAGE_SIZE
  }

  function PageOffset(x: nat): nat {
    x % PAGE_SIZE
  }

  function PageEnd(x: nat): nat {
    PageStart(x + PAGE_SIZE - 1)
  }

  datatype Kind = Load | PhdrTable | Other

  datatype Phdr = Phdr(kind: Kind, offset: nat, vaddr: nat, filesz: nat, memsz: nat, writable: bool)

  /** What the file holds; a mapped page is zero past the end of the file. */
  function FileByte(file: seq<Byte>, at: nat): Byte {
    if at < |file| then file[at] else 0
  }

  /** gABI, "Program Loading": congruent addresses; and no segment reaches past the address space. */
  predicate WellMade(p: Phdr) {
    p.filesz <= p.memsz && p.vaddr % PAGE_SIZE == p.offset % PAGE_SIZE
    && p.vaddr + p.memsz + PAGE_SIZE <= WORD32 && p.offset + p.filesz < WORD32
  }

  /** The pages of a segment, as virtual addresses of the file. */
  function Low(p: Phdr): nat {
    PageStart(p.vaddr)
  }

  function High(p: Phdr): nat {
    PageEnd(p.vaddr + p.memsz)
  }

  ghost predicate PageDisjoint(ps: seq<Phdr>) {
    forall i, j :: 0 <= i < |ps| && 0 <= j < |ps| && i != j && ps[i].kind == Load && ps[j].kind == Load ==>
      High(ps[i]) <= Low(ps[j]) || High(ps[j]) <= Low(ps[i])
  }

  ghost predicate AllWellMade(ps: seq<Phdr>) {
    forall i :: 0 <= i < |ps| && ps[i].kind == Load ==> WellMade(ps[i])
  }

  ghost predicate Loadable(ps: seq<Phdr>) {
    AllWellMade(ps) && PageDisjoint(ps)
  }

  // ---- one segment ----

  /** The file's byte for virtual address v, reckoned from where segment p begins. */
  function FileAt(p: Phdr, file: seq<Byte>, v: nat): Byte {
    if v + p.offset >= p.vaddr then FileByte(file, v + p.offset - p.vaddr) else 0
  }

  /** The byte at virtual address v, once segment p is loaded over what was there. */
  function After(p: Phdr, file: seq<Byte>, v: nat, was: Byte): Byte {
    var fileEnd := p.vaddr + p.filesz;
    if Low(p) <= v < PageEnd(fileEnd) then
      if p.writable && v >= fileEnd then 0 else FileAt(p, file, v)
    else if PageEnd(fileEnd) <= v < High(p) then 0
    else was
  }

  /** What the ABI asks for: the file's bytes, and zeros behind them. */
  function Wanted(p: Phdr, file: seq<Byte>, v: nat): Byte {
    if v < p.vaddr + p.filesz then FileAt(p, file, v) else 0
  }

  ghost predicate Imaged(p: Phdr, file: seq<Byte>, image: nat -> Byte) {
    forall v :: p.vaddr <= v < p.vaddr + p.memsz ==> image(v) == Wanted(p, file, v)
  }

  /** The bytes of the last file page that belong to the segment but not to its file part are zero in the file. */
  ghost predicate CleanTail(p: Phdr, file: seq<Byte>) {
    forall v :: p.vaddr + p.filesz <= v < p.vaddr + p.memsz && v < PageEnd(p.vaddr + p.filesz) ==> FileAt(p, file, v) == 0
  }

  lemma PageBounds(x: nat)
    ensures PageStart(x) <= x < PageStart(x) + 4096 && x <= PageEnd(x) < x + 4096
    ensures PageStart(x) % 4096 == 0 && PageEnd(x) % 4096 == 0
  {
  }

  lemma PageEndMonotone(x: nat, y: nat)
    requires x <= y
    ensures PageEnd(x) <= PageEnd(y) && PageStart(x) <= PageStart(y)
  {
  }

  /** A segment comes out as the ABI wants it exactly if it is writable or its last file page is clean. */
  lemma ImagedIff(p: Phdr, file: seq<Byte>, image: nat -> Byte, was: nat -> Byte)
    requires WellMade(p)
    requires forall v :: Low(p) <= v < High(p) ==> image(v) == After(p, file, v, was(v))
    ensures Imaged(p, file, image) <==> p.writable || CleanTail(p, file)
  {
    hide PageStart, PageEnd, FileAt;
    PageBounds(p.vaddr);
    PageBounds(p.vaddr + p.filesz);
    PageBounds(p.vaddr + p.memsz);
    forall v | p.vaddr <= v < p.vaddr + p.memsz
      ensures image(v) == if v < PageEnd(p.vaddr + p.filesz) && (!p.writable || v < p.vaddr + p.filesz) then FileAt(p, file, v) else 0
    {
    }
  }

  // ---- all segments ----

  /** The byte at v once the first n segments are loaded in order. */
  function AfterAll(ps: seq<Phdr>, n: nat, file: seq<Byte>, v: nat, was: Byte): Byte
    requires n <= |ps|
  {
    if n == 0 then was
    else
      var before := AfterAll(ps, n - 1, file, v, was);
      if ps[n - 1].kind == Load then After(ps[n - 1], file, v, before) else before
  }

  /** Segments on other pages leave a byte alone. */
  lemma {:induction false} OthersKeep(ps: seq<Phdr>, n: nat, i: nat, file: seq<Byte>, v: nat, was: Byte)
    requires Loadable(ps) && i < n <= |ps| && ps[i].kind == Load && Low(ps[i]) <= v < High(ps[i])
    ensures AfterAll(ps, n, file, v, was) == After(ps[i], file, v, AfterAll(ps, i, file, v, was))
  {
    if n > i + 1 {
      OthersKeep(ps, n - 1, i, file, v, was);
      var q := ps[n - 1];
      if q.kind == Load {
        assert WellMade(q);
        PageEndMonotone(q.vaddr + q.filesz, q.vaddr + q.memsz);
      }
    }
  }

  /** The image of a whole file: every segment, at every byte. */
  lemma SegmentsImagedIff(ps: seq<Phdr>, file: seq<Byte>, image: nat -> Byte, was: nat -> Byte, i: nat)
    requires Loadable(ps) && i < |ps| && ps[i].kind == Load
    requires forall v :: Low(ps[i]) <= v < High(ps[i]) ==> image(v) == AfterAll(ps, |ps|, file, v, was(v))
    ensures Imaged(ps[i], file, image) <==> ps[i].writable || CleanTail(ps[i], file)
  {
    var before := (v: nat) => AfterAll(ps, i, file, v, was(v));
    forall v | Low(ps[i]) <= v < High(ps[i]) ensures image(v) == After(ps[i], file, v, before(v)) {
      OthersKeep(ps, |ps|, i, file, v, was(v));
    }
    ImagedIff(ps[i], file, image, before);
  }
}
