/** Laying out the volume: cluster chains in the FAT, and the extents they describe. */
module FatVolume {
  import opened Arithmetic
  import opened FatImage

  const SECTOR := 512
  const FAT_EOC := 0x0FFF_FFF8
  const FIRST_CLUSTER := 2
  const RESERVED := 3
  const ENTRIES_PER_SECTOR := 128

  /** A file's clusters: `count` of them from `first` on. */
  datatype File = File(first: nat, count: nat)

  /** The clusters reached from c by following the table, until an entry is no cluster of the volume. */
  function Follow(fat: seq<nat>, c: nat, steps: nat): seq<nat>
    decreases steps
  {
    if steps == 0 || c >= |fat| || c < FIRST_CLUSTER then [] else [c] + Follow(fat, fat[c], steps - 1)
  }

  /** The entries of a file's clusters, as fs_alloc_extent writes them. */
  ghost predicate IsChain(fat: seq<nat>, f: File) {
    && f.count >= 1 && f.first >= FIRST_CLUSTER && f.first + f.count <= |fat|
    && (forall c :: f.first <= c < f.first + f.count - 1 ==> fat[c] == c + 1)
    && fat[f.first + f.count - 1] == 0x0FFF_FFF8
  }

  /** From its first cluster on, a file's chain is its clusters in order, and then the end mark. */
  lemma {:induction false} ChainFollows(fat: seq<nat>, f: File, steps: nat)
    requires IsChain(fat, f) && |fat| <= FAT_EOC && steps >= f.count
    ensures Follow(fat, f.first, steps) == seq(f.count, k requires 0 <= k < f.count => f.first + k)
    decreases f.count
  {
    if f.count == 1 {
      assert Follow(fat, FAT_EOC, steps - 1) == [];
    } else {
      var rest := File(f.first + 1, f.count - 1);
      ChainFollows(fat, rest, steps - 1);
      assert seq(f.count, k requires 0 <= k < f.count => f.first + k)
          == [f.first] + seq(rest.count, k requires 0 <= k < rest.count => rest.first + k);
    }
  }

  /** Files lie one behind the other from cluster lo to hi. */
  predicate Tiled(files: seq<File>, lo: nat, hi: nat) {
    if files == [] then lo == hi else files[0].first == lo && files[0].count >= 1 && Tiled(files[1..], lo + files[0].count, hi)
  }

  lemma {:induction false} TiledMore(files: seq<File>, lo: nat, hi: nat, f: File)
    requires Tiled(files, lo, hi) && f.first == hi && f.count >= 1
    ensures Tiled(files + [f], lo, hi + f.count)
  {
    if files == [] {
      assert [f][1..] == [];
    } else {
      assert (files + [f])[1..] == files[1..] + [f];
      TiledMore(files[1..], lo + files[0].count, hi, f);
    }
  }

  lemma {:induction false} TiledBounds(files: seq<File>, lo: nat, hi: nat, i: nat)
    requires Tiled(files, lo, hi) && i < |files|
    ensures lo <= files[i].first && files[i].count >= 1 && files[i].first + files[i].count <= hi
  {
    if i == 0 {
      TiledUp(files[1..], lo + files[0].count, hi);
    } else {
      TiledBounds(files[1..], lo + files[0].count, hi, i - 1);
    }
  }

  lemma {:induction false} TiledUp(files: seq<File>, lo: nat, hi: nat)
    requires Tiled(files, lo, hi)
    ensures lo <= hi
  {
    if files != [] {
      TiledUp(files[1..], lo + files[0].count, hi);
    }
  }

  /** No two files share a cluster. */
  lemma {:induction false} ChainsApart(files: seq<File>, lo: nat, hi: nat, i: nat, j: nat)
    requires Tiled(files, lo, hi) && i < j < |files|
    ensures files[i].first + files[i].count <= files[j].first
  {
    if i == 0 {
      TiledBounds(files[1..], lo + files[0].count, hi, j - 1);
    } else {
      ChainsApart(files[1..], lo + files[0].count, hi, i - 1, j - 1);
    }
  }

  /** Every cluster between lo and hi is some file's. */
  lemma {:induction false} TiledCovers(files: seq<File>, lo: nat, hi: nat, c: nat) returns (i: nat)
    requires Tiled(files, lo, hi) && lo <= c < hi
    ensures i < |files| && files[i].first <= c < files[i].first + files[i].count
  {
    if c < lo + files[0].count {
      i := 0;
    } else {
      i := TiledCovers(files[1..], lo + files[0].count, hi, c);
      i := i + 1;
    }
  }

  // ---- extents ----

  datatype Kind = Boot | Info | Table | Data(content: seq<Byte>)

  /** struct extent */
  datatype Slot = Slot(start: nat, len: nat, kind: Kind)

  /** Slots in falling order, the first of them ending by `top`. */
  predicate Falling(es: seq<Slot>, top: nat) {
    es == [] || (es[0].len > 0 && es[0].start + es[0].len <= top && Falling(es[1..], es[0].start))
  }

  lemma {:induction false} FallingBelow(es: seq<Slot>, top: nat, i: nat)
    requires Falling(es, top) && i < |es|
    ensures es[i].len > 0 && es[i].start + es[i].len <= top
  {
    if i > 0 {
      FallingBelow(es[1..], es[0].start, i - 1);
    }
  }

  lemma {:induction false} FallingApart(es: seq<Slot>, top: nat, i: nat, j: nat)
    requires Falling(es, top) && i < j < |es|
    ensures es[j].start + es[j].len <= es[i].start
  {
    if i == 0 {
      FallingBelow(es[1..], es[0].start, j - 1);
    } else {
      FallingApart(es[1..], es[0].start, i - 1, j - 1);
    }
  }

  /** Four bytes for each entry, the lowest first. */
  function TableBytes(fat: seq<nat>): (bytes: seq<Byte>)
    ensures |bytes| == 4 * |fat|
  {
    seq(4 * |fat|, i requires 0 <= i < 4 * |fat| => EntryByte(fat[i / 4], i % 4))
  }

  function EntryByte(entry: nat, i: nat): Byte
    requires i < 4
  {
    entry / [1, 0x100, 0x1_0000, 0x100_0000][i] % 256
  }

  /** extent_read: what each kind of extent is filled from. */
  function ShownBy(s: Slot, boot: seq<Byte>, info: seq<Byte>, table: seq<Byte>): Extent {
    match s.kind
    case Boot => Extent(s.start, s.len, boot)
    case Info => Extent(s.start, s.len, info)
    case Table => Extent(s.start, s.len, table)
    case Data(content) => Extent(s.start, s.len, content)
  }

  function ShownAll(es: seq<Slot>, boot: seq<Byte>, info: seq<Byte>, table: seq<Byte>): (shown: seq<Extent>)
    ensures |shown| == |es| && forall i :: 0 <= i < |es| ==> shown[i] == ShownBy(es[i], boot, info, table)
  {
    seq(|es|, i requires 0 <= i < |es| => ShownBy(es[i], boot, info, table))
  }

  /** The extents of a volume do not overlap. */
  lemma ShownDisjoint(es: seq<Slot>, top: nat, boot: seq<Byte>, info: seq<Byte>, table: seq<Byte>)
    requires Falling(es, top)
    ensures Disjoint(ShownAll(es, boot, info, table))
    ensures forall i :: 0 <= i < |es| ==> ShownAll(es, boot, info, table)[i].len > 0
  {
    forall i, j | 0 <= i < j < |es| ensures Apart(ShownAll(es, boot, info, table)[i], ShownAll(es, boot, info, table)[j]) {
      FallingApart(es, top, i, j);
    }
    forall i | 0 <= i < |es| ensures ShownAll(es, boot, info, table)[i].len > 0 {
      FallingBelow(es, top, i);
    }
  }

  // ---- what a window of the volume shows ----

  /** As far as the window reaches: content from byte `at` of the volume on, and zeros behind it up to len. */
  ghost predicate Shows(window: seq<Byte>, start: nat, at: nat, len: nat, content: seq<Byte>) {
    forall k :: 0 <= k < |window| && at <= start + k < at + len ==>
      window[k] == if start + k - at < |content| then content[start + k - at] else 0
  }

  /** If the window has all four bytes at `at`, they make up the entry, the lowest first. */
  ghost predicate ShowsEntry(window: seq<Byte>, start: nat, at: nat, entry: nat) {
    start <= at && at + 4 <= start + |window| ==>
      var k := at - start;
      window[k] as int + 0x100 * (window[k + 1] as int) + 0x1_0000 * (window[k + 2] as int) + 0x100_0000 * (window[k + 3] as int)
      == entry
  }

  /** Each extent is seen, wherever it is in the list. */
  lemma SlotShows(es: seq<Slot>, top: nat, boot: seq<Byte>, info: seq<Byte>, table: seq<Byte>, start: nat, len: nat, i: nat)
    requires Falling(es, top) && i < |es|
    ensures var content := match es[i].kind case Boot => boot case Info => info case Table => table case Data(c) => c;
      Shows(Image(ShownAll(es, boot, info, table), start, len), start, es[i].start, es[i].len, content)
  {
    hide Falling;
    var shown := ShownAll(es, boot, info, table);
    ShownDisjoint(es, top, boot, info, table);
    forall k | 0 <= k < len && es[i].start <= start + k < es[i].start + es[i].len
      ensures Image(shown, start, len)[k] == Padded(shown[i].content, start + k - es[i].start)
    {
      ImageAtOne(shown, i, start + k, 0);
    }
  }

  ghost predicate Reached(es: seq<Slot>, x: nat) {
    exists i :: 0 <= i < |es| && es[i].start <= x < es[i].start + es[i].len
  }

  /** What no extent reaches is zero. */
  lemma RestIsZero(es: seq<Slot>, boot: seq<Byte>, info: seq<Byte>, table: seq<Byte>, start: nat, len: nat, k: nat)
    requires k < len && !Reached(es, start + k)
    ensures Image(ShownAll(es, boot, info, table), start, len)[k] == 0
  {
    ImageAtNone(ShownAll(es, boot, info, table), start + k, 0);
  }

  lemma EntryBytesSum(entry: nat)
    requires entry < WORD32
    ensures EntryByte(entry, 0) as int + 0x100 * (EntryByte(entry, 1) as int) + 0x1_0000 * (EntryByte(entry, 2) as int)
          + 0x100_0000 * (EntryByte(entry, 3) as int) == entry
  {
  }

  lemma EntryShows(window: seq<Byte>, start: nat, at: nat, fat: seq<nat>, c: nat)
    requires Shows(window, start, at, 4 * |fat|, TableBytes(fat)) && c < |fat| && fat[c] < WORD32
    ensures ShowsEntry(window, start, at + 4 * c, fat[c])
  {
    if start <= at + 4 * c && at + 4 * c + 4 <= start + |window| {
      var k := at + 4 * c - start;
      forall j: nat | j < 4 ensures window[k + j] == EntryByte(fat[c], j) {
        DivModUnique(c, 4, j);
        assert TableBytes(fat)[4 * c + j] == EntryByte(fat[c], j);
      }
      EntryBytesSum(fat[c]);
    }
  }

  // ---- the volume ----

  /** Where a file's clusters are. */
  predicate Covers(e: Slot, f: File, base: nat, size: Positive) {
    f.first >= FIRST_CLUSTER && e.start == base + (f.first - FIRST_CLUSTER) * size && e.len == f.count * size
  }

  /** The latest extents are the files' clusters, the last file's first. */
  predicate Described(es: seq<Slot>, files: seq<File>, base: nat, size: Positive) {
    |files| <= |es| && forall i :: 0 <= i < |files| ==> Covers(es[|files| - 1 - i], files[i], base, size)
  }

  lemma DescribedMore(es: seq<Slot>, files: seq<File>, base: nat, size: Positive, e: Slot, f: File)
    requires Described(es, files, base, size) && Covers(e, f, base, size)
    ensures Described([e] + es, files + [f], base, size)
  {
    var es2, files2 := [e] + es, files + [f];
    forall i | 0 <= i < |files2| ensures Covers(es2[|files2| - 1 - i], files2[i], base, size) {
      if i < |files| {
        assert es2[|files2| - 1 - i] == es[|files| - 1 - i];
      }
    }
  }

  function ClustersFor(len: nat, clusterSize: Positive): nat {
    DivRoundUp(len, clusterSize)
  }

  /** Below the files' extents are the four that fs_init makes. */
  predicate Fixed(es: seq<Slot>, entries: nat) {
    && |es| == 4 && es[0] == Slot(1536, 4 * entries, Table)
    && es[1] == Slot(1024, 512, Boot) && es[2] == Slot(512, 512, Info) && es[3] == Slot(0, 512, Boot)
  }

  class Volume {
    const clusterSize: Positive
    var fat: array<nat>
    var numClusters: nat
    var nextCluster: nat
    const fatSectors: nat
    const dataOffset: nat
    var extents: seq<Slot>
    var boot: seq<Byte>
    var info: seq<Byte>
    ghost var files: seq<File>

    ghost predicate Valid()
      reads this, fat
    {
      && FIRST_CLUSTER <= nextCluster <= numClusters <= fat.Length <= FAT_EOC
      && dataOffset == (RESERVED + fatSectors) * SECTOR
      && Tiled(files, FIRST_CLUSTER, nextCluster)
      && (forall i :: 0 <= i < |files| ==> IsChain(fat[..], files[i]))
      && (forall c :: 0 <= c < fat.Length ==> fat[c] < WORD32)
      && (forall c :: 0 <= c < fat.Length && (c < FIRST_CLUSTER || c >= nextCluster) ==> fat[c] == 0)
      && Falling(extents, dataOffset + (nextCluster - FIRST_CLUSTER) * clusterSize)
      && Described(extents, files, dataOffset, clusterSize)
      && |extents| == |files| + 4 && Fixed(extents[|files|..], fat.Length)
    }

    /**
     In every volume a file's chain lists its clusters and ends, an extent covers just them, and no
     other file has any of them.
     */
    lemma ChainsAreSound(i: nat)
      requires Valid() && i < |files|
      ensures var f := files[i];
        && Follow(fat[..], f.first, fat.Length) == seq(f.count, k requires 0 <= k < f.count => f.first + k)
        && FIRST_CLUSTER <= f.first && f.first + f.count <= numClusters
        && |files| <= |extents| && Covers(extents[|files| - 1 - i], f, dataOffset, clusterSize)
      ensures forall j :: 0 <= j < |files| && j != i ==>
        files[j].first + files[j].count <= files[i].first || files[i].first + files[i].count <= files[j].first
    {
      hide Tiled, Falling, Follow;
      TiledBounds(files, FIRST_CLUSTER, nextCluster, i);
      ChainFollows(fat[..], files[i], fat.Length);
      hide IsChain;
      forall j | 0 <= j < |files| && j != i
        ensures files[j].first + files[j].count <= files[i].first || files[i].first + files[i].count <= files[j].first
      {
        ChainsApart(files, FIRST_CLUSTER, nextCluster, if i < j then i else j, if i < j then j else i);
      }
    }

    /** And exactly the entries that are no file's are free. */
    lemma FreeIff(c: nat)
      requires Valid() && c < fat.Length
      ensures fat[c] == 0 <==> forall j :: 0 <= j < |files| ==> !(files[j].first <= c < files[j].first + files[j].count)
    {
      hide Tiled, Falling, Described;
      forall j | 0 <= j < |files|
        ensures FIRST_CLUSTER <= files[j].first && files[j].first + files[j].count <= nextCluster
      {
        TiledBounds(files, FIRST_CLUSTER, nextCluster, j);
      }
      if FIRST_CLUSTER <= c < nextCluster {
        var j := TiledCovers(files, FIRST_CLUSTER, nextCluster, c);
        assert IsChain(fat[..], files[j]) && fat[..][c] != 0;
      }
    }

    ghost predicate Inside(i: nat)
      reads this
      requires i < |extents| && numClusters >= FIRST_CLUSTER
    {
      extents[i].start + extents[i].len <= VolumeSize(clusterSize, numClusters - FIRST_CLUSTER, fatSectors)
    }

    /**
     No extent reaches past the reported size, exactly as long as the clusters in use take up no more
     than all clusters do when each is rounded down to sectors.
     */
    lemma ExtentsInsideIff()
      requires Valid()
      ensures (forall i :: 0 <= i < |extents| ==> Inside(i)) <==>
        (nextCluster - FIRST_CLUSTER) * clusterSize <= (numClusters - FIRST_CLUSTER) * (clusterSize / SECTOR) * SECTOR
    {
      hide VolumeSize, IsChain;
      SizeIs(clusterSize, numClusters - FIRST_CLUSTER, fatSectors);
      LastEnd();
      if files != [] {
        var end := dataOffset + (nextCluster - FIRST_CLUSTER) * clusterSize;
        assert Inside(0) <==> end <= VolumeSize(clusterSize, numClusters - FIRST_CLUSTER, fatSectors);
      } else {
        assert nextCluster == FIRST_CLUSTER;
      }
    }

    /** The latest extent ends where the next cluster begins, and the others before it. */
    lemma LastEnd()
      requires Valid()
      ensures var top := dataOffset + (nextCluster - FIRST_CLUSTER) * clusterSize;
        && (forall i :: 0 <= i < |extents| ==> extents[i].start + extents[i].len <= top)
        && (if files == [] then top == dataOffset else extents != [] && extents[0].start + extents[0].len == top)
    {
      hide IsChain, Falling, Tiled, Described;
      EndOf(extents, files, dataOffset, nextCluster, clusterSize);
    }

    /** In particular at any time if a cluster is a whole number of sectors; and if it is not, never in a full volume. */
    lemma FullVolumeInsideIff()
      requires Valid()
      ensures clusterSize % SECTOR == 0 ==> forall i :: 0 <= i < |extents| ==> Inside(i)
      ensures nextCluster == numClusters > FIRST_CLUSTER ==>
        ((forall i :: 0 <= i < |extents| ==> Inside(i)) <==> clusterSize % SECTOR == 0)
    {
      hide Tiled, Falling, IsChain, Described, Inside;
      ExtentsInsideIff();
      ClustersInsideIff(clusterSize, numClusters - FIRST_CLUSTER);
      MulMonotone(nextCluster - FIRST_CLUSTER, numClusters - FIRST_CLUSTER, clusterSize);
    }

    /** fs_init; the 32-bit counts of clusters are taken to fit. */
    constructor (clusterSize: Positive, dataSize: nat, boot: seq<Byte>, info: seq<Byte>)
      requires ClustersFor(dataSize, clusterSize) + 2 + ENTRIES_PER_SECTOR <= FAT_EOC
      ensures Valid() && fresh(fat) && files == [] && nextCluster == FIRST_CLUSTER
      ensures numClusters == FIRST_CLUSTER + ClustersFor(dataSize, clusterSize)
      ensures this.clusterSize == clusterSize && this.boot == boot && this.info == info
      ensures fat.Length == fatSectors * 128 && (fatSectors - 1) * 128 < numClusters <= fatSectors * 128
    {
      this.clusterSize := clusterSize;
      var clusters := ClustersFor(dataSize, clusterSize);
      var sectors := (clusters + 2 + ENTRIES_PER_SECTOR - 1) / ENTRIES_PER_SECTOR;
      fatSectors := sectors;
      numClusters, nextCluster := FIRST_CLUSTER + clusters, FIRST_CLUSTER;
      fat := new nat[sectors * ENTRIES_PER_SECTOR](i => 0);
      dataOffset := (RESERVED + sectors) * SECTOR;
      extents := FixedSlots(sectors);
      this.boot, this.info := boot, info;
      files := [];
      new;
      FixedExtentsFall(sectors);
    }

    /** fs_alloc_extent: none when the volume is full; an empty file gets cluster 0 and no extent. */
    method AllocExtent(len: nat, content: seq<Byte>) returns (ok: bool, first: nat)
      requires Valid() && |content| <= len
      modifies this`nextCluster, this`extents, this`files, fat
      ensures Valid() && fat == old(fat)
      ensures ok <==> len == 0 || old(nextCluster) + ClustersFor(len, clusterSize) <= numClusters
      ensures len == 0 ==> first == 0
      ensures !ok || len == 0 ==>
        fat[..] == old(fat[..]) && extents == old(extents) && files == old(files) && nextCluster == old(nextCluster)
      ensures ok && len > 0 ==>
        && first == old(nextCluster) && files == old(files) + [File(first, ClustersFor(len, clusterSize))]
        && extents == [Slot(dataOffset + (first - FIRST_CLUSTER) * clusterSize,
                            ClustersFor(len, clusterSize) * clusterSize, Data(content))] + old(extents)
    {
      if len == 0 {
        return true, 0;
      }
      var needed := ClustersFor(len, clusterSize);
      DivRoundUpBounds(len, clusterSize);
      if nextCluster + needed > numClusters {
        return false, 0;
      }
      first := nextCluster;
      Extend(first, needed, content);
      ok := true;
    }

    /** fs_read on this volume: a window of the image that its extents make up. */
    method Read(buf: array<Byte>, start: nat)
      requires Valid() && buf.Length > 0 && buf as object != fat as object
      modifies buf
      ensures Valid() && buf[..] == Image(ShownAll(extents, boot, info, TableBytes(fat[..])), start, buf.Length)
      ensures forall i :: 0 <= i < |extents| && extents[i].kind.Data? ==>
        Shows(buf[..], start, extents[i].start, extents[i].len, extents[i].kind.content)
      ensures Shows(buf[..], start, 0, 512, boot) && Shows(buf[..], start, 512, 512, info) && Shows(buf[..], start, 1024, 512, boot)
      ensures forall c :: 0 <= c < fat.Length ==> ShowsEntry(buf[..], start, 1536 + 4 * c, fat[c])
      ensures forall k :: 0 <= k < buf.Length && !Reached(extents, start + k) ==> buf[k] == 0
    {
      hide Falling, Tiled, IsChain, Described, Shows, ShowsEntry, Image, ShownAll, TableBytes;
      ghost var top, table := dataOffset + (nextCluster - FIRST_CLUSTER) * clusterSize, TableBytes(fat[..]);
      ShownDisjoint(extents, top, boot, info, table);
      FsRead(ShownAll(extents, boot, info, TableBytes(fat[..])), buf, start);
      forall i | 0 <= i < |extents|
        ensures var content := match extents[i].kind case Boot => boot case Info => info case Table => table case Data(c) => c;
          Shows(buf[..], start, extents[i].start, extents[i].len, content)
      {
        SlotShows(extents, top, boot, info, table, start, buf.Length, i);
      }
      ghost var n := |files|;
      assert extents[n] == extents[n..][0] && extents[n + 1] == extents[n..][1];
      assert extents[n + 2] == extents[n..][2] && extents[n + 3] == extents[n..][3];
      forall c | 0 <= c < fat.Length ensures ShowsEntry(buf[..], start, 1536 + 4 * c, fat[c]) {
        EntryShows(buf[..], start, 1536, fat[..], c);
      }
      forall k | 0 <= k < buf.Length && !Reached(extents, start + k) ensures buf[k] == 0 {
        RestIsZero(extents, boot, info, table, start, buf.Length, k);
      }
    }

    method Extend(first: nat, needed: nat, content: seq<Byte>)
      requires Valid() && first == nextCluster && needed >= 1 && first + needed <= numClusters
      modifies this`nextCluster, this`extents, this`files, fat
      ensures Valid() && fat == old(fat) && files == old(files) + [File(first, needed)]
      ensures extents == [Slot(dataOffset + (first - FIRST_CLUSTER) * clusterSize, needed * clusterSize, Data(content))] + old(extents)
    {
      hide Tiled, Falling, IsChain, Described, Covers, Fixed;
      ghost var was := fat[..];
      WriteChain(first, needed);
      ChainsKept(was, fat[..], files, first);
      nextCluster := first + needed;
      TiledMore(files, FIRST_CLUSTER, first, File(first, needed));
      files := files + [File(first, needed)];
      FallingOneMore(extents, dataOffset, first - FIRST_CLUSTER, needed, clusterSize, content);
      extents := [Slot(dataOffset + (first - FIRST_CLUSTER) * clusterSize, needed * clusterSize, Data(content))] + extents;
      assert extents[|files|..] == old(extents)[|old(files)|..];
      CoversItself(first, needed, dataOffset, clusterSize, content);
      DescribedMore(old(extents), old(files), dataOffset, clusterSize, extents[0], File(first, needed));
    }

    /** The loop over fs_set_fat. */
    method WriteChain(first: nat, count: nat)
      requires FIRST_CLUSTER <= first && 1 <= count && first + count <= fat.Length
      modifies fat
      ensures IsChain(fat[..], File(first, count))
      ensures forall c :: 0 <= c < fat.Length && !(first <= c < first + count) ==> fat[c] == old(fat[c])
    {
      var i := 0;
      while i < count - 1
        invariant 0 <= i <= count - 1
        invariant forall c :: first <= c < first + i ==> fat[c] == c + 1
        invariant forall c :: 0 <= c < fat.Length && !(first <= c < first + i) ==> fat[c] == old(fat[c])
      {
        fat[first + i] := first + i + 1;
        i := i + 1;
      }
      fat[first + count - 1] := FAT_EOC;
    }
  }

  /** The last of the files ends where the next cluster is. */
  lemma {:induction false} TiledEnds(files: seq<File>, lo: nat, hi: nat)
    requires Tiled(files, lo, hi) && files != []
    ensures var f := files[|files| - 1]; f.first >= lo && f.first + f.count == hi
  {
    if |files| > 1 {
      TiledEnds(files[1..], lo + files[0].count, hi);
    }
  }

  lemma EndOf(es: seq<Slot>, files: seq<File>, base: nat, next: nat, size: Positive)
    requires next >= FIRST_CLUSTER && Tiled(files, FIRST_CLUSTER, next)
    requires Falling(es, base + (next - FIRST_CLUSTER) * size) && Described(es, files, base, size)
    ensures var top := base + (next - FIRST_CLUSTER) * size;
      && (forall i :: 0 <= i < |es| ==> es[i].start + es[i].len <= top)
      && (if files == [] then top == base else es != [] && es[0].start + es[0].len == top)
  {
    var top := base + (next - FIRST_CLUSTER) * size;
    forall i | 0 <= i < |es| ensures es[i].start + es[i].len <= top {
      FallingBelow(es, top, i);
    }
    hide Falling;
    if files != [] {
      TiledEnds(files, FIRST_CLUSTER, next);
      CoveredEnd(es[0], files[|files| - 1], base, size, next);
    }
  }

  lemma CoveredEnd(e: Slot, f: File, base: nat, size: Positive, next: nat)
    requires Covers(e, f, base, size) && next == f.first + f.count
    ensures f.first >= FIRST_CLUSTER && e.start + e.len == base + (next - FIRST_CLUSTER) * size
  {
    TwoRuns(f.first - FIRST_CLUSTER, f.count, size);
  }

  lemma TwoRuns(a: nat, b: nat, size: nat)
    ensures a * size + b * size == (a + b) * size
  {
  }

  /** The boot sector, the information sector, the backup and the table, the last added first. */
  function FixedSlots(fatSectors: nat): seq<Slot> {
    [Slot(RESERVED * SECTOR, fatSectors * SECTOR, Table), Slot(2 * SECTOR, SECTOR, Boot),
     Slot(SECTOR, SECTOR, Info), Slot(0, SECTOR, Boot)]
  }

  lemma FixedExtentsFall(fatSectors: nat)
    requires fatSectors >= 1
    ensures Falling(FixedSlots(fatSectors), (RESERVED + fatSectors) * SECTOR)
  {
    var es := FixedSlots(fatSectors);
    assert es[3..][1..] == [] && Falling(es[3..], SECTOR);
    assert es[2..][1..] == es[3..] && Falling(es[2..], 2 * SECTOR);
    assert es[1..][1..] == es[2..] && Falling(es[1..], 3 * SECTOR);
  }

  /** Files whose clusters are not written to stay as they are. */
  lemma ChainsKept(fat: seq<nat>, fat2: seq<nat>, files: seq<File>, top: nat)
    requires |fat| == |fat2| && Tiled(files, FIRST_CLUSTER, top) && top <= |fat|
    requires forall i :: 0 <= i < |files| ==> IsChain(fat, files[i])
    requires forall c :: 0 <= c < top ==> fat2[c] == fat[c]
    ensures forall i :: 0 <= i < |files| ==> IsChain(fat2, files[i])
  {
    forall i | 0 <= i < |files| ensures IsChain(fat2, files[i]) {
      TiledBounds(files, FIRST_CLUSTER, top, i);
      assert IsChain(fat, files[i]);
    }
  }

  lemma CoversItself(first: nat, count: nat, base: nat, size: Positive, content: seq<Byte>)
    requires first >= FIRST_CLUSTER
    ensures Covers(Slot(base + (first - FIRST_CLUSTER) * size, count * size, Data(content)), File(first, count), base, size)
  {
  }

  lemma FallingOneMore(es: seq<Slot>, base: nat, c: nat, n: nat, size: Positive, content: seq<Byte>)
    requires Falling(es, base + c * size) && n >= 1
    ensures Falling([Slot(base + c * size, n * size, Data(content))] + es, base + (c + n) * size)
  {
    var e := Slot(base + c * size, n * size, Data(content));
    assert ([e] + es)[1..] == es;
    MulMonotone(1, n, size);
    assert (c + n) * size == c * size + n * size;
  }

  // ---- the volume's size ----

  /** total_sectors * sector_size, as fs_init reports it. */
  function VolumeSize(clusterSize: Positive, clusters: nat, fatSectors: nat): nat {
    (RESERVED + fatSectors + clusters * (clusterSize / SECTOR)) * SECTOR
  }

  lemma SizeIs(clusterSize: Positive, clusters: nat, fatSectors: nat)
    ensures VolumeSize(clusterSize, clusters, fatSectors)
      == (RESERVED + fatSectors) * SECTOR + clusters * (clusterSize / SECTOR) * SECTOR
    ensures clusters * (clusterSize / SECTOR) * SECTOR >= 0
  {
  }

  /** All clusters lie inside the volume exactly if a cluster is a whole number of sectors. */
  lemma ClustersInsideIff(clusterSize: Positive, clusters: nat)
    ensures clusters * clusterSize <= clusters * (clusterSize / SECTOR) * SECTOR <==> clusters == 0 || clusterSize % SECTOR == 0
  {
    var q, r := clusterSize / SECTOR, clusterSize % SECTOR;
    assert clusterSize == q * SECTOR + r;
    assert clusters * clusterSize == clusters * q * SECTOR + clusters * r;
    if r > 0 && clusters > 0 {
      MulMonotone(1, clusters, r);
    }
  }
}
