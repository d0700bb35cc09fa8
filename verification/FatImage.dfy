/** A FAT32 volume made up on the fly: reads are put together from extents. */
module FatImage {
  type Byte = x: nat | x < 256

  /** What an extent shows: its content, with zeros up to its length. */
  datatype Extent = Extent(start: nat, len: nat, content: seq<Byte>)

  predicate In(e: Extent, x: nat) {
    e.start <= x < e.start + e.len
  }

  function Padded(content: seq<Byte>, at: nat): Byte {
    if at < |content| then content[at] else 0
  }

  function Shown(e: Extent, x: nat): Byte
    requires In(e, x)
  {
    Padded(e.content, x - e.start)
  }

  /** The byte of the image at x: what the extents show there, the last one of the list winning. */
  function ImageAt(es: seq<Extent>, x: nat, otherwise: Byte): Byte {
    if es == [] then otherwise
    else ImageAt(es[1..], x, if In(es[0], x) then Shown(es[0], x) else otherwise)
  }

  function Image(es: seq<Extent>, start: nat, len: nat): (bytes: seq<Byte>)
    ensures |bytes| == len
  {
    seq<Byte>(len, k requires 0 <= k < len => ImageAt(es, start + k, 0))
  }

  predicate Apart(d: Extent, e: Extent) {
    d.start + d.len <= e.start || e.start + e.len <= d.start
  }

  ghost predicate Disjoint(es: seq<Extent>) {
    forall i, j :: 0 <= i < j < |es| ==> Apart(es[i], es[j])
  }

  lemma {:induction false} ImageAtAdd(a: seq<Extent>, b: seq<Extent>, x: nat, otherwise: Byte)
    ensures ImageAt(a + b, x, otherwise) == ImageAt(b, x, ImageAt(a, x, otherwise))
  {
    if a == [] {
      assert a + b == b;
    } else {
      assert (a + b)[1..] == a[1..] + b;
      ImageAtAdd(a[1..], b, x, if In(a[0], x) then Shown(a[0], x) else otherwise);
    }
  }

  lemma {:induction false} ImageAtNone(es: seq<Extent>, x: nat, otherwise: Byte)
    requires forall i :: 0 <= i < |es| ==> !In(es[i], x)
    ensures ImageAt(es, x, otherwise) == otherwise
  {
    if es != [] {
      ImageAtNone(es[1..], x, otherwise);
    }
  }

  /** Where extents do not overlap, the only one that reaches x decides. */
  lemma {:induction false} ImageAtOne(es: seq<Extent>, j: nat, x: nat, otherwise: Byte)
    requires Disjoint(es) && j < |es| && In(es[j], x)
    ensures ImageAt(es, x, otherwise) == Shown(es[j], x)
  {
    if j == 0 {
      forall i | 0 <= i < |es[1..]| ensures !In(es[1..][i], x) {
        assert Apart(es[0], es[i + 1]);
      }
      ImageAtNone(es[1..], x, Shown(es[0], x));
    } else {
      forall i, k | 0 <= i < k < |es[1..]| ensures Apart(es[1..][i], es[1..][k]) {
        assert Apart(es[i + 1], es[k + 1]);
      }
      assert Apart(es[0], es[j]);
      ImageAtOne(es[1..], j - 1, x, otherwise);
    }
  }

  /** The order of the list does not matter. */
  lemma OrderIrrelevant(es: seq<Extent>, fs: seq<Extent>, start: nat, len: nat)
    requires Disjoint(es) && Disjoint(fs) && (forall e :: e in es <==> e in fs)
    ensures Image(es, start, len) == Image(fs, start, len)
  {
    forall k | 0 <= k < len ensures Image(es, start, len)[k] == Image(fs, start, len)[k] {
      var x := start + k;
      if i :| 0 <= i < |es| && In(es[i], x) {
        assert es[i] in fs;
        var j :| 0 <= j < |fs| && fs[j] == es[i];
        ImageAtOne(es, i, x, 0);
        ImageAtOne(fs, j, x, 0);
      } else {
        forall j | 0 <= j < |fs| ensures !In(fs[j], x) {
          assert fs[j] in es;
        }
        ImageAtNone(es, x, 0);
        ImageAtNone(fs, x, 0);
      }
    }
  }

  /** Reading a window in two pieces gives the same bytes. */
  lemma ReadInPieces(es: seq<Extent>, start: nat, m: nat, n: nat)
    ensures Image(es, start, m) + Image(es, start + m, n) == Image(es, start, m + n)
  {
  }

  // ---- reading ----

  /** Where an extent and a window overlap: offset in the window, offset in the extent, length. */
  datatype Overlap = Overlap(r: nat, e: nat, len: nat)

  predicate Meets(e: Extent, start: nat, len: nat) {
    start < e.start + e.len && e.start < start + len
  }

  predicate IsOverlap(o: Overlap, e: Extent, start: nat, len: nat) {
    && o.len >= 1 && o.r + o.len <= len && o.e + o.len <= e.len && e.start + o.e == start + o.r
    && (o.r == 0 || o.e == 0) && (o.r + o.len == len || o.e + o.len == e.len)
  }

  /** The overlap is exactly the part of the window that is in the extent. */
  lemma OverlapIsExact(o: Overlap, e: Extent, start: nat, len: nat, k: nat)
    requires IsOverlap(o, e, start, len) && k < len
    ensures In(e, start + k) <==> o.r <= k < o.r + o.len
    ensures o.r <= k < o.r + o.len ==> start + k - e.start == o.e + (k - o.r)
  {
  }

  /** fs_find_extent: the first extent from i on that meets the window; its assertions hold. */
  method FindExtent(es: seq<Extent>, start: nat, len: nat, from: nat) returns (i: nat, o: Overlap)
    requires len > 0 && from <= |es| && forall k :: 0 <= k < |es| ==> es[k].len > 0
    ensures from <= i <= |es|
    ensures forall k :: from <= k < i ==> !Meets(es[k], start, len)
    ensures i < |es| ==> IsOverlap(o, es[i], start, len)
  {
    var end := start + len;
    i, o := from, Overlap(0, 0, 0);
    while i < |es|
      invariant from <= i <= |es| && forall k :: from <= k < i ==> !Meets(es[k], start, len)
    {
      var e := es[i];
      var eEnd := e.start + e.len;
      if start < eEnd && end > e.start {
        if e.start <= start {
          o := Overlap(0, start - e.start, if end <= eEnd then len else eEnd - start);
        } else {
          o := Overlap(e.start - start, 0, if eEnd <= end then e.len else end - e.start);
        }
        return;
      }
      i := i + 1;
    }
  }

  /** buffer_read, to `at` in out. */
  method BufferRead(content: seq<Byte>, out: array<Byte>, at: nat, off: nat, len: nat)
    requires at + len <= out.Length
    modifies out
    ensures forall k :: 0 <= k < out.Length ==>
      out[k] == if at <= k < at + len then Padded(content, off + (k - at)) else old(out[k])
  {
    if off >= |content| {
      forall k | at <= k < at + len {
        out[k] := 0;
      }
      return;
    }
    var n := len;
    if off + len > |content| {
      n := |content| - off;
      forall k | at + n <= k < at + len {
        out[k] := 0;
      }
    }
    forall k | at <= k < at + n {
      out[k] := content[off + (k - at)];
    }
  }

  lemma OneMore(es: seq<Extent>, n: nat, x: nat)
    requires n < |es|
    ensures ImageAt(es[..n + 1], x, 0) == if In(es[n], x) then Shown(es[n], x) else ImageAt(es[..n], x, 0)
  {
    assert es[..n + 1] == es[..n] + [es[n]];
    ImageAtAdd(es[..n], [es[n]], x, 0);
  }

  lemma {:induction false} NoneMeet(es: seq<Extent>, lo: nat, hi: nat, start: nat, len: nat, k: nat)
    requires lo <= hi <= |es| && k < len && forall i :: lo <= i < hi ==> !Meets(es[i], start, len)
    ensures ImageAt(es[..hi], start + k, 0) == ImageAt(es[..lo], start + k, 0)
    decreases hi
  {
    if lo < hi {
      OneMore(es, hi - 1, start + k);
      NoneMeet(es, lo, hi - 1, start, len, k);
    }
  }

  /** fs_read: exactly the window of the image. */
  method FsRead(es: seq<Extent>, buf: array<Byte>, start: nat)
    requires buf.Length > 0 && forall k :: 0 <= k < |es| ==> es[k].len > 0
    modifies buf
    ensures buf[..] == Image(es, start, buf.Length)
  {
    hide IsOverlap, Meets, ImageAt, Padded;
    var len := buf.Length;
    forall k | 0 <= k < len {
      buf[k] := 0;
    }
    ImageStarts(es);
    var next := 0;
    var i, o := FindExtent(es, start, len, next);
    while i < |es|
      invariant next <= i <= |es|
      invariant forall k :: next <= k < i ==> !Meets(es[k], start, len)
      invariant i < |es| ==> IsOverlap(o, es[i], start, len)
      invariant forall k :: 0 <= k < len ==> buf[k] == ImageAt(es[..next], start + k, 0)
      decreases |es| - next, |es| - i
    {
      OverlapFits(o, es[i], start, len);
      ghost var was := buf[..];
      BufferRead(es[i].content, buf, o.r, o.e, o.len);
      forall k | 0 <= k < len ensures buf[k] == ImageAt(es[..i + 1], start + k, 0) {
        NoneMeet(es, next, i, start, len, k);
        OneMore(es, i, start + k);
        OverlapIsExact(o, es[i], start, len, k);
        assert buf[k] == if o.r <= k < o.r + o.len then Padded(es[i].content, o.e + (k - o.r)) else was[k];
      }
      next := i + 1;
      i, o := FindExtent(es, start, len, next);
    }
    forall k | 0 <= k < len ensures buf[k] == ImageAt(es, start + k, 0) {
      NoneMeet(es, next, |es|, start, len, k);
      assert es[..|es|] == es;
    }
  }

  lemma ImageStarts(es: seq<Extent>)
    ensures es[..0] == [] && forall x :: ImageAt(es[..0], x, 0) == 0
  {
  }

  lemma OverlapFits(o: Overlap, e: Extent, start: nat, len: nat)
    requires IsOverlap(o, e, start, len)
    ensures o.r + o.len <= len
  {
  }
}
