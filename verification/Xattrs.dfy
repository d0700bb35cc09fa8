/** The extended-attribute area of an inode or a block: entries grow up, values grow down. */
module Xattrs {
  import opened Arithmetic
  import opened Sequences
  import opened DirRecords

  datatype Attr = Attr(index: Byte, name: seq<Byte>, value: seq<Byte>)

  const ENTRY := 16

  /** EXT4_XATTR_LEN */
  function EntryLen(n: nat): nat {
    AlignUp(n + ENTRY, 4)
  }

  /** EXT4_XATTR_SIZE */
  function ValueLen(n: nat): nat {
    AlignUp(n, 4)
  }

  lemma Rounded(n: nat)
    ensures n + 16 <= EntryLen(n) < n + 20 && EntryLen(n) % 4 == 0
    ensures n <= ValueLen(n) < n + 4 && ValueLen(n) % 4 == 0
  {
    AlignUpBounds(n + ENTRY, 4);
    AlignUpBounds(n, 4);
  }

  // ---- where everything is ----

  function EntryPos(attrs: seq<Attr>, i: nat): nat
    requires i <= |attrs|
  {
    if i == 0 then 0 else EntryPos(attrs, i - 1) + EntryLen(|attrs[i - 1].name|)
  }

  /** Room taken by the first i values, from the end. */
  function ValuesLen(attrs: seq<Attr>, i: nat): nat
    requires i <= |attrs|
  {
    if i == 0 then 0 else ValuesLen(attrs, i - 1) + ValueLen(|attrs[i - 1].value|)
  }

  lemma {:induction false} Rises(attrs: seq<Attr>, i: nat, j: nat)
    requires i <= j <= |attrs|
    ensures EntryPos(attrs, i) + ENTRY * (j - i) <= EntryPos(attrs, j) && ValuesLen(attrs, i) <= ValuesLen(attrs, j)
  {
    if i < j {
      Rises(attrs, i, j - 1);
      Rounded(|attrs[j - 1].name|);
    }
  }

  lemma {:induction false} PrefixPos(attrs: seq<Attr>, a: Attr, i: nat)
    requires i <= |attrs|
    ensures EntryPos(attrs + [a], i) == EntryPos(attrs, i) && ValuesLen(attrs + [a], i) == ValuesLen(attrs, i)
  {
    if i > 0 {
      PrefixPos(attrs, a, i - 1);
    }
  }

  /** What is left between entries and values. */
  function Gap(size: nat, attrs: seq<Attr>): int {
    size - EntryPos(attrs, |attrs|) - ValuesLen(attrs, |attrs|)
  }

  // ---- what is written ----

  predicate Storable(a: Attr) {
    |a.name| <= 255 && |a.value| < 0x1_0000
  }

  /** The fixed part of an entry; its hash is not filled in here. */
  function Head(a: Attr, offs: nat): (bs: seq<Byte>)
    requires Storable(a) && offs < 0x1_0000
    ensures |bs| == ENTRY
  {
    [|a.name|, a.index] + Bytes16(offs) + Copies<Byte>(0, 4) + Bytes32(|a.value|) + Copies<Byte>(0, 4)
  }

  lemma HeadFields(a: Attr, offs: nat)
    requires Storable(a) && offs < 0x1_0000
    ensures var h := Head(a, offs);
      h[0] == |a.name| && h[1] == a.index && Get16(h, 2) == offs && Get32(h, 8) == |a.value|
  {
    var h := Head(a, offs);
    Got16(h, 2, offs);
    Got16(h, 8, |a.value| % 0x1_0000);
    Got16(h, 10, |a.value| / 0x1_0000);
  }

  /** The entry of an attribute whose value is at offset `offs`. */
  function EntryBytes(a: Attr, offs: nat): (bs: seq<Byte>)
    requires Storable(a) && offs < 0x1_0000
    ensures |bs| == EntryLen(|a.name|)
  {
    Rounded(|a.name|);
    Head(a, offs) + a.name + Copies<Byte>(0, EntryLen(|a.name|) - ENTRY - |a.name|)
  }

  function ValueBytes(a: Attr): (bs: seq<Byte>)
    ensures |bs| == ValueLen(|a.value|)
  {
    Rounded(|a.value|);
    a.value + Copies<Byte>(0, ValueLen(|a.value|) - |a.value|)
  }

  /** Entry and value of attribute i are where they belong; base is the distance from where offsets count. */
  ghost predicate Present(d: seq<Byte>, attrs: seq<Attr>, i: nat, base: nat)
    requires i < |attrs|
  {
    var a := attrs[i];
    var e := EntryPos(attrs, i);
    var v := |d| - ValuesLen(attrs, i + 1);
    && Storable(a) && e + EntryLen(|a.name|) <= v <= |d| && base + |d| < 0x1_0000
    && v + ValueLen(|a.value|) <= |d|
    && d[e..e + EntryLen(|a.name|)] == EntryBytes(a, base + v)
    && d[v..v + ValueLen(|a.value|)] == ValueBytes(a)
  }

  /** The area holds exactly these attributes, and zeros in between. */
  ghost predicate Area(d: seq<Byte>, attrs: seq<Attr>, base: nat) {
    && |d| % 4 == 0 && base + |d| < 0x1_0000 && Gap(|d|, attrs) >= 0
    && (forall i :: 0 <= i < |attrs| ==> Present(d, attrs, i, base))
    && (forall k :: EntryPos(attrs, |attrs|) <= k < |d| - ValuesLen(attrs, |attrs|) ==> d[k] == 0)
  }

  // ---- reading ----

  /** IS_LAST_ENTRY */
  predicate IsLast(d: seq<Byte>, at: nat)
    requires at + 4 <= |d|
  {
    Get32(d, at) == 0
  }

  /** What the fields of an entry say. */
  lemma EntryFields(d: seq<Byte>, attrs: seq<Attr>, i: nat, base: nat)
    requires i < |attrs| && Present(d, attrs, i, base)
    ensures var a, e, v := attrs[i], EntryPos(attrs, i), |d| - ValuesLen(attrs, i + 1);
      && e + EntryLen(|a.name|) <= |d| && ENTRY + |a.name| <= EntryLen(|a.name|)
      && d[e] == |a.name| && d[e + 1] == a.index && Get16(d, e + 2) == base + v && Get32(d, e + 8) == |a.value|
      && d[e + ENTRY..e + ENTRY + |a.name|] == a.name
      && 0 <= v && v + |a.value| <= |d| && d[v..v + |a.value|] == a.value
  {
    hide Head, Copies, EntryPos, ValuesLen, EntryLen, ValueLen, EntryBytes, ValueBytes;
    var a, e, v := attrs[i], EntryPos(attrs, i), |d| - ValuesLen(attrs, i + 1);
    Rounded(|a.name|);
    Rounded(|a.value|);
    var s, h := d[e..e + EntryLen(|a.name|)], Head(a, base + v);
    HeadFields(a, base + v);
    EntryParts(a, base + v);
    SubSlice(d, e, |s|, 0, ENTRY);
    SubSlice(d, e, |s|, ENTRY, ENTRY + |a.name|);
    SameFields(d, e, h);
    SubSlice(d, v, ValueLen(|a.value|), 0, |a.value|);
    ValuePart(a);
  }

  /** Names and values are filled up with zeros. */
  lemma FilledUp(d: seq<Byte>, attrs: seq<Attr>, i: nat, base: nat)
    requires i < |attrs| && Present(d, attrs, i, base)
    ensures var a, e, v := attrs[i], EntryPos(attrs, i), |d| - ValuesLen(attrs, i + 1);
      && e + EntryLen(|a.name|) <= |d| && v + ValueLen(|a.value|) <= |d|
      && (forall k :: e + 16 + |a.name| <= k < e + EntryLen(|a.name|) ==> d[k] == 0)
      && (forall k :: v + |a.value| <= k < v + ValueLen(|a.value|) ==> v >= 0 && d[k] == 0)
  {
    hide EntryPos, ValuesLen, EntryLen, ValueLen, Head;
    var a, e, v := attrs[i], EntryPos(attrs, i), |d| - ValuesLen(attrs, i + 1);
    forall k | e + 16 + |a.name| <= k < e + EntryLen(|a.name|) ensures d[k] == 0 {
      assert d[e..e + EntryLen(|a.name|)][k - e] == d[k];
    }
    forall k | v + |a.value| <= k < v + ValueLen(|a.value|) ensures d[k] == 0 {
      assert d[v..v + ValueLen(|a.value|)][k - v] == d[k];
    }
  }

  lemma EntryParts(a: Attr, offs: nat)
    requires Storable(a) && offs < 0x1_0000 && ENTRY + |a.name| <= EntryLen(|a.name|)
    ensures EntryBytes(a, offs)[0..ENTRY] == Head(a, offs) && EntryBytes(a, offs)[ENTRY..ENTRY + |a.name|] == a.name
  {
    hide Head;
  }

  lemma ValuePart(a: Attr)
    requires |a.value| <= ValueLen(|a.value|)
    ensures ValueBytes(a)[0..|a.value|] == a.value
  {
  }

  lemma SubSlice(d: seq<Byte>, e: nat, n: nat, x: nat, y: nat)
    requires e + n <= |d| && x <= y <= n
    ensures d[e..e + n][x..y] == d[e + x..e + y]
  {
    var s, t := d[e..e + n][x..y], d[e + x..e + y];
    forall k | 0 <= k < y - x ensures s[k] == t[k] {
      assert d[e..e + n][x + k] == d[e + x + k];
    }
    assert s == t;
  }

  lemma SameFields(d: seq<Byte>, e: nat, h: seq<Byte>)
    requires |h| == ENTRY && e + ENTRY <= |d| && d[e..e + ENTRY] == h
    ensures d[e] == h[0] && d[e + 1] == h[1] && Get16(d, e + 2) == Get16(h, 2) && Get32(d, e + 8) == Get32(h, 8)
  {
    assert forall k :: 0 <= k < ENTRY ==> d[e + k] == h[k];
  }

  /** No entry looks like the end of the list: its value is never at offset 0. */
  lemma EntryIsNotLast(d: seq<Byte>, attrs: seq<Attr>, i: nat, base: nat)
    requires i < |attrs| && Present(d, attrs, i, base)
    ensures EntryPos(attrs, i) + 4 <= |d| && !IsLast(d, EntryPos(attrs, i))
  {
    EntryFields(d, attrs, i, base);
  }

  // ---- adding ----

  function Needed(a: Attr): nat {
    EntryLen(|a.name|) + ValueLen(|a.value|)
  }

  /** Where the new value goes. */
  function NewValuePos(size: nat, attrs: seq<Attr>, a: Attr): int {
    size - ValuesLen(attrs, |attrs|) - ValueLen(|a.value|)
  }

  /** The area once an attribute is added. */
  function Extended(d: seq<Byte>, attrs: seq<Attr>, a: Attr, base: nat): (r: seq<Byte>)
    requires Storable(a) && Needed(a) <= Gap(|d|, attrs) && base + |d| < 0x1_0000
    ensures |r| == |d|
  {
    var v := NewValuePos(|d|, attrs, a);
    Overlaid(Overlaid(d, EntryPos(attrs, |attrs|), EntryBytes(a, base + v)), v, ValueBytes(a))
  }

  lemma GapShrinks(size: nat, attrs: seq<Attr>, a: Attr)
    ensures Gap(size, attrs + [a]) == Gap(size, attrs) - Needed(a)
  {
    PrefixPos(attrs, a, |attrs|);
  }

  /** The free space is the capacity less what the entries and values take, each rounded up. */
  lemma {:induction false} GapIsCapacityLessNeeds(size: nat, attrs: seq<Attr>)
    ensures Gap(size, attrs) == size - TotalNeeded(attrs)
  {
    if attrs != [] {
      var n := |attrs| - 1;
      assert attrs == attrs[..n] + [attrs[n]];
      GapShrinks(size, attrs[..n], attrs[n]);
      GapIsCapacityLessNeeds(size, attrs[..n]);
    }
  }

  function TotalNeeded(attrs: seq<Attr>): nat {
    if attrs == [] then 0 else TotalNeeded(attrs[..|attrs| - 1]) + Needed(attrs[|attrs| - 1])
  }

  /** Bytes outside the gap are not written to. */
  lemma ExtendedElsewhere(d: seq<Byte>, attrs: seq<Attr>, a: Attr, base: nat, lo: nat, hi: nat)
    requires Storable(a) && Needed(a) <= Gap(|d|, attrs) && base + |d| < 0x1_0000 && lo <= hi <= |d|
    requires hi <= EntryPos(attrs, |attrs|) || |d| - ValuesLen(attrs, |attrs|) <= lo
    ensures Extended(d, attrs, a, base)[lo..hi] == d[lo..hi]
  {
    hide Overlaid, EntryBytes, ValueBytes, EntryPos, ValuesLen, EntryLen, ValueLen;
    var v, e := NewValuePos(|d|, attrs, a), EntryPos(attrs, |attrs|);
    var d1 := Overlaid(d, e, EntryBytes(a, base + v));
    OverlaidElsewhere(d, e, EntryBytes(a, base + v), lo, hi);
    OverlaidElsewhere(d1, v, ValueBytes(a), lo, hi);
  }

  lemma StillPresent(d: seq<Byte>, attrs: seq<Attr>, a: Attr, i: nat, base: nat)
    requires Area(d, attrs, base) && Storable(a) && Needed(a) <= Gap(|d|, attrs) && i < |attrs|
    ensures Present(Extended(d, attrs, a, base), attrs + [a], i, base)
  {
    hide Extended, EntryBytes, ValueBytes, EntryLen, ValueLen;
    assert Present(d, attrs, i, base);
    PrefixPos(attrs, a, i);
    PrefixPos(attrs, a, i + 1);
    Rises(attrs, i + 1, |attrs|);
    var b, e, v := attrs[i], EntryPos(attrs, i), |d| - ValuesLen(attrs, i + 1);
    ExtendedElsewhere(d, attrs, a, base, e, e + EntryLen(|b.name|));
    ExtendedElsewhere(d, attrs, a, base, v, v + ValueLen(|b.value|));
  }

  lemma NewPresent(d: seq<Byte>, attrs: seq<Attr>, a: Attr, base: nat)
    requires Area(d, attrs, base) && Storable(a) && Needed(a) <= Gap(|d|, attrs)
    ensures Present(Extended(d, attrs, a, base), attrs + [a], |attrs|, base)
  {
    hide EntryBytes, ValueBytes, EntryLen, ValueLen, EntryPos, ValuesLen, Present;
    var n := |attrs|;
    PrefixPos(attrs, a, n);
    var e, v := EntryPos(attrs, n), NewValuePos(|d|, attrs, a);
    OneMoreValue(attrs, a);
    var d1, r := Overlaid(d, e, EntryBytes(a, base + v)), Extended(d, attrs, a, base);
    OverlaidThere(d, e, EntryBytes(a, base + v));
    OverlaidElsewhere(d1, v, ValueBytes(a), e, e + EntryLen(|a.name|));
    OverlaidThere(d1, v, ValueBytes(a));
    PresentAt(r, attrs + [a], n, base, e, v);
  }

  lemma OneMoreValue(attrs: seq<Attr>, a: Attr)
    ensures ValuesLen(attrs + [a], |attrs| + 1) == ValuesLen(attrs, |attrs|) + ValueLen(|a.value|)
    ensures EntryPos(attrs + [a], |attrs| + 1) == EntryPos(attrs, |attrs|) + EntryLen(|a.name|)
  {
    PrefixPos(attrs, a, |attrs|);
  }

  lemma OverlaidThere(d: seq<Byte>, at: nat, bs: seq<Byte>)
    requires at + |bs| <= |d|
    ensures Overlaid(d, at, bs)[at..at + |bs|] == bs
  {
  }

  lemma PresentAt(d: seq<Byte>, attrs: seq<Attr>, i: nat, base: nat, e: nat, v: nat)
    requires i < |attrs| && e == EntryPos(attrs, i) && v == |d| - ValuesLen(attrs, i + 1)
    requires var a := attrs[i];
      && Storable(a) && e + EntryLen(|a.name|) <= v && v + ValueLen(|a.value|) <= |d| && base + |d| < 0x1_0000
      && d[e..e + EntryLen(|a.name|)] == EntryBytes(a, base + v) && d[v..v + ValueLen(|a.value|)] == ValueBytes(a)
    ensures Present(d, attrs, i, base)
  {
    hide EntryBytes, ValueBytes, EntryPos, ValuesLen, EntryLen, ValueLen;
  }

  /** An attribute added where there is room joins those before it, all of which stay. */
  lemma AreaGrows(d: seq<Byte>, attrs: seq<Attr>, a: Attr, base: nat)
    requires Area(d, attrs, base) && Storable(a) && Needed(a) <= Gap(|d|, attrs)
    ensures Area(Extended(d, attrs, a, base), attrs + [a], base)
  {
    hide EntryBytes, ValueBytes, EntryLen, ValueLen, EntryPos, ValuesLen, Present, Overlaid;
    var r, n := Extended(d, attrs, a, base), |attrs|;
    forall i | 0 <= i < n + 1 ensures Present(r, attrs + [a], i, base) {
      if i < n {
        StillPresent(d, attrs, a, i, base);
      } else {
        NewPresent(d, attrs, a, base);
      }
    }
    GapShrinks(|d|, attrs, a);
    OneMoreValue(attrs, a);
    GapStaysClear(d, attrs, a, base);
  }

  lemma GapStaysClear(d: seq<Byte>, attrs: seq<Attr>, a: Attr, base: nat)
    requires Area(d, attrs, base) && Storable(a) && Needed(a) <= Gap(|d|, attrs)
    ensures forall k :: EntryPos(attrs, |attrs|) + EntryLen(|a.name|) <= k < NewValuePos(|d|, attrs, a) ==>
      Extended(d, attrs, a, base)[k] == 0
  {
    hide EntryBytes, ValueBytes, EntryLen, ValueLen, EntryPos, ValuesLen, Present;
    var e, v := EntryPos(attrs, |attrs|), NewValuePos(|d|, attrs, a);
    var d1, r := Overlaid(d, e, EntryBytes(a, base + v)), Extended(d, attrs, a, base);
    forall k | e + EntryLen(|a.name|) <= k < v ensures r[k] == 0 {
      assert r[k] == d1[k] == d[k];
    }
  }

  /** Values lie one below the other, all of them above the entries. */
  lemma ValuesApart(d: seq<Byte>, attrs: seq<Attr>, i: nat, j: nat, base: nat)
    requires Area(d, attrs, base) && i < j < |attrs|
    ensures var vi, vj := |d| - ValuesLen(attrs, i + 1), |d| - ValuesLen(attrs, j + 1);
      EntryPos(attrs, |attrs|) <= vj && vj + ValueLen(|attrs[j].value|) <= vi
  {
    Rises(attrs, i + 1, j);
    Rises(attrs, j + 1, |attrs|);
  }
}
