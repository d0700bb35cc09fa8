/** Adding attributes to an area in memory, and reading them back. */
module XattrTool {
  import opened Arithmetic
  import opened Sequences
  import opened DirRecords
  import opened Xattrs

  /** The reader stays inside the area when it looks for the end of the entries. */
  predicate CanLook(size: nat, attrs: seq<Attr>) {
    EntryPos(attrs, |attrs|) + 4 <= size
  }

  /** What a look at entry i shows: where the next is, and how long the value. */
  lemma LookAt(d: seq<Byte>, attrs: seq<Attr>, i: nat, base: nat)
    requires Area(d, attrs, base) && i < |attrs|
    ensures var e := EntryPos(attrs, i);
      && e + ENTRY <= |d| && !IsLast(d, e)
      && d[e] == |attrs[i].name| && e + EntryLen(d[e]) == EntryPos(attrs, i + 1)
      && Get32(d, e + 8) == |attrs[i].value| && ValuesLen(attrs, i) + ValueLen(|attrs[i].value|) == ValuesLen(attrs, i + 1)
      && e < |d| - ValuesLen(attrs, i)
  {
    assert Present(d, attrs, i, base);
    EntryFields(d, attrs, i, base);
    EntryIsNotLast(d, attrs, i, base);
  }

  /** What is behind the last entry looks like the end mark. */
  predicate Marked(d: seq<Byte>, attrs: seq<Attr>) {
    CanLook(|d|, attrs) && IsLast(d, EntryPos(attrs, |attrs|))
  }

  /** How many of the first n attributes there are up to the last whose value is not empty. */
  function Valued(attrs: seq<Attr>, n: nat): (i: nat)
    requires n <= |attrs|
    ensures i <= n && (i > 0 ==> attrs[i - 1].value != []) && ValuesLen(attrs, i) == ValuesLen(attrs, n)
  {
    if n == 0 || attrs[n - 1].value != [] then n
    else
      assert ValueLen(|attrs[n - 1].value|) == 0;
      Valued(attrs, n - 1)
  }

  /** In an area filled to the last byte, the last value that is not empty begins there. */
  lemma FullAreaMarkedIff(d: seq<Byte>, attrs: seq<Attr>, base: nat)
    requires Area(d, attrs, base) && Gap(|d|, attrs) == 0
    ensures var i := Valued(attrs, |attrs|);
      Marked(d, attrs) <==> i > 0 && ValueBytes(attrs[i - 1])[..4] == [0, 0, 0, 0]
  {
    hide Area, EntryPos, ValueBytes, ValuesLen, IsLast;
    var i := Valued(attrs, |attrs|);
    GapFits(d, attrs, base);
    if i == 0 {
      Starts(attrs);
    } else {
      var v := ValueInPlace(d, attrs, i, base);
      FirstFour(d, v, ValueBytes(attrs[i - 1]));
    }
  }

  /** The value of the i-th attribute, if it is not empty. */
  lemma ValueInPlace(d: seq<Byte>, attrs: seq<Attr>, i: nat, base: nat) returns (v: nat)
    requires Area(d, attrs, base) && 0 < i <= |attrs| && attrs[i - 1].value != []
    ensures v == |d| - ValuesLen(attrs, i)
    ensures var bytes := ValueBytes(attrs[i - 1]);
      |bytes| >= 4 && v + |bytes| <= |d| && d[v..v + |bytes|] == bytes
  {
    assert Present(d, attrs, i - 1, base);
    hide EntryBytes, EntryPos, ValueBytes, EntryLen;
    Rounded(|attrs[i - 1].value|);
    v := |d| - ValuesLen(attrs, i);
  }

  lemma FirstFour(d: seq<Byte>, v: nat, bytes: seq<Byte>)
    requires v + |bytes| <= |d| && |bytes| >= 4 && d[v..v + |bytes|] == bytes
    ensures IsLast(d, v) <==> bytes[..4] == [0, 0, 0, 0]
  {
    var w := bytes[..4];
    assert w == [w[0], w[1], w[2], w[3]];
    assert d[v] == d[v..v + |bytes|][0] && d[v + 1] == d[v..v + |bytes|][1];
    assert d[v + 2] == d[v..v + |bytes|][2] && d[v + 3] == d[v..v + |bytes|][3];
  }

  /** Behind the last entry there is the end mark, if four bytes are left. */
  lemma EndMark(d: seq<Byte>, attrs: seq<Attr>, base: nat)
    requires Area(d, attrs, base) && Gap(|d|, attrs) >= 4
    ensures Marked(d, attrs)
  {
    var e := EntryPos(attrs, |attrs|);
    assert d[e] == 0 && d[e + 1] == 0 && d[e + 2] == 0 && d[e + 3] == 0;
  }

  /** The gap is made of whole words. */
  lemma {:induction false} PosMultiple(attrs: seq<Attr>, i: nat)
    requires i <= |attrs|
    ensures EntryPos(attrs, i) % 4 == 0 && ValuesLen(attrs, i) % 4 == 0
  {
    hide EntryLen, ValueLen;
    if i > 0 {
      PosMultiple(attrs, i - 1);
      Rounded(|attrs[i - 1].name|);
      Rounded(|attrs[i - 1].value|);
      SumMultiple(EntryPos(attrs, i - 1), EntryLen(|attrs[i - 1].name|));
      SumMultiple(ValuesLen(attrs, i - 1), ValueLen(|attrs[i - 1].value|));
    }
  }

  lemma SumMultiple(x: nat, y: nat)
    requires x % 4 == 0 && y % 4 == 0
    ensures (x + y) % 4 == 0
  {
  }

  lemma GapWords(size: nat, attrs: seq<Attr>)
    requires size % 4 == 0 && Gap(size, attrs) >= 0
    ensures Gap(size, attrs) == 0 || Gap(size, attrs) >= 4
  {
    hide EntryPos, ValuesLen;
    PosMultiple(attrs, |attrs|);
  }

  /** xattr_free_space */
  method FreeSpace(data: array<Byte>, ghost attrs: seq<Attr>, ghost base: nat) returns (free: nat)
    requires Area(data[..], attrs, base) && CanLook(data.Length, attrs)
    ensures free == Gap(data.Length, attrs)
  {
    hide Area, EntryPos, ValuesLen, Get32, EntryLen, ValueLen;
    var entry, end: int := 0, data.Length;
    ghost var i := 0;
    Starts(attrs);
    GapFits(data[..], attrs, base);
    while !IsLast(data[..], entry) && entry < end
      invariant 0 <= i <= |attrs| && entry == EntryPos(attrs, i) && end == data.Length - ValuesLen(attrs, i)
      invariant 0 <= entry && entry + 4 <= data.Length
      decreases |attrs| - i
    {
      ghost var d := data[..];
      if i == |attrs| {
        NotAtEnd(d, attrs, base);
      }
      LookAt(d, attrs, i, base);
      LookAhead(d, attrs, i + 1, base);
      end := end - ValueLen(Get32(data[..], entry + 8));
      entry := entry + EntryLen(data[entry]);
      i := i + 1;
    }
    if i < |attrs| {
      LookAt(data[..], attrs, i, base);
    }
    free := end - entry;
  }

  lemma Starts(attrs: seq<Attr>)
    ensures EntryPos(attrs, 0) == 0 && ValuesLen(attrs, 0) == 0
  {
  }

  lemma GapFits(d: seq<Byte>, attrs: seq<Attr>, base: nat)
    requires Area(d, attrs, base)
    ensures EntryPos(attrs, |attrs|) + ValuesLen(attrs, |attrs|) <= |d|
    ensures CanLook(|d|, attrs) ==> 4 <= |d|
  {
  }

  /** The loop does not go on behind the last entry. */
  lemma NotAtEnd(d: seq<Byte>, attrs: seq<Attr>, base: nat)
    requires Area(d, attrs, base) && CanLook(|d|, attrs)
    ensures IsLast(d, EntryPos(attrs, |attrs|)) || EntryPos(attrs, |attrs|) >= |d| - ValuesLen(attrs, |attrs|)
  {
    hide EntryPos, ValuesLen, Present, Get32;
    GapWords(|d|, attrs);
    if Gap(|d|, attrs) >= 4 {
      EndMark(d, attrs, base);
    }
  }

  lemma LookAhead(d: seq<Byte>, attrs: seq<Attr>, i: nat, base: nat)
    requires Area(d, attrs, base) && CanLook(|d|, attrs) && i <= |attrs|
    ensures EntryPos(attrs, i) + 4 <= |d|
  {
    Rises(attrs, i, |attrs|);
  }

  /** xattr_get_last */
  method GetLast(data: array<Byte>, ghost attrs: seq<Attr>, ghost base: nat) returns (entry: nat)
    requires Area(data[..], attrs, base) && Marked(data[..], attrs)
    ensures entry == EntryPos(attrs, |attrs|)
  {
    hide Area, EntryPos, ValuesLen, EntryLen;
    entry := 0;
    ghost var i := 0;
    Starts(attrs);
    LookAhead(data[..], attrs, 0, base);
    while !IsLast(data[..], entry)
      invariant 0 <= i <= |attrs| && entry == EntryPos(attrs, i) && entry + 4 <= data.Length
      decreases |attrs| - i
    {
      LookAt(data[..], attrs, i, base);
      LookAhead(data[..], attrs, i + 1, base);
      entry := entry + EntryLen(data[entry]);
      i := i + 1;
    }
    if i < |attrs| {
      LookAt(data[..], attrs, i, base);
    }
  }

  /** xattr_addto_range, up to the check of the order. */
  method AddToRange(data: array<Byte>, ghost attrs: seq<Attr>, a: Attr, base: nat) returns (ok: bool)
    requires Area(data[..], attrs, base) && CanLook(data.Length, attrs)
    modifies data
    ensures ok <==> |a.name| <= 255 && Needed(a) <= Gap(data.Length, attrs)
    ensures Area(data[..], if ok then attrs + [a] else attrs, base)
    ensures !ok ==> data[..] == old(data[..])
  {
    hide Area, EntryPos, ValuesLen, EntryLen, ValueLen, EntryBytes, ValueBytes, Overlaid;
    if |a.name| > 255 {
      return false;
    }
    var available := FreeSpace(data, attrs, base);
    Rounded(|a.name|);
    if Needed(a) > available {
      return false;
    }
    EndMark(data[..], attrs, base);
    var entry := GetLast(data, attrs, base);
    AreaLength(data[..], attrs, base);
    Rounded(|a.value|);
    AreaGrows(data[..], attrs, a, base);
    var val := entry + available - ValueLen(|a.value|);
    Put(data, entry, EntryBytes(a, base + val));
    Put(data, val, ValueBytes(a));
    return true;
  }

  lemma AreaLength(d: seq<Byte>, attrs: seq<Attr>, base: nat)
    requires Area(d, attrs, base)
    ensures base + |d| < 0x1_0000 && Gap(|d|, attrs) <= |d|
  {
  }

  /** Reading an attribute through its entry gives back what was added. */
  method AttrAt(data: array<Byte>, ghost attrs: seq<Attr>, ghost i: nat, base: nat, entry: nat) returns (a: Attr)
    requires Area(data[..], attrs, base) && i < |attrs| && entry == EntryPos(attrs, i)
    ensures a == attrs[i]
  {
    hide EntryPos, ValuesLen, EntryLen, Get32, Get16, Present;
    EntryFields(data[..], attrs, i, base);
    var d := data[..];
    var offs, size := Get16(d, entry + 2), Get32(d, entry + 8);
    a := Attr(d[entry + 1], d[entry + ENTRY..entry + ENTRY + d[entry]], d[offs - base..offs - base + size]);
  }

  // ---- the order the kernel wants ----

  /** How memcmp compares names of one length. */
  function Compared(x: seq<Byte>, y: seq<Byte>): int
    requires |x| == |y|
  {
    if x == [] then 0 else if x[0] != y[0] then x[0] as int - y[0] as int else Compared(x[1..], y[1..])
  }

  /** Name index first, then the length of the name, then its bytes. */
  function Order(next: Attr, entry: Attr): int {
    if next.index != entry.index then next.index as int - entry.index as int
    else if |next.name| != |entry.name| then |next.name| - |entry.name|
    else Compared(next.name, entry.name)
  }

  /** At the first byte in which they differ x has the smaller one. */
  ghost predicate Smaller(x: seq<Byte>, y: seq<Byte>)
    requires |x| == |y|
  {
    exists j :: 0 <= j < |x| && x[..j] == y[..j] && x[j] < y[j]
  }

  ghost predicate Precedes(a: Attr, b: Attr) {
    || a.index < b.index
    || (a.index == b.index && |a.name| < |b.name|)
    || (a.index == b.index && |a.name| == |b.name| && Smaller(a.name, b.name))
  }

  ghost predicate Sorted(attrs: seq<Attr>) {
    forall i :: 0 <= i < |attrs| - 1 ==> Precedes(attrs[i], attrs[i + 1])
  }

  lemma {:induction false} ComparedIff(x: seq<Byte>, y: seq<Byte>)
    requires |x| == |y|
    ensures Compared(y, x) > 0 <==> Smaller(x, y)
  {
    if x != [] {
      ComparedIff(x[1..], y[1..]);
      if Smaller(x[1..], y[1..]) && x[0] == y[0] {
        var j :| 0 <= j < |x[1..]| && x[1..][..j] == y[1..][..j] && x[1..][j] < y[1..][j];
        assert x[..j + 1] == [x[0]] + x[1..][..j] && y[..j + 1] == [y[0]] + y[1..][..j];
      }
      if Smaller(x, y) && x[0] == y[0] {
        var j :| 0 <= j < |x| && x[..j] == y[..j] && x[j] < y[j];
        assert x[1..][..j - 1] == x[..j][1..] == y[..j][1..] == y[1..][..j - 1];
        assert x[1..][j - 1] < y[1..][j - 1];
      }
      if x[0] < y[0] {
        assert x[..0] == y[..0];
      }
    }
  }

  /** The comparison made is the order wanted. */
  lemma OrderIff(next: Attr, entry: Attr)
    ensures Order(next, entry) > 0 <==> Precedes(entry, next)
  {
    hide Smaller;
    if |next.name| == |entry.name| {
      ComparedIff(entry.name, next.name);
    }
  }

  /** xattr_assert_sane: content exactly if every attribute sorts after the one before it. */
  method AssertSane(data: array<Byte>, ghost attrs: seq<Attr>, base: nat) returns (sane: bool)
    requires Area(data[..], attrs, base) && Marked(data[..], attrs)
    ensures sane <==> Sorted(attrs)
  {
    hide Area, EntryPos, ValuesLen, EntryLen, Get32, Order, Precedes;
    var entry := 0;
    ghost var i := 0;
    Starts(attrs);
    LookAhead(data[..], attrs, 0, base);
    while !IsLast(data[..], entry)
      invariant 0 <= i <= |attrs| && entry == EntryPos(attrs, i) && entry + 4 <= data.Length
      invariant forall k :: 0 <= k < i && k + 1 < |attrs| ==> Precedes(attrs[k], attrs[k + 1])
      decreases |attrs| - i
    {
      LookAt(data[..], attrs, i, base);
      LookAhead(data[..], attrs, i + 1, base);
      var next := entry + EntryLen(data[entry]);
      if IsLast(data[..], next) {
        if i + 1 < |attrs| {
          LookAt(data[..], attrs, i + 1, base);
        }
        return true;
      }
      assert i + 1 < |attrs|;
      var e := AttrAt(data, attrs, i, base, entry);
      var n := AttrAt(data, attrs, i + 1, base, next);
      OrderIff(n, e);
      if Order(n, e) <= 0 {
        return false;
      }
      entry := next;
      i := i + 1;
    }
    if i < |attrs| {
      LookAt(data[..], attrs, i, base);
    }
    return true;
  }
}
