/** Extended attributes kept in the inode: entries grow forward, values backward (vfs/xattr.go). */
module Xattr {
  import opened Wrappers
  import opened Bytes
  import opened XattrNames

  const ENTRY_HEAD := 16

  datatype Attr = Attr(index: byte, name: Name, value: seq<byte>)

  /** The name bytes an entry keeps; its length byte counts modulo 256. */
  function Kept(a: Attr): (s: Name)
    ensures |s| == |a.name| % 256
  {
    a.name[..|a.name| % 256]
  }

  /** (n + 3) &^ 3 */
  function Pad4(n: nat): (r: nat)
    ensures n <= r < n + 4 && r % 4 == 0
  {
    (n + 3) / 4 * 4
  }

  function Padded(s: seq<byte>): (r: seq<byte>)
    ensures |r| == Pad4(|s|)
  {
    s + Zeros(Pad4(|s|) - |s|)
  }

  // ----- the layout -----

  function EntryBytes(a: Attr, off: nat): (s: seq<byte>)
    ensures |s| == ENTRY_HEAD + |a.name| % 256
  {
    [|a.name| % 256, a.index] + Put(off, 2) + Put(0, 4) + Put(|a.value|, 4) + Put(0, 4) + Kept(a)
  }

  /** An entry: name length, name index, place of the value, no block, size of the value, no hash, name. */
  lemma EntryPlace(a: Attr, off: u16)
    requires |a.value| < 0x1_0000_0000
    ensures var s := EntryBytes(a, off);
            && |s| == 16 + |a.name| % 256 && s[0] == |a.name| % 256 && s[1] == a.index && Le16(s, 2) == off
            && Le32(s, 4) == 0 && Le32(s, 8) == |a.value| && Le32(s, 12) == 0 && s[16..] == a.name[..|a.name| % 256]
  {
    hide Put, Get16, Get32;
    var s := EntryBytes(a, off);
    assert s[2..4] == Put(off, 2) && s[4..8] == Put(0, 4) && s[8..12] == Put(|a.value|, 4) && s[12..16] == Put(0, 4);
    GetPutFixed(off);
    GetPutFixed(0);
    GetPutFixed(|a.value|);
    Get16Is(s, 2);
    Get32Is(s, 4);
    Get32Is(s, 8);
    Get32Is(s, 12);
  }

  function EntryLen(a: Attr): nat {
    Pad4(ENTRY_HEAD + |a.name| % 256)
  }

  function TableLen(list: seq<Attr>): nat {
    if list == [] then 0 else TableLen(list[..|list| - 1]) + EntryLen(list[|list| - 1])
  }

  function ValueLen(list: seq<Attr>): nat {
    if list == [] then 0 else ValueLen(list[..|list| - 1]) + Pad4(|list[|list| - 1].value|)
  }

  /** The entries, each naming the place of its value in an area of avail bytes. */
  function Table(list: seq<Attr>, avail: nat): (s: seq<byte>)
    requires ValueLen(list) <= avail
    ensures |s| == TableLen(list)
  {
    if list == [] then []
    else Table(list[..|list| - 1], avail) + Padded(EntryBytes(list[|list| - 1], avail - ValueLen(list)))
  }

  /** The values, the first one last. */
  function Values(list: seq<Attr>): (s: seq<byte>)
    ensures |s| == ValueLen(list)
  {
    if list == [] then [] else Padded(list[|list| - 1].value) + Values(list[..|list| - 1])
  }

  predicate Fit(list: seq<Attr>, avail: nat) {
    TableLen(list) + 4 + ValueLen(list) <= avail
  }

  function Layout(list: seq<Attr>, avail: nat): (s: seq<byte>)
    requires Fit(list, avail)
    ensures |s| == avail
  {
    Table(list, avail) + Zeros(avail - TableLen(list) - ValueLen(list)) + Values(list)
  }

  // ----- reading -----

  /** One attribute read from the area, or nothing if its value reaches past the end. */
  function AttrAt(area: seq<byte>, curr: nat): seq<(Name, seq<byte>)>
    requires curr + ENTRY_HEAD <= |area| && curr + Pad4(ENTRY_HEAD + area[curr]) <= |area|
  {
    var offs, size := Get16(area[curr + 2..curr + 4]), Get32(area[curr + 8..curr + 12]);
    var name := Join(area[curr + 1], area[curr + 16..curr + 16 + area[curr]]);
    if offs + size <= |area| then [(name, area[offs..offs + size])] else []
  }

  lemma AttrPlace(area: seq<byte>, curr: nat)
    requires curr + 16 <= |area| && curr + Pad4(ENTRY_HEAD + area[curr]) <= |area|
    ensures var n, offs, size := area[curr], Le16(area, curr + 2), Le32(area, curr + 8);
            AttrAt(area, curr) ==
            if offs + size > |area| then []
            else [(Join(area[curr + 1], area[curr + 16..curr + 16 + n]), area[offs..offs + size])]
  {
    hide Get16, Get32, Join;
    Get16Is(area, curr + 2);
    Get32Is(area, curr + 8);
  }

  /** The entries of the area from curr on, in order. */
  function Walk(area: seq<byte>, curr: nat): seq<(Name, seq<byte>)>
    decreases |area| - curr
  {
    if curr + 4 > |area| || Get32(area[curr..curr + 4]) == 0 || curr + ENTRY_HEAD > |area| then []
    else
      var entryLen := Pad4(ENTRY_HEAD + area[curr]);
      if curr + entryLen > |area| then [] else AttrAt(area, curr) + Walk(area, curr + entryLen)
  }

  function MapOf(pairs: seq<(Name, seq<byte>)>): map<Name, seq<byte>> {
    if pairs == [] then map[] else MapOf(pairs[..|pairs| - 1])[pairs[|pairs| - 1].0 := pairs[|pairs| - 1].1]
  }

  // ----- the order of the entries -----

  /** Byte-wise order of strings. */
  predicate Lex(a: Name, b: Name) {
    b != [] && (a == [] || a[0] < b[0] || (a[0] == b[0] && Lex(a[1..], b[1..])))
  }

  /** At the first byte in which they differ a has the lower one, or it ends there. */
  lemma {:induction false} LexIs(a: Name, b: Name)
    ensures Lex(a, b) <==> exists k: nat :: LowerFrom(a, b, k)
  {
    if b != [] && a != [] && a[0] == b[0] {
      LexIs(a[1..], b[1..]);
      if k: nat :| LowerFrom(a[1..], b[1..], k) {
        assert a[..k + 1] == [a[0]] + a[1..][..k] && b[..k + 1] == [b[0]] + b[1..][..k];
        assert LowerFrom(a, b, k + 1);
      }
      if k: nat :| LowerFrom(a, b, k) {
        assert k > 0 by { assert a[0] == b[0]; }
        assert a[1..][..k - 1] == a[..k][1..] && b[1..][..k - 1] == b[..k][1..];
        assert LowerFrom(a[1..], b[1..], k - 1);
      }
    } else if b != [] && (a == [] || a[0] < b[0]) {
      assert LowerFrom(a, b, 0);
    } else if k: nat :| LowerFrom(a, b, k) {
      SameHead(a, b, k);
    }
  }

  lemma SameHead(a: Name, b: Name, k: nat)
    requires LowerFrom(a, b, k)
    ensures b != [] && (k > 0 ==> a != [] && a[0] == b[0])
  {
    if k > 0 {
      assert a[..k][0] == a[0] && b[..k][0] == b[0];
    }
  }

  ghost predicate LowerFrom(a: Name, b: Name, k: nat) {
    k <= |a| && k < |b| && a[..k] == b[..k] && (k == |a| || a[k] < b[k])
  }

  /** Attributes are sorted by index, then by the length kept of the name, then by the name. */
  lemma LessByField(a: Attr, b: Attr)
    ensures a.index < b.index ==> Less(a, b)
    ensures a.index == b.index && |a.name| % 256 < |b.name| % 256 ==> Less(a, b)
    ensures a.index == b.index && |a.name| % 256 == |b.name| % 256 ==> (Less(a, b) <==> Lex(a.name, b.name))
  {
  }

  predicate Less(a: Attr, b: Attr) {
    a.index < b.index
    || (a.index == b.index && (|a.name| % 256 < |b.name| % 256 || (|a.name| % 256 == |b.name| % 256 && Lex(a.name, b.name))))
  }

  lemma {:induction false} LexTotal(a: Name, b: Name)
    ensures Lex(a, b) || a == b || Lex(b, a)
    ensures !(Lex(a, b) && Lex(b, a)) && (a == b ==> !Lex(a, b))
  {
    if a != [] && b != [] {
      LexTotal(a[1..], b[1..]);
      assert a == [a[0]] + a[1..] && b == [b[0]] + b[1..];
    }
  }

  lemma {:induction false} LexTransitive(a: Name, b: Name, c: Name)
    requires Lex(a, b) && Lex(b, c)
    ensures Lex(a, c)
  {
    if a != [] && a[0] == b[0] == c[0] {
      LexTransitive(a[1..], b[1..], c[1..]);
    }
  }

  lemma LessTotal(a: Attr, b: Attr)
    ensures Less(a, b) || (a.index == b.index && a.name == b.name) || Less(b, a)
    ensures !(Less(a, b) && Less(b, a)) && (a.index == b.index && a.name == b.name ==> !Less(a, b))
  {
    LexTotal(a.name, b.name);
  }

  lemma LessTransitive(a: Attr, b: Attr, c: Attr)
    requires Less(a, b) && Less(b, c)
    ensures Less(a, c)
  {
    if Lex(a.name, b.name) && Lex(b.name, c.name) {
      LexTransitive(a.name, b.name, c.name);
    }
  }

  ghost predicate Sorted(list: seq<Attr>) {
    forall i, j | 0 <= i < j < |list| :: Less(list[i], list[j])
  }

  lemma HasFirst(b: seq<Attr>)
    requires b != []
    ensures b[0] in b
  {
  }

  /** The comparison order leaves one way to sort a set of attributes. */
  lemma {:induction false} SortedUnique(a: seq<Attr>, b: seq<Attr>)
    requires Sorted(a) && Sorted(b) && forall x :: x in a <==> x in b
    ensures a == b
  {
    hide Less;
    if a == [] {
      if b != [] { HasFirst(b); }
    } else {
      assert a[0] in b;
      FirstIsFirst(a, b);
      forall x ensures x in a[1..] <==> x in b[1..] {
        RestOf(a, x);
        RestOf(b, x);
      }
      SortedUnique(a[1..], b[1..]);
      assert a == [a[0]] + a[1..] && b == [b[0]] + b[1..];
    }
  }

  lemma FirstIsFirst(a: seq<Attr>, b: seq<Attr>)
    requires Sorted(a) && Sorted(b) && a != [] && a[0] in b && forall x :: x in a <==> x in b
    ensures b != [] && a[0] == b[0]
  {
    hide Less;
    var j :| 0 <= j < |b| && b[j] == a[0];
    assert b[0] in a;
    var i :| 0 <= i < |a| && a[i] == b[0];
    if j > 0 && i > 0 {
      LessTotal(a[0], b[0]);
    }
  }

  lemma RestOf(a: seq<Attr>, x: Attr)
    requires Sorted(a) && a != []
    ensures x in a[1..] <==> x in a && x != a[0]
  {
    hide Less;
    if i :| 0 <= i < |a| && a[i] == x && x != a[0] {
      assert a[1..][i - 1] == x;
    }
    if x in a[1..] {
      var i :| 0 <= i < |a[1..]| && a[1..][i] == x;
      assert a[i + 1] == x;
      LessTotal(a[0], x);
    }
  }

  /** sort.Slice with this comparison. */
  function SortAttrs(list: seq<Attr>): seq<Attr> {
    if list == [] then [] else InsertAttr(SortAttrs(list[..|list| - 1]), list[|list| - 1])
  }

  function InsertAttr(list: seq<Attr>, e: Attr): seq<Attr> {
    if list == [] || Less(e, list[0]) then [e] + list else [list[0]] + InsertAttr(list[1..], e)
  }

  lemma {:induction false} InsertHas(list: seq<Attr>, e: Attr, x: Attr)
    ensures x in InsertAttr(list, e) <==> x in list || x == e
  {
    hide Less;
    if list != [] && !Less(e, list[0]) {
      InsertHas(list[1..], e, x);
      assert list == [list[0]] + list[1..];
    }
  }

  lemma {:induction false} InsertSorted(list: seq<Attr>, e: Attr)
    requires Sorted(list) && forall x | x in list :: x.index != e.index || x.name != e.name
    ensures Sorted(InsertAttr(list, e))
  {
    hide Less;
    if list != [] {
      var r := InsertAttr(list, e);
      assert list[0] in list;
      LessTotal(e, list[0]);
      if Less(e, list[0]) {
        forall j | 0 <= j < |list| ensures Less(e, list[j]) {
          if j > 0 { LessTransitive(e, list[0], list[j]); }
        }
      } else {
        var rest := InsertAttr(list[1..], e);
        forall x | x in list[1..] ensures x in list {
        }
        InsertSorted(list[1..], e);
        forall j | 0 <= j < |rest| ensures Less(list[0], rest[j]) {
          InsertHas(list[1..], e, rest[j]);
          if rest[j] in list[1..] {
            var i :| 0 <= i < |list[1..]| && list[1..][i] == rest[j];
            assert list[i + 1] == rest[j];
          }
        }
      }
    }
  }

  /** Different attributes: no two share an index and a name. */
  ghost predicate Keyed(list: seq<Attr>) {
    forall i, j | 0 <= i < j < |list| :: list[i].index != list[j].index || list[i].name != list[j].name
  }

  lemma {:induction false} SortSorts(list: seq<Attr>)
    requires Keyed(list)
    ensures Sorted(SortAttrs(list)) && forall x :: x in SortAttrs(list) <==> x in list
  {
    hide Less, InsertAttr;
    if list != [] {
      var first, e := list[..|list| - 1], list[|list| - 1];
      assert list == first + [e];
      SortSorts(first);
      forall x | x in SortAttrs(first) ensures x.index != e.index || x.name != e.name {
        assert x in first;
        var i :| 0 <= i < |first| && first[i] == x;
        assert list[i] == x;
      }
      InsertSorted(SortAttrs(first), e);
      forall x ensures x in SortAttrs(list) <==> x in list {
        InsertHas(SortAttrs(first), e, x);
      }
    }
  }

  // ----- the layout reads back -----

  lemma Longer(list: seq<Attr>, i: nat)
    requires i < |list|
    ensures TableLen(list[..i + 1]) == TableLen(list[..i]) + EntryLen(list[i])
    ensures ValueLen(list[..i + 1]) == ValueLen(list[..i]) + Pad4(|list[i].value|)
  {
    assert list[..i + 1][..i] == list[..i];
  }

  lemma {:induction false} PrefixLens(list: seq<Attr>, i: nat)
    requires i <= |list|
    ensures TableLen(list[..i]) <= TableLen(list) && ValueLen(list[..i]) <= ValueLen(list)
    decreases |list| - i
  {
    if i < |list| {
      Longer(list, i);
      PrefixLens(list, i + 1);
    } else {
      assert list[..i] == list;
    }
  }

  lemma TableNext(list: seq<Attr>, i: nat, avail: nat)
    requires i < |list| && ValueLen(list[..i + 1]) <= avail
    ensures ValueLen(list[..i]) <= avail
    ensures Table(list[..i + 1], avail) == Table(list[..i], avail) + Padded(EntryBytes(list[i], avail - ValueLen(list[..i + 1])))
    ensures Values(list[..i + 1]) == Padded(list[i].value) + Values(list[..i])
  {
    hide EntryBytes, Padded;
    Longer(list, i);
    assert list[..i + 1][..i] == list[..i];
  }

  /** Entry i stands behind the entries before it. */
  lemma {:induction false} TablePart(list: seq<Attr>, i: nat, n: nat, avail: nat)
    requires i < n <= |list| && ValueLen(list) <= avail
    ensures ValueLen(list[..n]) <= avail && ValueLen(list[..i + 1]) <= avail
    ensures TableLen(list[..i]) + EntryLen(list[i]) <= TableLen(list[..n])
    ensures Table(list[..n], avail)[TableLen(list[..i])..TableLen(list[..i]) + EntryLen(list[i])]
            == Padded(EntryBytes(list[i], avail - ValueLen(list[..i + 1])))
    decreases n
  {
    hide EntryBytes, Padded, Table, Values, ValueLen, TableLen, EntryLen;
    PrefixLens(list, n);
    PrefixLens(list, i + 1);
    TableNext(list, n - 1, avail);
    Longer(list, n - 1);
    if i < n - 1 {
      TablePart(list, i, n - 1, avail);
      var t, e := Table(list[..n - 1], avail), Padded(EntryBytes(list[n - 1], avail - ValueLen(list[..n])));
      var a, b := TableLen(list[..i]), TableLen(list[..i]) + EntryLen(list[i]);
      assert (t + e)[a..b] == t[a..b];
    }
  }

  /** Value i ends where the values before it begin. */
  lemma {:induction false} ValuePart(list: seq<Attr>, i: nat, n: nat)
    requires i < n <= |list|
    ensures ValueLen(list[..i + 1]) <= ValueLen(list[..n]) && |list[i].value| <= ValueLen(list[..i + 1])
    ensures var from := ValueLen(list[..n]) - ValueLen(list[..i + 1]);
            Values(list[..n])[from..from + |list[i].value|] == list[i].value
    decreases n
  {
    hide Padded, Values, ValueLen;
    ValuesNext(list, n - 1);
    Longer(list, n - 1);
    var head, rest := Padded(list[n - 1].value), Values(list[..n - 1]);
    if i < n - 1 {
      ValuePart(list, i, n - 1);
      var from := ValueLen(list[..n - 1]) - ValueLen(list[..i + 1]);
      Behind(head, rest, from, from + |list[i].value|);
    } else {
      FrontOf(list[i].value, rest);
    }
  }

  lemma ValuesNext(list: seq<Attr>, i: nat)
    requires i < |list|
    ensures Values(list[..i + 1]) == Padded(list[i].value) + Values(list[..i])
  {
    assert list[..i + 1][..i] == list[..i];
  }

  lemma Behind(head: seq<byte>, rest: seq<byte>, i: nat, j: nat)
    requires i <= j <= |rest|
    ensures (head + rest)[|head| + i..|head| + j] == rest[i..j]
  {
  }

  lemma FrontOf(v: seq<byte>, rest: seq<byte>)
    ensures |v| <= |Padded(v)| && (Padded(v) + rest)[0..|v|] == v
  {
  }

  /** What stands where in a laid out area. */
  lemma LayoutParts(list: seq<Attr>, i: nat, avail: nat)
    requires Fit(list, avail) && i < |list|
    ensures var area, curr, off := Layout(list, avail), TableLen(list[..i]), avail - ValueLen(list[..i + 1]);
            && 4 < off && off + |list[i].value| <= avail && curr + EntryLen(list[i]) + 4 <= avail
            && area[curr..curr + EntryLen(list[i])] == Padded(EntryBytes(list[i], off))
            && area[off..off + |list[i].value|] == list[i].value
  {
    hide EntryBytes, Padded, Table, Values, ValueLen, TableLen, EntryLen;
    assert list[..|list|] == list;
    PrefixLens(list, i + 1);
    TablePart(list, i, |list|, avail);
    ValuePart(list, i, |list|);
    var t, z, v := Table(list, avail), Zeros(avail - TableLen(list) - ValueLen(list)), Values(list);
    var curr, end := TableLen(list[..i]), TableLen(list[..i]) + EntryLen(list[i]);
    var from := ValueLen(list) - ValueLen(list[..i + 1]);
    assert (t + z + v)[curr..end] == t[curr..end];
    Behind(t + z, v, from, from + |list[i].value|);
  }

  /** Four zero bytes end the table. */
  lemma LayoutEnd(list: seq<Attr>, avail: nat)
    requires Fit(list, avail)
    ensures var area, curr := Layout(list, avail), TableLen(list);
            curr + 4 <= avail && Get32(area[curr..curr + 4]) == 0
  {
    hide EntryBytes, Padded, Table, Values, ValueLen, TableLen;
    var t, z, v := Table(list, avail), Zeros(avail - TableLen(list) - ValueLen(list)), Values(list);
    assert (t + z + v)[|t|..|t| + 4] == z[..4] == Zeros(4);
    ZeroWord();
  }

  lemma ZeroWord()
    ensures Get32(Zeros(4)) == 0
  {
    assert Get(Zeros(4)[1..][1..][1..]) == 0;
  }

  function Pair(a: Attr): (Name, seq<byte>) {
    (Join(a.index, Kept(a)), a.value)
  }

  function Pairs(list: seq<Attr>): (s: seq<(Name, seq<byte>)>)
    ensures |s| == |list| && forall i | 0 <= i < |list| :: s[i] == Pair(list[i])
  {
    seq(|list|, i requires 0 <= i < |list| => Pair(list[i]))
  }

  /** A part of an entry seen through the area it stands in. */
  lemma Through(area: seq<byte>, curr: nat, e: seq<byte>, i: nat, j: nat)
    requires i <= j <= |e| && curr + |Padded(e)| <= |area| && area[curr..curr + |Padded(e)|] == Padded(e)
    ensures area[curr + i..curr + j] == e[i..j]
  {
    forall k | i <= k < j ensures area[curr + k] == e[k] {
      assert area[curr..curr + |Padded(e)|][k] == area[curr + k];
    }
  }

  lemma NotZero(n: byte, x: byte, off: nat)
    requires 0 < off < 0x1_0000
    ensures Get32([n, x] + Put(off, 2)) != 0
  {
    var s := [n, x] + Put(off, 2);
    assert s[1..][0] == x && s[1..][1..] == Put(off, 2);
    GetPutFixed(off);
    assert Get(s) == n + 256 * Get(s[1..]);
    assert Get(s[1..]) == x + 256 * Get(s[1..][1..]);
  }

  lemma EntryFields(a: Attr, off: nat)
    ensures var e, n := EntryBytes(a, off), |a.name| % 256;
            && e[0..1] == [n] && e[1..2] == [a.index] && e[0..4] == [n, a.index] + Put(off, 2) && e[2..4] == Put(off, 2)
            && e[8..12] == Put(|a.value|, 4) && e[16..16 + n] == Kept(a)
  {
    hide Put, Kept;
  }

  /** What a reader finds at an entry. */
  lemma EntryRead(area: seq<byte>, curr: nat, a: Attr, off: nat)
    requires 0 < off < 0x1_0000 && |a.value| < 0x1_0000_0000 && off + |a.value| <= |area|
    requires curr + EntryLen(a) <= |area| && area[curr..curr + EntryLen(a)] == Padded(EntryBytes(a, off))
    requires area[off..off + |a.value|] == a.value
    ensures curr + ENTRY_HEAD <= |area| && Get32(area[curr..curr + 4]) != 0 && area[curr] == |a.name| % 256
    ensures AttrAt(area, curr) == [Pair(a)]
  {
    hide Put, Get32, Get16, EntryBytes, Padded, Join, Kept;
    var e, n := EntryBytes(a, off), |a.name| % 256;
    EntryFields(a, off);
    Through(area, curr, e, 0, 1);
    Through(area, curr, e, 1, 2);
    Through(area, curr, e, 0, 4);
    Through(area, curr, e, 2, 4);
    Through(area, curr, e, 8, 12);
    Through(area, curr, e, 16, 16 + n);
    assert area[curr] == area[curr + 0..curr + 1][0] && area[curr + 1] == area[curr + 1..curr + 2][0];
    NotZero(n, a.index, off);
    GetPutFixed(off);
    GetPutFixed(|a.value|);
  }

  /** Walking a laid out area from entry i on gives the attributes from i on. */
  lemma {:induction false} WalkLayout(list: seq<Attr>, i: nat, avail: nat)
    requires Fit(list, avail) && avail < 0x1_0000 && i <= |list|
    ensures Walk(Layout(list, avail), TableLen(list[..i])) == Pairs(list[i..])
    decreases |list| - i
  {
    hide EntryBytes, Padded, Table, Values, ValueLen, TableLen, Layout, AttrAt, Get32, Pair;
    var area := Layout(list, avail);
    if i == |list| {
      assert list[..i] == list;
      LayoutEnd(list, avail);
    } else {
      var curr, off := TableLen(list[..i]), avail - ValueLen(list[..i + 1]);
      LayoutParts(list, i, avail);
      EntryRead(area, curr, list[i], off);
      Longer(list, i);
      WalkLayout(list, i + 1, avail);
      assert Pairs(list[i..]) == [Pair(list[i])] + Pairs(list[i + 1..]);
    }
  }

  // ----- maps of attributes -----

  type Attrs = map<Name, seq<byte>>

  function AttrOf(n: Name, v: seq<byte>): Attr {
    Attr(Split(n).0, Split(n).1, v)
  }

  /** The list is the map's attributes in order. */
  ghost predicate IsListOf(list: seq<Attr>, m: Attrs) {
    && Sorted(list)
    && (forall n | n in m :: AttrOf(n, m[n]) in list)
    && forall x | x in list :: exists n :: n in m && x == AttrOf(n, m[n])
  }

  /** Whatever order the map was iterated in, the sorted list is the same, and so are the bytes. */
  lemma ListUnique(a: seq<Attr>, b: seq<Attr>, m: Attrs)
    requires IsListOf(a, m) && IsListOf(b, m)
    ensures a == b
  {
    hide Less, AttrOf, Sorted;
    SortedUnique(a, b);
  }

  /** Names whose suffix fits the length byte. */
  ghost predicate Storable(m: Attrs) {
    forall n | n in m :: |Split(n).1| < 256
  }

  lemma PairOf(n: Name, v: seq<byte>)
    ensures |Split(n).1| < 256 ==> Pair(AttrOf(n, v)) == (n, v)
    ensures Split(Pair(AttrOf(n, v)).0) == (Split(n).0, Kept(AttrOf(n, v)))
  {
    hide Split, Join;
    JoinSplit(n);
    SplitCut(n, |Split(n).1| % 256);
    if |Split(n).1| < 256 {
      assert Kept(AttrOf(n, v)) == Split(n).1;
    }
  }

  lemma {:induction false} MapOfIs(pairs: seq<(Name, seq<byte>)>)
    ensures forall i | 0 <= i < |pairs| :: pairs[i].0 in MapOf(pairs)
    ensures forall k | k in MapOf(pairs) :: exists i :: 0 <= i < |pairs| && pairs[i] == (k, MapOf(pairs)[k])
  {
    if pairs != [] {
      var first, last := pairs[..|pairs| - 1], pairs[|pairs| - 1];
      MapOfIs(first);
      forall k | k in MapOf(pairs) ensures exists i :: 0 <= i < |pairs| && pairs[i] == (k, MapOf(pairs)[k]) {
        if k == last.0 {
          assert pairs[|pairs| - 1] == (k, MapOf(pairs)[k]);
        } else {
          assert k in MapOf(first) && MapOf(pairs)[k] == MapOf(first)[k];
          var i :| 0 <= i < |first| && first[i] == (k, MapOf(first)[k]);
          assert pairs[i] == (k, MapOf(pairs)[k]);
        }
      }
    }
  }

  /** Written and read again, a map comes back exactly if its names are storable. */
  lemma ReadsBackIff(list: seq<Attr>, m: Attrs)
    requires IsListOf(list, m)
    ensures MapOf(Pairs(list)) == m <==> Storable(m)
  {
    hide AttrOf, Pair, Split, Sorted, MapOf;
    if Storable(m) {
      ReadsBack(list, m);
    }
    if MapOf(Pairs(list)) == m {
      MapOfIs(Pairs(list));
      forall n | n in m ensures |Split(n).1| < 256 {
        var i :| 0 <= i < |Pairs(list)| && Pairs(list)[i] == (n, MapOf(Pairs(list))[n]);
        assert list[i] in list;
        var n1 :| n1 in m && list[i] == AttrOf(n1, m[n1]);
        PairOf(n1, m[n1]);
      }
    }
  }

  lemma ReadsBack(list: seq<Attr>, m: Attrs)
    requires IsListOf(list, m) && Storable(m)
    ensures MapOf(Pairs(list)) == m
  {
    hide AttrOf, Pair, Split, Sorted, MapOf;
    var r := MapOf(Pairs(list));
    MapOfIs(Pairs(list));
    forall k | k in r ensures k in m && r[k] == m[k] {
      var i :| 0 <= i < |Pairs(list)| && Pairs(list)[i] == (k, r[k]);
      assert list[i] in list;
      var n :| n in m && list[i] == AttrOf(n, m[n]);
      PairOf(n, m[n]);
    }
    forall n | n in m ensures n in r {
      var i :| 0 <= i < |list| && list[i] == AttrOf(n, m[n]);
      PairOf(n, m[n]);
      assert Pairs(list)[i].0 == n;
    }
  }

  // ----- serializeXAttrs -----

  /** The entries collected while keys are still to come. */
  ghost predicate Collected(entries: seq<Attr>, m: Attrs, keys: set<Name>) {
    && keys <= m.Keys && Keyed(entries)
    && (forall n | n in m.Keys - keys :: AttrOf(n, m[n]) in entries)
    && forall x | x in entries :: exists n :: n in m.Keys - keys && x == AttrOf(n, m[n])
  }

  lemma CollectOne(entries: seq<Attr>, m: Attrs, keys: set<Name>, n: Name)
    requires Collected(entries, m, keys) && n in keys
    ensures Collected(entries + [AttrOf(n, m[n])], m, keys - {n})
  {
    hide Split;
    var e, keys1 := AttrOf(n, m[n]), keys - {n};
    var list := entries + [e];
    assert m.Keys - keys1 == m.Keys - keys + {n};
    forall i | 0 <= i < |entries| ensures entries[i].index != e.index || entries[i].name != e.name {
      assert entries[i] in entries;
      var n1 :| n1 in m.Keys - keys && entries[i] == AttrOf(n1, m[n1]);
      if entries[i].index == e.index && entries[i].name == e.name {
        SplitInjective(n, n1);
      }
    }
    forall n1 | n1 in m.Keys - keys1 ensures AttrOf(n1, m[n1]) in list {
      assert list[|entries|] == e;
    }
    forall x | x in list ensures exists n1 :: n1 in m.Keys - keys1 && x == AttrOf(n1, m[n1]) {
      if x in entries {
        var n1 :| n1 in m.Keys - keys && x == AttrOf(n1, m[n1]);
        assert n1 in m.Keys - keys1;
      } else {
        assert n in m.Keys - keys1;
      }
    }
  }

  lemma SortCollected(entries: seq<Attr>, m: Attrs)
    requires Collected(entries, m, {})
    ensures IsListOf(SortAttrs(entries), m)
  {
    hide AttrOf, Less, SortAttrs;
    SortSorts(entries);
    assert m.Keys - {} == m.Keys;
    forall x | x in SortAttrs(entries) ensures exists n :: n in m && x == AttrOf(n, m[n]) {
      assert x in entries;
    }
  }

  /** The loop that writes entry i and its value. */
  lemma LayoutNext(list: seq<Attr>, i: nat, avail: nat)
    requires Fit(list, avail) && i < |list|
    ensures Fit(list[..i], avail) && Fit(list[..i + 1], avail)
    ensures var e, curr, off := EntryBytes(list[i], avail - ValueLen(list[..i + 1])), TableLen(list[..i]), avail - ValueLen(list[..i + 1]);
            && curr + |e| <= off && off + |list[i].value| <= avail
            && Overwrite(Overwrite(Layout(list[..i], avail), curr, e), off, list[i].value) == Layout(list[..i + 1], avail)
  {
    hide EntryBytes, Table, Values, ValueLen, TableLen, Overwrite, Zeros;
    PrefixLens(list, i);
    PrefixLens(list, i + 1);
    Longer(list, i);
    TableNext(list, i, avail);
    var off := avail - ValueLen(list[..i + 1]);
    Squeeze(Table(list[..i], avail), Values(list[..i]), EntryBytes(list[i], off), list[i].value, avail);
  }

  /** Growing from both ends into the zeroes between. */
  lemma Squeeze(t: seq<byte>, v: seq<byte>, e: seq<byte>, x: seq<byte>, avail: nat)
    requires |t| + Pad4(|e|) + Pad4(|x|) + |v| <= avail
    ensures |t| + |e| <= avail - |v| - Pad4(|x|)
    ensures var b := t + Zeros(avail - |t| - |v|) + v;
            Overwrite(Overwrite(b, |t|, e), avail - |v| - Pad4(|x|), x)
            == (t + Padded(e)) + Zeros(avail - |t| - Pad4(|e|) - |v| - Pad4(|x|)) + (Padded(x) + v)
  {
    hide Pad4;
  }

  /** serializeXAttrs: the entries of the map in order, or an error if they do not fit. */
  method SerializeXAttrs(xattrs: Attrs, availSpace: nat) returns (r: Option<seq<byte>>, ghost list: seq<Attr>)
    ensures IsListOf(list, xattrs)
    ensures xattrs == map[] ==> r == Some([])
    ensures xattrs != map[] ==> r == if Fit(list, availSpace) then Some(Layout(list, availSpace)) else None
  {
    hide AttrOf, Less, SortAttrs, Collected, IsListOf, Layout, EntryBytes, Holds, Overwrite, Pad4, Kept;
    var entries, keys := [], xattrs.Keys;
    NoneCollected(xattrs);
    while keys != {}
      invariant Collected(entries, xattrs, keys)
      decreases |keys|
    {
      var n :| n in keys;
      CollectOne(entries, xattrs, keys, n);
      KeyOf(entries, xattrs, keys, n);
      entries := entries + [AttrOf(n, xattrs[n])];
      keys := keys - {n};
    }
    SortCollected(entries, xattrs);
    var sorted := SortAttrs(entries);
    list := sorted;
    if xattrs == map[] {
      return Some([]), list;
    }
    var entryTableLen, valueTableLen := 0, 0;
    for i := 0 to |sorted|
      invariant entryTableLen == TableLen(sorted[..i]) && valueTableLen == ValueLen(sorted[..i])
    {
      Longer(sorted, i);
      entryTableLen := entryTableLen + Pad4(ENTRY_HEAD + |sorted[i].name| % 256);
      valueTableLen := valueTableLen + Pad4(|sorted[i].value|);
    }
    assert sorted[..|sorted|] == sorted;
    if entryTableLen + 4 + valueTableLen > availSpace {
      return None, list;
    }
    var bytes := WriteLayout(sorted, availSpace);
    r := Some(bytes);
  }

  lemma NoneCollected(m: Attrs)
    ensures Collected([], m, m.Keys)
  {
  }

  lemma KeyOf(entries: seq<Attr>, m: Attrs, keys: set<Name>, n: Name)
    requires Collected(entries, m, keys) && n in keys
    ensures n in m
  {
  }

  method WriteLayout(list: seq<Attr>, availSpace: nat) returns (b: seq<byte>)
    requires Fit(list, availSpace)
    ensures b == Layout(list, availSpace)
  {
    hide Layout, EntryBytes, Holds, Overwrite, Pad4, Kept, TableLen, ValueLen;
    var buf := new byte[availSpace](_ => 0);
    var currEntryOff, currValOff := 0, availSpace;
    EmptyLayout(list, availSpace);
    assert buf[..] == Zeros(availSpace);
    for i := 0 to |list|
      invariant currEntryOff == TableLen(list[..i]) && currValOff == availSpace - ValueLen(list[..i])
      invariant Fit(list[..i], availSpace) && buf[..] == Layout(list[..i], availSpace)
    {
      var a := list[i];
      Longer(list, i);
      LayoutNext(list, i, availSpace);
      currValOff := currValOff - Pad4(|a.value|);
      ghost var b0 := buf[..];
      PutBytes(buf, currEntryOff, EntryBytes(a, currValOff));
      IsOverwrite(b0, buf[..], currEntryOff, EntryBytes(a, currValOff));
      ghost var b1 := buf[..];
      PutBytes(buf, currValOff, a.value);
      IsOverwrite(b1, buf[..], currValOff, a.value);
      currEntryOff := currEntryOff + EntryLen(a);
    }
    assert list[..|list|] == list;
    b := buf[..];
  }

  lemma EmptyLayout(list: seq<Attr>, avail: nat)
    requires avail >= 4
    ensures TableLen(list[..0]) == 0 && ValueLen(list[..0]) == 0 && Fit(list[..0], avail) && Layout(list[..0], avail) == Zeros(avail)
  {
  }

  // ----- the inode -----

  const XATTR_MAGIC: u32 := 0xEA02_0000
  const GOOD_OLD_SIZE := 128
  const INODE_STRUCT := 160

  function ExtraSize(raw: seq<byte>): u16
    requires |raw| >= INODE_STRUCT
  {
    Get16(raw[128..130])
  }

  /** The body after the extra fields has room for the magic number. */
  predicate HasBody(raw: seq<byte>)
    requires |raw| >= INODE_STRUCT
  {
    ExtraSize(raw) > 0 && GOOD_OLD_SIZE + ExtraSize(raw) + 4 <= |raw|
  }

  function Body(raw: seq<byte>): (off: nat)
    requires |raw| >= INODE_STRUCT
  {
    GOOD_OLD_SIZE + ExtraSize(raw)
  }

  /** The attributes kept in the inode. */
  function List(raw: seq<byte>): Attrs
    requires |raw| >= INODE_STRUCT
  {
    if HasBody(raw) && Get32(raw[Body(raw)..Body(raw) + 4]) == XATTR_MAGIC
    then MapOf(Walk(raw[Body(raw) + 4..], 0)) else map[]
  }

  /** Behind 128 bytes and the extra fields, whose length stands in the first two of them, and the magic number. */
  lemma ListPlace(raw: seq<byte>)
    requires |raw| >= 160
    ensures var body := 128 + Le16(raw, 128);
            List(raw) ==
            if body > 128 && body + 4 <= |raw| && Le32(raw, body) == 0xEA02_0000 then MapOf(Walk(raw[body + 4..], 0)) else map[]
  {
    hide Get16, Get32, Walk, MapOf;
    Get16Is(raw, 128);
    if HasBody(raw) {
      Get32Is(raw, Body(raw));
    }
  }

  /** No attribute block outside the inode. */
  predicate NoAclBlock(raw: seq<byte>)
    requires |raw| >= INODE_STRUCT
  {
    Get32(raw[104..108]) == 0 && Get16(raw[118..120]) == 0
  }

  lemma NoAclPlace(raw: seq<byte>)
    requires |raw| >= 160
    ensures NoAclBlock(raw) <==> Le32(raw, 104) == 0 && Le16(raw, 118) == 0
  {
    hide Get16, Get32;
    Get32Is(raw, 104);
    Get16Is(raw, 118);
  }

  lemma WalkStep(area: seq<byte>, curr: nat, done: seq<(Name, seq<byte>)>)
    requires curr + ENTRY_HEAD <= |area| && Get32(area[curr..curr + 4]) != 0 && curr + Pad4(ENTRY_HEAD + area[curr]) <= |area|
    ensures done + Walk(area, curr) == done + AttrAt(area, curr) + Walk(area, curr + Pad4(ENTRY_HEAD + area[curr]))
  {
    hide AttrAt, Get32;
    assert Walk(area, curr) == AttrAt(area, curr) + Walk(area, curr + Pad4(ENTRY_HEAD + area[curr]));
  }

  lemma WalkEnds(area: seq<byte>, curr: nat, done: seq<(Name, seq<byte>)>)
    requires curr + 4 > |area| || Get32(area[curr..curr + 4]) == 0 || curr + ENTRY_HEAD > |area| || curr + Pad4(ENTRY_HEAD + area[curr]) > |area|
    ensures done + Walk(area, curr) == done
  {
    hide AttrAt, Get32;
    assert done + [] == done;
  }

  lemma MapOfNext(done: seq<(Name, seq<byte>)>, more: seq<(Name, seq<byte>)>)
    requires |more| <= 1
    ensures MapOf(done + more) == if more == [] then MapOf(done) else MapOf(done)[more[0].0 := more[0].1]
  {
    if more == [] {
      assert done + more == done;
    } else {
      assert (done + more)[..|done|] == done;
    }
  }

  /** ListXAttrs of an inode without an attribute block. */
  method ListXAttrs(rawInode: seq<byte>) returns (xattrs: Attrs)
    requires INODE_STRUCT <= |rawInode| && GOOD_OLD_SIZE + ExtraSize(rawInode) + 4 < 0x1_0000 && NoAclBlock(rawInode)
    ensures xattrs == List(rawInode)
  {
    hide AttrAt, Get32, Walk, Pad4;
    xattrs := map[];
    if ExtraSize(rawInode) > 0 && GOOD_OLD_SIZE + ExtraSize(rawInode) + 4 <= |rawInode| {
      var ibodyOffset := GOOD_OLD_SIZE + ExtraSize(rawInode);
      if Get32(rawInode[ibodyOffset..ibodyOffset + 4]) == XATTR_MAGIC {
        xattrs := ReadEntries(rawInode[ibodyOffset + 4..]);
      }
    }
  }

  /** The loop of ListXAttrs; offsets count from the first entry. */
  method ReadEntries(area: seq<byte>) returns (xattrs: Attrs)
    ensures xattrs == MapOf(Walk(area, 0))
  {
    hide AttrAt, Get32, Walk, Pad4, MapOf, Join;
    xattrs := map[];
    ghost var done := [];
    NothingMapped();
    assert done + Walk(area, 0) == Walk(area, 0);
    var curr := 0;
    while curr + 4 <= |area|
      invariant xattrs == MapOf(done) && done + Walk(area, curr) == Walk(area, 0)
      decreases |area| - curr
    {
      if Get32(area[curr..curr + 4]) == 0 || curr + ENTRY_HEAD > |area| {
        break;
      }
      var entryLen := Pad4(ENTRY_HEAD + area[curr]);
      if curr + entryLen > |area| {
        break;
      }
      WalkStep(area, curr, done);
      AttrAtIs(area, curr);
      MapOfNext(done, AttrAt(area, curr));
      var offs, size := Get16(area[curr + 2..curr + 4]), Get32(area[curr + 8..curr + 12]);
      if offs + size <= |area| {
        xattrs := xattrs[Join(area[curr + 1], area[curr + 16..curr + 16 + area[curr]]) := area[offs..offs + size]];
      }
      done := done + AttrAt(area, curr);
      curr := curr + entryLen;
    }
    WalkEnds(area, curr, done);
  }

  lemma AttrAtIs(area: seq<byte>, curr: nat)
    requires curr + ENTRY_HEAD <= |area| && curr + Pad4(ENTRY_HEAD + area[curr]) <= |area|
    ensures var offs, size := Get16(area[curr + 2..curr + 4]), Get32(area[curr + 8..curr + 12]);
            AttrAt(area, curr) ==
            if offs + size <= |area|
            then [(Join(area[curr + 1], area[curr + 16..curr + 16 + area[curr]]), area[offs..offs + size])] else []
  {
    hide Join, Get16, Get32;
  }

  lemma NothingMapped()
    ensures MapOf([]) == map[]
  {
  }

  /** GetXAttr */
  method GetXAttr(rawInode: seq<byte>, name: Name) returns (r: Option<seq<byte>>)
    requires INODE_STRUCT <= |rawInode| && GOOD_OLD_SIZE + ExtraSize(rawInode) + 4 < 0x1_0000 && NoAclBlock(rawInode)
    ensures r == if name in List(rawInode) then Some(List(rawInode)[name]) else None
  {
    var xattrs := ListXAttrs(rawInode);
    r := if name in xattrs then Some(xattrs[name]) else None;
  }

  datatype SetResult = Stored | NotExist | NeedsBlock

  /** The map SetXAttr wants to store; no value means removal. */
  function Updated(m: Attrs, name: Name, value: Option<seq<byte>>): Attrs {
    match value
    case Some(v) => m[name := v]
    case None => m - {name}
  }

  /** Space for entries and values behind the magic number. */
  function Avail(raw: seq<byte>): int
    requires |raw| >= INODE_STRUCT
  {
    |raw| - GOOD_OLD_SIZE - ExtraSize(raw) - 4
  }

  /** The inode with an area of entries behind its magic number. */
  lemma BodyReads(raw: seq<byte>, raw1: seq<byte>, list: seq<Attr>)
    requires INODE_STRUCT <= |raw| < 0x1_0000 && |raw1| == |raw| && HasBody(raw) && Avail(raw) > 0
    requires ExtraSize(raw1) == ExtraSize(raw) && raw1[Body(raw)..Body(raw) + 4] == Put(XATTR_MAGIC, 4)
    requires Fit(list, Avail(raw)) && raw1[Body(raw) + 4..] == Layout(list, Avail(raw))
    ensures List(raw1) == MapOf(Pairs(list))
  {
    hide Layout, Walk, Put, Get32, Get16, MapOf, Fit;
    GetPutFixed(XATTR_MAGIC);
    WalkLayout(list, 0, Avail(raw));
    assert list[0..] == list && TableLen(list[..0]) == 0;
  }

  lemma EmptyBodyReads(raw: seq<byte>, raw1: seq<byte>)
    requires INODE_STRUCT <= |raw| && |raw1| == |raw| && HasBody(raw) && ExtraSize(raw1) == ExtraSize(raw)
    requires forall i | Body(raw) <= i < |raw| :: raw1[i] == 0
    ensures List(raw1) == map[]
  {
    hide Walk, Get16, MapOf;
    assert raw1[Body(raw)..Body(raw) + 4] == Zeros(4);
    ZeroWord();
  }

  /**
   SetXAttr as long as everything fits the inode: afterwards the inode lists the old map updated or
   reduced at one name, exactly if all names are storable, and nothing before the body changed. A
   map that does not fit goes to an attribute block, which is not part of this model.
   */
  method SetXAttr(rawInode: array<byte>, name: Name, value: Option<seq<byte>>) returns (r: SetResult, ghost list: seq<Attr>)
    requires INODE_STRUCT <= rawInode.Length < 0x1_0000 && NoAclBlock(rawInode[..])
    requires GOOD_OLD_SIZE + ExtraSize(rawInode[..]) + 4 < 0x1_0000 && ExtraSize(rawInode[..]) != 1
    modifies rawInode
    ensures !r.NotExist? ==> IsListOf(list, Updated(old(List(rawInode[..])), name, value))
    ensures r.NotExist? <==> value.None? && name !in old(List(rawInode[..]))
    ensures r.Stored? <==> !r.NotExist? && old(HasBody(rawInode[..])) && old(Avail(rawInode[..])) > 0
                           && (Updated(old(List(rawInode[..])), name, value) == map[] || Fit(list, old(Avail(rawInode[..]))))
    ensures !r.Stored? ==> rawInode[..] == old(rawInode[..])
    ensures r.Stored? ==>
              && (List(rawInode[..]) == Updated(old(List(rawInode[..])), name, value) <==> Storable(Updated(old(List(rawInode[..])), name, value)))
              && forall i | 0 <= i < old(Body(rawInode[..])) :: rawInode[i] == old(rawInode[i])
  {
    hide Walk, MapOf, Get32, Get16, Layout, Fit, IsListOf, Storable, NoAclBlock, Put, Holds, Pairs;
    ghost var raw := rawInode[..];
    var xattrs := ListXAttrs(rawInode[..]);
    if value.None? && name !in xattrs {
      return NotExist, [];
    }
    var updated := match value
      case Some(v) => xattrs[name := v]
      case None => xattrs - {name};
    var inInodeBuf;
    var extra, avail := ExtraSize(rawInode[..]), Avail(rawInode[..]);
    inInodeBuf, list := SerializeXAttrs(updated, if avail > 0 then avail else 0);
    if extra == 0 || avail <= 0 || inInodeBuf.None? {
      return NeedsBlock, list;
    }
    var ibodyOffset := GOOD_OLD_SIZE + extra;
    if updated != map[] {
      StoreBody(rawInode, ibodyOffset, inInodeBuf.value);
      SameExtra(raw, rawInode[..]);
      BodyReads(raw, rawInode[..], list);
      ReadsBackIff(list, updated);
    } else {
      for i := ibodyOffset to rawInode.Length
        invariant forall j | ibodyOffset <= j < i :: rawInode[j] == 0
        invariant forall j | 0 <= j < ibodyOffset :: rawInode[j] == raw[j]
      {
        rawInode[i] := 0;
      }
      SameExtra(raw, rawInode[..]);
      EmptyBodyReads(raw, rawInode[..]);
      NoneStored();
    }
    r := Stored;
  }

  method StoreBody(rawInode: array<byte>, off: nat, buf: seq<byte>)
    requires off + 4 + |buf| == rawInode.Length
    modifies rawInode
    ensures rawInode[..][off..off + 4] == Put(XATTR_MAGIC, 4) && rawInode[..][off + 4..] == buf
    ensures forall i | 0 <= i < off :: rawInode[..][i] == old(rawInode[..])[i]
  {
    hide Put;
    PutBytes(rawInode, off, Put(XATTR_MAGIC, 4));
    ghost var mid := rawInode[..];
    PutBytes(rawInode, off + 4, buf);
    assert rawInode[..][off..off + 4] == mid[off..off + 4];
    assert rawInode[..][off + 4..] == rawInode[..][off + 4..off + 4 + |buf|];
  }

  lemma SameExtra(raw: seq<byte>, raw1: seq<byte>)
    requires INODE_STRUCT <= |raw| && |raw1| == |raw| && ExtraSize(raw) > 1 && Body(raw) <= |raw|
    requires forall i | 0 <= i < Body(raw) :: raw1[i] == raw[i]
    ensures ExtraSize(raw1) == ExtraSize(raw)
  {
    assert raw1[128..130] == raw[128..130];
  }

  lemma NoneStored()
    ensures Storable(map[])
  {
  }

  /** A name whose suffix is longer than the length byte counts does not come back. */
  lemma LongNameLost(list: seq<Attr>, n: Name, v: seq<byte>)
    requires IsListOf(list, map[n := v]) && |Split(n).1| >= 256
    ensures n !in MapOf(Pairs(list))
  {
    hide Split, Sorted, Kept, MapOf;
    if n in MapOf(Pairs(list)) {
      MapOfIs(Pairs(list));
      var i :| 0 <= i < |Pairs(list)| && Pairs(list)[i] == (n, MapOf(Pairs(list))[n]);
      assert list[i] in list;
      PairOf(n, v);
    }
  }
}
