/** What appending an extent does to the block map, to a leaf's bytes, and to a whole tree. */
module Ext4Append {
  import opened Wrappers
  import opened Bytes
  import opened Ext4Types
  import opened Ext4Tree

  // ----- the extent list -----

  /** The new extent continues the last one both logically and on disk, and the sum fits. */
  predicate Mergeable(last: Extent, x: Extent) {
    && last.startHi == x.startHi
    && last.block + last.Count() == x.block
    && last.startLo + last.Count() == x.startLo
    && !last.Uninit() && !x.Uninit()
    && last.Count() + x.Count() <= 0x7FFF
  }

  /** That is: neighbours in the file and on disk, both initialized, not across 2^32 blocks, short enough. */
  lemma MergeableIff(last: Extent, x: Extent)
    ensures Mergeable(last, x) <==>
              && last.len < 0x8000 && x.len < 0x8000 && last.len + x.len as int < 0x8000
              && last.block + last.len == x.block
              && last.Phys() + last.len == x.Phys() && last.startLo + last.len < 0x1_0000_0000
  {
  }

  /** The last extent with x in it. */
  function Merged(last: Extent, x: Extent): Extent
    requires Mergeable(last, x)
  {
    last.(len := last.Count() + x.Count())
  }

  function AppendTo(list: seq<Extent>, x: Extent): seq<Extent> {
    var n := |list|;
    if n > 0 && Mergeable(list[n - 1], x) then list[..n - 1] + [Merged(list[n - 1], x)] else list + [x]
  }

  /** The block map of the old list with the new extent's blocks added behind it. */
  ghost predicate Extends(list1: seq<Extent>, list: seq<Extent>, x: Extent) {
    forall l: u32 :: FindPhysicalBlock(list1, l) ==
      if FindPhysicalBlock(list, l).Some? then FindPhysicalBlock(list, l) else FindPhysicalBlock([x], l)
  }

  lemma {:induction false} FindConcat(a: seq<Extent>, b: seq<Extent>, l: u32)
    ensures FindPhysicalBlock(a + b, l) ==
            if FindPhysicalBlock(a, l).Some? then FindPhysicalBlock(a, l) else FindPhysicalBlock(b, l)
  {
    if a == [] {
      assert a + b == b;
    } else {
      assert (a + b)[1..] == a[1..] + b;
      FindConcat(a[1..], b, l);
    }
  }

  lemma FindOne(x: Extent, l: u32)
    ensures FindPhysicalBlock([x], l) ==
            if !x.Uninit() && x.block <= l < (x.block + x.Count()) % 0x1_0000_0000 then Some(x.Phys() + (l - x.block)) else None
  {
    assert [x][1..] == [];
  }

  /** How a list grows at its end: x inside the last extent, or an entry of its own. */
  ghost predicate Grew(list1: seq<Extent>, list: seq<Extent>, x: Extent, merged: bool) {
    && (merged ==> list != [] && Mergeable(list[|list| - 1], x))
    && list1 == if merged then AppendTo(list, x) else list + [x]
  }

  /** A merge into the last extent keeps its blocks: the 32-bit end does not wrap, or extents in front have them. */
  ghost predicate MergeKeeps(list: seq<Extent>, x: Extent)
    requires list != []
  {
    x.block + x.Count() < 0x1_0000_0000
    || AllMapped(list[..|list| - 1], list[|list| - 1].block, x.block)
  }

  ghost predicate AllMapped(list: seq<Extent>, from: u32, to: u32) {
    forall l: u32 | from <= l < to :: FindPhysicalBlock(list, l).Some?
  }

  /** An entry of its own always adds exactly the new extent's blocks. */
  lemma AddedExtends(list: seq<Extent>, x: Extent)
    ensures Extends(list + [x], list, x)
  {
    hide FindPhysicalBlock;
    forall l: u32
      ensures FindPhysicalBlock(list + [x], l) ==
              if FindPhysicalBlock(list, l).Some? then FindPhysicalBlock(list, l) else FindPhysicalBlock([x], l)
    {
      FindConcat(list, [x], l);
    }
  }

  /** What the merged extent, the last one and the new one map. */
  lemma MergedFind(last: Extent, x: Extent, l: u32)
    requires Mergeable(last, x)
    ensures var merged := last.(len := last.Count() + x.Count());
            && (FindPhysicalBlock([last], l).Some? <==> last.block <= l < x.block)
            && (x.block + x.Count() < 0x1_0000_0000 ==>
                  FindPhysicalBlock([merged], l) ==
                  if FindPhysicalBlock([last], l).Some? then FindPhysicalBlock([last], l) else FindPhysicalBlock([x], l))
            && (x.block + x.Count() >= 0x1_0000_0000 ==>
                  FindPhysicalBlock([merged], l).None? && FindPhysicalBlock([x], l).None?)
  {
    hide FindPhysicalBlock;
    var merged := last.(len := last.Count() + x.Count());
    FindFlat(last, l);
    FindFlat(merged, l);
    FindFlat(x, l);
  }

  /** An extent whose end wraps maps nothing. */
  lemma FindFlat(x: Extent, l: u32)
    ensures FindPhysicalBlock([x], l) ==
            if !x.Uninit() && x.block <= l < x.block + x.Count() < 0x1_0000_0000 then Some(x.Phys() + (l - x.block)) else None
  {
    hide FindPhysicalBlock;
    FindOne(x, l);
    if x.block + x.Count() >= 0x1_0000_0000 {
      assert (x.block + x.Count()) % 0x1_0000_0000 == x.block + x.Count() - 0x1_0000_0000;
    }
  }

  lemma MergedIs(list: seq<Extent>, x: Extent)
    requires list != [] && Mergeable(list[|list| - 1], x)
    ensures var pre, last := list[..|list| - 1], list[|list| - 1];
            last.Count() + x.Count() < 0x8000 && list == pre + [last]
            && AppendTo(list, x) == pre + [last.(len := last.Count() + x.Count())]
  {
  }

  /** A merge adds exactly the new extent's blocks to the map if and only if it keeps the old ones. */
  lemma MergedExtendsIff(list: seq<Extent>, x: Extent)
    requires list != [] && Mergeable(list[|list| - 1], x)
    ensures Extends(AppendTo(list, x), list, x) <==> MergeKeeps(list, x)
  {
    hide FindPhysicalBlock, Mergeable, AppendTo;
    var pre, last := list[..|list| - 1], list[|list| - 1];
    MergedIs(list, x);
    var merged := last.(len := last.Count() + x.Count());
    forall l: u32
      ensures (FindPhysicalBlock(AppendTo(list, x), l) ==
               if FindPhysicalBlock(list, l).Some? then FindPhysicalBlock(list, l) else FindPhysicalBlock([x], l))
         <==> (x.block + x.Count() < 0x1_0000_0000 || (last.block <= l < x.block ==> FindPhysicalBlock(pre, l).Some?))
    {
      FindConcat(pre, [last], l);
      FindConcat(pre, [merged], l);
      MergedFind(last, x, l);
    }
    if x.block + x.Count() >= 0x1_0000_0000 && Extends(AppendTo(list, x), list, x) {
      forall l: u32 | last.block <= l < x.block ensures FindPhysicalBlock(pre, l).Some? {
        assert FindPhysicalBlock(AppendTo(list, x), l) ==
               if FindPhysicalBlock(list, l).Some? then FindPhysicalBlock(list, l) else FindPhysicalBlock([x], l);
      }
    }
  }

  /** The grown list maps what the old one mapped and the new extent's blocks, unless a merge loses blocks. */
  lemma GrewExtendsIff(list1: seq<Extent>, list: seq<Extent>, x: Extent, merged: bool)
    requires Grew(list1, list, x, merged)
    ensures Extends(list1, list, x) <==> (merged ==> MergeKeeps(list, x))
  {
    hide Extends, MergeKeeps, AppendTo, Mergeable;
    if merged {
      MergedExtendsIff(list, x);
    } else {
      AddedExtends(list, x);
    }
  }

  // ----- a leaf's bytes -----

  /** appendExtentToLeaf and appendExtentToLeafBlock: merge in place or add an entry. */
  function AppendToLeaf(buf: seq<byte>, x: Extent): (b: seq<byte>)
    requires |buf| >= HEADER_SIZE
    requires HEADER_SIZE + (DecodeHeader(buf).entries + 1) * ENTRY_SIZE <= |buf| && DecodeHeader(buf).entries < 0xFFFF
    ensures |b| == |buf|
  {
    var h := DecodeHeader(buf);
    var n: int := h.entries;
    if n > 0 && Mergeable(DecodeExtent(Entry(buf, n - 1)), x) then
      var last := DecodeExtent(Entry(buf, n - 1));
      Overwrite(buf, HEADER_SIZE + (n - 1) * ENTRY_SIZE, EncodeExtent(last.(len := last.Count() + x.Count())))
    else
      Overwrite(Overwrite(buf, HEADER_SIZE + n * ENTRY_SIZE, EncodeExtent(x)), 0, EncodeHeader(h.(entries := n + 1)))
  }

  lemma SliceOfSlice(b: seq<byte>, n: nat)
    requires n > 0 && HEADER_SIZE + n * ENTRY_SIZE <= |b|
    ensures var p, m := b[HEADER_SIZE..HEADER_SIZE + n * ENTRY_SIZE], (n - 1) * ENTRY_SIZE;
            b[HEADER_SIZE..HEADER_SIZE + m] == p[..m] && Entry(b, n - 1) == p[m..]
  {
  }

  lemma {:induction false} ParseLeafSame(b0: seq<byte>, b1: seq<byte>, n: nat)
    requires |b0| == |b1| && HEADER_SIZE + n * ENTRY_SIZE <= |b0|
    requires b0[HEADER_SIZE..HEADER_SIZE + n * ENTRY_SIZE] == b1[HEADER_SIZE..HEADER_SIZE + n * ENTRY_SIZE]
    ensures ParseLeaf(b0, n) == ParseLeaf(b1, n)
  {
    if n > 0 {
      var p, q := b0[HEADER_SIZE..HEADER_SIZE + n * ENTRY_SIZE], b1[HEADER_SIZE..HEADER_SIZE + n * ENTRY_SIZE];
      var m := (n - 1) * ENTRY_SIZE;
      SliceOfSlice(b0, n);
      SliceOfSlice(b1, n);
      assert p[..m] == q[..m];
      ParseLeafSame(b0, b1, n - 1);
    }
  }

  lemma ParseLeafTotal(buf: seq<byte>, n: nat)
    requires HEADER_SIZE + n * ENTRY_SIZE <= |buf|
    ensures ParseLeaf(buf, n).Some?
    ensures n > 0 ==> ParseLeaf(buf, n - 1).Some? && ParseLeaf(buf, n).value == ParseLeaf(buf, n - 1).value + [DecodeExtent(Entry(buf, n - 1))]
  {
    if n > 0 {
      ParseLeafTotal(buf, n - 1);
    }
  }

  /** The edited leaf parses as the list with the extent appended or merged. */
  lemma AppendToLeafParses(buf: seq<byte>, x: Extent)
    requires |buf| >= HEADER_SIZE
    requires HEADER_SIZE + (DecodeHeader(buf).entries + 1) * ENTRY_SIZE <= |buf| && DecodeHeader(buf).entries < 0xFFFF
    ensures var b, n := AppendToLeaf(buf, x), DecodeHeader(buf).entries;
            && ParseLeaf(buf, n).Some?
            && DecodeHeader(b) == DecodeHeader(buf).(entries := DecodeHeader(b).entries)
            && n <= DecodeHeader(b).entries <= n + 1
            && ParseLeaf(b, DecodeHeader(b).entries) == Some(AppendTo(ParseLeaf(buf, n).value, x))
  {
    hide Mergeable, DecodeHeader, EncodeHeader, DecodeExtent, EncodeExtent, ParseLeaf;
    var h := DecodeHeader(buf);
    var n: int := h.entries;
    ParseLeafTotal(buf, n);
    if n > 0 && Mergeable(DecodeExtent(Entry(buf, n - 1)), x) {
      MergedParses(buf, x, n);
    } else {
      AddedParses(buf, x, n);
    }
  }

  lemma EntryPut(buf: seq<byte>, i: nat, s: seq<byte>)
    requires HEADER_SIZE + (i + 1) * ENTRY_SIZE <= |buf| && |s| == ENTRY_SIZE
    ensures var b := Overwrite(buf, HEADER_SIZE + i * ENTRY_SIZE, s);
            && Entry(b, i) == s && b[..HEADER_SIZE] == buf[..HEADER_SIZE]
            && b[HEADER_SIZE..HEADER_SIZE + i * ENTRY_SIZE] == buf[HEADER_SIZE..HEADER_SIZE + i * ENTRY_SIZE]
  {
  }

  lemma HeaderPut(buf: seq<byte>, n: nat, s: seq<byte>)
    requires |s| == HEADER_SIZE && HEADER_SIZE + (n + 1) * ENTRY_SIZE <= |buf|
    ensures var b := Overwrite(buf, 0, s);
            && b == s + buf[HEADER_SIZE..] && Entry(b, n) == Entry(buf, n)
            && b[HEADER_SIZE..HEADER_SIZE + n * ENTRY_SIZE] == buf[HEADER_SIZE..HEADER_SIZE + n * ENTRY_SIZE]
  {
    var b := Overwrite(buf, 0, s);
    assert b == s + buf[HEADER_SIZE..];
    hide Overwrite;
    OverwriteParts(buf, 0, s);
    SubSlice(buf, b, HEADER_SIZE, |buf|, HEADER_SIZE, HEADER_SIZE + n * ENTRY_SIZE);
    SubSlice(buf, b, HEADER_SIZE, |buf|, HEADER_SIZE + n * ENTRY_SIZE, HEADER_SIZE + (n + 1) * ENTRY_SIZE);
  }

  lemma HeaderOf(a: seq<byte>, b: seq<byte>)
    requires |a| >= HEADER_SIZE && |b| >= HEADER_SIZE && a[..HEADER_SIZE] == b[..HEADER_SIZE]
    ensures DecodeHeader(a) == DecodeHeader(b)
  {
    var p := a[..HEADER_SIZE];
    assert a[..2] == p[..2] == b[..2] && a[2..4] == p[2..4] == b[2..4] && a[4..6] == p[4..6] == b[4..6];
    assert a[6..8] == p[6..8] == b[6..8] && a[8..12] == p[8..12] == b[8..12];
  }

  lemma MergedParses(buf: seq<byte>, x: Extent, n: nat)
    requires |buf| >= HEADER_SIZE && n == DecodeHeader(buf).entries && 0 < n < 0xFFFF && HEADER_SIZE + (n + 1) * ENTRY_SIZE <= |buf|
    requires Mergeable(DecodeExtent(Entry(buf, n - 1)), x)
    ensures var b := AppendToLeaf(buf, x);
            && DecodeHeader(b) == DecodeHeader(buf) && ParseLeaf(buf, n).Some?
            && ParseLeaf(b, n) == Some(AppendTo(ParseLeaf(buf, n).value, x))
  {
    hide DecodeHeader, EncodeHeader, DecodeExtent, EncodeExtent, ParseLeaf, Mergeable;
    var last := DecodeExtent(Entry(buf, n - 1));
    MergedFits(last, x);
    var merged := last.(len := last.Count() + x.Count());
    var b := AppendToLeaf(buf, x);
    EntryPut(buf, n - 1, EncodeExtent(merged));
    HeaderOf(b, buf);
    ParseLeafTotal(buf, n);
    ParseLeafTotal(b, n);
    ParseLeafSame(buf, b, n - 1);
    ExtentRoundTrip(merged);
    var old_ := ParseLeaf(buf, n).value;
    assert old_[..n - 1] == ParseLeaf(buf, n - 1).value;
  }

  lemma MergedFits(last: Extent, x: Extent)
    requires Mergeable(last, x)
    ensures last.Count() + x.Count() < 0x8000
  {
  }

  lemma AddedParses(buf: seq<byte>, x: Extent, n: nat)
    requires |buf| >= HEADER_SIZE && n == DecodeHeader(buf).entries && n < 0xFFFF && HEADER_SIZE + (n + 1) * ENTRY_SIZE <= |buf|
    requires n > 0 ==> !Mergeable(DecodeExtent(Entry(buf, n - 1)), x)
    ensures var b := AppendToLeaf(buf, x);
            && DecodeHeader(b) == DecodeHeader(buf).(entries := n + 1) && ParseLeaf(buf, n).Some?
            && ParseLeaf(b, n + 1) == Some(AppendTo(ParseLeaf(buf, n).value, x))
  {
    hide DecodeHeader, EncodeHeader, DecodeExtent, EncodeExtent, ParseLeaf, Mergeable, Overwrite, Entry;
    var h := DecodeHeader(buf).(entries := n + 1);
    var b0 := Overwrite(buf, HEADER_SIZE + n * ENTRY_SIZE, EncodeExtent(x));
    var b := AppendToLeaf(buf, x);
    EntryPut(buf, n, EncodeExtent(x));
    HeaderPut(b0, n, EncodeHeader(h));
    HeaderRoundTrip(h, b0[HEADER_SIZE..]);
    ParseLeafTotal(buf, n);
    ParseLeafTotal(b, n + 1);
    ParseLeafSame(buf, b, n);
    ExtentRoundTrip(x);
    if n > 0 {
      assert ParseLeaf(buf, n).value[n - 1] == DecodeExtent(Entry(buf, n - 1));
    }
  }
}
