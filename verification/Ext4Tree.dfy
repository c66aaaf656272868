/**
 Extent trees as bytes: the root in the inode, further nodes in blocks of the device
 (vfs/extents.go), and the in-place append to a leaf (vfs/allocate.go).
 */
module Ext4Tree {
  import opened Wrappers
  import opened Bytes
  import opened Ext4Types

  const EXT_MAGIC: u16 := 0xF30A
  const HEADER_SIZE := 12
  const ENTRY_SIZE := 12

  // ----- node bytes -----

  datatype Header = Header(magic: u16, entries: u16, max: u16, depth: u16, generation: u32)

  function DecodeHeader(buf: seq<byte>): Header
    requires |buf| >= HEADER_SIZE
  {
    Header(Get16(buf[..2]), Get16(buf[2..4]), Get16(buf[4..6]), Get16(buf[6..8]), Get32(buf[8..12]))
  }

  function EncodeHeader(h: Header): (s: seq<byte>)
    ensures |s| == HEADER_SIZE
  {
    Put(h.magic, 2) + Put(h.entries, 2) + Put(h.max, 2) + Put(h.depth, 2) + Put(h.generation, 4)
  }

  function DecodeExtent(s: seq<byte>): Extent
    requires |s| == ENTRY_SIZE
  {
    Extent(Get32(s[..4]), Get16(s[4..6]), Get16(s[6..8]), Get32(s[8..12]))
  }

  function EncodeExtent(e: Extent): (s: seq<byte>)
    ensures |s| == ENTRY_SIZE
  {
    Put(e.block, 4) + Put(e.len, 2) + Put(e.startHi, 2) + Put(e.startLo, 4)
  }

  /** An index entry's child block. */
  function DecodeChild(s: seq<byte>): nat
    requires |s| == ENTRY_SIZE
  {
    Get16(s[8..10]) * 0x1_0000_0000 + Get32(s[4..8])
  }

  function EncodeIdx(block: u32, child: nat): (s: seq<byte>)
    ensures |s| == ENTRY_SIZE
  {
    Put(block, 4) + Put(child % 0x1_0000_0000, 4) + Put((child / 0x1_0000_0000) % 0x1_0000, 2) + Put(0, 2)
  }

  lemma HeaderRoundTrip(h: Header, rest: seq<byte>)
    ensures DecodeHeader(EncodeHeader(h) + rest) == h
  {
    var s := EncodeHeader(h) + rest;
    assert s[..2] == Put(h.magic, 2) && s[2..4] == Put(h.entries, 2) && s[4..6] == Put(h.max, 2);
    assert s[6..8] == Put(h.depth, 2) && s[8..12] == Put(h.generation, 4);
    GetPutFixed(h.magic);
    GetPutFixed(h.entries);
    GetPutFixed(h.max);
    GetPutFixed(h.depth);
    GetPutFixed(h.generation);
  }

  lemma ExtentRoundTrip(e: Extent)
    ensures DecodeExtent(EncodeExtent(e)) == e
  {
    var s := EncodeExtent(e);
    assert s[..4] == Put(e.block, 4) && s[4..6] == Put(e.len, 2) && s[6..8] == Put(e.startHi, 2) && s[8..12] == Put(e.startLo, 4);
    GetPutFixed(e.block);
    GetPutFixed(e.len);
    GetPutFixed(e.startHi);
    GetPutFixed(e.startLo);
  }

  lemma IdxRoundTrip(block: u32, child: nat)
    requires child < 0x1_0000_0000_0000
    ensures DecodeChild(EncodeIdx(block, child)) == child
  {
    hide Put;
    var s := EncodeIdx(block, child);
    assert s[4..8] == Put(child % 0x1_0000_0000, 4) && s[8..10] == Put((child / 0x1_0000_0000) % 0x1_0000, 2);
    GetPutFixed(child % 0x1_0000_0000);
    GetPutFixed((child / 0x1_0000_0000) % 0x1_0000);
  }

  // ----- where the fields are -----

  /** A node's first 12 bytes: magic number, entries, capacity, depth, generation. */
  lemma HeaderPlace(buf: seq<byte>)
    requires |buf| >= 12
    ensures var h := DecodeHeader(buf);
            h.magic == Le16(buf, 0) && h.entries == Le16(buf, 2) && h.max == Le16(buf, 4) && h.depth == Le16(buf, 6)
            && h.generation == Le32(buf, 8)
  {
    hide Get16, Get32;
    Get16Is(buf, 0);
    Get16Is(buf, 2);
    Get16Is(buf, 4);
    Get16Is(buf, 6);
    Get32Is(buf, 8);
  }

  /** The extent in the 12 bytes at a place: first block, 15 bits of length and one flag, 48 bits of address. */
  ghost predicate ExtentAt(buf: seq<byte>, at: nat, e: Extent) {
    at + 12 <= |buf| &&
    var low: int, high: int := buf[at + 4], buf[at + 5];
    && e.block == Le32(buf, at)
    && e.Count() == low + 256 * (high % 128) && (e.Uninit() <==> high >= 128)
    && e.Phys() == Le32(buf, at + 8) + 0x1_0000_0000 * Le16(buf, at + 6)
  }

  lemma ExtentPlace(buf: seq<byte>, at: nat)
    requires at + 12 <= |buf|
    ensures ExtentAt(buf, at, DecodeExtent(buf[at..at + 12]))
  {
    hide Get16, Get32;
    var s := buf[at..at + 12];
    Get32Is(s, 0);
    Get16Is(s, 4);
    Get16Is(s, 6);
    Get32Is(s, 8);
  }

  /** An index entry: first block, low and high part of the child's address. */
  lemma ChildPlace(buf: seq<byte>, at: nat)
    requires at + 12 <= |buf|
    ensures DecodeChild(buf[at..at + 12]) == Le32(buf, at + 4) + 0x1_0000_0000 * Le16(buf, at + 8)
  {
    hide Get16, Get32;
    var s := buf[at..at + 12];
    Get32Is(s, 4);
    Get16Is(s, 8);
  }

  /** Entries stand one behind the other after the header. */
  lemma {:induction false} LeafPlace(buf: seq<byte>, n: nat, i: nat)
    requires ParseLeaf(buf, n).Some? && i < n
    ensures 12 + 12 * n <= |buf| && ExtentAt(buf, 12 + 12 * i, ParseLeaf(buf, n).value[i])
  {
    hide DecodeExtent, ExtentAt;
    if i < n - 1 {
      LeafPlace(buf, n - 1, i);
    } else {
      ExtentPlace(buf, 12 + 12 * i);
    }
  }

  /** Entry i's bytes. */
  function Entry(buf: seq<byte>, i: nat): (s: seq<byte>)
    requires HEADER_SIZE + (i + 1) * ENTRY_SIZE <= |buf|
    ensures |s| == ENTRY_SIZE
  {
    buf[HEADER_SIZE + i * ENTRY_SIZE..HEADER_SIZE + (i + 1) * ENTRY_SIZE]
  }

  /** parseLeafEntries */
  function ParseLeaf(buf: seq<byte>, n: nat): (r: Option<seq<Extent>>)
    ensures r.Some? ==> |r.value| == n
  {
    if n == 0 then Some([])
    else if HEADER_SIZE + n * ENTRY_SIZE > |buf| then None
    else
      match ParseLeaf(buf, n - 1)
      case None => None
      case Some(s) => Some(s + [DecodeExtent(Entry(buf, n - 1))])
  }

  function Depth(buf: seq<byte>): nat {
    if |buf| < HEADER_SIZE then 0 else DecodeHeader(buf).depth
  }

  /**
   parseExtentNode. A child whose depth does not fall is taken as unreadable, where the
   program would recurse on.
   */
  function ReadTree(dev: seq<seq<byte>>, buf: seq<byte>): Option<seq<Extent>>
    decreases Depth(buf), 1, 0
  {
    if |buf| < HEADER_SIZE || DecodeHeader(buf).magic != EXT_MAGIC then None
    else
      var h := DecodeHeader(buf);
      if h.depth == 0 then ParseLeaf(buf, h.entries) else ReadChildren(dev, buf, h.entries)
  }

  function ReadChildren(dev: seq<seq<byte>>, buf: seq<byte>, n: nat): Option<seq<Extent>>
    requires |buf| >= HEADER_SIZE && Depth(buf) > 0
    decreases Depth(buf), 0, n
  {
    if n == 0 then Some([])
    else if HEADER_SIZE + n * ENTRY_SIZE > |buf| then None
    else
      var child := DecodeChild(Entry(buf, n - 1));
      if child >= |dev| || Depth(dev[child]) >= Depth(buf) then None
      else
        match (ReadChildren(dev, buf, n - 1), ReadTree(dev, dev[child]))
        case (Some(s), Some(t)) => Some(s + t)
        case _ => None
  }

  /** The device blocks a read of the tree visits. */
  ghost function Foot(dev: seq<seq<byte>>, buf: seq<byte>): multiset<nat>
    decreases Depth(buf), 1, 0
  {
    if |buf| < HEADER_SIZE || Depth(buf) == 0 then multiset{}
    else ChildFoot(dev, buf, DecodeHeader(buf).entries)
  }

  ghost function ChildFoot(dev: seq<seq<byte>>, buf: seq<byte>, n: nat): multiset<nat>
    requires |buf| >= HEADER_SIZE && Depth(buf) > 0
    decreases Depth(buf), 0, n
  {
    if n == 0 || HEADER_SIZE + n * ENTRY_SIZE > |buf| then multiset{}
    else
      var child := DecodeChild(Entry(buf, n - 1));
      ChildFoot(dev, buf, n - 1) + multiset{child} +
      if child < |dev| && Depth(dev[child]) < Depth(buf) then Foot(dev, dev[child]) else multiset{}
  }

  ghost predicate AgreeOn(dev: seq<seq<byte>>, dev1: seq<seq<byte>>, f: multiset<nat>) {
    |dev1| == |dev| && forall b | b in f && b < |dev| :: dev1[b] == dev[b]
  }

  /** The n-th child is readable and lower than its parent. */
  ghost predicate Lower(dev: seq<seq<byte>>, buf: seq<byte>, child: nat) {
    child < |dev| && Depth(dev[child]) < Depth(buf)
  }

  lemma ChildFootIs(dev: seq<seq<byte>>, buf: seq<byte>, n: nat)
    requires |buf| >= HEADER_SIZE + n * ENTRY_SIZE && Depth(buf) > 0 && n > 0
    ensures var child := DecodeChild(Entry(buf, n - 1));
            ChildFoot(dev, buf, n) == ChildFoot(dev, buf, n - 1) + multiset{child}
                                      + if Lower(dev, buf, child) then Foot(dev, dev[child]) else multiset{}
  {
  }

  lemma {:induction false} TreeFrame(dev: seq<seq<byte>>, dev1: seq<seq<byte>>, buf: seq<byte>)
    requires AgreeOn(dev, dev1, Foot(dev, buf))
    ensures ReadTree(dev1, buf) == ReadTree(dev, buf) && Foot(dev1, buf) == Foot(dev, buf)
    decreases Depth(buf), 1, 0
  {
    if |buf| >= HEADER_SIZE && Depth(buf) > 0 {
      ChildrenFrame(dev, dev1, buf, DecodeHeader(buf).entries);
    }
  }

  lemma ReadChildrenIs(dev: seq<seq<byte>>, buf: seq<byte>, n: nat)
    requires |buf| >= HEADER_SIZE + n * ENTRY_SIZE && Depth(buf) > 0 && n > 0
    ensures var child := DecodeChild(Entry(buf, n - 1));
            ReadChildren(dev, buf, n) ==
            if !Lower(dev, buf, child) then None
            else if ReadChildren(dev, buf, n - 1).None? || ReadTree(dev, dev[child]).None? then None
            else Some(ReadChildren(dev, buf, n - 1).value + ReadTree(dev, dev[child]).value)
  {
  }

  lemma {:induction false} ChildrenFrame(dev: seq<seq<byte>>, dev1: seq<seq<byte>>, buf: seq<byte>, n: nat)
    requires |buf| >= HEADER_SIZE && Depth(buf) > 0
    requires AgreeOn(dev, dev1, ChildFoot(dev, buf, n))
    ensures ReadChildren(dev1, buf, n) == ReadChildren(dev, buf, n) && ChildFoot(dev1, buf, n) == ChildFoot(dev, buf, n)
    decreases Depth(buf), 0, n
  {
    hide ReadTree, ReadChildren, Foot, ChildFoot, DecodeChild, Depth, Entry;
    if n == 0 || HEADER_SIZE + n * ENTRY_SIZE > |buf| {
      NoMoreChildren(dev, dev1, buf, n);
    } else {
      ChildFootIs(dev, buf, n);
      ChildFootIs(dev1, buf, n);
      ReadChildrenIs(dev, buf, n);
      ReadChildrenIs(dev1, buf, n);
      var child := DecodeChild(Entry(buf, n - 1));
      assert child < |dev| ==> dev1[child] == dev[child];
      ChildrenFrame(dev, dev1, buf, n - 1);
      if Lower(dev, buf, child) {
        TreeFrame(dev, dev1, dev[child]);
      }
    }
  }

  lemma NoMoreChildren(dev: seq<seq<byte>>, dev1: seq<seq<byte>>, buf: seq<byte>, n: nat)
    requires |buf| >= HEADER_SIZE && Depth(buf) > 0 && (n == 0 || HEADER_SIZE + n * ENTRY_SIZE > |buf|)
    ensures ReadChildren(dev1, buf, n) == ReadChildren(dev, buf, n) && ChildFoot(dev1, buf, n) == ChildFoot(dev, buf, n)
  {
  }

  // ----- the reader's loops -----

  lemma {:induction false} NoneStaysLeaf(buf: seq<byte>, i: nat, n: nat)
    requires i <= n && ParseLeaf(buf, i).None?
    ensures ParseLeaf(buf, n).None?
  {
    if i < n {
      NoneStaysLeaf(buf, i, n - 1);
    }
  }

  lemma {:induction false} NoneStays(dev: seq<seq<byte>>, buf: seq<byte>, i: nat, n: nat)
    requires |buf| >= HEADER_SIZE && Depth(buf) > 0 && i <= n && ReadChildren(dev, buf, i).None?
    ensures ReadChildren(dev, buf, n).None?
  {
    hide ReadTree, DecodeChild, Depth;
    if i < n {
      NoneStays(dev, buf, i, n - 1);
    }
  }

  method ParseLeafEntries(buf: seq<byte>, count: u16) returns (r: Option<seq<Extent>>)
    requires |buf| >= HEADER_SIZE
    ensures r == ParseLeaf(buf, count)
  {
    hide DecodeExtent;
    var extents := [];
    for i := 0 to count
      invariant ParseLeaf(buf, i) == Some(extents)
    {
      if HEADER_SIZE + (i + 1) * ENTRY_SIZE > |buf| {
        assert ParseLeaf(buf, i + 1).None?;
        NoneStaysLeaf(buf, i + 1, count);
        return None;
      }
      extents := extents + [DecodeExtent(Entry(buf, i))];
    }
    r := Some(extents);
  }

  method ParseExtentNode(dev: seq<seq<byte>>, data: seq<byte>) returns (r: Option<seq<Extent>>)
    ensures r == ReadTree(dev, data)
    decreases Depth(data)
  {
    hide ReadChildren, DecodeChild, ParseLeaf;
    if |data| < HEADER_SIZE {
      return None;
    }
    var hdr := DecodeHeader(data);
    if hdr.magic != EXT_MAGIC {
      return None;
    }
    if hdr.depth == 0 {
      r := ParseLeafEntries(data, hdr.entries);
      return;
    }
    var all := [];
    NoneRead(dev, data);
    for i := 0 to hdr.entries
      invariant ReadChildren(dev, data, i) == Some(all)
    {
      if HEADER_SIZE + (i + 1) * ENTRY_SIZE > |data| {
        TooFar(dev, data, i + 1);
        NoneStays(dev, data, i + 1, hdr.entries);
        return None;
      }
      ReadChildrenIs(dev, data, i + 1);
      var child := DecodeChild(Entry(data, i));
      if child >= |dev| || Depth(dev[child]) >= hdr.depth {
        NoneStays(dev, data, i + 1, hdr.entries);
        return None;
      }
      var t := ParseExtentNode(dev, dev[child]);
      if t.None? {
        NoneStays(dev, data, i + 1, hdr.entries);
        return None;
      }
      all := all + t.value;
    }
    r := Some(all);
  }

  lemma NoneRead(dev: seq<seq<byte>>, buf: seq<byte>)
    requires |buf| >= HEADER_SIZE && Depth(buf) > 0
    ensures ReadChildren(dev, buf, 0) == Some([])
  {
  }

  lemma TooFar(dev: seq<seq<byte>>, buf: seq<byte>, n: nat)
    requires |buf| >= HEADER_SIZE && Depth(buf) > 0 && n > 0 && HEADER_SIZE + n * ENTRY_SIZE > |buf|
    ensures ReadChildren(dev, buf, n).None?
  {
  }
}
