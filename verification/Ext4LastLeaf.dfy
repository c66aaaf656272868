/**
 Where an append goes in a tree of any depth: the rightmost leaf. Rewriting that leaf
 rewrites the tail of the extent list and nothing else; a full root leaf moves into a block
 of its own (vfs/allocate.go).
 */
module Ext4LastLeaf {
  import opened Wrappers
  import opened Bytes
  import opened Ext4Types
  import opened Ext4Tree
  import opened Ext4Append

  const EXT_MAX := 4

  function LeafList(buf: seq<byte>): Option<seq<Extent>>
    requires |buf| >= HEADER_SIZE
  {
    if DecodeHeader(buf).magic != EXT_MAGIC then None else ParseLeaf(buf, DecodeHeader(buf).entries)
  }

  /** A leaf starts with the magic number F30A and counts its entries in the next two bytes. */
  lemma LeafListMeans(buf: seq<byte>)
    requires |buf| >= 12
    ensures LeafList(buf).Some? ==> Le16(buf, 0) == 0xF30A && |LeafList(buf).value| == Le16(buf, 2)
    ensures LeafList(buf).None? ==> Le16(buf, 0) != 0xF30A || 12 + 12 * Le16(buf, 2) > |buf|
  {
    hide DecodeHeader, ParseLeaf;
    HeaderPlace(buf);
    if LeafList(buf).None? && DecodeHeader(buf).magic == EXT_MAGIC {
      ParseRoom(buf, DecodeHeader(buf).entries);
    }
  }

  lemma {:induction false} ParseRoom(buf: seq<byte>, n: nat)
    ensures 12 + 12 * n <= |buf| ==> ParseLeaf(buf, n).Some?
  {
    if n > 0 {
      ParseRoom(buf, n - 1);
    }
  }

  lemma ReadLeaf(dev: seq<seq<byte>>, buf: seq<byte>)
    requires |buf| >= HEADER_SIZE && Depth(buf) == 0
    ensures ReadTree(dev, buf) == LeafList(buf) && Foot(dev, buf) == multiset{}
  {
  }

  /** The descent of appendExtentToTree: the last entry of every index node. */
  function LastLeaf(dev: seq<seq<byte>>, buf: seq<byte>): Option<nat>
    requires |buf| >= HEADER_SIZE && Depth(buf) > 0
    decreases Depth(buf)
  {
    var n := DecodeHeader(buf).entries;
    if n == 0 || HEADER_SIZE + n * ENTRY_SIZE > |buf| then None
    else
      var child := DecodeChild(Entry(buf, n - 1));
      if child >= |dev| || Depth(dev[child]) >= Depth(buf) || |dev[child]| < HEADER_SIZE then None
      else if Depth(dev[child]) == 0 then Some(child)
      else LastLeaf(dev, dev[child])
  }

  lemma Deep(dev: seq<seq<byte>>, buf: seq<byte>)
    requires |buf| >= HEADER_SIZE && Depth(buf) > 0
    ensures Foot(dev, buf) == ChildFoot(dev, buf, DecodeHeader(buf).entries)
    ensures ReadTree(dev, buf) ==
            if DecodeHeader(buf).magic != EXT_MAGIC then None else ReadChildren(dev, buf, DecodeHeader(buf).entries)
  {
  }

  /** One step of the descent, in terms of the list and the footprint. */
  lemma LastStep(dev: seq<seq<byte>>, buf: seq<byte>) returns (n: nat, child: nat)
    requires |buf| >= HEADER_SIZE && Depth(buf) > 0 && LastLeaf(dev, buf).Some?
    ensures n == DecodeHeader(buf).entries && n > 0 && HEADER_SIZE + n * ENTRY_SIZE <= |buf|
    ensures child == DecodeChild(Entry(buf, n - 1)) && Lower(dev, buf, child) && |dev[child]| >= HEADER_SIZE
    ensures LastLeaf(dev, buf) == if Depth(dev[child]) == 0 then Some(child) else LastLeaf(dev, dev[child])
    ensures Foot(dev, buf) == ChildFoot(dev, buf, n - 1) + multiset{child} + Foot(dev, dev[child])
    ensures ReadTree(dev, buf) ==
            if DecodeHeader(buf).magic != EXT_MAGIC || ReadChildren(dev, buf, n - 1).None? || ReadTree(dev, dev[child]).None? then None
            else Some(ReadChildren(dev, buf, n - 1).value + ReadTree(dev, dev[child]).value)
  {
    hide ReadTree, ReadChildren, Foot, ChildFoot, DecodeChild, DecodeHeader, Entry, Depth;
    Deep(dev, buf);
    n := DecodeHeader(buf).entries;
    child := DecodeChild(Entry(buf, n - 1));
    ChildFootIs(dev, buf, n);
    ReadChildrenIs(dev, buf, n);
  }

  lemma {:induction false} LastLeafInFoot(dev: seq<seq<byte>>, buf: seq<byte>)
    requires |buf| >= HEADER_SIZE && Depth(buf) > 0 && LastLeaf(dev, buf).Some?
    ensures var c := LastLeaf(dev, buf).value;
            c in Foot(dev, buf) && c < |dev| && |dev[c]| >= HEADER_SIZE && Depth(dev[c]) == 0
    decreases Depth(buf)
  {
    hide ReadTree, ReadChildren, Foot, ChildFoot, LastLeaf, DecodeChild, DecodeHeader, Entry;
    var n, child := LastStep(dev, buf);
    if Depth(dev[child]) > 0 {
      LastLeafInFoot(dev, dev[child]);
    }
  }

  /** LastStep in a device where the child's subtree changed but nothing before it did. */
  lemma StepAgain(dev: seq<seq<byte>>, dev1: seq<seq<byte>>, buf: seq<byte>, n: nat, child: nat)
    requires |buf| >= HEADER_SIZE && Depth(buf) > 0
    requires n == DecodeHeader(buf).entries && n > 0 && HEADER_SIZE + n * ENTRY_SIZE <= |buf|
    requires child == DecodeChild(Entry(buf, n - 1)) && Lower(dev1, buf, child) && |dev1[child]| >= HEADER_SIZE
    requires Depth(dev1[child]) > 0 ==> LastLeaf(dev1, dev1[child]).Some?
    requires AgreeOn(dev, dev1, ChildFoot(dev, buf, n - 1))
    ensures LastLeaf(dev1, buf) == if Depth(dev1[child]) == 0 then Some(child) else LastLeaf(dev1, dev1[child])
    ensures Foot(dev1, buf) == ChildFoot(dev, buf, n - 1) + multiset{child} + Foot(dev1, dev1[child])
    ensures ReadTree(dev1, buf) ==
            if DecodeHeader(buf).magic != EXT_MAGIC || ReadChildren(dev, buf, n - 1).None? || ReadTree(dev1, dev1[child]).None? then None
            else Some(ReadChildren(dev, buf, n - 1).value + ReadTree(dev1, dev1[child]).value)
  {
    hide ReadTree, ReadChildren, Foot, ChildFoot, DecodeChild, DecodeHeader, Entry, Depth;
    ChildrenFrame(dev, dev1, buf, n - 1);
    var n1, child1 := LastStep(dev1, buf);
  }

  /** Rewriting the rightmost leaf changes the tail of the list it held and nothing else. */
  lemma {:induction false} ReplaceLastLeaf(dev: seq<seq<byte>>, buf: seq<byte>, c: nat, nb: seq<byte>) returns (pre: seq<Extent>)
    requires |buf| >= HEADER_SIZE && Depth(buf) > 0 && LastLeaf(dev, buf) == Some(c) && ReadTree(dev, buf).Some?
    requires Foot(dev, buf)[c] == 1 && |nb| >= HEADER_SIZE && Depth(nb) == 0 && LeafList(nb).Some?
    ensures c < |dev| && |dev[c]| >= HEADER_SIZE && Depth(dev[c]) == 0
    ensures LeafList(dev[c]).Some? && ReadTree(dev, buf).value == pre + LeafList(dev[c]).value
    ensures ReadTree(dev[c := nb], buf) == Some(pre + LeafList(nb).value)
    ensures Foot(dev[c := nb], buf) == Foot(dev, buf) && LastLeaf(dev[c := nb], buf) == Some(c)
    decreases Depth(buf)
  {
    hide ReadTree, ReadChildren, Foot, ChildFoot, LastLeaf, DecodeChild, DecodeHeader, Entry, Depth, LeafList;
    LastLeafInFoot(dev, buf);
    var dev1 := dev[c := nb];
    var n, child := LastStep(dev, buf);
    var before := ReadChildren(dev, buf, n - 1).value;
    if Depth(dev[child]) == 0 {
      ReadLeaf(dev, dev[child]);
      ReadLeaf(dev1, nb);
      StepAgain(dev, dev1, buf, n, child);
      pre := before;
    } else {
      LastLeafInFoot(dev, dev[child]);
      var mid := ReplaceLastLeaf(dev, dev[child], c, nb);
      StepAgain(dev, dev1, buf, n, child);
      pre := before + mid;
      assert before + (mid + LeafList(dev[c]).value) == pre + LeafList(dev[c]).value;
      assert before + (mid + LeafList(nb).value) == pre + LeafList(nb).value;
    }
  }

  lemma {:induction false} LastLeafFrame(dev: seq<seq<byte>>, dev1: seq<seq<byte>>, buf: seq<byte>)
    requires |buf| >= HEADER_SIZE && Depth(buf) > 0 && LastLeaf(dev, buf).Some? && AgreeOn(dev, dev1, Foot(dev, buf))
    ensures LastLeaf(dev1, buf) == LastLeaf(dev, buf)
    decreases Depth(buf)
  {
    hide ReadTree, ReadChildren, Foot, ChildFoot, LastLeaf, DecodeChild, DecodeHeader, Entry, Depth;
    var n, child := LastStep(dev, buf);
    assert dev1[child] == dev[child];
    if Depth(dev[child]) > 0 {
      LastLeafFrame(dev, dev1, dev[child]);
    }
    StepAgain(dev, dev1, buf, n, child);
  }

  lemma {:induction false} LastLeafFrameNone(dev: seq<seq<byte>>, dev1: seq<seq<byte>>, buf: seq<byte>)
    requires |buf| >= HEADER_SIZE && Depth(buf) > 0 && LastLeaf(dev1, buf).Some? && AgreeOn(dev, dev1, Foot(dev, buf))
    ensures LastLeaf(dev, buf).Some?
  {
    TreeFrame(dev, dev1, buf);
    LastLeafFrame(dev1, dev, buf);
  }

  // ----- a full root leaf -----

  function EncodeExtents(list: seq<Extent>): (s: seq<byte>)
    ensures |s| == |list| * ENTRY_SIZE
  {
    if list == [] then [] else EncodeExtents(list[..|list| - 1]) + EncodeExtent(list[|list| - 1])
  }

  /** A leaf as splitRootLeafAndAppend and TruncateInode lay it out. */
  function LeafBytes(list: seq<Extent>, max: u16, rest: seq<byte>): (s: seq<byte>)
    requires |list| < 0x1_0000
    ensures |s| == HEADER_SIZE + |list| * ENTRY_SIZE + |rest|
  {
    EncodeHeader(Header(EXT_MAGIC, |list|, max, 0, 0)) + EncodeExtents(list) + rest
  }

  lemma {:induction false} ParseEncoded(buf: seq<byte>, list: seq<Extent>)
    requires HEADER_SIZE + |list| * ENTRY_SIZE <= |buf|
    requires buf[HEADER_SIZE..HEADER_SIZE + |list| * ENTRY_SIZE] == EncodeExtents(list)
    ensures ParseLeaf(buf, |list|) == Some(list)
  {
    hide EncodeExtent, DecodeExtent;
    var n := |list|;
    if n > 0 {
      var first, last := list[..n - 1], list[n - 1];
      SliceOfSlice(buf, n);
      assert Entry(buf, n - 1) == EncodeExtent(last);
      ParseEncoded(buf, first);
      ExtentRoundTrip(last);
      assert list == first + [last];
    }
  }

  lemma LeafBytesRead(list: seq<Extent>, max: u16, rest: seq<byte>)
    requires |list| < 0x1_0000
    ensures var s := LeafBytes(list, max, rest);
            Depth(s) == 0 && LeafList(s) == Some(list) && DecodeHeader(s) == Header(EXT_MAGIC, |list|, max, 0, 0)
  {
    hide EncodeHeader, EncodeExtents, DecodeHeader, ParseLeaf;
    var s, h := LeafBytes(list, max, rest), Header(EXT_MAGIC, |list|, max, 0, 0);
    HeaderRoundTrip(h, EncodeExtents(list) + rest);
    assert s == EncodeHeader(h) + (EncodeExtents(list) + rest);
    assert s[HEADER_SIZE..HEADER_SIZE + |list| * ENTRY_SIZE] == EncodeExtents(list);
    ParseEncoded(s, list);
  }

  /** The root that replaces a full root leaf: one index entry. */
  function IndexRoot(first: u32, child: nat, size: nat): (s: seq<byte>)
    requires size >= HEADER_SIZE + ENTRY_SIZE
    ensures |s| == size
  {
    EncodeHeader(Header(EXT_MAGIC, 1, EXT_MAX, 1, 0)) + EncodeIdx(first, child) + Zeros(size - HEADER_SIZE - ENTRY_SIZE)
  }

  /** Such a root holds one index entry of room for four, one level above leaves. */
  lemma IndexRootFields(first: u32, child: nat, size: nat)
    requires size >= 24 && child < 0x1_0000_0000_0000
    ensures var s := IndexRoot(first, child, size);
            && Le16(s, 0) == 0xF30A && Le16(s, 2) == 1 && Le16(s, 4) == 4 && Le16(s, 6) == 1 && Le32(s, 8) == 0
            && Le32(s, 12) == first && Le32(s, 16) + 0x1_0000_0000 * Le16(s, 20) == child
            && forall i | 22 <= i < size :: s[i] == 0
  {
    hide Get16, Get32, DecodeHeader, EncodeHeader, DecodeChild;
    var s, h, e := IndexRoot(first, child, size), Header(EXT_MAGIC, 1, EXT_MAX, 1, 0), EncodeIdx(first, child);
    assert s == EncodeHeader(h) + s[12..] && s[12..24] == e;
    HeaderRoundTrip(h, s[12..]);
    HeaderPlace(s);
    IdxRoundTrip(first, child);
    ChildPlace(s, 12);
    assert s[12..16] == e[..4] && s[22..24] == e[10..12];
    FirstField(first, child);
    Get32Is(s, 12);
    forall i | 22 <= i < size ensures s[i] == 0 {
      assert i < 24 ==> s[i] == s[22..24][i - 22];
    }
  }

  lemma FirstField(block: u32, child: nat)
    ensures EncodeIdx(block, child)[..4] == Put(block, 4) && Get32(Put(block, 4)) == block
    ensures EncodeIdx(block, child)[10..12] == [0, 0]
  {
    GetPutFixed(block);
    assert Put(0, 2) == [0, 0];
  }

  /** A one-entry root above a leaf reads as the leaf. */
  lemma IndexRootReads(dev: seq<seq<byte>>, first: u32, child: nat, size: nat)
    requires size >= HEADER_SIZE + ENTRY_SIZE && child < |dev| && child < 0x1_0000_0000_0000
    requires |dev[child]| >= HEADER_SIZE && Depth(dev[child]) == 0
    ensures var root := IndexRoot(first, child, size);
            && Depth(root) == 1 && DecodeHeader(root) == Header(EXT_MAGIC, 1, EXT_MAX, 1, 0)
            && ReadTree(dev, root) == LeafList(dev[child])
            && Foot(dev, root) == multiset{child} && LastLeaf(dev, root) == Some(child)
  {
    hide EncodeHeader, DecodeHeader, DecodeChild, EncodeIdx, LeafList, ReadTree, ReadChildren, Foot, ChildFoot;
    var root, h := IndexRoot(first, child, size), Header(EXT_MAGIC, 1, EXT_MAX, 1, 0);
    HeaderRoundTrip(h, EncodeIdx(first, child) + Zeros(size - HEADER_SIZE - ENTRY_SIZE));
    assert root == EncodeHeader(h) + (EncodeIdx(first, child) + Zeros(size - HEADER_SIZE - ENTRY_SIZE));
    assert Entry(root, 0) == EncodeIdx(first, child);
    IdxRoundTrip(first, child);
    assert LastLeaf(dev, root) == Some(child);
    var n, c := LastStep(dev, root);
    NoChildren(dev, root);
    ReadLeaf(dev, dev[child]);
    if LeafList(dev[child]).Some? {
      assert [] + LeafList(dev[child]).value == LeafList(dev[child]).value;
    }
  }

  lemma NoChildren(dev: seq<seq<byte>>, buf: seq<byte>)
    requires |buf| >= HEADER_SIZE && Depth(buf) > 0
    ensures ReadChildren(dev, buf, 0) == Some([]) && ChildFoot(dev, buf, 0) == multiset{}
  {
  }

  // ----- writing entries -----

  /** A leaf's buffer with the first i entries of list written into it. */
  function Filled(was: seq<byte>, list: seq<Extent>, i: nat): (b: seq<byte>)
    requires i <= |list| && HEADER_SIZE + i * ENTRY_SIZE <= |was|
    ensures |b| == |was|
  {
    was[..HEADER_SIZE] + EncodeExtents(list[..i]) + was[HEADER_SIZE + i * ENTRY_SIZE..]
  }

  method WriteEntries(buf: array<byte>, list: seq<Extent>)
    requires HEADER_SIZE + |list| * ENTRY_SIZE <= buf.Length
    modifies buf
    ensures buf[..] == Filled(old(buf[..]), list, |list|)
  {
    hide EncodeExtent, Holds, Filled, Overwrite;
    ghost var was := buf[..];
    NoneFilled(was, list);
    for i := 0 to |list|
      invariant buf[..] == Filled(was, list, i)
    {
      ghost var mid := buf[..];
      PutBytes(buf, HEADER_SIZE + i * ENTRY_SIZE, EncodeExtent(list[i]));
      IsOverwrite(mid, buf[..], HEADER_SIZE + i * ENTRY_SIZE, EncodeExtent(list[i]));
      OneMore(was, list, i);
    }
  }

  lemma NoneFilled(was: seq<byte>, list: seq<Extent>)
    requires HEADER_SIZE <= |was|
    ensures Filled(was, list, 0) == was
  {
    assert list[..0] == [];
    assert was[..HEADER_SIZE] + was[HEADER_SIZE..] == was;
  }

  lemma OneMore(was: seq<byte>, list: seq<Extent>, i: nat)
    requires i < |list| && HEADER_SIZE + |list| * ENTRY_SIZE <= |was|
    ensures Overwrite(Filled(was, list, i), HEADER_SIZE + i * ENTRY_SIZE, EncodeExtent(list[i])) == Filled(was, list, i + 1)
  {
    hide EncodeExtent;
    assert list[..i + 1][..i] == list[..i];
    assert EncodeExtents(list[..i + 1]) == EncodeExtents(list[..i]) + EncodeExtent(list[i]);
  }
}
