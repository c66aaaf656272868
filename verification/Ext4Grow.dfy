/** AppendExtent: one more extent at the end of a file's tree (vfs/allocate.go). */
module Ext4Grow {
  import opened Wrappers
  import opened Bytes
  import opened Ext4Types
  import opened Ext4Alloc
  import opened Ext4Fs
  import opened Ext4Tree
  import opened Ext4Append
  import opened Ext4LastLeaf
  import opened Ext4LeafSplit

  const I_BLOCK := 60

  class Inode {
    const mode: u16
    const usesExtents: bool
    /** I_block, the root node of the extent tree */
    const iBlock: array<byte>
    var sizeLo: u32
    var sizeHigh: u32
    var blocksLo: u32
    var blocksHigh: u16

    predicate IsDir() {
      mode / 0x1000 == 4
    }

    predicate IsRegular() {
      mode / 0x1000 == 8
    }

    /** The top four bits of the mode: 4 a directory, 8 a regular file. */
    lemma KindIs()
      ensures IsDir() <==> 0x4000 <= mode < 0x5000
      ensures IsRegular() <==> 0x8000 <= mode < 0x9000
    {
    }

    function Size(): nat
      reads this
    {
      if IsDir() then sizeLo else sizeHigh * 0x1_0000_0000 + sizeLo
    }

    /** i_blocks, in sectors */
    function Sectors(): nat
      reads this
    {
      blocksHigh * 0x1_0000_0000 + blocksLo
    }
  }

  // ----- what an append needs -----

  /** A leaf whose header leaves no doubt where its entries are. */
  predicate LeafOk(buf: seq<byte>) {
    |buf| >= HEADER_SIZE &&
    var h := DecodeHeader(buf);
    0 < h.max && h.entries <= h.max && HEADER_SIZE + h.max * ENTRY_SIZE <= |buf|
  }

  ghost predicate NodeOk(dev: seq<seq<byte>>, buf: seq<byte>) {
    |buf| >= HEADER_SIZE &&
    if Depth(buf) == 0 then LeafOk(buf)
    else LastLeaf(dev, buf).Some? ==>
      LastLeaf(dev, buf).value < |dev| && LeafOk(dev[LastLeaf(dev, buf).value]) && DecodeHeader(dev[LastLeaf(dev, buf).value]).max >= 4
  }

  /** What an append sees of a tree: the leaf it goes to, and whether that is the root. */
  datatype Tail = NoLeaf | Tail(root: bool, entries: nat, max: int, last: Option<Extent>) {
    predicate HasRoom() {
      Tail? && entries < max
    }

    /** The leaf has room and merges x into its last extent. */
    predicate Takes(x: Extent) {
      HasRoom() && last.Some? && Mergeable(last.value, x)
    }

    /** The tail after x was appended: merged, added, or moved with a full root leaf to a block of its own. */
    function Next(x: Extent, blockSize: nat): Tail
      requires Tail?
    {
      if Takes(x) then this.(last := Some(Merged(last.value, x)))
      else if HasRoom() then this.(entries := entries + 1, last := Some(x))
      else Tail(false, entries + 1, Capacity(blockSize), Some(x))
    }

    /** The free blocks an append leaves: a full root leaf takes the lowest one. */
    ghost function LeavesFree(free: set<nat>): set<nat>
      requires Tail?
    {
      if root && !HasRoom() && free != {} then free - {Lowest(free)} else free
    }

    /** How many extents can be added as entries before a leaf below the root would have to split. */
    function Spare(blockSize: nat): int {
      if NoLeaf? then 0 else (if root then Capacity(blockSize) else max) - entries
    }
  }

  function LastOf(list: Option<seq<Extent>>): Option<Extent> {
    if list.Some? && list.value != [] then Some(list.value[|list.value| - 1]) else None
  }

  function TailOfLeaf(root: bool, buf: seq<byte>): Tail
    requires |buf| >= HEADER_SIZE
  {
    Tail(root, DecodeHeader(buf).entries, DecodeHeader(buf).max, LastOf(LeafList(buf)))
  }

  function TailOf(dev: seq<seq<byte>>, buf: seq<byte>): Tail {
    if |buf| < HEADER_SIZE then NoLeaf
    else if Depth(buf) == 0 then TailOfLeaf(true, buf)
    else if LastLeaf(dev, buf).None? then NoLeaf
    else
      var c := LastLeaf(dev, buf).value;
      if c < |dev| && |dev[c]| >= HEADER_SIZE then TailOfLeaf(false, dev[c]) else NoLeaf
  }

  lemma {:induction false} LowestExists(s: set<nat>) returns (b: nat)
    requires s != {}
    ensures b in s && forall c | c in s :: b <= c
  {
    var a :| a in s;
    var rest := s - {a};
    b := a;
    if rest != {} {
      var c := LowestExists(rest);
      assert forall x | x in s :: x == a || x in rest;
      b := if c < a then c else a;
    } else {
      assert forall x | x in s :: x == a || x in rest;
    }
  }

  /** The block AllocateBlock hands out. */
  ghost function Lowest(s: set<nat>): (b: nat)
    requires s != {}
    ensures b in s && forall c | c in s :: b <= c
  {
    assert exists b :: b in s && forall c | c in s :: b <= c by {
      var b := LowestExists(s);
    }
    var b :| b in s && forall c | c in s :: b <= c;
    b
  }

  function Capacity(blockSize: nat): (n: int)
    ensures 12 + 12 * n <= blockSize < 12 + 12 * (n + 1)
  {
    (blockSize - HEADER_SIZE) / ENTRY_SIZE
  }

  /** The tree's blocks are distinct, on the device, in use, and no bitmaps. */
  ghost predicate Apart(dev: seq<seq<byte>>, groups: seq<Group>, free: set<nat>, foot: multiset<nat>) {
    forall b: nat | b in foot :: foot[b] == 1 && b < |dev| && b !in free && !IsBitmap(groups, b)
  }

  lemma GrewBehind(pre: seq<Extent>, list1: seq<Extent>, list: seq<Extent>, x: Extent, merged: bool)
    requires Grew(list1, list, x, merged)
    ensures Grew(pre + list1, pre + list, x, merged)
  {
    if merged {
      assert (pre + list)[|pre + list| - 1] == list[|list| - 1];
      assert (pre + list)[..|pre + list| - 1] == pre + list[..|list| - 1];
      assert pre + list1 == AppendTo(pre + list, x);
    } else {
      assert pre + (list + [x]) == (pre + list) + [x];
    }
  }

  // ----- the edit of one leaf -----

  /** appendExtentToLeaf, and the same steps in appendExtentToLeafBlock. */
  method AppendExtentToLeaf(data: array<byte>, x: Extent)
    requires LeafOk(data[..]) && DecodeHeader(data[..]).entries < DecodeHeader(data[..]).max
    modifies data
    ensures data[..] == AppendToLeaf(old(data[..]), x)
  {
    hide Mergeable, DecodeHeader, EncodeHeader, DecodeExtent, EncodeExtent, AppendToLeaf, Holds, Overwrite;
    ghost var was := data[..];
    var hdr := DecodeHeader(data[..]);
    var entries: int := hdr.entries;
    if entries > 0 {
      var lastOff := HEADER_SIZE + (entries - 1) * ENTRY_SIZE;
      var last := DecodeExtent(data[lastOff..lastOff + ENTRY_SIZE]);
      assert data[lastOff..lastOff + ENTRY_SIZE] == Entry(was, entries - 1);
      if Mergeable(last, x) {
        MergedFits(last, x);
        var merged := last.(len := last.Count() + x.Count());
        PutBytes(data, lastOff, EncodeExtent(merged));
        IsOverwrite(was, data[..], lastOff, EncodeExtent(merged));
        AppendMerges(was, x);
        return;
      }
    }
    AppendAdds(was, x);
    var entryOff := HEADER_SIZE + entries * ENTRY_SIZE;
    PutBytes(data, entryOff, EncodeExtent(x));
    IsOverwrite(was, data[..], entryOff, EncodeExtent(x));
    ghost var mid := data[..];
    hdr := hdr.(entries := entries + 1);
    PutBytes(data, 0, EncodeHeader(hdr));
    IsOverwrite(mid, data[..], 0, EncodeHeader(hdr));
  }

  lemma AppendMerges(buf: seq<byte>, x: Extent)
    requires LeafOk(buf) && 0 < DecodeHeader(buf).entries < DecodeHeader(buf).max
    requires Mergeable(DecodeExtent(Entry(buf, DecodeHeader(buf).entries - 1)), x)
    ensures var n, last := DecodeHeader(buf).entries, DecodeExtent(Entry(buf, DecodeHeader(buf).entries - 1));
            && last.Count() + x.Count() < 0x8000
            && AppendToLeaf(buf, x) ==
               Overwrite(buf, HEADER_SIZE + (n - 1) * ENTRY_SIZE, EncodeExtent(last.(len := last.Count() + x.Count())))
  {
    hide DecodeHeader, EncodeExtent, DecodeExtent;
  }

  lemma AppendAdds(buf: seq<byte>, x: Extent)
    requires LeafOk(buf) && DecodeHeader(buf).entries < DecodeHeader(buf).max
    requires DecodeHeader(buf).entries > 0 ==> !Mergeable(DecodeExtent(Entry(buf, DecodeHeader(buf).entries - 1)), x)
    ensures var n, h := DecodeHeader(buf).entries, DecodeHeader(buf);
            && AppendToLeaf(buf, x) ==
               Overwrite(Overwrite(buf, HEADER_SIZE + n * ENTRY_SIZE, EncodeExtent(x)), 0, EncodeHeader(h.(entries := n + 1)))
  {
    hide DecodeHeader, EncodeExtent, DecodeExtent, EncodeHeader;
  }

  /** After the edit the leaf is the next tail and reads as grown. */
  lemma LeafGrows(root: bool, buf: seq<byte>, x: Extent, blockSize: nat)
    requires LeafOk(buf) && DecodeHeader(buf).entries < DecodeHeader(buf).max && DecodeHeader(buf).magic == EXT_MAGIC
    ensures var b, t := AppendToLeaf(buf, x), TailOfLeaf(root, buf);
            && LeafList(buf).Some? && LeafList(b).Some?
            && Grew(LeafList(b).value, LeafList(buf).value, x, t.Takes(x))
            && LeafOk(b) && Depth(b) == Depth(buf) && |b| == |buf|
            && DecodeHeader(b) == DecodeHeader(buf).(entries := DecodeHeader(b).entries)
            && TailOfLeaf(root, b) == t.Next(x, blockSize)
  {
    hide AppendToLeaf, DecodeHeader, ParseLeaf, Mergeable, Extent.Count;
    AppendToLeafParses(buf, x);
    var list := LeafList(buf).value;
    LeafCount(buf);
    LeafCount(AppendToLeaf(buf, x));
    AppendToEnd(list, x);
  }

  lemma LeafCount(buf: seq<byte>)
    requires |buf| >= HEADER_SIZE && LeafList(buf).Some?
    ensures |LeafList(buf).value| == DecodeHeader(buf).entries
  {
  }

  lemma AppendToEnd(list: seq<Extent>, x: Extent)
    ensures var list1 := AppendTo(list, x);
            if list != [] && Mergeable(list[|list| - 1], x)
            then |list1| == |list| && list1[|list| - 1] == Merged(list[|list| - 1], x)
            else list1 == list + [x]
  {
  }

  // ----- the three ways of appending -----

  /** The leaf block that takes over the root's entries and the new one. */
  method BuildChild(blockSize: nat, extents: seq<Extent>, x: Extent) returns (b: seq<byte>)
    requires |extents| < Capacity(blockSize) < 0x1_0000
    ensures |b| == blockSize
    ensures b == LeafBytes(extents + [x], Capacity(blockSize), Zeros(blockSize - HEADER_SIZE - (|extents| + 1) * ENTRY_SIZE))
  {
    hide EncodeExtent, EncodeHeader, EncodeExtents, Holds, Filled, Overwrite;
    var n := |extents|;
    var childBuf := new byte[blockSize](_ => 0);
    ghost var b0 := childBuf[..];
    assert b0 == Zeros(blockSize);
    var h0, h := Header(EXT_MAGIC, n, Capacity(blockSize), 0, 0), Header(EXT_MAGIC, n + 1, Capacity(blockSize), 0, 0);
    PutBytes(childBuf, 0, EncodeHeader(h0));
    IsOverwrite(b0, childBuf[..], 0, EncodeHeader(h0));
    ghost var b1 := childBuf[..];
    WriteEntries(childBuf, extents);
    ghost var b2 := childBuf[..];
    PutBytes(childBuf, 0, EncodeHeader(h));
    IsOverwrite(b2, childBuf[..], 0, EncodeHeader(h));
    ghost var b3 := childBuf[..];
    PutBytes(childBuf, HEADER_SIZE + n * ENTRY_SIZE, EncodeExtent(x));
    IsOverwrite(b3, childBuf[..], HEADER_SIZE + n * ENTRY_SIZE, EncodeExtent(x));
    b := childBuf[..];
    ChildBytes(blockSize, extents, x, h0, h);
  }

  lemma ChildBytes(blockSize: nat, extents: seq<Extent>, x: Extent, h0: Header, h: Header)
    requires |extents| < Capacity(blockSize) < 0x1_0000
    requires h == Header(EXT_MAGIC, |extents| + 1, Capacity(blockSize), 0, 0)
    ensures var n := |extents|;
            var b1 := Overwrite(Zeros(blockSize), 0, EncodeHeader(h0));
            var b3 := Overwrite(Filled(b1, extents, n), 0, EncodeHeader(h));
            Overwrite(b3, HEADER_SIZE + n * ENTRY_SIZE, EncodeExtent(x)) ==
            LeafBytes(extents + [x], Capacity(blockSize), Zeros(blockSize - HEADER_SIZE - (n + 1) * ENTRY_SIZE))
  {
    hide EncodeExtent, EncodeHeader, EncodeExtents;
    var n := |extents|;
    var b1 := Overwrite(Zeros(blockSize), 0, EncodeHeader(h0));
    assert b1[HEADER_SIZE + n * ENTRY_SIZE..] == Zeros(blockSize - HEADER_SIZE - n * ENTRY_SIZE);
    assert extents[..n] == extents;
    var b2 := Filled(b1, extents, n);
    var b3 := Overwrite(b2, 0, EncodeHeader(h));
    assert b3 == EncodeHeader(h) + EncodeExtents(extents) + Zeros(blockSize - HEADER_SIZE - n * ENTRY_SIZE);
    OneMoreEncoded(extents, x);
  }

  lemma OneMoreEncoded(extents: seq<Extent>, x: Extent)
    ensures EncodeExtents(extents + [x]) == EncodeExtents(extents) + EncodeExtent(x)
  {
    assert (extents + [x])[..|extents|] == extents;
  }

  /** The inode's buffer cleared and given a header and one index entry. */
  method WriteIndexRoot(data: array<byte>, first: u32, child: nat)
    requires data.Length >= HEADER_SIZE + ENTRY_SIZE
    modifies data
    ensures data[..] == IndexRoot(first, child, data.Length)
  {
    hide EncodeIdx, EncodeHeader, Holds, Overwrite;
    for i := 0 to data.Length
      invariant forall j | 0 <= j < i :: data[j] == 0
    {
      data[i] := 0;
    }
    ghost var b0 := data[..];
    assert b0 == Zeros(data.Length);
    var h := Header(EXT_MAGIC, 1, EXT_MAX, 1, 0);
    PutBytes(data, 0, EncodeHeader(h));
    IsOverwrite(b0, data[..], 0, EncodeHeader(h));
    ghost var b1 := data[..];
    PutBytes(data, HEADER_SIZE, EncodeIdx(first, child));
    IsOverwrite(b1, data[..], HEADER_SIZE, EncodeIdx(first, child));
    IndexRootBytes(data.Length, first, child, h);
  }

  lemma IndexRootBytes(size: nat, first: u32, child: nat, h: Header)
    requires size >= HEADER_SIZE + ENTRY_SIZE && h == Header(EXT_MAGIC, 1, EXT_MAX, 1, 0)
    ensures Overwrite(Overwrite(Zeros(size), 0, EncodeHeader(h)), HEADER_SIZE, EncodeIdx(first, child)) == IndexRoot(first, child, size)
  {
    hide EncodeIdx, EncodeHeader;
  }

  // ----- AppendExtent -----

  /** A readable tree whose blocks are its own. */
  ghost predicate TreeReady(dev: seq<seq<byte>>, groups: seq<Group>, free: set<nat>, buf: seq<byte>) {
    ReadTree(dev, buf).Some? && NodeOk(dev, buf) && Apart(dev, groups, free, Foot(dev, buf))
  }

  /** What an append leaves behind, and all it may touch. */
  ghost predicate Appended(dev: seq<seq<byte>>, groups: seq<Group>, free: set<nat>, buf: seq<byte>,
                           dev1: seq<seq<byte>>, free1: set<nat>, buf1: seq<byte>, x: Extent, blockSize: nat)
  {
    && TreeReady(dev, groups, free, buf) && TreeReady(dev1, groups, free1, buf1)
    && Grew(ReadTree(dev1, buf1).value, ReadTree(dev, buf).value, x, TailOf(dev, buf).Takes(x))
    && free1 <= free && (forall b: nat | b in Foot(dev1, buf1) :: b in Foot(dev, buf) || b in free - free1)
    && |dev1| == |dev| && (forall b: nat | b < |dev| && !IsBitmap(groups, b) && b !in Foot(dev1, buf1) :: dev1[b] == dev[b])
    && TailOf(dev, buf).Tail? && TailOf(dev1, buf1) == TailOf(dev, buf).Next(x, blockSize)
    && free1 == TailOf(dev, buf).LeavesFree(free)
  }

  lemma RootLeafAppended(dev: seq<seq<byte>>, groups: seq<Group>, free: set<nat>, buf: seq<byte>, x: Extent, blockSize: nat)
    requires TreeReady(dev, groups, free, buf) && Depth(buf) == 0 && DecodeHeader(buf).entries < DecodeHeader(buf).max
    ensures Appended(dev, groups, free, buf, dev, free, AppendToLeaf(buf, x), x, blockSize)
  {
    hide AppendToLeaf, DecodeHeader, ReadTree, Foot, LeafList, Depth, Grew, LeafOk, LastOf, Tail.Takes, Tail.Next;
    MagicOk(dev, buf);
    LeafGrows(true, buf, x, blockSize);
    RootOk(dev, buf);
    ReadLeaf(dev, buf);
    ReadLeaf(dev, AppendToLeaf(buf, x));
  }

  lemma RootOk(dev: seq<seq<byte>>, buf: seq<byte>)
    requires NodeOk(dev, buf) && Depth(buf) == 0
    ensures LeafOk(buf) && |buf| >= HEADER_SIZE
  {
  }

  lemma MagicOk(dev: seq<seq<byte>>, buf: seq<byte>)
    requires ReadTree(dev, buf).Some?
    ensures |buf| >= HEADER_SIZE && DecodeHeader(buf).magic == EXT_MAGIC
  {
  }

  lemma LastLeafAppended(dev: seq<seq<byte>>, groups: seq<Group>, free: set<nat>, buf: seq<byte>, c: nat, x: Extent, blockSize: nat)
    requires TreeReady(dev, groups, free, buf) && Depth(buf) > 0 && LastLeaf(dev, buf) == Some(c)
    requires c < |dev| && LeafOk(dev[c]) && DecodeHeader(dev[c]).entries < DecodeHeader(dev[c]).max
    requires DecodeHeader(dev[c]).max >= 4
    ensures Appended(dev, groups, free, buf, dev[c := AppendToLeaf(dev[c], x)], free, buf, x, blockSize)
  {
    hide AppendToLeaf, DecodeHeader, ReadTree, Foot, LeafList, Depth, Grew, LastLeaf, LastOf, Tail.Takes, Tail.Next;
    LastLeafInFoot(dev, buf);
    LeafMagic(dev, buf);
    MoreRoom(dev[c]);
    LeafGrows(false, dev[c], x, blockSize);
    var nb := AppendToLeaf(dev[c], x);
    var pre := ReplaceLastLeaf(dev, buf, c, nb);
    GrewBehind(pre, LeafList(nb).value, LeafList(dev[c]).value, x, TailOf(dev, buf).Takes(x));
  }

  lemma MoreRoom(buf: seq<byte>)
    requires LeafOk(buf) && DecodeHeader(buf).entries < DecodeHeader(buf).max
    ensures HEADER_SIZE + (DecodeHeader(buf).entries + 1) * ENTRY_SIZE <= |buf| && DecodeHeader(buf).entries < 0xFFFF
  {
  }

  lemma {:induction false} LeafMagic(dev: seq<seq<byte>>, buf: seq<byte>)
    requires |buf| >= HEADER_SIZE && Depth(buf) > 0 && LastLeaf(dev, buf).Some? && ReadTree(dev, buf).Some?
    ensures var c := LastLeaf(dev, buf).value; c < |dev| && |dev[c]| >= HEADER_SIZE && DecodeHeader(dev[c]).magic == EXT_MAGIC
    decreases Depth(buf)
  {
    hide ReadTree, Foot, LastLeaf, DecodeHeader, Depth, ReadChildren, ChildFoot, DecodeChild;
    var n, child := LastStep(dev, buf);
    if Depth(dev[child]) == 0 {
      MagicOk(dev, dev[child]);
    } else {
      LeafMagic(dev, dev[child]);
    }
  }

  /** A full root leaf's entries and the new one, in the block just allocated. */
  lemma SplitAppended(dev: seq<seq<byte>>, groups: seq<Group>, free: set<nat>, buf: seq<byte>,
                      devA: seq<seq<byte>>, free1: set<nat>, leaf: nat, child: seq<byte>, rest: seq<byte>, x: Extent, blockSize: nat)
    requires TreeReady(dev, groups, free, buf) && Depth(buf) == 0 && Placed(dev, groups, free)
    requires |devA| == |dev| && forall b: nat | b < |dev| && !IsBitmap(groups, b) :: devA[b] == dev[b]
    requires leaf in free && (forall b | b in free :: leaf <= b) && free1 == free - {leaf} && leaf < 0x1_0000_0000_0000
    requires var list := ReadTree(dev, buf).value;
             && |list| == DecodeHeader(buf).entries == DecodeHeader(buf).max && list != []
             && |list| < Capacity(blockSize) < 0x1_0000 && Capacity(blockSize) >= 4 && child == LeafBytes(list + [x], Capacity(blockSize), rest)
             && |child| == blockSize && |buf| >= HEADER_SIZE + ENTRY_SIZE
    ensures Appended(dev, groups, free, buf, devA[leaf := child], free1,
                     IndexRoot(ReadTree(dev, buf).value[0].block, leaf, |buf|), x, blockSize)
  {
    hide DecodeHeader, ReadTree, Foot, LeafList, Depth, LastLeaf, LeafBytes, IndexRoot;
    var list := ReadTree(dev, buf).value;
    LeafBytesRead(list + [x], Capacity(blockSize), rest);
    var dev1, root := devA[leaf := child], IndexRoot(list[0].block, leaf, |buf|);
    IndexRootReads(dev1, list[0].block, leaf, |buf|);
    RootOk(dev, buf);
    ReadLeaf(dev, buf);
    CapacityFits(blockSize);
    assert LeafOk(child);
  }

  lemma CapacityFits(blockSize: nat)
    requires blockSize >= HEADER_SIZE
    ensures HEADER_SIZE + Capacity(blockSize) * ENTRY_SIZE <= blockSize
  {
  }

  /** Every bitmap is where it was. */
  ghost predicate SamePlaces(groups: seq<Group>, groups1: seq<Group>) {
    |groups1| == |groups| && forall g | 0 <= g < |groups| :: groups1[g].bitmapBlock == groups[g].bitmapBlock
  }

  lemma SameBitmaps(groups: seq<Group>, groups1: seq<Group>)
    requires SamePlaces(groups, groups1)
    ensures forall b: nat :: IsBitmap(groups1, b) <==> IsBitmap(groups, b)
  {
    forall b: nat ensures IsBitmap(groups1, b) <==> IsBitmap(groups, b) {
      if g :| 0 <= g < |groups| && groups[g].bitmapBlock == b { assert groups1[g].bitmapBlock == b; }
      if g :| 0 <= g < |groups| && groups1[g].bitmapBlock == b { assert groups[g].bitmapBlock == b; }
    }
  }

  lemma FreeIsSmall(fs: FileSystem)
    requires fs.Valid()
    ensures forall b | b in fs.FreeSet() :: b < fs.Total() < 0x1_0000_0000
  {
    forall b | b in fs.FreeSet() ensures b < fs.Total() {
      FreeBounded(fs.dev, fs.groups, fs.blockSize, fs.blocksPerGroup, b);
    }
  }

  lemma BlockSizes(fs: FileSystem)
    requires fs.Valid()
    ensures 8 * fs.blockSize < 0x1_0000 && forall b | 0 <= b < |fs.dev| :: |fs.dev[b]| == fs.blockSize
  {
  }

  lemma FullRoot(dev: seq<seq<byte>>, groups: seq<Group>, free: set<nat>, buf: seq<byte>)
    requires TreeReady(dev, groups, free, buf) && Depth(buf) == 0
    ensures |buf| >= HEADER_SIZE && LeafOk(buf) && ReadTree(dev, buf).Some?
    ensures ParseLeaf(buf, DecodeHeader(buf).entries) == ReadTree(dev, buf)
    ensures |ReadTree(dev, buf).value| == DecodeHeader(buf).entries
  {
  }

  lemma RootEntries(buf: seq<byte>)
    requires |buf| == I_BLOCK && LeafOk(buf)
    ensures DecodeHeader(buf).entries <= DecodeHeader(buf).max <= 4 && DecodeHeader(buf).max > 0
  {
  }

  /** splitRootLeafAndAppend */
  method SplitRootLeafAndAppend(fs: FileSystem, inode: Inode, x: Extent) returns (ok: bool)
    requires fs.Valid() && Placed(fs.dev, fs.groups, fs.FreeSet()) && fs.blockSize >= 1024 && inode.iBlock.Length == I_BLOCK
    requires TreeReady(fs.dev, fs.groups, fs.FreeSet(), inode.iBlock[..])
    requires Depth(inode.iBlock[..]) == 0 && DecodeHeader(inode.iBlock[..]).entries == DecodeHeader(inode.iBlock[..]).max
    modifies fs, inode.iBlock
    ensures fs.Valid() && SamePlaces(old(fs.groups), fs.groups)
    ensures ok <==> old(fs.FreeSet()) != {}
    ensures !ok ==> unchanged(fs) && inode.iBlock[..] == old(inode.iBlock[..])
    ensures ok ==> Appended(old(fs.dev), old(fs.groups), old(fs.FreeSet()), old(inode.iBlock[..]),
                            fs.dev, fs.FreeSet(), inode.iBlock[..], x, fs.blockSize)
    ensures ok ==>
              var read := old(ReadTree(fs.dev, inode.iBlock[..]));
              read.Some? && read.value != [] && inode.iBlock[..] == IndexRoot(read.value[0].block, Lowest(old(fs.FreeSet())), I_BLOCK)
  {
    hide DecodeHeader, ReadTree, Foot, LeafList, Depth, LastLeaf, LeafBytes, IndexRoot, Apart, Appended, FreeBlocks,
         Consistent, ParseLeaf, LeafOk, TreeReady, EncodeExtents, IsBitmap;
    ghost var dev0, groups0, free0, buf0 := fs.dev, fs.groups, fs.FreeSet(), inode.iBlock[..];
    FullRoot(dev0, groups0, free0, buf0);
    RootEntries(buf0);
    BlockSizes(fs);
    FreeIsSmall(fs);
    var entries := DecodeHeader(inode.iBlock[..]).entries;
    var r := fs.AllocateBlock();
    if r.None? {
      return false;
    }
    var leaf := r.value;
    SameBitmaps(groups0, fs.groups);
    ghost var devA := fs.dev;
    var list := ParseLeafEntries(inode.iBlock[..], entries);
    var extents := list.value;
    var child := BuildChild(fs.blockSize, extents, x);
    fs.WriteBlock(leaf, child);
    WriteIndexRoot(inode.iBlock, extents[0].block, leaf);
    SplitAppended(dev0, groups0, free0, buf0, devA, fs.FreeSet(), leaf, child,
                  Zeros(fs.blockSize - HEADER_SIZE - (|extents| + 1) * ENTRY_SIZE), x, fs.blockSize);
    ok := true;
  }

  /** Lengths alone tell a grown list from one that lost extents. */
  ghost predicate Shrunk(dev1: seq<seq<byte>>, buf: seq<byte>, list: seq<Extent>) {
    ReadTree(dev1, buf).Some? && |ReadTree(dev1, buf).value| < |list|
  }

  lemma ShrunkIsNotGrown(list1: seq<Extent>, list: seq<Extent>, x: Extent, merged: bool)
    requires |list1| < |list|
    ensures !Grew(list1, list, x, merged)
  {
  }

  /** Half of a full leaf and one stray entry: the tree reads shorter than before. */
  lemma SplitLoses(dev: seq<seq<byte>>, buf: seq<byte>, dev1: seq<seq<byte>>, c: nat, list: seq<Extent>, x: Extent, newLeaf: nat,
                   nb: seq<byte>, max: u16, rest: seq<byte>)
    requires |buf| >= HEADER_SIZE && Depth(buf) > 0 && LastLeaf(dev, buf) == Some(c) && ReadTree(dev, buf).Some?
    requires AgreeOn(dev, dev1, Foot(dev, buf)) && Foot(dev, buf)[c] == 1
    requires c < |dev| && |dev[c]| >= HEADER_SIZE && LeafList(dev[c]) == Some(list) && |list| >= 4
    requires |list| < 0xFFFF && nb == LeafBytes(Mangled(list, x, newLeaf), max, rest)
    ensures Shrunk(dev1[c := nb], buf, ReadTree(dev, buf).value)
  {
    hide ReadTree, Foot, LastLeaf, DecodeHeader, Depth, LeafList, Mangled;
    TreeFrame(dev, dev1, buf);
    LastLeafFrame(dev, dev1, buf);
    MangledLength(list, x, newLeaf);
    LeafBytesRead(Mangled(list, x, newLeaf), max, rest);
    LastLeafInFoot(dev, buf);
    var pre := ReplaceLastLeaf(dev1, buf, c, nb);
  }

  lemma MangledLength(list: seq<Extent>, x: Extent, newLeaf: nat)
    ensures |Mangled(list, x, newLeaf)| == (|list| + 1) / 2 + 1
  {
  }

  /** The rightmost leaf of the tree is not full. */
  ghost predicate LeafRoom(dev: seq<seq<byte>>, buf: seq<byte>)
    requires |buf| >= HEADER_SIZE && Depth(buf) > 0
  {
    LastLeaf(dev, buf).Some? && LastLeaf(dev, buf).value < |dev| && |dev[LastLeaf(dev, buf).value]| >= HEADER_SIZE &&
    var h := DecodeHeader(dev[LastLeaf(dev, buf).value]);
    h.entries < h.max
  }

  /** splitLeafBlockAndAppend: the right half is written but never linked. */
  method SplitLeafBlockAndAppend(fs: FileSystem, leafBlock: nat, buf: seq<byte>, x: Extent, ghost tree: seq<byte>) returns (ok: bool)
    requires fs.Valid() && Placed(fs.dev, fs.groups, fs.FreeSet()) && TreeReady(fs.dev, fs.groups, fs.FreeSet(), tree)
    requires |tree| >= HEADER_SIZE && Depth(tree) > 0 && LastLeaf(fs.dev, tree) == Some(leafBlock)
    requires leafBlock < |fs.dev| && buf == fs.dev[leafBlock] && LeafOk(buf) && DecodeHeader(buf).magic == EXT_MAGIC
    requires DecodeHeader(buf).entries == DecodeHeader(buf).max >= 4
    modifies fs
    ensures fs.Valid() && SamePlaces(old(fs.groups), fs.groups)
    ensures ok <==> old(fs.FreeSet()) != {}
    ensures !ok ==> unchanged(fs)
    ensures ok ==> Shrunk(fs.dev, tree, old(ReadTree(fs.dev, tree).value))
  {
    hide DecodeHeader, ReadTree, Foot, LeafList, Depth, LastLeaf, LeafBytes, FreeBlocks, Consistent, ParseLeaf, EncodeExtents, IsBitmap, Mangled,
         Stranger, BlockPos, Shrunk, NodeOk, Placed, Apart, TreeReady, LeafOk, FileSystem.Valid, Inserted;
    ghost var dev0, groups0, free0 := fs.dev, fs.groups, fs.FreeSet();
    BlockSizes(fs);
    LastIsApart(dev0, groups0, free0, tree);
    LeafExtents(buf);
    var hdr := DecodeHeader(buf);
    var r := fs.AllocateBlock();
    if r.None? {
      return false;
    }
    var newLeafBlock := r.value;
    SameBitmaps(groups0, fs.groups);
    NewIsApart(dev0, groups0, free0, tree, newLeafBlock);
    ghost var devA := fs.dev;
    var list := ParseLeafEntries(buf, hdr.entries);
    var extents := list.value;
    var allExtents, mid, leftBuf, rightBuf := WriteSplit(fs.blockSize, extents, x, hdr.max);
    fs.WriteBlock(leafBlock, leftBuf);
    fs.WriteBlock(newLeafBlock, rightBuf);
    var parentBuf := InsertIdx(fs.dev[leafBlock], allExtents[mid].block, newLeafBlock, allExtents[..mid], hdr.max);
    fs.WriteBlock(leafBlock, parentBuf);
    assert fs.dev == devA[newLeafBlock := rightBuf][leafBlock := parentBuf];
    OthersAgree(dev0, groups0, devA, Foot(dev0, tree), newLeafBlock, rightBuf);
    SplitLoses(dev0, tree, devA[newLeafBlock := rightBuf], leafBlock, extents, x, newLeafBlock, parentBuf, hdr.max,
               Zeros(fs.blockSize - HEADER_SIZE - (mid + 1) * ENTRY_SIZE));
    ok := true;
  }

  lemma LastIsApart(dev: seq<seq<byte>>, groups: seq<Group>, free: set<nat>, tree: seq<byte>)
    requires TreeReady(dev, groups, free, tree) && |tree| >= HEADER_SIZE && Depth(tree) > 0 && LastLeaf(dev, tree).Some?
    ensures var c := LastLeaf(dev, tree).value;
            c < |dev| && c !in free && !IsBitmap(groups, c) && Foot(dev, tree)[c] == 1 && ReadTree(dev, tree).Some?
  {
    hide ReadTree, NodeOk;
    LastLeafInFoot(dev, tree);
  }

  lemma NewIsApart(dev: seq<seq<byte>>, groups: seq<Group>, free: set<nat>, tree: seq<byte>, b: nat)
    requires TreeReady(dev, groups, free, tree) && Placed(dev, groups, free) && b in free
    ensures b < |dev| && !IsBitmap(groups, b) && b !in Foot(dev, tree)
    ensures forall x: nat | x in Foot(dev, tree) :: x < |dev| && !IsBitmap(groups, x)
  {
    hide ReadTree, NodeOk;
  }

  lemma OthersAgree(dev: seq<seq<byte>>, groups: seq<Group>, devA: seq<seq<byte>>, foot: multiset<nat>, b: nat, block: seq<byte>)
    requires |devA| == |dev| && b < |dev| && b !in foot
    requires forall x: nat | x in foot :: x < |dev| && !IsBitmap(groups, x)
    requires forall x | 0 <= x < |dev| && !IsBitmap(groups, x) :: devA[x] == dev[x]
    ensures AgreeOn(dev, devA[b := block], foot)
  {
  }

  lemma LeafExtents(buf: seq<byte>)
    requires LeafOk(buf) && DecodeHeader(buf).magic == EXT_MAGIC
    ensures LeafList(buf).Some? && LeafList(buf) == ParseLeaf(buf, DecodeHeader(buf).entries)
    ensures |LeafList(buf).value| == DecodeHeader(buf).entries
    ensures HEADER_SIZE + DecodeHeader(buf).max * ENTRY_SIZE <= |buf|
  {
    ParseLeafTotal(buf, DecodeHeader(buf).entries);
  }

  /** appendExtentToTree */
  method AppendExtentToTree(fs: FileSystem, inode: Inode, x: Extent) returns (ok: bool)
    requires fs.Valid() && Placed(fs.dev, fs.groups, fs.FreeSet())
    requires TreeReady(fs.dev, fs.groups, fs.FreeSet(), inode.iBlock[..]) && Depth(inode.iBlock[..]) > 0
    modifies fs
    ensures fs.Valid() && SamePlaces(old(fs.groups), fs.groups)
    ensures ok <==> LastLeaf(old(fs.dev), inode.iBlock[..]).Some? && (LeafRoom(old(fs.dev), inode.iBlock[..]) || old(fs.FreeSet()) != {})
    ensures !ok ==> unchanged(fs)
    ensures ok && LeafRoom(old(fs.dev), inode.iBlock[..]) ==>
              Appended(old(fs.dev), old(fs.groups), old(fs.FreeSet()), inode.iBlock[..],
                       fs.dev, fs.FreeSet(), inode.iBlock[..], x, fs.blockSize)
    ensures ok && !LeafRoom(old(fs.dev), inode.iBlock[..]) ==>
              Shrunk(fs.dev, inode.iBlock[..], ReadTree(old(fs.dev), inode.iBlock[..]).value)
  {
    hide DecodeHeader, ReadTree, Foot, LeafList, Depth, LastLeaf, Apart, Appended, FreeBlocks,
         Consistent, ParseLeaf, LeafOk, TreeReady, IsBitmap, DecodeChild, Shrunk, Placed;
    ghost var dev0, free0, buf0 := fs.dev, fs.FreeSet(), inode.iBlock[..];
    ReadyParts(dev0, fs.groups, free0, buf0);
    var currData, currBlock := inode.iBlock[..], 0;
    while Depth(currData) > 0
      invariant unchanged(fs)
      invariant |currData| >= HEADER_SIZE && ReadTree(fs.dev, currData).Some?
      invariant if Depth(currData) > 0 then LastLeaf(fs.dev, currData) == LastLeaf(dev0, buf0)
                else LastLeaf(dev0, buf0) == Some(currBlock) && currBlock < |fs.dev| && currData == fs.dev[currBlock]
      decreases Depth(currData)
    {
      var entries := DecodeHeader(currData).entries;
      if entries == 0 {
        EmptyNode(fs.dev, currData);
        return false;
      }
      NextNode(fs.dev, currData);
      currBlock := DecodeChild(Entry(currData, entries - 1));
      currData := fs.dev[currBlock];
    }
    LeafAtEnd(dev0, buf0, currBlock);
    MagicOk(fs.dev, currData);
    EntriesInMax(currData);
    var currHdr := DecodeHeader(currData);
    if currHdr.entries < currHdr.max {
      var buf := new byte[|currData|](i requires 0 <= i < |currData| => currData[i]);
      assert buf[..] == currData;
      AppendExtentToLeaf(buf, x);
      LastLeafAppended(dev0, fs.groups, free0, buf0, currBlock, x, fs.blockSize);
      LeafIsData(dev0, fs.groups, free0, buf0);
      BlockSizes(fs);
      fs.WriteBlock(currBlock, buf[..]);
      return true;
    }
    ok := SplitLeafBlockAndAppend(fs, currBlock, currData, x, buf0);
  }

  lemma LeafAtEnd(dev: seq<seq<byte>>, buf: seq<byte>, c: nat)
    requires NodeOk(dev, buf) && Depth(buf) > 0 && LastLeaf(dev, buf) == Some(c)
    ensures c < |dev| && LeafOk(dev[c]) && DecodeHeader(dev[c]).max >= 4 && |dev[c]| >= HEADER_SIZE
  {
  }

  lemma ReadyParts(dev: seq<seq<byte>>, groups: seq<Group>, free: set<nat>, buf: seq<byte>)
    requires TreeReady(dev, groups, free, buf)
    ensures |buf| >= HEADER_SIZE && ReadTree(dev, buf).Some? && NodeOk(dev, buf)
  {
  }

  lemma EmptyNode(dev: seq<seq<byte>>, buf: seq<byte>)
    requires |buf| >= HEADER_SIZE && Depth(buf) > 0 && DecodeHeader(buf).entries == 0
    ensures LastLeaf(dev, buf).None?
  {
  }

  /** Below a readable node the last entry leads to a readable, lower node. */
  lemma NextNode(dev: seq<seq<byte>>, buf: seq<byte>)
    requires |buf| >= HEADER_SIZE && Depth(buf) > 0 && DecodeHeader(buf).entries > 0 && ReadTree(dev, buf).Some?
    ensures var n := DecodeHeader(buf).entries;
            && HEADER_SIZE + n * ENTRY_SIZE <= |buf|
            && var child := DecodeChild(Entry(buf, n - 1));
               && child < |dev| && |dev[child]| >= HEADER_SIZE && Depth(dev[child]) < Depth(buf)
               && ReadTree(dev, dev[child]).Some?
               && LastLeaf(dev, buf) == if Depth(dev[child]) == 0 then Some(child) else LastLeaf(dev, dev[child])
  {
    hide DecodeChild, DecodeHeader, Foot, ReadTree, ReadChildren;
    var n := DecodeHeader(buf).entries;
    Deep(dev, buf);
    if HEADER_SIZE + n * ENTRY_SIZE > |buf| {
      TooFar(dev, buf, n);
    } else {
      ReadChildrenIs(dev, buf, n);
      MagicOk(dev, dev[DecodeChild(Entry(buf, n - 1))]);
    }
  }

  lemma LeafIsData(dev: seq<seq<byte>>, groups: seq<Group>, free: set<nat>, buf: seq<byte>)
    requires TreeReady(dev, groups, free, buf) && Depth(buf) > 0 && LastLeaf(dev, buf).Some?
    ensures !IsBitmap(groups, LastLeaf(dev, buf).value)
  {
    LastLeafInFoot(dev, buf);
  }

  /** The extent can go where AppendExtent puts it: the root leaf, or a rightmost leaf with room. */
  ghost predicate RightPlace(dev: seq<seq<byte>>, buf: seq<byte>)
    requires |buf| >= HEADER_SIZE
  {
    Depth(buf) > 0 ==> LeafRoom(dev, buf)
  }

  /** No merge, or one that keeps the blocks of the extent it merges into. */
  ghost predicate KeepsMap(dev: seq<seq<byte>>, buf: seq<byte>, x: Extent) {
    TailOf(dev, buf).Takes(x) ==> ReadTree(dev, buf).Some? && ReadTree(dev, buf).value != [] && MergeKeeps(ReadTree(dev, buf).value, x)
  }

  /** Read as a block map, an appended extent adds its own blocks and nothing else, unless its merge loses some. */
  lemma AppendedMap(dev: seq<seq<byte>>, groups: seq<Group>, free: set<nat>, buf: seq<byte>,
                    dev1: seq<seq<byte>>, free1: set<nat>, buf1: seq<byte>, x: Extent, blockSize: nat)
    requires Appended(dev, groups, free, buf, dev1, free1, buf1, x, blockSize)
    ensures ReadTree(dev, buf).Some? && ReadTree(dev1, buf1).Some?
    ensures Extends(ReadTree(dev1, buf1).value, ReadTree(dev, buf).value, x) <==> KeepsMap(dev, buf, x)
  {
    hide ReadTree, NodeOk, TailOf, Foot, IsBitmap, Extends, MergeKeeps, AppendTo, Mergeable;
    GrewExtendsIff(ReadTree(dev1, buf1).value, ReadTree(dev, buf).value, x, TailOf(dev, buf).Takes(x));
  }

  /**
   AppendExtent on a readable tree. Afterwards the tree reads as the old list with x at its end, and
   no other block changed, if and only if the tree is a root leaf or its rightmost leaf had room; a
   full leaf below the root loses extents. The file's block map then gains exactly the blocks of x if
   and only if x was not merged or its merge keeps the blocks that were there. The call fails for a foreign node, an empty index node, or
   when a split finds no block.
   */
  method AppendExtent(fs: FileSystem, inode: Inode, x: Extent) returns (ok: bool)
    requires fs.Valid() && Placed(fs.dev, fs.groups, fs.FreeSet()) && fs.blockSize >= 1024 && inode.iBlock.Length == I_BLOCK
    requires DecodeHeader(inode.iBlock[..]).magic == EXT_MAGIC ==> TreeReady(fs.dev, fs.groups, fs.FreeSet(), inode.iBlock[..])
    modifies fs, inode.iBlock
    ensures fs.Valid() && SamePlaces(old(fs.groups), fs.groups)
    ensures ok <==> inode.usesExtents && DecodeHeader(old(inode.iBlock[..])).magic == EXT_MAGIC
                    && Appendable(old(fs.dev), old(inode.iBlock[..]), old(fs.FreeSet()))
    ensures !ok ==> unchanged(fs) && inode.iBlock[..] == old(inode.iBlock[..])
    ensures ok ==> (Appended(old(fs.dev), old(fs.groups), old(fs.FreeSet()), old(inode.iBlock[..]),
                             fs.dev, fs.FreeSet(), inode.iBlock[..], x, fs.blockSize)
                    <==> RightPlace(old(fs.dev), old(inode.iBlock[..])))
    ensures ok && RightPlace(old(fs.dev), old(inode.iBlock[..])) ==>
              (Extends(ReadTree(fs.dev, inode.iBlock[..]).value, old(ReadTree(fs.dev, inode.iBlock[..])).value, x)
               <==> old(KeepsMap(fs.dev, inode.iBlock[..], x)))
    ensures ok && !RightPlace(old(fs.dev), old(inode.iBlock[..])) ==>
              old(ReadTree(fs.dev, inode.iBlock[..])).Some? && Shrunk(fs.dev, inode.iBlock[..], old(ReadTree(fs.dev, inode.iBlock[..])).value)
  {
    hide DecodeHeader, ReadTree, Foot, LeafList, LastLeaf, Apart, Appended, FreeBlocks, AppendToLeaf,
         Consistent, ParseLeaf, LeafOk, TreeReady, IsBitmap, DecodeChild, Shrunk, LeafRoom, Placed, KeepsMap, Extends;
    ghost var dev0, groups0, free0, buf0 := fs.dev, fs.groups, fs.FreeSet(), inode.iBlock[..];
    if !inode.usesExtents {
      return false;
    }
    var hdr := DecodeHeader(inode.iBlock[..]);
    if hdr.magic != EXT_MAGIC {
      return false;
    }
    ReadyParts(dev0, groups0, free0, buf0);
    if hdr.depth == 0 {
      FullRoot(dev0, fs.groups, free0, buf0);
      EntriesInMax(buf0);
      if hdr.entries < hdr.max {
        RootLeafAppended(dev0, fs.groups, free0, buf0, x, fs.blockSize);
        AppendExtentToLeaf(inode.iBlock, x);
        AppendedMap(dev0, groups0, free0, buf0, fs.dev, fs.FreeSet(), inode.iBlock[..], x, fs.blockSize);
        return true;
      }
      ok := SplitRootLeafAndAppend(fs, inode, x);
      if ok {
        AppendedMap(dev0, groups0, free0, buf0, fs.dev, fs.FreeSet(), inode.iBlock[..], x, fs.blockSize);
      }
      return;
    }
    ok := AppendExtentToTree(fs, inode, x);
    if ok && !LeafRoom(dev0, buf0) {
      ShrunkIsNotAppended(dev0, groups0, free0, buf0, fs.dev, fs.FreeSet(), x, fs.blockSize);
    } else if ok {
      AppendedMap(dev0, groups0, free0, buf0, fs.dev, fs.FreeSet(), inode.iBlock[..], x, fs.blockSize);
    }
  }

  lemma ShrunkIsNotAppended(dev: seq<seq<byte>>, groups: seq<Group>, free: set<nat>, buf: seq<byte>,
                            dev1: seq<seq<byte>>, free1: set<nat>, x: Extent, blockSize: nat)
    requires ReadTree(dev, buf).Some? && Shrunk(dev1, buf, ReadTree(dev, buf).value)
    ensures !Appended(dev, groups, free, buf, dev1, free1, buf, x, blockSize)
  {
    hide ReadTree, NodeOk, TailOf, Foot, IsBitmap, Grew;
    ShrunkIsNotGrown(ReadTree(dev1, buf).value, ReadTree(dev, buf).value, x, TailOf(dev, buf).Takes(x));
  }

  lemma EntriesInMax(buf: seq<byte>)
    requires LeafOk(buf)
    ensures DecodeHeader(buf).entries <= DecodeHeader(buf).max
  {
  }

  ghost predicate Appendable(dev: seq<seq<byte>>, buf: seq<byte>, free: set<nat>)
    requires |buf| >= HEADER_SIZE
  {
    if Depth(buf) > 0 then LastLeaf(dev, buf).Some? && (LeafRoom(dev, buf) || free != {})
    else DecodeHeader(buf).entries < DecodeHeader(buf).max || free != {}
  }
}
