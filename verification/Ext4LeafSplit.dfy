/**
 The split of a full leaf below the root (vfs/allocate.go). The path handed to
 insertIdxIntoParent ends with the leaf itself, so the leaf is taken for its own parent.
 */
module Ext4LeafSplit {
  import opened Bytes
  import opened Ext4Types
  import opened Ext4Tree
  import opened Ext4LastLeaf

  /** An index entry with all its fields. */
  datatype Idx = Idx(block: u32, leafLo: u32, leafHi: u16, unused: u16)

  function DecodeIdx(s: seq<byte>): Idx
    requires |s| == ENTRY_SIZE
  {
    Idx(Get32(s[..4]), Get32(s[4..8]), Get16(s[8..10]), Get16(s[10..12]))
  }

  function EncodeFullIdx(i: Idx): (s: seq<byte>)
    ensures |s| == ENTRY_SIZE
  {
    Put(i.block, 4) + Put(i.leafLo, 4) + Put(i.leafHi, 2) + Put(i.unused, 2)
  }

  /** Twelve bytes survive being read as an index entry, or as an extent, and written again. */
  lemma TwelveBytes(s: seq<byte>)
    requires |s| == ENTRY_SIZE
    ensures EncodeFullIdx(DecodeIdx(s)) == s && EncodeExtent(DecodeExtent(s)) == s
    ensures DecodeIdx(s).block == DecodeExtent(s).block
  {
    hide Put, Get;
    PutGet(s[..4]);
    PutGet(s[4..8]);
    PutGet(s[8..10]);
    PutGet(s[10..12]);
    PutGet(s[4..6]);
    PutGet(s[6..8]);
    PutGet(s[8..12]);
    assert s == s[..4] + s[4..8] + s[8..10] + s[10..12];
    assert s == s[..4] + s[4..6] + s[6..8] + s[8..12];
  }

  /** Where a new block number goes among the extents: before the first that is not lower. */
  function BlockPos(list: seq<Extent>, block: u32): (p: nat)
    ensures p <= |list|
  {
    if list == [] || list[0].block >= block then 0 else 1 + BlockPos(list[1..], block)
  }

  lemma {:induction false} BlockPosIs(list: seq<Extent>, block: u32, p: nat)
    requires p <= |list| && (forall i | 0 <= i < p :: list[i].block < block) && (p < |list| ==> list[p].block >= block)
    ensures BlockPos(list, block) == p
  {
    if p > 0 {
      assert forall i | 0 <= i < p - 1 :: list[1..][i] == list[i + 1];
      BlockPosIs(list[1..], block, p - 1);
    }
  }

  function Inserted(list: seq<Extent>, x: Extent): (r: seq<Extent>)
    ensures |r| == |list| + 1
  {
    var p := BlockPos(list, x.block);
    list[..p] + [x] + list[p..]
  }

  /** The index entry for the right half, read as the extent a leaf takes it for. */
  function Stranger(block: u32, child: nat): (x: Extent)
    ensures x.block == block
  {
    StrangerBlock(block, child);
    DecodeExtent(EncodeIdx(block, child))
  }

  lemma StrangerBlock(block: u32, child: nat)
    ensures DecodeExtent(EncodeIdx(block, child)).block == block
  {
    assert EncodeIdx(block, child)[..4] == Put(block, 4);
    GetPutFixed(block);
  }

  /** What the leaf lists once the split took it for its own parent. */
  function Mangled(list: seq<Extent>, x: Extent, newLeaf: nat): seq<Extent> {
    var all := Inserted(list, x);
    var mid := |all| / 2;
    Inserted(all[..mid], Stranger(all[mid].block, newLeaf))
  }

  /** One half of a split leaf. */
  method WriteLeaf(blockSize: nat, list: seq<Extent>, max: u16) returns (b: seq<byte>)
    requires |list| < 0x1_0000 && HEADER_SIZE + |list| * ENTRY_SIZE <= blockSize
    ensures |b| == blockSize && b == LeafBytes(list, max, Zeros(blockSize - HEADER_SIZE - |list| * ENTRY_SIZE))
  {
    hide EncodeExtent, EncodeHeader, EncodeExtents, Holds, Filled, Overwrite;
    var buf := new byte[blockSize](_ => 0);
    assert buf[..] == Zeros(blockSize);
    var h := Header(EXT_MAGIC, |list|, max, 0, 0);
    PutBytes(buf, 0, EncodeHeader(h));
    IsOverwrite(Zeros(blockSize), buf[..], 0, EncodeHeader(h));
    WriteEntries(buf, list);
    b := buf[..];
    HalfBytes(blockSize, list, h);
  }

  lemma HalfBytes(blockSize: nat, list: seq<Extent>, h: Header)
    requires |list| < 0x1_0000 && HEADER_SIZE + |list| * ENTRY_SIZE <= blockSize
    requires h == Header(EXT_MAGIC, |list|, h.max, 0, 0)
    ensures Filled(Overwrite(Zeros(blockSize), 0, EncodeHeader(h)), list, |list|)
            == LeafBytes(list, h.max, Zeros(blockSize - HEADER_SIZE - |list| * ENTRY_SIZE))
  {
    hide EncodeExtent, EncodeHeader, EncodeExtents;
    var b0 := Overwrite(Zeros(blockSize), 0, EncodeHeader(h));
    assert b0[..HEADER_SIZE] == EncodeHeader(h);
    assert b0[HEADER_SIZE + |list| * ENTRY_SIZE..] == Zeros(blockSize - HEADER_SIZE - |list| * ENTRY_SIZE);
    assert list[..|list|] == list;
  }

  /** The scan for the insert position, over extents or over index entries with the same blocks. */
  method FindPos(blocks: seq<u32>, block: u32, ghost list: seq<Extent>) returns (p: nat)
    requires |blocks| == |list| && forall i | 0 <= i < |list| :: blocks[i] == list[i].block
    ensures p == BlockPos(list, block)
  {
    p := |blocks|;
    for i := 0 to |blocks|
      invariant p == |blocks| && forall j | 0 <= j < i :: blocks[j] < block
    {
      if blocks[i] >= block {
        BlockPosIs(list, block, i);
        return i;
      }
    }
    BlockPosIs(list, block, |list|);
  }

  /** The two halves of the full leaf with the new extent in it. */
  method WriteSplit(blockSize: nat, extents: seq<Extent>, x: Extent, max: u16)
    returns (all: seq<Extent>, mid: nat, leftBuf: seq<byte>, rightBuf: seq<byte>)
    requires 4 <= |extents| <= max && HEADER_SIZE + max * ENTRY_SIZE <= blockSize
    ensures |all| == |extents| + 1 && mid == |all| / 2 && mid < |all| && mid + 1 <= max
    ensures |leftBuf| == |rightBuf| == blockSize && HEADER_SIZE + (mid + 1) * ENTRY_SIZE <= blockSize
    ensures leftBuf == LeafBytes(all[..mid], max, Zeros(blockSize - HEADER_SIZE - mid * ENTRY_SIZE))
    ensures rightBuf == LeafBytes(all[mid..], max, Zeros(blockSize - HEADER_SIZE - (|all| - mid) * ENTRY_SIZE))
    ensures forall newLeaf :: Mangled(extents, x, newLeaf) == Inserted(all[..mid], Stranger(all[mid].block, newLeaf))
  {
    hide LeafBytes, BlockPos, Stranger;
    var insertIdx := FindPos(seq(|extents|, i requires 0 <= i < |extents| => extents[i].block), x.block, extents);
    all := extents[..insertIdx] + [x] + extents[insertIdx..];
    mid := |all| / 2;
    leftBuf := WriteLeaf(blockSize, all[..mid], max);
    rightBuf := WriteLeaf(blockSize, all[mid..], max);
  }

  lemma {:induction false} EntryOf(list: seq<Extent>, max: u16, rest: seq<byte>, i: nat)
    requires i < |list| < 0x1_0000
    ensures Entry(LeafBytes(list, max, rest), i) == EncodeExtent(list[i])
  {
    hide EncodeExtent, EncodeHeader;
    var s := EncodeHeader(Header(EXT_MAGIC, |list|, max, 0, 0));
    EncodedAt(list, i);
    var e := EncodeExtents(list);
    assert LeafBytes(list, max, rest) == s + e + rest;
    assert (s + e + rest)[HEADER_SIZE + i * ENTRY_SIZE..HEADER_SIZE + (i + 1) * ENTRY_SIZE] == e[i * ENTRY_SIZE..(i + 1) * ENTRY_SIZE];
  }

  lemma {:induction false} EncodedAt(list: seq<Extent>, i: nat)
    requires i < |list|
    ensures EncodeExtents(list)[i * ENTRY_SIZE..(i + 1) * ENTRY_SIZE] == EncodeExtent(list[i])
  {
    hide EncodeExtent;
    var first, last := list[..|list| - 1], EncodeExtent(list[|list| - 1]);
    var e := EncodeExtents(first);
    if i < |list| - 1 {
      EncodedAt(first, i);
      assert (e + last)[i * ENTRY_SIZE..(i + 1) * ENTRY_SIZE] == e[i * ENTRY_SIZE..(i + 1) * ENTRY_SIZE];
    } else {
      assert (e + last)[i * ENTRY_SIZE..(i + 1) * ENTRY_SIZE] == last;
    }
  }

  /**
   insertIdxIntoParent with the leaf itself as the parent: its extents are taken for index
   entries and the new entry is put among them.
   */
  method InsertIdx(parentBuf: seq<byte>, block: u32, child: nat, ghost left: seq<Extent>, ghost max: u16) returns (b: seq<byte>)
    requires |left| + 1 <= max && HEADER_SIZE + (|left| + 1) * ENTRY_SIZE <= |parentBuf|
    requires parentBuf == LeafBytes(left, max, Zeros(|parentBuf| - HEADER_SIZE - |left| * ENTRY_SIZE))
    ensures b == LeafBytes(Inserted(left, Stranger(block, child)), max, Zeros(|parentBuf| - HEADER_SIZE - (|left| + 1) * ENTRY_SIZE))
  {
    hide EncodeExtent, EncodeHeader, EncodeExtents, Holds, Filled, Overwrite, DecodeIdx, EncodeFullIdx, EncodeIdx, DecodeHeader, LeafBytes, Stranger, BlockPos, LeafList;
    LeafBytesRead(left, max, Zeros(|parentBuf| - HEADER_SIZE - |left| * ENTRY_SIZE));
    var pHdr := DecodeHeader(parentBuf);
    var idxs, blocks := ReadIdxs(parentBuf, left, max);
    var insertIdx := FindPos(blocks, block, left);
    var mine := Idx(block, child % 0x1_0000_0000, (child / 0x1_0000_0000) % 0x1_0000, 0);
    var newIdxs := idxs[..insertIdx] + [mine] + idxs[insertIdx..];
    ghost var list := Inserted(left, Stranger(block, child));
    MineIs(block, child);
    b := WriteIdxs(parentBuf, pHdr.(entries := |newIdxs|), newIdxs, list);
    ParentBytes(left, list, max, |parentBuf|, pHdr.(entries := |newIdxs|));
  }

  /** The leaf's extents read as index entries: the same bytes, the same block numbers. */
  method ReadIdxs(parentBuf: seq<byte>, ghost left: seq<Extent>, ghost max: u16) returns (idxs: seq<Idx>, blocks: seq<u32>)
    requires |left| < 0x1_0000 && HEADER_SIZE + |left| * ENTRY_SIZE <= |parentBuf|
    requires parentBuf == LeafBytes(left, max, Zeros(|parentBuf| - HEADER_SIZE - |left| * ENTRY_SIZE))
    ensures |idxs| == |blocks| == |left|
    ensures forall j | 0 <= j < |left| :: EncodeFullIdx(idxs[j]) == EncodeExtent(left[j]) && blocks[j] == left[j].block
  {
    hide EncodeExtent, DecodeIdx, EncodeFullIdx, DecodeHeader, LeafBytes, LeafList;
    ghost var rest := Zeros(|parentBuf| - HEADER_SIZE - |left| * ENTRY_SIZE);
    LeafBytesRead(left, max, rest);
    idxs, blocks := [], [];
    for i := 0 to DecodeHeader(parentBuf).entries
      invariant |idxs| == |blocks| == i
      invariant forall j | 0 <= j < i :: EncodeFullIdx(idxs[j]) == EncodeExtent(left[j]) && blocks[j] == left[j].block
    {
      EntryOf(left, max, rest, i);
      TwelveBytes(EncodeExtent(left[i]));
      ExtentRoundTrip(left[i]);
      var idx := DecodeIdx(Entry(parentBuf, i));
      idxs, blocks := idxs + [idx], blocks + [idx.block];
    }
  }

  /** Header and entries written back over the node. */
  method WriteIdxs(parentBuf: seq<byte>, h: Header, idxs: seq<Idx>, ghost list: seq<Extent>) returns (b: seq<byte>)
    requires |idxs| == |list| && HEADER_SIZE + |list| * ENTRY_SIZE <= |parentBuf|
    requires forall i | 0 <= i < |list| :: EncodeFullIdx(idxs[i]) == EncodeExtent(list[i])
    ensures b == Filled(Overwrite(parentBuf, 0, EncodeHeader(h)), list, |list|)
  {
    hide EncodeExtent, EncodeHeader, Holds, Filled, Overwrite, EncodeFullIdx;
    var buf := new byte[|parentBuf|](i requires 0 <= i < |parentBuf| => parentBuf[i]);
    assert buf[..] == parentBuf;
    PutBytes(buf, 0, EncodeHeader(h));
    IsOverwrite(parentBuf, buf[..], 0, EncodeHeader(h));
    ghost var was := buf[..];
    NoneFilled(was, list);
    for i := 0 to |idxs|
      invariant buf[..] == Filled(was, list, i)
    {
      ghost var mid := buf[..];
      PutBytes(buf, HEADER_SIZE + i * ENTRY_SIZE, EncodeFullIdx(idxs[i]));
      IsOverwrite(mid, buf[..], HEADER_SIZE + i * ENTRY_SIZE, EncodeExtent(list[i]));
      OneMore(was, list, i);
    }
    b := buf[..];
  }

  lemma MineIs(block: u32, child: nat)
    ensures EncodeFullIdx(Idx(block, child % 0x1_0000_0000, (child / 0x1_0000_0000) % 0x1_0000, 0)) == EncodeExtent(Stranger(block, child))
  {
    hide Put, EncodeExtent, DecodeExtent;
    TwelveBytes(EncodeIdx(block, child));
  }

  lemma ParentBytes(left: seq<Extent>, list: seq<Extent>, max: u16, size: nat, h: Header)
    requires |list| == |left| + 1 <= max && HEADER_SIZE + |list| * ENTRY_SIZE <= size && h == Header(EXT_MAGIC, |list|, max, 0, 0)
    ensures var parent := LeafBytes(left, max, Zeros(size - HEADER_SIZE - |left| * ENTRY_SIZE));
            Filled(Overwrite(parent, 0, EncodeHeader(h)), list, |list|) == LeafBytes(list, max, Zeros(size - HEADER_SIZE - |list| * ENTRY_SIZE))
  {
    hide EncodeExtent, EncodeHeader, EncodeExtents;
    var parent := LeafBytes(left, max, Zeros(size - HEADER_SIZE - |left| * ENTRY_SIZE));
    var b0 := Overwrite(parent, 0, EncodeHeader(h));
    assert b0[..HEADER_SIZE] == EncodeHeader(h);
    assert b0[HEADER_SIZE + |list| * ENTRY_SIZE..] == Zeros(size - HEADER_SIZE - |list| * ENTRY_SIZE);
    assert list[..|list|] == list;
  }
}
