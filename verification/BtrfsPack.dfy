/** Filling node buffers in place: writeItemsToLeaf and writePointersToNode (btrfs/writer.go). */
module BtrfsPack {
  import opened Wrappers
  import opened Bytes
  import opened BtrfsTypes
  import opened BtrfsFormat

  /** Items from i on have their data packed against the end of the buffer. */
  ghost predicate DataPacked(buf: seq<byte>, items: seq<Item>, i: nat) {
    forall j | i <= j < |items| :: DataAt(items, |buf|, j) >= 0 && Holds(buf, DataAt(items, |buf|, j), items[j].data)
  }

  /** The first n item headers are in place. */
  ghost predicate HeadersPacked(buf: seq<byte>, items: seq<Item>, n: nat) {
    forall j | 0 <= j < n <= |items| :: HeaderPacked(buf, items, j)
  }

  ghost predicate HeaderPacked(buf: seq<byte>, items: seq<Item>, j: nat) {
    && j < |items| && DataAt(items, |buf|, j) >= NODE_HEADER_SIZE
    && Holds(buf, NODE_HEADER_SIZE + j * ITEM_HEADER_SIZE,
             EncodeItemHeader(items[j].k, DataAt(items, |buf|, j) - NODE_HEADER_SIZE, |items[j].data|))
  }

  ghost predicate PtrsPacked(buf: seq<byte>, ptrs: seq<Ptr>, generation: u64, n: nat) {
    forall j | 0 <= j < n <= |ptrs| :: Holds(buf, NODE_HEADER_SIZE + j * KEY_PTR_SIZE, EncodePtr(ptrs[j], generation))
  }

  /** Node header fields the writer fills in, and the checksum over what follows byte 32. */
  ghost predicate Stamped(buf: seq<byte>, logical: u64, generation: u64, crc32c: seq<byte> -> u32) {
    && |buf| >= NODE_HEADER_SIZE
    && Holds(buf, 48, Put(logical, 8))
    && Holds(buf, 80, Put(generation, 8))
    && Holds(buf, 0, Put(crc32c(buf[32..]), 4))
  }

  /** Flags, the ids and whatever else of the header the writer does not fill in are the old ones. */
  ghost predicate HeaderKept(buf: seq<byte>, header: seq<byte>) {
    |buf| >= 101 && |header| >= 101
    && forall i | 4 <= i < 96 && !(48 <= i < 56) && !(80 <= i < 88) :: buf[i] == header[i]
  }

  ghost predicate SameFrom(b0: seq<byte>, b1: seq<byte>, from: nat) {
    |b0| == |b1| && forall i | from <= i < |b0| :: b1[i] == b0[i]
  }

  lemma DataPackedDecodes(buf: seq<byte>, items: seq<Item>)
    requires LeafSize(items) <= |buf| < 0x1_0000_0000
    requires DataPacked(buf, items, 0) && HeadersPacked(buf, items, |items|)
    ensures DecodeItems(buf, |items|) == Some(items)
  {
    hide DecodeItem, DecodeItems, EncodeItemHeader, DataAt, Holds, LeafSize;
    forall i | 0 <= i < |items| ensures DecodeItem(buf, i) == Some(items[i]) {
      assert HeaderPacked(buf, items, i);
      HeaderFits(items, |buf|, i);
      ItemRoundTrip(buf, i, items[i], DataAt(items, |buf|, i));
    }
    ItemsFromEach(buf, items, |items|);
    assert items[..|items|] == items;
  }

  lemma PtrsPackedDecodes(buf: seq<byte>, ptrs: seq<Ptr>, generation: u64)
    requires PtrsPacked(buf, ptrs, generation, |ptrs|)
    ensures DecodePtrs(buf, |ptrs|) == Some(ptrs)
  {
    hide DecodePtr, DecodePtrs;
    forall i | 0 <= i < |ptrs| ensures DecodePtr(buf, i) == Some(ptrs[i]) {
      PtrRoundTrip(buf, i, ptrs[i], generation);
    }
    PtrsFromEach(buf, ptrs, |ptrs|);
    assert ptrs[..|ptrs|] == ptrs;
  }

  lemma PackedSame(b0: seq<byte>, b1: seq<byte>, items: seq<Item>)
    requires SameFrom(b0, b1, 100) && LeafSize(items) <= |b0|
    requires DataPacked(b0, items, 0) && HeadersPacked(b0, items, |items|)
    ensures DataPacked(b1, items, 0) && HeadersPacked(b1, items, |items|)
  {
    forall j | 0 <= j < |items|
      ensures DataAt(items, |b1|, j) >= 0 && Holds(b1, DataAt(items, |b1|, j), items[j].data)
      ensures HeaderPacked(b1, items, j)
    {
      assert HeaderPacked(b0, items, j);
      StillHolds(b0, b1, 0, 100, DataAt(items, |b0|, j), items[j].data);
      StillHolds(b0, b1, 0, 100, NODE_HEADER_SIZE + j * ITEM_HEADER_SIZE,
                 EncodeItemHeader(items[j].k, DataAt(items, |b0|, j) - NODE_HEADER_SIZE, |items[j].data|));
    }
  }

  /** Data and headers each find room in the buffer, though they may run into one another. */
  predicate Writable(items: seq<Item>, size: nat) {
    DataSize(items) <= size && NODE_HEADER_SIZE + ITEM_HEADER_SIZE * |items| <= size
  }

  lemma FittingIsWritable(items: seq<Item>, size: nat)
    ensures LeafSize(items) <= size ==> Writable(items, size)
  {
  }

  /** The loop that copies item data, last item first. */
  method PackData(dst: array<byte>, items: seq<Item>) returns (dataPos: nat)
    requires DataSize(items) <= dst.Length
    modifies dst
    ensures dataPos == DataAt(items, dst.Length, 0)
    ensures DataPacked(dst[..], items, 0)
    ensures forall i | 0 <= i < dataPos :: dst[i] == old(dst[i])
  {
    dataPos := dst.Length;
    DataAtRises(items, dst.Length, 0, |items|);
    assert items[|items|..] == [] && items[0..] == items;
    for i := |items| downto 0
      invariant dataPos == DataAt(items, dst.Length, i)
      invariant DataPacked(dst[..], items, i)
      invariant forall j | 0 <= j < dataPos :: dst[j] == old(dst[j])
    {
      DataAtSteps(items, dst.Length, i);
      DataAtRises(items, dst.Length, 0, i);
      dataPos := dataPos - |items[i].data|;
      ghost var b0 := dst[..];
      PutBytes(dst, dataPos, items[i].data);
      ghost var b1 := dst[..];
      forall j | i < j < |items| ensures Holds(b1, DataAt(items, |b1|, j), items[j].data) {
        DataAtRises(items, dst.Length, i + 1, j);
        StillHolds(b0, b1, dataPos, |items[i].data|, DataAt(items, |b1|, j), items[j].data);
      }
    }
  }

  /** The loop that writes item headers, first item first; they spoil the data if the leaf is too long. */
  method PackHeaders(dst: array<byte>, items: seq<Item>, dataPos: nat)
    requires Writable(items, dst.Length) && dst.Length < 0x1_0000_0000 && dataPos == DataAt(items, dst.Length, 0)
    requires DataPacked(dst[..], items, 0)
    modifies dst
    ensures LeafSize(items) <= dst.Length ==> DataPacked(dst[..], items, 0) && HeadersPacked(dst[..], items, |items|)
    ensures forall i | 0 <= i < NODE_HEADER_SIZE :: dst[i] == old(dst[i])
  {
    hide DataAt, LeafSize, DataPacked, HeadersPacked, HeaderPacked, Holds, EncodeItemHeader;
    NoHeaders(dst[..], items);
    var curDataOff := dataPos;
    for i := 0 to |items|
      invariant curDataOff == DataAt(items, dst.Length, i)
      invariant LeafSize(items) <= dst.Length ==> DataPacked(dst[..], items, 0) && HeadersPacked(dst[..], items, i)
      invariant forall j | 0 <= j < NODE_HEADER_SIZE :: dst[j] == old(dst[j])
    {
      DataAtSteps(items, dst.Length, i);
      var off := NODE_HEADER_SIZE + i * ITEM_HEADER_SIZE;
      ghost var b0 := dst[..];
      var relOff := (curDataOff - NODE_HEADER_SIZE) % 0x1_0000_0000;
      PutBytes(dst, off, EncodeItemHeader(items[i].k, relOff, |items[i].data|));
      if LeafSize(items) <= dst.Length {
        HeaderFits(items, dst.Length, i);
        IsHeader(dst[..], items, i);
        HeaderStep(b0, dst[..], items, i);
      }
      curDataOff := curDataOff + |items[i].data|;
    }
  }

  lemma NoHeaders(buf: seq<byte>, items: seq<Item>)
    requires Writable(items, |buf|)
    ensures HeadersPacked(buf, items, 0) && NODE_HEADER_SIZE <= |buf|
  {
  }

  /** Header i ends before the data begins, and the next data starts behind this one. */
  lemma HeaderFits(items: seq<Item>, n: nat, i: nat)
    requires LeafSize(items) <= n && i < |items|
    ensures NODE_HEADER_SIZE + (i + 1) * ITEM_HEADER_SIZE <= DataAt(items, n, i) && DataAt(items, n, i) + |items[i].data| <= n
    ensures DataAt(items, n, i + 1) == DataAt(items, n, i) + |items[i].data|
  {
    assert items[0..] == items;
    DataAtSteps(items, n, i);
    DataAtRises(items, n, 0, i);
  }

  lemma IsHeader(buf: seq<byte>, items: seq<Item>, i: nat)
    requires i < |items| && DataAt(items, |buf|, i) >= NODE_HEADER_SIZE
    requires Holds(buf, NODE_HEADER_SIZE + i * ITEM_HEADER_SIZE,
                   EncodeItemHeader(items[i].k, DataAt(items, |buf|, i) - NODE_HEADER_SIZE, |items[i].data|))
    ensures HeaderPacked(buf, items, i)
  {
  }

  lemma HeaderStep(b0: seq<byte>, b1: seq<byte>, items: seq<Item>, i: nat)
    requires i < |items| && |b0| == |b1| && LeafSize(items) <= |b0|
    requires DataPacked(b0, items, 0) && HeadersPacked(b0, items, i) && HeaderPacked(b1, items, i)
    requires var off := NODE_HEADER_SIZE + i * ITEM_HEADER_SIZE;
             forall x | 0 <= x < |b0| && !(off <= x < off + ITEM_HEADER_SIZE) :: b1[x] == b0[x]
    ensures DataPacked(b1, items, 0) && HeadersPacked(b1, items, i + 1)
  {
    hide EncodeItemHeader;
    var off := NODE_HEADER_SIZE + i * ITEM_HEADER_SIZE;
    assert items[0..] == items;
    forall j | 0 <= j < |items| ensures Holds(b1, DataAt(items, |b1|, j), items[j].data) {
      DataAtRises(items, |b0|, 0, j);
      StillHolds(b0, b1, off, ITEM_HEADER_SIZE, DataAt(items, |b1|, j), items[j].data);
    }
    forall j | 0 <= j < i + 1 ensures HeaderPacked(b1, items, j) {
      if j < i {
        assert HeaderPacked(b0, items, j);
        StillHolds(b0, b1, off, ITEM_HEADER_SIZE, NODE_HEADER_SIZE + j * ITEM_HEADER_SIZE,
                   EncodeItemHeader(items[j].k, DataAt(items, |b0|, j) - NODE_HEADER_SIZE, |items[j].data|));
      }
    }
  }

  /** Item count, generation, address and checksum. */
  method Stamp(dst: array<byte>, count: u32, logical: u64, generation: u64, crc32c: seq<byte> -> u32)
    requires dst.Length >= NODE_HEADER_SIZE
    modifies dst
    ensures Stamped(dst[..], logical, generation, crc32c)
    ensures NrItems(dst[..]) == count
    ensures SameFrom(old(dst[..]), dst[..], 100) && HeaderKept(dst[..], old(dst[..]))
  {
    PutBytes(dst, 96, Put(count, 4));
    ghost var b0 := dst[..];
    PutBytes(dst, 80, Put(generation, 8));
    ghost var b1 := dst[..];
    StillHolds(b0, b1, 80, 8, 96, Put(count, 4));
    PutBytes(dst, 48, Put(logical, 8));
    ghost var b2 := dst[..];
    StillHolds(b1, b2, 48, 8, 96, Put(count, 4));
    StillHolds(b1, b2, 48, 8, 80, Put(generation, 8));
    var csum := crc32c(dst[32..]);
    PutBytes(dst, 0, Put(csum, 4));
    ghost var b3 := dst[..];
    StillHolds(b2, b3, 0, 4, 96, Put(count, 4));
    StillHolds(b2, b3, 0, 4, 80, Put(generation, 8));
    StillHolds(b2, b3, 0, 4, 48, Put(logical, 8));
    assert b3[32..] == b2[32..] == dst[32..];
    GetPutFixed(count);
  }

  /**
   A leaf buffer with the given items, or none where a copy leaves the buffer and the program
   stops. If the items fit, the header bytes the writer does not fill in, the level among them,
   come from the node's old bytes; if not, headers, data and those bytes may overwrite one another.
   */
  method PackLeaf(header: seq<byte>, items: seq<Item>, size: nat, logical: u64, generation: u64,
                  crc32c: seq<byte> -> u32) returns (r: Option<seq<byte>>)
    requires |header| >= NODE_HEADER_SIZE && NODE_HEADER_SIZE <= size < 0x1_0000_0000
    ensures r.Some? <==> Writable(items, size)
    ensures r.Some? ==> |r.value| == size && NrItems(r.value) == |items| && Stamped(r.value, logical, generation, crc32c)
    ensures LeafSize(items) <= size ==>
              && r.Some? && Level(r.value) == Level(header) && DecodeItems(r.value, |items|) == Some(items)
              && HeaderKept(r.value, header)
  {
    hide Holds, DataPacked, HeadersPacked, DecodeItems, Stamped, NrItems, DataAt;
    FittingIsWritable(items, size);
    if DataSize(items) > size || NODE_HEADER_SIZE + ITEM_HEADER_SIZE * |items| > size {
      return None;
    }
    var dst := new byte[size](_ => 0);
    PutBytes(dst, 0, header[..NODE_HEADER_SIZE]);
    HeaderCopied(dst[..], header);
    var dataPos := PackData(dst, items);
    DataBehind(items, size);
    PackHeaders(dst, items, dataPos);
    ghost var b0 := dst[..];
    Stamp(dst, |items|, logical, generation, crc32c);
    r := Some(dst[..]);
    if LeafSize(items) <= size {
      PackedSame(b0, dst[..], items);
      DataPackedDecodes(dst[..], items);
    }
  }

  lemma HeaderCopied(buf: seq<byte>, header: seq<byte>)
    requires |header| >= NODE_HEADER_SIZE && Holds(buf, 0, header[..NODE_HEADER_SIZE])
    ensures |buf| >= NODE_HEADER_SIZE && forall i | 0 <= i < NODE_HEADER_SIZE :: buf[i] == header[i]
  {
    forall i | 0 <= i < NODE_HEADER_SIZE ensures buf[i] == header[i] {
      assert buf[i] == buf[0..NODE_HEADER_SIZE][i] == header[..NODE_HEADER_SIZE][i];
    }
  }

  lemma DataBehind(items: seq<Item>, size: nat)
    ensures LeafSize(items) <= size ==> DataAt(items, size, 0) >= NODE_HEADER_SIZE
  {
    assert items[0..] == items;
  }

  /** An index node's buffer: the level is written, other header bytes come from the old node. */
  method PackIndex(header: seq<byte>, ptrs: seq<Ptr>, level: byte, size: nat, logical: u64, generation: u64,
                   crc32c: seq<byte> -> u32) returns (buf: seq<byte>)
    requires |header| >= NODE_HEADER_SIZE && IndexSize(|ptrs|) <= size < 0x1_0000_0000
    ensures |buf| == size && Level(buf) == level && NrItems(buf) == |ptrs|
    ensures DecodePtrs(buf, |ptrs|) == Some(ptrs)
    ensures Stamped(buf, logical, generation, crc32c) && HeaderKept(buf, header) && PtrsPacked(buf, ptrs, generation, |ptrs|)
  {
    var dst := new byte[size](_ => 0);
    PutBytes(dst, 0, header[..NODE_HEADER_SIZE]);
    HeaderCopied(dst[..], header);
    dst[100] := level;
    for i := 0 to |ptrs|
      invariant PtrsPacked(dst[..], ptrs, generation, i) && dst[100] == level
      invariant forall j | 0 <= j < 100 :: dst[j] == header[j]
    {
      hide EncodePtr;
      ghost var b0 := dst[..];
      PutBytes(dst, NODE_HEADER_SIZE + i * KEY_PTR_SIZE, EncodePtr(ptrs[i], generation));
      PtrStep(b0, dst[..], ptrs, generation, i);
    }
    ghost var b0 := dst[..];
    Stamp(dst, |ptrs|, logical, generation, crc32c);
    buf := dst[..];
    forall j | 0 <= j < |ptrs| ensures Holds(buf, NODE_HEADER_SIZE + j * KEY_PTR_SIZE, EncodePtr(ptrs[j], generation)) {
      StillHolds(b0, buf, 0, 100, NODE_HEADER_SIZE + j * KEY_PTR_SIZE, EncodePtr(ptrs[j], generation));
    }
    PtrsPackedDecodes(buf, ptrs, generation);
  }

  lemma PtrStep(b0: seq<byte>, b1: seq<byte>, ptrs: seq<Ptr>, generation: u64, i: nat)
    requires i < |ptrs| && |b0| == |b1| && PtrsPacked(b0, ptrs, generation, i)
    requires var off := NODE_HEADER_SIZE + i * KEY_PTR_SIZE;
             && Holds(b1, off, EncodePtr(ptrs[i], generation))
             && forall x | 0 <= x < |b0| && !(off <= x < off + KEY_PTR_SIZE) :: b1[x] == b0[x]
    ensures PtrsPacked(b1, ptrs, generation, i + 1)
  {
    hide EncodePtr;
    forall j | 0 <= j < i ensures Holds(b1, NODE_HEADER_SIZE + j * KEY_PTR_SIZE, EncodePtr(ptrs[j], generation)) {
      StillHolds(b0, b1, NODE_HEADER_SIZE + i * KEY_PTR_SIZE, KEY_PTR_SIZE, NODE_HEADER_SIZE + j * KEY_PTR_SIZE,
                 EncodePtr(ptrs[j], generation));
    }
  }
}
