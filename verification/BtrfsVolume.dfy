/**
 The mounted volume: device bytes, tree root and allocation records, and the writer's
 operations on them (btrfs/writer.go).
 */
module BtrfsVolume {
  import opened Wrappers
  import opened Bytes
  import opened BtrfsTypes
  import opened BtrfsTree
  import opened BtrfsPath
  import opened BtrfsInsert
  import opened BtrfsClimb
  import opened BtrfsMeaning
  import opened BtrfsFormat
  import opened BtrfsPack
  import opened BtrfsSpace
  import BtrfsSplit
  import Arith

  const METADATA: bv64 := 4
  const EXTENT_DATA: byte := 108
  const INLINE: byte := 0

  /** The space outside the tree that a file's extent item refers to. */
  function RangeOf(it: Item): seq<Range> {
    if it.k.typ == EXTENT_DATA && |it.data| >= 45 && it.data[20] != INLINE
       && Get64(it.data[21..29]) > 0 && Get64(it.data[29..37]) > 0
    then [Range(Get64(it.data[21..29]), Get64(it.data[29..37]))] else []
  }

  /** What allocateSpace collects on its walk over the file tree. */
  function FileRanges(items: seq<Item>): seq<Range> {
    if items == [] then [] else FileRanges(items[..|items| - 1]) + RangeOf(items[|items| - 1])
  }

  /** The item is a file extent that is not inline, and r the space it names. */
  ghost predicate Names(it: Item, r: Range) {
    && it.k.typ == 108 && |it.data| >= 45 && it.data[20] != 0
    && r.logical == Le64(it.data, 21) > 0 && r.length == Le64(it.data, 29) > 0
  }

  lemma RangeOfNames(it: Item, r: Range)
    ensures r in RangeOf(it) <==> Names(it, r)
  {
    hide Get64;
    if |it.data| >= 45 {
      Get64Is(it.data, 21);
      Get64Is(it.data, 29);
    }
  }

  /** The ranges collected are those the file extents among the items name, and no others. */
  lemma {:induction false} FileRangesExact(items: seq<Item>, r: Range)
    ensures r in FileRanges(items) <==> exists i :: 0 <= i < |items| && Names(items[i], r)
  {
    hide RangeOf, Names;
    if items != [] {
      var rest, last := items[..|items| - 1], items[|items| - 1];
      FileRangesExact(rest, r);
      RangeOfNames(last, r);
      if Names(last, r) {
        assert Names(items[|items| - 1], r);
      }
      if i :| 0 <= i < |rest| && Names(rest[i], r) {
        assert Names(items[i], r);
      }
      if i :| 0 <= i < |items| && Names(items[i], r) {
        assert i < |rest| ==> Names(rest[i], r);
      }
    }
  }

  /** No item names space that the n bytes at x touch. */
  ghost predicate MissesFiles(items: seq<Item>, x: nat, n: nat) {
    forall i, r: Range | 0 <= i < |items| && Names(items[i], r) :: Apart(x, n, r.logical, r.length)
  }

  ghost predicate MissesRanges(ranges: seq<Range>, x: nat, n: nat) {
    forall r | r in ranges && r.length > 0 :: Apart(x, n, r.logical, r.length)
  }

  lemma ClearMisses(items: seq<Item>, x: nat, size: nat, n: nat, more: seq<Range>)
    requires Clear(x, size, more + FileRanges(items)) && 0 < n <= size
    ensures MissesFiles(items, x, n) && MissesRanges(more, x, n)
  {
    hide FileRanges, Names;
    forall i, r: Range | 0 <= i < |items| && Names(items[i], r) ensures Apart(x, n, r.logical, r.length) {
      FileRangesExact(items, r);
      assert r in more + FileRanges(items);
      assert !Clash(x, size, r);
      assert r.length > 0 by {
        NamedLength(items[i], r);
      }
    }
    forall r | r in more && r.length > 0 ensures Apart(x, n, r.logical, r.length) {
      assert r in more + FileRanges(items) && !Clash(x, size, r);
    }
  }

  lemma NamedLength(it: Item, r: Range)
    requires Names(it, r)
    ensures r.length > 0
  {
  }

  /** The n bytes at x are in the first metadata chunk, at its start or at a sector boundary. */
  ghost predicate MetadataPlace(chunks: seq<Chunk>, sectorSize: nat, x: nat, n: nat, i: nat) {
    && Serves(chunks, 4, i) && InChunk(chunks, i, x, n)
    && (x == chunks[i].logical || x % (if sectorSize == 0 then 4096 else sectorSize) == 0)
  }

  /** The bytes of a node at physical address p. */
  function NodeBytes(dev: seq<byte>, p: nat, nodeSize: nat): seq<byte>
    requires p + nodeSize <= |dev|
  {
    dev[p..p + nodeSize]
  }

  lemma OverwriteElsewhere(dev: seq<byte>, p: nat, buf: seq<byte>, q: nat, n: nat)
    requires p + |buf| <= |dev| && q + n <= |dev| && Apart(p, |buf|, q, n)
    ensures Overwrite(dev, p, buf)[q..q + n] == dev[q..q + n]
  {
    hide Overwrite;
    forall i | q <= i < q + n ensures Overwrite(dev, p, buf)[i] == dev[i] {
      OverwriteByte(dev, p, buf, i);
    }
  }

  lemma OverwriteSame(dev: seq<byte>, p: nat, buf: seq<byte>)
    requires p + |buf| <= |dev|
    ensures Overwrite(dev, p, buf)[p..p + |buf|] == buf
  {
    hide Overwrite;
    forall i | p <= i < p + |buf| ensures Overwrite(dev, p, buf)[i] == buf[i - p] {
      OverwriteByte(dev, p, buf, i);
    }
  }

  /** On device dev the node at address a is mapped and reads back as node. */
  ghost predicate Reads(dev: seq<byte>, chunks: seq<Chunk>, nodeSize: nat, a: nat, node: Node) {
    && nodeSize >= NODE_HEADER_SIZE && Mapped(chunks, a, nodeSize)
    && Resolve(chunks, a).Some? && Resolve(chunks, a).value + nodeSize <= |dev|
    && DecodeNode(NodeBytes(dev, Resolve(chunks, a).value, nodeSize)) == node
  }

  /** Every node of the heap is on the device, and no two share a byte. */
  ghost predicate Stored(dev: seq<byte>, chunks: seq<Chunk>, nodeSize: nat, nodes: Heap) {
    && (forall a | a in nodes :: Reads(dev, chunks, nodeSize, a, nodes[a]))
    && forall a, b | a in nodes && b in nodes && a != b :: Apart(a, nodeSize, b, nodeSize)
  }

  /** The byte a logical address stands for. */
  ghost function ByteOf(dev: seq<byte>, chunks: seq<Chunk>, x: nat): Option<byte> {
    var r := Resolve(chunks, x);
    if r.Some? && r.value < |dev| then Some(dev[r.value]) else None
  }

  /** No byte outside these nodes, file data above all, differs between the devices. */
  ghost predicate Spared(dev0: seq<byte>, dev1: seq<byte>, chunks: seq<Chunk>, nodeSize: nat, nodes: Heap) {
    && |dev1| == |dev0|
    && forall x: nat | Mapped(chunks, x, 1) && (forall b | b in nodes :: Apart(b, nodeSize, x, 1)) ::
         ByteOf(dev1, chunks, x) == ByteOf(dev0, chunks, x)
  }

  lemma SparedTwice(dev0: seq<byte>, dev1: seq<byte>, nodes1: Heap, dev2: seq<byte>, nodes2: Heap, chunks: seq<Chunk>, nodeSize: nat)
    requires Spared(dev0, dev1, chunks, nodeSize, nodes1) && Spared(dev1, dev2, chunks, nodeSize, nodes2)
    requires forall a | a in nodes1 :: a in nodes2
    ensures Spared(dev0, dev2, chunks, nodeSize, nodes2)
  {
    hide Mapped, Apart, ByteOf;
    forall x: nat | Mapped(chunks, x, 1) && (forall b | b in nodes2 :: Apart(b, nodeSize, x, 1))
      ensures ByteOf(dev2, chunks, x) == ByteOf(dev0, chunks, x)
    {
      assert ByteOf(dev2, chunks, x) == ByteOf(dev1, chunks, x);
    }
  }

  lemma SparedSame(dev: seq<byte>, chunks: seq<Chunk>, nodeSize: nat, nodes: Heap)
    ensures Spared(dev, dev, chunks, nodeSize, nodes)
  {
  }

  lemma WriteSpares(dev: seq<byte>, chunks: seq<Chunk>, nodeSize: nat, nodes: Heap, logical: u64, buf: seq<byte>)
    requires ChunksOk(chunks, |dev|) && |buf| == nodeSize > 0 && Mapped(chunks, logical, nodeSize) && logical in nodes
    requires Resolve(chunks, logical).Some? && Resolve(chunks, logical).value + nodeSize <= |dev|
    ensures Spared(dev, Overwrite(dev, Resolve(chunks, logical).value, buf), chunks, nodeSize, nodes)
  {
    hide Overwrite, ChunksOk, Resolve, Mapped;
    var dev1 := Overwrite(dev, Resolve(chunks, logical).value, buf);
    forall x: nat | Mapped(chunks, x, 1) && (forall b | b in nodes :: Apart(b, nodeSize, x, 1))
      ensures ByteOf(dev1, chunks, x) == ByteOf(dev, chunks, x)
    {
      ByteApart(chunks, |dev|, logical, nodeSize, x);
      OverwriteByte(dev, Resolve(chunks, logical).value, buf, Resolve(chunks, x).value);
    }
  }

  /** The allocator knows of every node. */
  ghost predicate Recorded(extents: seq<Range>, nodeSize: nat, nodes: Heap) {
    forall a | a in nodes :: Range(a, nodeSize) in extents
  }

  lemma WriteStored(dev: seq<byte>, chunks: seq<Chunk>, nodeSize: nat, nodes: Heap, a: nat, buf: seq<byte>)
    requires ChunksOk(chunks, |dev|) && Stored(dev, chunks, nodeSize, nodes)
    requires |buf| == nodeSize >= NODE_HEADER_SIZE && Mapped(chunks, a, nodeSize)
    requires forall b | b in nodes && b != a :: Apart(a, nodeSize, b, nodeSize)
    ensures Resolve(chunks, a).Some? && Resolve(chunks, a).value + nodeSize <= |dev|
    ensures Stored(Overwrite(dev, Resolve(chunks, a).value, buf), chunks, nodeSize, nodes[a := DecodeNode(buf)])
  {
    hide DecodeNode, Resolve, ChunksOk;
    ResolveMapped(chunks, |dev|, a, nodeSize);
    var p := Resolve(chunks, a).value;
    var dev1, nodes1 := Overwrite(dev, p, buf), nodes[a := DecodeNode(buf)];
    forall b | b in nodes1 ensures Reads(dev1, chunks, nodeSize, b, nodes1[b]) {
      if b == a {
        OverwriteSame(dev, p, buf);
      } else {
        assert Reads(dev, chunks, nodeSize, b, nodes[b]);
        ResolveApart(chunks, |dev|, a, b, nodeSize);
        OverwriteElsewhere(dev, p, buf, Resolve(chunks, b).value, nodeSize);
      }
    }
  }

  /** A clear range that the records do not touch is apart from every recorded node. */
  lemma ClearIsApart(extents: seq<Range>, more: seq<Range>, nodeSize: nat, nodes: Heap, x: nat, size: nat)
    requires Recorded(extents, nodeSize, nodes) && Clear(x, size, extents + more) && size >= nodeSize > 0
    ensures x !in nodes
    ensures forall b | b in nodes :: Apart(x, nodeSize, b, nodeSize)
  {
    forall b | b in nodes ensures Apart(x, nodeSize, b, nodeSize) && b != x {
      var r := Range(b, nodeSize);
      assert r in extents + more && !Clash(x, size, r);
    }
  }

  class FileSystem {
    const nodeSize: nat
    const sectorSize: nat
    const generation: u64
    const chunks: seq<Chunk>
    const crc32c: seq<byte> -> u32
    var dev: seq<byte>
    var fsRoot: u64
    var fsRootLvl: byte
    var extents: seq<Range>
    ghost var nodes: Heap

    ghost predicate Mounted()
      reads this
    {
      && 4096 <= nodeSize <= 65536
      && ChunksOk(chunks, |dev|)
      && Stored(dev, chunks, nodeSize, nodes)
    }

    ghost predicate Valid()
      reads this
    {
      Mounted() && Recorded(extents, nodeSize, nodes)
    }

    constructor (dev: seq<byte>, nodeSize: nat, sectorSize: nat, generation: u64, chunks: seq<Chunk>,
                 crc32c: seq<byte> -> u32, fsRoot: u64, fsRootLvl: byte, extents: seq<Range>, ghost nodes: Heap)
      requires 4096 <= nodeSize <= 65536 && ChunksOk(chunks, |dev|)
      requires Stored(dev, chunks, nodeSize, nodes) && Recorded(extents, nodeSize, nodes)
      ensures Valid()
      ensures this.dev == dev && this.nodeSize == nodeSize && this.chunks == chunks && this.nodes == nodes
      ensures this.fsRoot == fsRoot && this.fsRootLvl == fsRootLvl && this.extents == extents
      ensures this.sectorSize == sectorSize && this.generation == generation && this.crc32c == crc32c
    {
      this.dev, this.nodeSize, this.sectorSize, this.generation := dev, nodeSize, sectorSize, generation;
      this.chunks, this.crc32c, this.fsRoot, this.fsRootLvl := chunks, crc32c, fsRoot, fsRootLvl;
      this.extents, this.nodes := extents, nodes;
    }

    // ----- node access -----

    method ReadNode(logical: u64) returns (buf: seq<byte>)
      requires Mounted() && logical in nodes
      ensures |buf| == nodeSize && DecodeNode(buf) == nodes[logical]
    {
      assert Reads(dev, chunks, nodeSize, logical, nodes[logical]);
      var phys := Resolve(chunks, logical).value;
      buf := NodeBytes(dev, phys, nodeSize);
    }

    method WriteNode(logical: u64, buf: seq<byte>)
      requires Mounted() && |buf| == nodeSize && Mapped(chunks, logical, nodeSize)
      requires forall b | b in nodes && b != logical :: Apart(logical, nodeSize, b, nodeSize)
      modifies this`dev, this`nodes
      ensures Mounted() && nodes == old(nodes)[logical := DecodeNode(buf)] && |dev| == old(|dev|)
      ensures Resolve(chunks, logical).Some? && Resolve(chunks, logical).value + nodeSize <= |dev|
      ensures dev == Overwrite(old(dev), Resolve(chunks, logical).value, buf)
      ensures Spared(old(dev), dev, chunks, nodeSize, nodes)
      ensures NodeBytes(dev, Resolve(chunks, logical).value, nodeSize) == buf
    {
      hide Overwrite, DecodeNode, ChunksOk, Spared, Resolve;
      WriteStored(dev, chunks, nodeSize, nodes, logical, buf);
      OverwriteSame(dev, Resolve(chunks, logical).value, buf);
      ghost var dev0 := dev;
      dev := Overwrite(dev, Resolve(chunks, logical).value, buf);
      nodes := nodes[logical := DecodeNode(buf)];
      WriteSpares(dev0, chunks, nodeSize, nodes, logical, buf);
    }

    lemma WriteLive(logical: u64)
      requires Mounted() && logical in nodes
      ensures Mapped(chunks, logical, nodeSize)
      ensures forall b | b in nodes && b != logical :: Apart(logical, nodeSize, b, nodeSize)
    {
      assert Reads(dev, chunks, nodeSize, logical, nodes[logical]);
    }

    // ----- space -----

    /** registerExtent with a loaded extent tree: the range becomes known to the allocator. */
    method RegisterExtent(logical: nat, length: nat)
      modifies this`extents
      ensures extents == old(extents) + [Range(logical, length)]
    {
      extents := extents + [Range(logical, length)];
    }

    // ----- descent -----

    /** The loop over an index node's pointers that picks the child for k. */
    static method ChooseSlot(buf: seq<byte>, k: Key) returns (bestPtr: u64, bestIdx: nat)
      requires |buf| >= NODE_HEADER_SIZE && DecodeNode(buf).Index? && DecodeNode(buf).ptrs != []
      ensures Chosen(DecodeNode(buf).ptrs, k, bestIdx) && bestPtr == DecodeNode(buf).ptrs[bestIdx].addr
    {
      ghost var ptrs := DecodeNode(buf).ptrs;
      bestPtr, bestIdx := 0, 0;
      PtrCount(buf, NrItems(buf));
      for i := 0 to NrItems(buf)
        invariant i > 0 ==> bestIdx < i && bestPtr == ptrs[bestIdx].addr
        invariant i > 0 ==> bestIdx == 0 || !Less(k, ptrs[bestIdx].k)
        invariant forall j | bestIdx < j < i :: Less(k, ptrs[j].k)
      {
        PtrAt(buf, NrItems(buf), i);
        var p := DecodePtr(buf, i).value;
        if i == 0 || !Less(k, p.k) {
          bestPtr, bestIdx := p.addr, i;
        }
      }
    }

    /** findLeaf: the address of the leaf for k. */
    method FindLeaf(root: u64, lvl: byte, k: Key, ghost lo: Key, ghost hi: Option<Key>, ghost left: bool)
      returns (leaf: u64)
      requires Mounted() && BtrfsTree.Valid(nodeSize, nodes, root, lvl, lo, hi, left)
      ensures leaf == LeafFor(nodes, root, lvl, k)
      decreases lvl
    {
      hide ValidAll, LeafOrder, DecodeNode, ChunksOk, Stored, Chosen;
      if lvl == 0 {
        return root;
      }
      var buf := ReadNode(root);
      NodeLevel(buf);
      if Level(buf) == 0 {
        return root;
      }
      ghost var ptrs := nodes[root].ptrs;
      var bestPtr, i := ChooseSlot(buf, k);
      SlotUnique(ptrs, k, i);
      ChildValid(nodeSize, nodes, root, lvl, lo, hi, left, i);
      if bestPtr == 0 {
        return root;
      }
      leaf := FindLeaf(bestPtr, Level(buf) - 1, k, ptrs[i].k, FirstOr(ptrs[i + 1..], hi), left && i == 0);
    }

    /** One turn of findLeafWithPath's loop: the path element for curr and the child it leads to. */
    method DescendOne(curr: u64, currLvl: byte, k: Key, ghost lo: Key, ghost hi: Option<Key>, ghost left: bool)
      returns (here: PathElement, child: u64, ghost clo: Key, ghost chi: Option<Key>, ghost cleft: bool)
      requires Mounted() && currLvl > 0 && BtrfsTree.Valid(nodeSize, nodes, curr, currLvl, lo, hi, left)
      ensures here.logical == curr && here.level == currLvl && Resolve(chunks, curr) == Some(here.phys)
      ensures curr in nodes && nodes[curr].Index? && Chosen(nodes[curr].ptrs, k, here.index)
      ensures child == nodes[curr].ptrs[here.index].addr
      ensures BtrfsTree.Valid(nodeSize, nodes, child, currLvl - 1, clo, chi, cleft) && child != 0
    {
      hide ValidAll, LeafOrder, DecodeNode, ChunksOk, Stored;
      Resolved(curr);
      var phys := Resolve(chunks, curr);
      var buf := ReadNode(curr);
      ghost var ptrs := nodes[curr].ptrs;
      var bestPtr, bestIdx := ChooseSlot(buf, k);
      ChildValid(nodeSize, nodes, curr, currLvl, lo, hi, left, bestIdx);
      here := PathElement(curr, if phys.Some? then phys.value else 0, currLvl, bestIdx);
      child := bestPtr;
      clo, chi, cleft := ptrs[bestIdx].k, FirstOr(ptrs[bestIdx + 1..], hi), left && bestIdx == 0;
    }

    lemma Resolved(logical: u64)
      requires Mounted() && logical in nodes
      ensures Resolve(chunks, logical).Some?
    {
      assert Reads(dev, chunks, nodeSize, logical, nodes[logical]);
    }

    /** findLeafWithPath: the nodes from the root down to the leaf for k. */
    method FindLeafWithPath(root: u64, lvl: byte, k: Key, ghost lo: Key, ghost left: bool)
      returns (path: seq<PathElement>)
      requires Mounted() && BtrfsTree.Valid(nodeSize, nodes, root, lvl, lo, None, left)
      ensures PathOk(nodes, path, lvl, k) && path[0].logical == root
      ensures path[lvl].logical == LeafFor(nodes, root, lvl, k) && path[lvl].index == -1
      ensures forall j | 0 <= j <= lvl :: Resolve(chunks, path[j].logical) == Some(path[j].phys)
    {
      path := [];
      var curr, currLvl := root, lvl;
      ghost var lo1, hi1, left1 := lo, None, left;
      PathStarts(nodes, root, lvl, k);
      hide BtrfsTree.Valid, Mounted, Resolve, StepOk, PathUpTo, PathOk, Chosen, LeafFor;
      while currLvl > 0
        invariant |path| == lvl - currLvl
        invariant forall j | 0 <= j < |path| :: Resolve(chunks, path[j].logical) == Some(path[j].phys)
        invariant PathUpTo(nodes, path, root, lvl, curr, k)
        invariant BtrfsTree.Valid(nodeSize, nodes, curr, currLvl, lo1, hi1, left1)
      {
        var here, bestPtr, clo, chi, cleft := DescendOne(curr, currLvl, k, lo1, hi1, left1);
        PathExtend(nodes, path, root, lvl, here, bestPtr, k);
        path := path + [here];
        if bestPtr == 0 {
          break;
        }
        lo1, hi1, left1 := clo, chi, cleft;
        curr := bestPtr;
        currLvl := currLvl - 1;
      }
      var physLeaf := Resolve(chunks, curr);
      var leaf := PathElement(curr, if physLeaf.Some? then physLeaf.value else 0, 0, -1);
      LeafIsLeaf(nodeSize, nodes, curr, lo1, hi1, left1);
      Resolved(curr);
      PathEnds(nodes, path, root, leaf, lvl, k);
      path := path + [leaf];
      PathPasses(nodes, path, lvl, k);
    }

    // ----- reading and writing whole nodes -----

    /** The level byte now on the device where a node at the address would lie. */
    ghost function LevelAt(logical: nat): byte
      requires Mounted() && Mapped(chunks, logical, nodeSize)
      reads this
    {
      ResolveMapped(chunks, |dev|, logical, nodeSize);
      dev[Resolve(chunks, logical).value + 100]
    }

    lemma LiveLevel(logical: nat)
      requires Mounted() && logical in nodes && nodes[logical].Leaf?
      ensures Mapped(chunks, logical, nodeSize) && LevelAt(logical) == 0
    {
      hide DecodeNode, ChunksOk;
      assert Reads(dev, chunks, nodeSize, logical, nodes[logical]);
      ResolveMapped(chunks, |dev|, logical, nodeSize);
      var b := NodeBytes(dev, Resolve(chunks, logical).value, nodeSize);
      NodeLevel(b);
      assert b[100] == dev[Resolve(chunks, logical).value + 100];
    }

    /** The bytes now on the device where a node at the address would lie. */
    ghost function BytesAt(logical: nat): (b: seq<byte>)
      requires Mounted() && Mapped(chunks, logical, nodeSize)
      ensures |b| == nodeSize
      reads this
    {
      ResolveMapped(chunks, |dev|, logical, nodeSize);
      NodeBytes(dev, Resolve(chunks, logical).value, nodeSize)
    }

    /** The loop that takes a leaf's items out of its buffer. */
    static method ReadItems(buf: seq<byte>) returns (r: Option<seq<Item>>)
      requires |buf| >= NODE_HEADER_SIZE
      ensures DecodeNode(buf).Leaf? ==> r == Some(DecodeNode(buf).items)
    {
      hide DecodeNode, DecodeItem, DecodeItems;
      NodeLevel(buf);
      var nritems := NrItems(buf);
      var items: seq<Item> := [];
      if DecodeItems(buf, nritems).Some? {
        ItemCount(buf, nritems);
      }
      for i := 0 to nritems
        invariant |items| == i
        invariant DecodeItems(buf, nritems).Some? ==> items == DecodeItems(buf, nritems).value[..i]
      {
        if DecodeItems(buf, nritems).Some? {
          ItemAt(buf, nritems, i);
        }
        var off := NODE_HEADER_SIZE + i * ITEM_HEADER_SIZE;
        if off + ITEM_HEADER_SIZE > |buf| {
          HeaderCut(buf, i);
          return Some(items);
        }
        var it := DecodeItem(buf, i);
        if it.None? {
          return None;
        }
        items := items + [it.value];
      }
      if DecodeItems(buf, nritems).Some? {
        assert DecodeItems(buf, nritems).value[..nritems] == DecodeItems(buf, nritems).value;
      }
      r := Some(items);
    }

    static lemma HeaderCut(buf: seq<byte>, i: nat)
      requires NODE_HEADER_SIZE + i * ITEM_HEADER_SIZE + ITEM_HEADER_SIZE > |buf|
      ensures DecodeItem(buf, i).None?
    {
    }

    /** The loop that takes an index node's pointers out of its buffer. */
    static method ReadPtrs(buf: seq<byte>) returns (ptrs: seq<Ptr>)
      requires |buf| >= NODE_HEADER_SIZE && DecodeNode(buf).Index?
      ensures ptrs == DecodeNode(buf).ptrs
    {
      hide DecodeNode, DecodePtr, DecodePtrs;
      NodeLevel(buf);
      ptrs := [];
      PtrCount(buf, NrItems(buf));
      for i := 0 to NrItems(buf)
        invariant |ptrs| == i && ptrs == DecodePtrs(buf, NrItems(buf)).value[..i]
      {
        PtrAt(buf, NrItems(buf), i);
        ptrs := ptrs + [DecodePtr(buf, i).value];
      }
    }

    /**
     writeItemsToLeaf: the level byte already on the device stays. Items that do not fit but can be
     written leave a node of unknown meaning; items that cannot stop the program before it writes.
     */
    method WriteItemsToLeaf(logical: u64, items: seq<Item>) returns (ok: bool)
      requires Mounted() && Mapped(chunks, logical, nodeSize)
      requires forall b | b in nodes && b != logical :: Apart(logical, nodeSize, b, nodeSize)
      modifies this`dev, this`nodes
      ensures Spared(old(dev), dev, chunks, nodeSize, nodes)
      ensures Mounted() && |dev| == old(|dev|)
      ensures ok <==> Writable(items, nodeSize)
      ensures LeafSize(items) <= nodeSize ==> ok
      ensures ok ==> Stamped(BytesAt(logical), logical, generation, crc32c)
      ensures LeafSize(items) <= nodeSize ==> HeaderKept(BytesAt(logical), old(BytesAt(logical)))
      ensures !ok ==> unchanged(this)
      ensures ok ==>
                && logical in nodes && nodes == old(nodes)[logical := nodes[logical]]
                && HalfWritten(nodes[logical], items, nodeSize, old(LevelAt(logical)) == 0)
      ensures forall x: nat | Mapped(chunks, x, nodeSize) && Apart(logical, nodeSize, x, nodeSize) ::
                LevelAt(x) == old(LevelAt(x))
    {
      hide Spared, ChunksOk, Stored, DecodeNode, DecodeItems, LeafSize, Writable;
      FittingIsWritable(items, nodeSize);
      ResolveMapped(chunks, |dev|, logical, nodeSize);
      var phys := Resolve(chunks, logical).value;
      var old_ := NodeBytes(dev, phys, nodeSize);
      assert Level(old_) == LevelAt(logical);
      var buf := PackLeaf(old_, items, nodeSize, logical, generation, crc32c);
      if buf.None? {
        SparedSame(dev, chunks, nodeSize, nodes);
        return false;
      }
      LeafBytes(buf.value, items, nodeSize, Level(old_) == 0);
      ghost var dev0 := dev;
      WriteNode(logical, buf.value);
      forall x: nat | Mapped(chunks, x, nodeSize) && Apart(logical, nodeSize, x, nodeSize)
        ensures LevelAt(x) == old(LevelAt(x))
      {
        ResolveApart(chunks, |dev|, logical, x, nodeSize);
        ResolveMapped(chunks, |dev|, x, nodeSize);
        OverwriteElsewhere(dev0, phys, buf.value, Resolve(chunks, x).value + 100, 1);
        assert dev[Resolve(chunks, x).value + 100..Resolve(chunks, x).value + 100 + 1][0] == dev[Resolve(chunks, x).value + 100];
      }
      ok := true;
    }

    /** A leaf's items written back where it stood. */
    method WriteLeaf(logical: u64, items: seq<Item>)
      requires Mounted() && logical in nodes && nodes[logical].Leaf? && LeafSize(items) <= nodeSize
      modifies this`dev, this`nodes
      ensures Spared(old(dev), dev, chunks, nodeSize, nodes)
      ensures Mounted() && nodes == old(nodes)[logical := Leaf(items)]
    {
      hide Spared, ChunksOk, Stored, DecodeNode, LeafSize, Writable;
      LiveLevel(logical);
      WriteLive(logical);
      var ok := WriteItemsToLeaf(logical, items);
    }

    static lemma LeafBytes(buf: seq<byte>, items: seq<Item>, ns: nat, kept: bool)
      requires |buf| >= NODE_HEADER_SIZE && NrItems(buf) == |items|
      requires LeafSize(items) <= ns ==> DecodeItems(buf, |items|) == Some(items) && (Level(buf) == 0 <==> kept)
      ensures HalfWritten(DecodeNode(buf), items, ns, kept)
    {
      hide DecodeItems;
      if DecodeNode(buf).Leaf? {
        ItemCount(buf, NrItems(buf));
      }
    }

    static lemma IndexBytes(buf: seq<byte>, ptrs: seq<Ptr>)
      requires |buf| >= NODE_HEADER_SIZE && NrItems(buf) == |ptrs| && DecodePtrs(buf, |ptrs|) == Some(ptrs)
      requires Level(buf) != 0
      ensures DecodeNode(buf) == Index(Level(buf), ptrs)
    {
    }

    /** writePointersToNode */
    method WritePointersToNode(logical: u64, ptrs: seq<Ptr>, level: byte)
      requires Mounted() && IndexSize(|ptrs|) <= nodeSize && Mapped(chunks, logical, nodeSize) && level > 0
      requires forall b | b in nodes && b != logical :: Apart(logical, nodeSize, b, nodeSize)
      modifies this`dev, this`nodes
      ensures Spared(old(dev), dev, chunks, nodeSize, nodes)
      ensures Mounted() && |dev| == old(|dev|)
      ensures nodes == old(nodes)[logical := Index(level, ptrs)]
      ensures Stamped(BytesAt(logical), logical, generation, crc32c) && HeaderKept(BytesAt(logical), old(BytesAt(logical)))
    {
      hide Spared, ChunksOk, Stored, DecodeNode, DecodePtrs;
      ResolveMapped(chunks, |dev|, logical, nodeSize);
      var header := NodeBytes(dev, Resolve(chunks, logical).value, nodeSize);
      var buf := PackIndex(header, ptrs, level, nodeSize, logical, generation, crc32c);
      IndexBytes(buf, ptrs);
      WriteNode(logical, buf);
    }

    // ----- the tree of the volume -----

    ghost function RootKey(): Key
      reads this
    {
      if fsRoot in nodes && nodes[fsRoot].Index? && nodes[fsRoot].ptrs != [] then nodes[fsRoot].ptrs[0].k
      else if fsRoot in nodes && nodes[fsRoot].Leaf? && nodes[fsRoot].items != [] then nodes[fsRoot].items[0].k
      else Key(0, 0, 0)
    }

    /**
     The file tree is a search tree of distinct nodes. With left clear, no key lies below
     the separators that lead to it.
     */
    ghost predicate TreeOk(left: bool)
      reads this
    {
      && BtrfsTree.Valid(nodeSize, nodes, fsRoot, fsRootLvl, RootKey(), None, left)
      && Distinct(Foot(nodes, fsRoot, fsRootLvl))
    }

    /** What walkFSTree visits. */
    ghost function Items(): seq<Item>
      reads this
    {
      Walk(nodes, fsRoot, fsRootLvl)
    }

    /** The items of the one leaf that can hold k. */
    ghost function LeafItemsFor(k: Key): seq<Item>
      reads this
    {
      var a := LeafFor(nodes, fsRoot, fsRootLvl, k);
      if a in nodes && nodes[a].Leaf? then nodes[a].items else []
    }

    /** A descent for k through the present tree. */
    ghost function DescentOf(path: seq<PathElement>, k: Key, left: bool): Descent
      reads this
    {
      Descent(nodeSize, nodes, path, fsRootLvl, k, RootKey(), left || fsRootLvl == 0)
    }

    lemma RelaxLeaf(left: bool)
      requires fsRootLvl == 0
      ensures TreeOk(left) <==> TreeOk(true)
    {
      if fsRoot in nodes && nodes[fsRoot].Leaf? {
        var items := nodes[fsRoot].items;
        if Sorted(items) {
          assert forall i | 0 <= i < |items| :: !Less(items[i].k, RootKey());
        }
      }
    }

    lemma DescentOk(path: seq<PathElement>, k: Key, left: bool)
      requires TreeOk(left) && (left || fsRootLvl == 0 || !Less(k, RootKey()))
      requires PathOk(nodes, path, fsRootLvl, k) && path[0].logical == fsRoot
      ensures DescentOf(path, k, left).Ok()
      ensures DescentOf(path, k, left).LeafItems() == LeafItemsFor(k)
    {
      hide BtrfsTree.Valid, Foot, StepOk, LeafFor;
      if fsRootLvl == 0 {
        RelaxLeaf(left);
      }
      PathPasses(nodes, path, fsRootLvl, k);
    }

    // ----- walking and allocating -----

    /**
     walkTree: the items in the order the callback sees them. Where a node lies on another level than
     its parent says, the walk goes where its bytes lead, and what it sees may be anything.
     */
    method WalkTree(addr: u64, level: byte) returns (items: seq<Item>, ok: bool)
      requires Mounted()
      ensures Shaped(nodes, addr, level) ==> ok && items == Walk(nodes, addr, level)
      decreases level, 0
    {
      hide ChunksOk, Stored, DecodeNode, ShapedAll, WalkAll, Mapped, Apart;
      ReadsLive(addr);
      items, ok := [], false;
      var phys := Resolve(chunks, addr);
      if phys.None? || phys.value + nodeSize > |dev| {
        return;
      }
      var buf := NodeBytes(dev, phys.value, nodeSize);
      NodeLevel(buf);
      if Level(buf) != level || (level != 0 && !DecodeNode(buf).Index?) {
        items, ok := *, *;
      } else if level == 0 {
        var r := ReadItems(buf);
        if r.Some? {
          return r.value, true;
        }
        items := *;
      } else {
        var ptrs := ReadPtrs(buf);
        items, ok := WalkChildren(ptrs, level - 1);
      }
    }

    /** The walk over an index node's children, which stops at the first that fails. */
    method WalkChildren(ptrs: seq<Ptr>, level: byte) returns (items: seq<Item>, ok: bool)
      requires Mounted()
      ensures ShapedAll(nodes, ptrs, level) ==> ok && items == WalkAll(nodes, ptrs, level)
      decreases level, 1
    {
      hide ChunksOk, Stored, DecodeNode, Shaped, ShapedAll, WalkAll, Walk;
      items := [];
      NothingWalked(level);
      for i := 0 to |ptrs|
        invariant ShapedAll(nodes, ptrs, level) ==> items == WalkAll(nodes, ptrs[..i], level)
      {
        WalkedSoFar(ptrs, i, level);
        var more, fine := WalkTree(ptrs[i].addr, level);
        items := items + more;
        if !fine {
          return items, false;
        }
      }
      assert ptrs[..|ptrs|] == ptrs;
      ok := true;
    }

    lemma ReadsLive(logical: u64)
      requires Mounted()
      ensures logical in nodes ==> Reads(dev, chunks, nodeSize, logical, nodes[logical])
    {
    }

    lemma NothingWalked(l: nat)
      ensures forall ptrs: seq<Ptr> | ptrs == [] :: WalkAll(nodes, ptrs, l) == []
    {
    }

    lemma WalkedSoFar(ptrs: seq<Ptr>, i: nat, l: nat)
      requires i < |ptrs|
      ensures WalkAll(nodes, ptrs[..i + 1], l) == WalkAll(nodes, ptrs[..i], l) + Walk(nodes, ptrs[i].addr, l)
      ensures ShapedAll(nodes, ptrs, l) ==> Shaped(nodes, ptrs[i].addr, l)
    {
      hide Walk, Shaped;
      assert ptrs[..i + 1] == ptrs[..i] + [ptrs[i]];
      WalkConcat(nodes, ptrs[..i], [ptrs[i]], l);
      assert [ptrs[i]][1..] == [];
      assert WalkAll(nodes, [ptrs[i]], l) == Walk(nodes, ptrs[i].addr, l) + WalkAll(nodes, [], l);
      assert ptrs == ptrs[..i] + ptrs[i..] && ptrs[i..][0] == ptrs[i];
      ShapedConcat(nodes, ptrs[..i], ptrs[i..], l);
    }

    /** The callback of allocateSpace's walk over the file tree. */
    static method CollectRanges(items: seq<Item>) returns (occupied: seq<Range>)
      ensures occupied == FileRanges(items)
    {
      hide RangeOf;
      occupied := [];
      for i := 0 to |items|
        invariant occupied == FileRanges(items[..i])
      {
        assert items[..i + 1][..i] == items[..i];
        occupied := occupied + RangeOf(items[i]);
      }
      assert items[..|items|] == items;
    }

    /** The address of the next node while the file tree reads back. */
    ghost function NextNode(): Option<nat>
      reads this
    {
      FirstFit(chunks, extents + FileRanges(Items()), sectorSize, nodeSize, METADATA)
    }

    /** That address is in the metadata chunk and misses every recorded extent and all the file data the items name. */
    lemma NextNodeMisses()
      requires NextNode().Some? && nodeSize > 0
      ensures MissesFiles(Items(), NextNode().value, nodeSize) && MissesRanges(extents, NextNode().value, nodeSize)
      ensures exists i :: MetadataPlace(chunks, sectorSize, NextNode().value, nodeSize, i)
    {
      hide Walk, FileRanges, MissesFiles, MissesRanges, Serves, Clear;
      var i, sector := TargetChunk(chunks, METADATA), SectorOr(sectorSize);
      ClearMisses(Items(), NextNode().value, Arith.AlignUp(nodeSize, sector), nodeSize, extents);
      TargetServes(chunks, METADATA);
      assert MetadataPlace(chunks, sectorSize, NextNode().value, nodeSize, i);
    }

    /** allocateSpace for one node: fileRanges is what the walk over the file tree found. */
    method AllocateNode() returns (r: Option<(u64, nat)>, ghost fileRanges: seq<Range>)
      requires Valid()
      ensures FirstFit(chunks, extents + fileRanges, sectorSize, nodeSize, METADATA) == if r.None? then None else Some(r.value.0)
      ensures Shaped(nodes, fsRoot, fsRootLvl) ==> fileRanges == FileRanges(Items())
      ensures r.Some? ==>
                && r.value.0 !in nodes && r.value.0 != 0 && Mapped(chunks, r.value.0, nodeSize)
                && Resolve(chunks, r.value.0) == Some(r.value.1)
      ensures r.Some? ==> forall b | b in nodes :: Apart(r.value.0, nodeSize, b, nodeSize)
      ensures r.Some? && Shaped(nodes, fsRoot, fsRootLvl) ==> MissesFiles(Items(), r.value.0, nodeSize)
      ensures r.Some? ==> MissesRanges(extents, r.value.0, nodeSize)
      ensures r.Some? ==> exists i :: MetadataPlace(chunks, sectorSize, r.value.0, nodeSize, i)
    {
      hide Shaped, Walk, Stored, FileRanges, MissesFiles, MissesRanges, Serves, Apart;
      var items, ok := WalkTree(fsRoot, fsRootLvl);
      var ranges := CollectRanges(items);
      fileRanges := ranges;
      var a := AllocateSpace(chunks, extents + ranges, sectorSize, nodeSize, METADATA);
      if a.None? {
        return None, fileRanges;
      }
      var sector := SectorOr(sectorSize);
      ClearIsApart(extents, ranges, nodeSize, nodes, a.value.0, Arith.AlignUp(nodeSize, sector));
      assert InChunk(chunks, TargetChunk(chunks, METADATA), a.value.0, nodeSize);
      ResolveMapped(chunks, |dev|, a.value.0, nodeSize);
      TargetServes(chunks, METADATA);
      assert MetadataPlace(chunks, sectorSize, a.value.0, nodeSize, TargetChunk(chunks, METADATA));
      ClearMisses(items, a.value.0, Arith.AlignUp(nodeSize, sector), nodeSize, extents);
      r := Some((a.value.0, a.value.1));
    }

    /** Since they were ext0 the records have grown by at most n nodes, all of them new to the heap h. */
    ghost predicate Spent(ext0: seq<Range>, h: Heap, n: nat)
      reads this
    {
      && ext0 <= extents && |extents| <= |ext0| + n
      && forall i | |ext0| <= i < |extents| ::
           extents[i].length == nodeSize && extents[i].logical in nodes && extents[i].logical !in h
    }

    lemma NoneSpent(h: Heap, n: nat)
      ensures Spent(extents, h, n)
    {
    }

    /** One node b is recorded first and n more after it. */
    lemma SpentAfter(ext0: seq<Range>, h0: Heap, b: nat, h1: Heap, n: nat)
      requires Spent(ext0 + [Range(b, nodeSize)], h1, n) && b in h1 && b !in h0
      requires (forall x | x in h0 :: x in h1) && forall x | x in h1 :: x in nodes
      ensures Spent(ext0, h0, n + 1)
    {
    }

    // ----- insertion -----

    /** The edit reached the root: the tree is the old one with the leaf's items exchanged. */
    ghost predicate Finished(e: Edit)
      requires e.Ok()
      reads this
    {
      && Items() == e.d.Inner(0, e.items)
      && Distinct(Foot(nodes, fsRoot, fsRootLvl))
      && OthersKept(e.d.h, Foot(e.d.h, e.d.path[0].logical, e.d.lvl))
      && (e.good ==> BtrfsTree.Valid(nodeSize, nodes, fsRoot, fsRootLvl, RootKey(), None,
                                     e.d.left && (fsRootLvl == e.d.lvl || e.d.lvl > 0)))
    }

    /** The tree is made of the old one's nodes, these new ones, and perhaps more. */
    ghost predicate Includes(e: Edit, extra: multiset<nat>)
      requires e.Ok()
      reads this
    {
      Foot(e.d.h, e.d.path[0].logical, e.d.lvl) + extra <= Foot(nodes, fsRoot, fsRootLvl)
    }

    /** Nodes outside the footprint are as they were in h. */
    ghost predicate OthersKept(h: Heap, foot: multiset<nat>)
      reads this
    {
      && (forall x | x in h :: x in nodes)
      && forall x | x in h && x !in foot :: nodes[x] == h[x]
    }

    /** The edit belongs to the tree at the present root. */
    ghost predicate Current(e: Edit)
      reads this
    {
      && e.Ok() && e.d.ns == nodeSize
      && fsRoot == e.d.path[0].logical && fsRootLvl == e.d.lvl
      && (e.d.lvl == 0 ==> e.d.left)
    }

    lemma FinishSame(e: Edit, extra: multiset<nat>)
      requires Current(e) && e.Done(0, nodes, None, extra)
      ensures Finished(e) && Includes(e, extra)
    {
      hide Walk, Foot, StepOk, PathOk, ValidAll, LeafOrder;
      StillDistinct(e, extra);
      assert e.Flips(0) == false;
      assert Foot(nodes, fsRoot, fsRootLvl) == Foot(nodes, fsRoot, fsRootLvl) + FootOpt(nodes, None, fsRootLvl);
      if e.good {
        SameRootKey(e);
      }
    }

    lemma SameRootKey(e: Edit)
      requires e.d.lvl == 0 ==> e.d.left
      requires BtrfsTree.Valid(nodeSize, nodes, fsRoot, e.d.lvl, e.d.lo, None, e.d.left)
      ensures BtrfsTree.Valid(nodeSize, nodes, fsRoot, e.d.lvl, RootKey(), None, e.d.left)
    {
    }

    lemma StillDistinct(e: Edit, extra: multiset<nat>)
      requires e.Ok() && Distinct(extra) && forall x | x in extra :: x !in e.d.h
      ensures Distinct(Foot(e.d.h, e.d.path[0].logical, e.d.lvl) + extra)
    {
      hide Walk, Foot, StepOk, ValidAll, BtrfsTree.Valid;
      FootInHeap(e.d.ns, e.d.h, e.d.path[0].logical, e.d.lvl, e.d.lo, None, e.d.left);
      var f := Foot(e.d.h, e.d.path[0].logical, e.d.lvl);
      forall x ensures (f + extra)[x] <= 1 {
        assert f[x] <= 1 && extra[x] <= 1;
      }
    }

    /** getNodeFirstKey */
    method GetNodeFirstKey(logical: u64) returns (k: Key)
      requires Mounted() && logical in nodes
      ensures nodes[logical].Leaf? && nodes[logical].items != [] ==> k == nodes[logical].items[0].k
      ensures nodes[logical].Index? && nodes[logical].ptrs != [] ==> k == nodes[logical].ptrs[0].k
    {
      hide DecodeNode, DecodeItems, DecodePtrs, ChunksOk, Stored;
      var buf := ReadNode(logical);
      if NrItems(buf) == 0 {
        NoEntries(buf);
        return Key(0, 0, 0);
      }
      FirstEntry(buf);
      k := DecodeKey(buf[NODE_HEADER_SIZE..NODE_HEADER_SIZE + 17]);
    }

    static lemma NoEntries(buf: seq<byte>)
      requires |buf| >= NODE_HEADER_SIZE && NrItems(buf) == 0
      ensures DecodeNode(buf).Leaf? ==> DecodeNode(buf).items == []
      ensures DecodeNode(buf).Index? ==> DecodeNode(buf).ptrs == []
    {
    }

    static lemma Slice(buf: seq<byte>, at: nat, n: nat, i: nat, j: nat)
      requires i <= j <= n && at + n <= |buf|
      ensures buf[at..at + n][i..j] == buf[at + i..at + j]
    {
      var l, r := buf[at..at + n][i..j], buf[at + i..at + j];
      forall x | 0 <= x < |l| ensures l[x] == r[x] {
      }
    }

    static lemma SubSlice(buf: seq<byte>, at: nat, n: nat, m: nat)
      requires 17 <= m <= n && at + n <= |buf|
      ensures DecodeKey(buf[at..at + n]) == DecodeKey(buf[at..at + m])
    {
      Slice(buf, at, n, 0, 8);
      Slice(buf, at, m, 0, 8);
      Slice(buf, at, n, 9, 17);
      Slice(buf, at, m, 9, 17);
    }

    static lemma FirstEntry(buf: seq<byte>)
      requires |buf| >= NODE_HEADER_SIZE + 33 && NrItems(buf) > 0
      ensures DecodeNode(buf).Leaf? ==>
        |DecodeNode(buf).items| > 0 && DecodeNode(buf).items[0].k == DecodeKey(buf[NODE_HEADER_SIZE..NODE_HEADER_SIZE + 17])
      ensures DecodeNode(buf).Index? ==>
        |DecodeNode(buf).ptrs| > 0 && DecodeNode(buf).ptrs[0].k == DecodeKey(buf[NODE_HEADER_SIZE..NODE_HEADER_SIZE + 17])
    {
      NodeLevel(buf);
      if DecodeNode(buf).Leaf? {
        ItemAt(buf, NrItems(buf), 0);
        SubSlice(buf, NODE_HEADER_SIZE, ITEM_HEADER_SIZE, 17);
      } else if DecodeNode(buf).Index? {
        PtrAt(buf, NrItems(buf), 0);
      }
    }

    /** The scan of insertPtrIntoParent for the first pointer not below the new one. */
    static method AddPtr(ptrs: seq<Ptr>, splitPtr: Ptr) returns (newPtrs: seq<Ptr>, ghost pos: nat)
      ensures pos <= |ptrs| && newPtrs == PtrsWith(ptrs, pos, splitPtr)
      ensures forall i | 0 <= i < pos :: Less(ptrs[i].k, splitPtr.k)
      ensures pos < |ptrs| ==> !Less(ptrs[pos].k, splitPtr.k)
    {
      var insertIdx := |ptrs|;
      for i := 0 to |ptrs|
        invariant insertIdx == |ptrs|
        invariant forall j | 0 <= j < i :: Less(ptrs[j].k, splitPtr.k)
      {
        if !Less(ptrs[i].k, splitPtr.k) {
          insertIdx := i;
          break;
        }
      }
      newPtrs := ptrs[..insertIdx] + [splitPtr] + ptrs[insertIdx..];
      pos := insertIdx;
    }

    /** A node written over a zeroed buffer, at newly allocated space, and registered. */
    method WriteFreshIndex(logical: u64, phys: nat, ptrs: seq<Ptr>, level: byte)
      requires Valid() && IndexSize(|ptrs|) <= nodeSize && Mapped(chunks, logical, nodeSize) && level > 0
      requires Resolve(chunks, logical) == Some(phys)
      requires forall b | b in nodes :: Apart(logical, nodeSize, b, nodeSize)
      modifies this`dev, this`nodes, this`extents
      ensures Spared(old(dev), dev, chunks, nodeSize, nodes)
      ensures Valid() && nodes == old(nodes)[logical := Index(level, ptrs)]
      ensures extents == old(extents) + [Range(logical, nodeSize)]
      ensures Stamped(BytesAt(logical), logical, generation, crc32c) && HeaderKept(BytesAt(logical), Zeros(nodeSize))
    {
      hide Spared, ChunksOk, Stored, DecodeNode, DecodePtrs, Overwrite, Resolve;
      var buf := PackIndex(Zeros(nodeSize), ptrs, level, nodeSize, logical, generation, crc32c);
      IndexBytes(buf, ptrs);
      WriteStored(dev, chunks, nodeSize, nodes, logical, buf);
      OverwriteSame(dev, phys, buf);
      ghost var dev0 := dev;
      dev := Overwrite(dev, phys, buf);
      nodes := nodes[logical := DecodeNode(buf)];
      WriteSpares(dev0, chunks, nodeSize, nodes, logical, buf);
      RegisterExtent(logical, nodeSize);
    }

    /** The root split: a new root over the two halves. */
    method GrowRoot(splitPtr: Ptr, ghost e: Edit, ghost extra: multiset<nat>) returns (ok: bool)
      requires Valid() && Current(e) && fsRootLvl < 255 && e.Done(0, nodes, Some(splitPtr), extra)
      requires fsRoot in nodes && (e.good && nodes[fsRoot].Leaf? ==> nodes[fsRoot].items != [])
      modifies this`dev, this`nodes, this`extents, this`fsRoot, this`fsRootLvl
      ensures Spared(old(dev), dev, chunks, nodeSize, nodes)
      ensures Valid() && (ok ==> Finished(e) && Includes(e, extra))
      ensures old(Shaped(nodes, fsRoot, fsRootLvl)) ==> (ok <==> old(NextNode()).Some?)
      ensures !ok ==> unchanged(this)
      ensures ok ==> fsRootLvl == old(fsRootLvl) + 1 && fsRoot !in old(nodes) && fsRoot in nodes
      ensures Spent(old(extents), old(nodes), 1)
      ensures old(Shaped(nodes, fsRoot, fsRootLvl)) && ok ==> old(NextNode()) == Some(fsRoot)
      ensures forall a | a in old(nodes) :: a in nodes && nodes[a] == old(nodes[a])
    {
      hide Spared, ChunksOk, Stored, LeafOrder, Walk, Foot, FootAll, StepOk, PathOk, ValidAll, BtrfsTree.Valid, DecodeNode, DecodePtrs,
           Edit.Done, Finished, Includes, Less, Shaped, FirstFit, FileRanges, MissesFiles, MissesRanges, MetadataPlace;
      ghost var h1 := nodes;
      var a, _ := AllocateNode();
      if a.None? {
        SparedSame(dev, chunks, nodeSize, nodes);
        return false;
      }
      var leftKey := GetNodeFirstKey(fsRoot);
      var ptrs := [Ptr(leftKey, fsRoot), splitPtr];
      WriteFreshIndex(a.value.0, a.value.1, ptrs, fsRootLvl + 1);
      fsRoot := a.value.0;
      fsRootLvl := fsRootLvl + 1;
      FinishGrown(e, h1, splitPtr, extra, leftKey);
      ok := true;
    }

    lemma FinishGrown(e: Edit, h1: Heap, r: Ptr, extra: multiset<nat>, leftKey: Key)
      requires e.Ok() && e.d.ns == nodeSize && e.d.lvl < 255 && (e.d.lvl == 0 ==> e.d.left)
      requires e.Done(0, h1, Some(r), extra) && nodeSize >= 4096
      requires var root := e.d.path[0].logical;
               && fsRoot !in h1 && fsRoot != 0 && fsRootLvl == e.d.lvl + 1
               && nodes == h1[fsRoot := Index(e.d.lvl + 1, [Ptr(leftKey, root), r])]
               && root in h1 && (e.good && h1[root].Leaf? ==> h1[root].items != [] && leftKey == h1[root].items[0].k)
               && (h1[root].Index? && h1[root].ptrs != [] ==> leftKey == h1[root].ptrs[0].k)
      ensures Finished(e) && Includes(e, extra)
    {
      hide LeafOrder, Walk, Foot, FootAll, StepOk, ValidAll;
      e.Grow(h1, r, extra, fsRoot, leftKey, nodes);
      AddOne(extra, fsRoot);
      StillDistinct(e, extra + multiset{fsRoot});
      if e.good {
        e.GrowKeeps(h1, r, extra, fsRoot, leftKey, nodes);
      }
    }

    static lemma AddOne(f: multiset<nat>, n: nat)
      requires Distinct(f) && n !in f
      ensures Distinct(f + multiset{n})
    {
      forall x ensures (f + multiset{n})[x] <= 1 {
        assert f[x] <= 1;
      }
    }

    /** path is the part of the edit's path above the node just split. */
    ghost predicate Above(path: seq<PathElement>, e: Edit) {
      && e.Ok() && |path| <= e.d.lvl && |e.d.path| == e.d.lvl + 1
      && forall j | 0 <= j < |path| :: path[j].logical == e.d.path[j].logical && path[j].level == e.d.lvl - j
    }

    /** The two node writes of insertPtrIntoParent. */
    method WriteTwo(parent: PathElement, b: u64, newPtrs: seq<Ptr>, mid: nat)
      requires Valid() && parent.logical in nodes && parent.level > 0 && mid <= |newPtrs|
      requires IndexSize(mid) <= nodeSize && IndexSize(|newPtrs| - mid) <= nodeSize
      requires b !in nodes && Mapped(chunks, b, nodeSize) && forall x | x in nodes :: Apart(b, nodeSize, x, nodeSize)
      modifies this`dev, this`nodes, this`extents
      ensures Spared(old(dev), dev, chunks, nodeSize, nodes)
      ensures Valid() && extents == old(extents) + [Range(b, nodeSize)]
      ensures nodes == old(nodes)[parent.logical := Index(parent.level, newPtrs[..mid])][b := Index(parent.level, newPtrs[mid..])]
    {
      hide Spared, ChunksOk, Stored, DecodeNode;
      WriteLive(parent.logical);
      WritePointersToNode(parent.logical, newPtrs[..mid], parent.level);
      ghost var dev1, h1 := dev, nodes;
      WritePointersToNode(b, newPtrs[mid..], parent.level);
      SparedTwice(old(dev), dev1, h1, dev, nodes, chunks, nodeSize);
      RegisterExtent(b, nodeSize);
    }

    /** In the middle of its edit the tree reads back if the edited part does. */
    lemma MidShaped(e: Edit, j: nat, r: Ptr, extra: multiset<nat>)
      requires Current(e) && e.Done(j, nodes, Some(r), extra)
      ensures e.Whole(j, nodes, r) ==> Shaped(nodes, fsRoot, fsRootLvl)
    {
      hide LeafOrder, Walk, WalkAll, Foot, FootAll, StepOk, PathOk, ValidAll, BtrfsTree.Valid, Shaped;
      if e.Whole(j, nodes, r) {
        e.WholeAbove(0, j, nodes, extra);
      }
    }

    /** An overflowing index node: its right half goes to a new node. */
    method HalveNode(parent: PathElement, newPtrs: seq<Ptr>, ghost e: Edit, ghost r: Ptr, ghost extra: multiset<nat>, ghost j: nat)
      returns (up: Option<Ptr>, ghost extra1: multiset<nat>)
      requires Valid() && Current(e) && j < e.d.lvl && e.Done(j + 1, nodes, Some(r), extra)
      requires parent.logical == e.d.Addr(j) && parent.level == e.d.lvl - j
      requires newPtrs == e.At(j).Linked(Some(r), e.Flips(j + 1)) && IndexSize(|newPtrs|) > nodeSize
      requires parent.logical in nodes && IndexSize(|newPtrs| - 1) <= nodeSize
      modifies this`dev, this`nodes, this`extents
      ensures Spared(old(dev), dev, chunks, nodeSize, nodes)
      ensures Valid()
      ensures up.Some? ==> e.Done(j, nodes, up, extra1) && extra <= extra1
      ensures up.Some? ==> parent.logical in nodes && nodes[parent.logical].Index?
      ensures up.Some? ==> extents == old(extents) + [Range(up.value.addr, nodeSize)]
      ensures up.Some? ==> up.value.addr !in old(nodes) && up.value.addr in nodes
      ensures up.Some? ==>
                var mid := |newPtrs| / 2;
                && up.value.k == newPtrs[mid].k
                && nodes[parent.logical] == Index(parent.level, newPtrs[..mid]) && nodes[up.value.addr] == Index(parent.level, newPtrs[mid..])
      ensures up.None? ==> unchanged(this)
      ensures old(e.Whole(j + 1, nodes, r)) ==> (up.Some? <==> old(NextNode()).Some?)
      ensures old(e.Whole(j + 1, nodes, r)) && up.Some? ==> old(NextNode()) == Some(up.value.addr) && e.Whole(j, nodes, up.value)
      ensures forall a | a in old(nodes) :: a in nodes && (a != parent.logical ==> nodes[a] == old(nodes[a]))
    {
      hide Spared, Edit.Done, Current, PtrsWith, ChunksOk, Stored, LeafOrder, Walk, WalkAll, Foot, FootAll, StepOk, PathOk, ValidAll,
           BtrfsTree.Valid, DecodeNode, Shaped, Edit.Whole, FirstFit, FileRanges, MissesFiles, MissesRanges, MetadataPlace;
      ghost var h1 := nodes;
      extra1 := extra;
      MidShaped(e, j + 1, r, extra);
      var a, _ := AllocateNode();
      if a.None? {
        SparedSame(dev, chunks, nodeSize, nodes);
        return None, extra1;
      }
      var b := a.value.0;
      var mid := |newPtrs| / 2;
      WriteTwo(parent, b, newPtrs, mid);
      e.Halve(j, h1, Some(r), extra, mid, b, nodes);
      e.HalveWhole(j, h1, r, extra, mid, b, nodes);
      up := Some(Ptr(newPtrs[mid].k, b));
      extra1 := extra + multiset{b};
    }

    /** The parent's pointers with the new one among them. */
    method LinkedPtrs(parent: PathElement, splitPtr: Ptr, ghost e: Edit, ghost extra: multiset<nat>, ghost j: nat)
      returns (newPtrs: seq<Ptr>)
      requires Valid() && Current(e) && j < e.d.lvl && e.Done(j + 1, nodes, Some(splitPtr), extra)
      requires parent.logical == e.d.Addr(j)
      ensures newPtrs == e.At(j).Linked(Some(splitPtr), e.Flips(j + 1)) && IndexSize(|newPtrs| - 1) <= nodeSize
      ensures parent.logical in nodes && nodes[parent.logical].Index?
    {
      hide Edit.Done, PtrsWith, ChunksOk, Stored, LeafOrder, Walk, WalkAll, Foot, FootAll, StepOk, PathOk, ValidAll,
           BtrfsTree.Valid, DecodeNode, Spot.Linked;
      e.ParentRead(j, nodes, splitPtr, extra, 0);
      var buf := ReadNode(parent.logical);
      var ptrs := ReadPtrs(buf);
      ghost var pos;
      newPtrs, pos := AddPtr(ptrs, splitPtr);
      e.ParentRead(j, nodes, splitPtr, extra, pos);
    }

    /** insertPtrIntoParent */
    method InsertPtrIntoParent(path: seq<PathElement>, splitPtr: Ptr, ghost e: Edit, ghost extra: multiset<nat>)
      returns (ok: bool)
      requires Valid() && Current(e) && fsRootLvl < 255 && Above(path, e)
      requires e.Done(|path|, nodes, Some(splitPtr), extra)
      requires fsRoot in nodes && (e.good && nodes[fsRoot].Leaf? ==> nodes[fsRoot].items != [])
      modifies this
      ensures Spared(old(dev), dev, chunks, nodeSize, nodes)
      ensures Valid() && (ok ==> Finished(e) && Includes(e, extra))
      ensures |path| > 0 && IndexSize(|e.At(|path| - 1).Linked(Some(splitPtr), e.Flips(|path|))|) <= nodeSize ==> ok
      ensures !ok && old(e.Whole(|path|, nodes, splitPtr)) ==> NextNode().None?
      ensures Spent(old(extents), old(nodes), |path| + 1)
      ensures forall a | a in old(nodes) ::
                a in nodes && ((forall i | 0 <= i < |path| :: path[i].logical != a) ==> nodes[a] == old(nodes[a]))
      decreases |path|
    {
      hide Spared, Edit.Done, PtrsWith, ChunksOk, Stored, LeafOrder, Walk, WalkAll, Foot, FootAll, StepOk, PathOk, ValidAll,
           BtrfsTree.Valid, DecodeNode, Finished, Includes, Shaped, Edit.Whole, FirstFit, FileRanges, Spot.Linked, Spent,
           Valid, NextNode, Edit.Flips, Edit.At, Descent.Ok;
      if |path| == 0 {
        MidShaped(e, 0, splitPtr, extra);
        ok := GrowRoot(splitPtr, e, extra);
        return;
      }
      ghost var j := |path| - 1;
      var parent := path[|path| - 1];
      var newPtrs := LinkedPtrs(parent, splitPtr, e, extra, j);
      if IndexSize(|newPtrs|) > nodeSize {
        var up, extra1 := HalveNode(parent, newPtrs, e, splitPtr, extra, j);
        if up.None? {
          NoneSpent(nodes, |path| + 1);
          return false;
        }
        ghost var dev1, h1 := dev, nodes;
        ok := InsertPtrIntoParent(path[..|path| - 1], up.value, e, extra1);
        SparedTwice(old(dev), dev1, h1, dev, nodes, chunks, nodeSize);
        SpentAfter(old(extents), old(nodes), up.value.addr, h1, |path|);
        if ok {
          FewerIncluded(e, extra, extra1);
        }
      } else {
        WidenNode(parent, newPtrs, e, splitPtr, extra, j);
        NoneSpent(old(nodes), |path| + 1);
        ok := true;
      }
    }

    lemma FewerIncluded(e: Edit, extra: multiset<nat>, extra1: multiset<nat>)
      requires e.Ok() && Includes(e, extra1) && extra <= extra1
      ensures Includes(e, extra)
    {
      hide Foot, BtrfsTree.Valid, PathOk;
    }

    /** An index node with room takes the pointer, and the edit is done. */
    method WidenNode(parent: PathElement, newPtrs: seq<Ptr>, ghost e: Edit, ghost r: Ptr, ghost extra: multiset<nat>, ghost j: nat)
      requires Valid() && Current(e) && j < e.d.lvl && e.Done(j + 1, nodes, Some(r), extra)
      requires parent.logical == e.d.Addr(j) && parent.level == e.d.lvl - j
      requires newPtrs == e.At(j).Linked(Some(r), e.Flips(j + 1)) && IndexSize(|newPtrs|) <= nodeSize
      requires parent.logical in nodes
      modifies this`dev, this`nodes
      ensures Spared(old(dev), dev, chunks, nodeSize, nodes)
      ensures Valid() && Finished(e) && Includes(e, extra)
      ensures forall a | a in old(nodes) :: a in nodes && (a != parent.logical ==> nodes[a] == old(nodes[a]))
    {
      hide Spared, Edit.Done, ChunksOk, Stored, LeafOrder, Walk, WalkAll, Foot, FootAll, StepOk, PathOk, ValidAll,
           BtrfsTree.Valid, DecodeNode, Finished, Includes;
      ghost var h1 := nodes;
      WriteLive(parent.logical);
      WritePointersToNode(parent.logical, newPtrs, parent.level);
      e.Widen(j, h1, Some(r), extra, nodes);
      e.LiftAll(j, nodes, extra);
      FinishSame(e, extra);
    }

    /** The two leaf writes of splitLeafWithPath. */
    method WriteHalves(leaf: u64, all: seq<Item>, mid: nat) returns (ok: bool, newLeaf: Option<u64>)
      requires Valid() && leaf in nodes && nodes[leaf].Leaf? && mid <= |all|
      requires BtrfsTree.Valid(nodeSize, nodes, fsRoot, fsRootLvl, RootKey(), None, true)
      modifies this`dev, this`nodes, this`extents
      ensures Spared(old(dev), dev, chunks, nodeSize, nodes)
      ensures Valid() && newLeaf == old(NextNode())
      ensures newLeaf.None? ==> !ok && unchanged(this)
      ensures newLeaf.Some? ==> newLeaf.value !in old(nodes) && newLeaf.value != 0 && Mapped(chunks, newLeaf.value, nodeSize)
      ensures if ok then extents == old(extents) + [Range(newLeaf.value, nodeSize)] else extents == old(extents)
      ensures ok <==> newLeaf.Some? && Writable(all[..mid], nodeSize) && Writable(all[mid..], nodeSize)
      ensures ok ==>
        var b := newLeaf.value;
        && b in nodes && leaf in nodes && nodes == old(nodes)[leaf := nodes[leaf]][b := nodes[b]]
        && HalfWritten(nodes[leaf], all[..mid], nodeSize, true)
        && HalfWritten(nodes[b], all[mid..], nodeSize, old(LevelAt(b)) == 0)
    {
      hide Spared, ChunksOk, Stored, DecodeNode, LeafSize, Writable, HalfWritten, FileRanges, FirstFit, BtrfsTree.Valid, Walk, Shaped,
           MissesFiles, MissesRanges, MetadataPlace;
      ValidShaped(nodeSize, nodes, fsRoot, fsRootLvl, RootKey(), None, true);
      var a, _ := AllocateNode();
      if a.None? {
        SparedSame(dev, chunks, nodeSize, nodes);
        return false, None;
      }
      newLeaf := Some(a.value.0);
      LiveLevel(leaf);
      WriteLive(leaf);
      ok := WriteItemsToLeaf(leaf, all[..mid]);
      if ok {
        ghost var dev1, h1 := dev, nodes;
        ok := WriteItemsToLeaf(newLeaf.value, all[mid..]);
        SparedTwice(old(dev), dev1, h1, dev, nodes, chunks, nodeSize);
        if ok {
          RegisterExtent(newLeaf.value, nodeSize);
        }
      }
    }

    /** splitLeafWithPath */
    method SplitLeafWithPath(path: seq<PathElement>, all: seq<Item>, ghost d: Descent, ghost it: Item)
      returns (ok: bool, ghost e: Edit, ghost x: Node, ghost y: Node)
      requires Valid() && d.Ok() && d.h == nodes && d.ns == nodeSize && d.path == path
      requires BtrfsTree.Valid(nodeSize, nodes, fsRoot, fsRootLvl, RootKey(), None, true)
      requires fsRoot == path[0].logical && fsRootLvl == d.lvl < 255 && (d.lvl == 0 ==> d.left)
      requires it.k == d.k && all == InsertItem(d.LeafItems(), it) && LeafSize(d.LeafItems()) <= nodeSize < LeafSize(all)
      modifies this
      ensures Spared(old(dev), dev, chunks, nodeSize, nodes)
      ensures Valid()
      ensures old(NextNode()).None? ==> !ok && unchanged(this)
      ensures ok ==> Writable(all[..|all| / 2], nodeSize) && Writable(all[|all| / 2..], nodeSize)
      ensures Writable(all[..|all| / 2], nodeSize) && Writable(all[|all| / 2..], nodeSize) && d.lvl > 0 ==>
                old(NextNode()).Some? && IndexSize(|d.Ptrs(d.lvl - 1)| + 1) <= nodeSize ==> ok
      ensures !ok && BtrfsSplit.HalvesFit(all, nodeSize) && old(FreshLevel()) ==> NextNode().None?
      ensures Spent(old(extents), old(nodes), d.lvl + 2)
      ensures old(NextNode()).Some? ==> Mapped(chunks, old(NextNode()).value, nodeSize)
      ensures ok ==>
                && old(NextNode()).Some? && e.d == d && SplitEdit(e, all, it, x, y, old(LevelAt(NextNode().value)) == 0)
                && Finished(e) && Includes(e, multiset{old(NextNode()).value})
                && d.Addr(d.lvl) in nodes && nodes[d.Addr(d.lvl)] == x
                && old(NextNode()).value in nodes && nodes[old(NextNode()).value] == y
    {
      hide Spared, ChunksOk, Stored, LeafOrder, Walk, WalkAll, Foot, FootAll, StepOk, ValidAll, BtrfsTree.Valid, DecodeNode,
           LeafSize, InsertItem, HasKey, Less, Edit.Done, Finished, Includes, HalfWritten, Writable, FirstFit, FileRanges, ShownNodes,
           Shaped, Edit.Whole, SplitEdit, Spent, NextNode, Current, Above, Spot.Linked, Edit.At, Edit.Flips,
           Descent.Ok, Edit.Ok, Recorded;
      SplitStarts(d, it);
      var mid := |all| / 2;
      var leaf := path[|path| - 1];
      e, x, y := Edit(d, [], false, false), Broken, Broken;
      FitIsWritable(all, nodeSize);
      ghost var kept := old(NextNode()).Some? && Mapped(chunks, old(NextNode()).value, nodeSize) && old(LevelAt(NextNode().value)) == 0;
      var a;
      ok, a := WriteHalves(leaf.logical, all, mid);
      if !ok {
        NoneSpent(old(nodes), d.lvl + 2);
        return;
      }
      var splitKey := all[mid].k;
      x, y := nodes[leaf.logical], nodes[a.value];
      e := EditOfHalves(d, it, all, a.value, x, y, kept);
      ghost var dev1, h1 := dev, nodes;
      ok := InsertPtrIntoParent(path[..|path| - 1], Ptr(splitKey, a.value), e, multiset{a.value});
      SparedTwice(old(dev), dev1, h1, dev, nodes, chunks, nodeSize);
      SpentAfter(old(extents), old(nodes), a.value, h1, d.lvl + 1);
    }

    /** The edit that the two writes of a leaf split begin. */
    lemma EditOfHalves(d: Descent, it: Item, all: seq<Item>, b: u64, x: Node, y: Node, kept: bool) returns (e: Edit)
      requires d.Ok() && |d.path| == d.lvl + 1 && d.ns == nodeSize && b !in d.h && b != 0
      requires fsRoot == d.path[0].logical && fsRootLvl == d.lvl && (d.lvl == 0 ==> d.left)
      requires nodes == d.h[d.Addr(d.lvl) := x][b := y]
      requires it.k == d.k && all == InsertItem(d.LeafItems(), it) && |all| > 0
      requires HalfWritten(x, all[..|all| / 2], nodeSize, true) && HalfWritten(y, all[|all| / 2..], nodeSize, kept)
      ensures e.Ok() && e.d == d && SplitEdit(e, all, it, x, y, kept)
      ensures e.Done(d.lvl, nodes, Some(Ptr(all[|all| / 2].k, b)), multiset{b})
      ensures kept && BtrfsSplit.HalvesFit(all, nodeSize) ==> e.Whole(d.lvl, nodes, Ptr(all[|all| / 2].k, b))
      ensures Current(e) && Above(d.path[..d.lvl], e)
      ensures d.lvl > 0 ==>
                |e.At(d.lvl - 1).Linked(Some(Ptr(all[|all| / 2].k, b)), e.Flips(d.lvl))| == |d.Ptrs(d.lvl - 1)| + 1
      ensures forall i | 0 <= i < d.lvl :: d.path[i].logical != d.Addr(d.lvl) && d.path[i].logical != b
      ensures fsRoot in nodes && (e.good && nodes[fsRoot].Leaf? ==> nodes[fsRoot].items != [])
    {
      hide LeafOrder, Walk, WalkAll, Foot, FootAll, StepOk, ValidAll, BtrfsTree.Valid, LeafSize, InsertItem, HasKey, Less,
           Edit.Done, HalfWritten, ShownNodes, Shaped, Edit.Whole;
      var mid := |all| / 2;
      e := Edit(d, [], false, false);
      e.LeafNode();
      e.RootNode();
      var flip := e.FlipsAt(all[mid].k);
      e := Edit(d, ShownNodes(x, y, flip), flip, !HasKey(d.LeafItems(), it.k) && !flip && kept && BtrfsSplit.HalvesFit(all, nodeSize));
      e.SplitReady(it, mid, b);
      GoodHalves(all, x, y, nodeSize, kept);
      e.LeafHalved(nodes, x, b, y, all[mid].k);
      LeavesWhole(e, Ptr(all[mid].k, b));
      LeafNotAbove(e, d.Addr(d.lvl), b);
    }

    lemma LeavesWhole(e: Edit, r: Ptr)
      requires e.Ok() && |e.d.path| == e.d.lvl + 1 && e.d.Addr(e.d.lvl) in nodes && r.addr in nodes
      ensures nodes[e.d.Addr(e.d.lvl)].Leaf? && nodes[r.addr].Leaf? ==> e.Whole(e.d.lvl, nodes, r)
    {
      hide BtrfsTree.Valid, Foot, StepOk;
    }

    static lemma FitIsWritable(all: seq<Item>, ns: nat)
      ensures BtrfsSplit.HalvesFit(all, ns) ==> Writable(all[..|all| / 2], ns) && Writable(all[|all| / 2..], ns)
    {
      hide LeafSize, Writable;
      FittingIsWritable(all[..|all| / 2], ns);
      FittingIsWritable(all[|all| / 2..], ns);
    }

    static lemma SplitStarts(d: Descent, it: Item)
      requires d.Ok()
      ensures |InsertItem(d.LeafItems(), it)| > 0
      ensures |d.path| == d.lvl + 1 && d.Addr(d.lvl) in d.h && d.Addr(d.lvl) != 0 && d.h[d.Addr(d.lvl)].Leaf?
    {
      hide BtrfsTree.Valid, StepOk, Foot;
      Edit(d, [], false, false).LeafNode();
    }

    /** Halves that fit, written where the level byte is right, are leaves with those items. */
    static lemma GoodHalves(all: seq<Item>, x: Node, y: Node, ns: nat, kept: bool)
      requires var mid := |all| / 2; HalfWritten(x, all[..mid], ns, true) && HalfWritten(y, all[mid..], ns, kept)
      ensures kept && BtrfsSplit.HalvesFit(all, ns) ==>
                var mid := |all| / 2;
                0 < mid && x == Leaf(all[..mid]) && y == Leaf(all[mid..]) && LeafSize(all[..mid]) <= ns && LeafSize(all[mid..]) <= ns
    {
      hide LeafSize;
    }

    /** The leaf and the new node are not among the index nodes of the path. */
    static lemma LeafNotAbove(e: Edit, leaf: u64, b: u64)
      requires e.Ok() && |e.d.path| == e.d.lvl + 1 && leaf == e.d.Addr(e.d.lvl) && b !in e.d.h
      ensures forall i | 0 <= i < e.d.lvl :: e.d.path[i].logical != leaf && e.d.path[i].logical != b
    {
      hide Walk, WalkAll, Foot, FootAll, ValidAll, BtrfsTree.Valid, Chosen;
      forall i | 0 <= i < e.d.lvl ensures e.d.path[i].logical != leaf && e.d.path[i].logical != b {
        assert StepOk(e.d.h, e.d.path, i, e.d.k);
      }
    }

    /** The edit of a leaf split whose halves read back as x and y: what the tree shows, and whether its order is kept. */
    static ghost predicate SplitEdit(e: Edit, all: seq<Item>, it: Item, x: Node, y: Node, kept: bool) {
      && e.Ok() && |all| > 0
      && var mid := |all| / 2;
         && HalfWritten(x, all[..mid], e.d.ns, true) && HalfWritten(y, all[mid..], e.d.ns, kept)
         && e.flip == e.FlipsAt(all[mid].k)
         && e.items == ShownNodes(x, y, e.flip)
         && e.good == (!HasKey(e.d.LeafItems(), it.k) && !e.flip && kept && BtrfsSplit.HalvesFit(all, e.d.ns))
    }

    // What an insertion of item it will meet, seen before the call.

    ghost function AllFor(it: Item): seq<Item>
      reads this
    {
      InsertItem(LeafItemsFor(it.k), it)
    }

    ghost predicate Overflows(it: Item)
      reads this
    {
      LeafSize(AllFor(it)) > nodeSize
    }

    /** Splitting by item count leaves two halves that fit. */
    ghost predicate HalvesFit(it: Item)
      reads this
    {
      BtrfsSplit.HalvesFit(AllFor(it), nodeSize)
    }

    /** Neither half of the split stops the program. */
    ghost predicate HalvesWritable(it: Item)
      reads this
    {
      var all := AllFor(it);
      Writable(all[..|all| / 2], nodeSize) && Writable(all[|all| / 2..], nodeSize)
    }

    /** The space the new leaf will take has level byte 0. */
    ghost predicate FreshLevel()
      requires Mounted()
      reads this
    {
      NextNode().Some? && Mapped(chunks, NextNode().value, nodeSize) && LevelAt(NextNode().value) == 0
    }

    /** Seen before the call: whether the tree will be the old one with the item in its sorted place. */
    ghost predicate WillBeRight(it: Item)
      requires Mounted()
      reads this
    {
      !HasKey(Items(), it.k) && !SplitsLow(it) && (Overflows(it) ==> HalvesFit(it) && FreshLevel())
    }

    /** The leaf splits at a key that does not exceed the root's first separator. */
    ghost predicate SplitsLow(it: Item)
      reads this
    {
      var all := AllFor(it);
      Overflows(it) && fsRootLvl > 0 && |all| >= 2 && !Less(RootKey(), all[|all| / 2].k)
    }

    /** The index node above the leaf for k has room for one pointer more. */
    ghost predicate ParentRoom(k: Key)
      reads this
    {
      && fsRootLvl > 0
      && var a := LeafFor(nodes, fsRoot, fsRootLvl - 1, k);
         a in nodes && nodes[a].Index? && IndexSize(|nodes[a].ptrs| + 1) <= nodeSize
    }

    lemma ParentOf(d: Descent)
      requires d.Ok() && d.h == nodes && d.lvl == fsRootLvl && d.path[0].logical == fsRoot && d.ns == nodeSize
      ensures ParentRoom(d.k) <==> d.lvl > 0 && IndexSize(|d.Ptrs(d.lvl - 1)| + 1) <= nodeSize
    {
      hide BtrfsTree.Valid, Foot, Chosen, LeafFor;
      if d.lvl > 0 {
        PathPasses(nodes, d.path, fsRootLvl - 1, d.k);
        assert StepOk(d.h, d.path, d.lvl - 1, d.k);
      }
    }

    lemma LeafFinished(e: Edit)
      requires Current(e) && !e.flip && LeafSize(e.items) <= e.d.ns
      requires e.good ==> LeafOrder(e.items, e.d.Lo(e.d.lvl), e.d.Hi(e.d.lvl), e.d.Left(e.d.lvl))
      requires nodes == e.d.h[e.d.Addr(e.d.lvl) := Leaf(e.items)]
      ensures Finished(e)
    {
      hide LeafOrder, Walk, WalkAll, Foot, FootAll, StepOk, ValidAll, BtrfsTree.Valid, LeafSize, Less,
           Edit.Done, Finished, Current;
      CurrentOk(e);
      e.LeafKept(nodes);
      e.LiftAll(e.d.lvl, nodes, multiset{});
      FinishSame(e, multiset{});
    }

    lemma CurrentOk(e: Edit)
      requires Current(e)
      ensures e.Ok()
    {
    }

    /** From the finished edit to the statement about the whole tree, no split. */
    lemma PlainResult(e: Edit, it: Item, left: bool)
      requires e.Ok() && it.k == e.d.k && Finished(e) && fsRootLvl == e.d.lvl && e.d.ns == nodeSize
      requires e.items == InsertItem(e.d.LeafItems(), it) && e.good == !HasKey(e.d.LeafItems(), it.k)
      requires e.d.left == (left || e.d.lvl == 0)
      ensures var w0 := Walk(e.d.h, e.d.path[0].logical, e.d.lvl);
              && Items() == InsertItem(w0, it)
              && (TreeOk(true) <==> !HasKey(w0, it.k))
              && (!HasKey(w0, it.k) ==> TreeOk(left))
      ensures OthersKept(e.d.h, Foot(e.d.h, e.d.path[0].logical, e.d.lvl))
    {
      hide LeafOrder, Walk, WalkAll, Foot, FootAll, StepOk, PathOk, ValidAll, BtrfsTree.Valid, InsertItem, HasKey, Less, Sorted;
      PlainMeans(e.d, it);
      OnlyLeafForKey(e.d);
      OrderedIfOk();
      if e.good {
        Relax(left, e.d.left);
      }
    }

    /** From the finished edit to the statement about the whole tree, after a split. */
    lemma SplitResult(e: Edit, all: seq<Item>, it: Item, x: Node, y: Node, b: nat, kept: bool, left: bool)
      requires SplitEdit(e, all, it, x, y, kept) && it.k == e.d.k && Finished(e) && e.d.ns == nodeSize >= 4096
      requires all == InsertItem(e.d.LeafItems(), it) && e.d.left == (left || e.d.lvl == 0)
      requires LeafSize(e.d.LeafItems()) <= nodeSize < LeafSize(all) && Includes(e, multiset{b})
      requires e.d.Addr(e.d.lvl) in nodes && nodes[e.d.Addr(e.d.lvl)] == x && b in nodes && nodes[b] == y
      ensures var w0 := Walk(e.d.h, e.d.path[0].logical, e.d.lvl);
              && (TreeOk(true) && Items() == InsertItem(w0, it)
                  <==> !HasKey(w0, it.k) && !e.flip && kept && BtrfsSplit.HalvesFit(all, nodeSize))
              && (!HasKey(w0, it.k) && !e.flip && kept && BtrfsSplit.HalvesFit(all, nodeSize) ==> TreeOk(left))
      ensures OthersKept(e.d.h, Foot(e.d.h, e.d.path[0].logical, e.d.lvl))
    {
      hide LeafOrder, Walk, WalkAll, Foot, FootAll, StepOk, PathOk, ValidAll, BtrfsTree.Valid, InsertItem, HasKey, Less, Sorted, Shown,
           ShownNodes, HalfWritten, LeafSize;
      OnlyLeafForKey(e.d);
      OrderedIfOk();
      var mid := |all| / 2;
      if BtrfsSplit.HalvesFit(all, nodeSize) {
        FittingShown(all[..mid], all[mid..], x, y, e.flip, kept, nodeSize);
        SplitMeans(e.d, it, mid, e.flip, kept);
      } else if TreeOk(true) {
        SplitLeavesFit(e, b);
        WhichHalf(e.d.LeafItems(), it, nodeSize);
        OverfullMeans(e.d, it, mid, e.flip, kept, x, y);
      }
      if e.good {
        Relax(left, e.d.left && (fsRootLvl == e.d.lvl || e.d.lvl > 0));
      }
    }

    /** In a valid tree both nodes of the split are of legal size. */
    lemma SplitLeavesFit(e: Edit, b: nat)
      requires e.Ok() && TreeOk(true) && Includes(e, multiset{b})
      requires e.d.Addr(e.d.lvl) in nodes && b in nodes
      ensures nodes[e.d.Addr(e.d.lvl)].Leaf? ==> LeafSize(nodes[e.d.Addr(e.d.lvl)].items) <= nodeSize
      ensures nodes[b].Leaf? ==> LeafSize(nodes[b].items) <= nodeSize
    {
      hide LeafOrder, Walk, WalkAll, Foot, FootAll, StepOk, ValidAll, BtrfsTree.Valid, LeafSize;
      LeavesFit(nodeSize, nodes, fsRoot, fsRootLvl, RootKey(), None, true);
      LeafInFoot(e.d, 0);
      Both(Foot(e.d.h, e.d.path[0].logical, e.d.lvl), Foot(nodes, fsRoot, fsRootLvl), e.d.Addr(e.d.lvl), b);
    }

    static lemma Both(old_: multiset<nat>, new_: multiset<nat>, a: nat, b: nat)
      requires old_ + multiset{b} <= new_ && a in old_
      ensures a in new_ && b in new_
    {
    }

    static lemma {:induction false} LeafInFoot(d: Descent, j: nat)
      requires d.Ok() && j <= d.lvl
      ensures d.Addr(d.lvl) in Foot(d.h, d.Addr(j), d.lvl - j)
      decreases d.lvl - j
    {
      hide Walk, WalkAll, Foot, FootAll, ValidAll, BtrfsTree.Valid, Less, Chosen, StepOk;
      if j < d.lvl {
        LeafInFoot(d, j + 1);
        d.FootOfNode(j);
      } else {
        SoleFoot(d.h, d.Addr(d.lvl));
      }
    }

    /** Exactly one half of an overflowing list is too long, or none is. */
    static lemma WhichHalf(items: seq<Item>, it: Item, ns: nat)
      requires LeafSize(items) <= ns < LeafSize(InsertItem(items, it)) && ns >= 4096
      ensures var all := InsertItem(items, it);
              !BtrfsSplit.HalvesFit(all, ns) ==> (LeafSize(all[..|all| / 2]) <= ns <==> LeafSize(all[|all| / 2..]) > ns)
      ensures LeafSize([]) <= ns
    {
      hide InsertItem, DataSize;
      var all := InsertItem(items, it);
      OneTooLong(items, it, |all| / 2, ns);
      NoData();
      if |all| < 2 {
        assert all[..|all| / 2] == [] && all[|all| / 2..] == all;
      }
    }

    static lemma NoData()
      ensures DataSize([]) == 0
    {
    }

    lemma OrderedIfOk()
      ensures TreeOk(true) ==> Sorted(Items())
    {
      hide Foot, FootAll, ValidAll, BtrfsTree.Valid, Less;
      if TreeOk(true) {
        WalkOrdered(nodeSize, nodes, fsRoot, fsRootLvl, RootKey(), None, true);
      }
    }

    /** A tree without keys below their separators is also one where they are allowed. */
    lemma Relax(left: bool, now: bool)
      requires Distinct(Foot(nodes, fsRoot, fsRootLvl))
      requires BtrfsTree.Valid(nodeSize, nodes, fsRoot, fsRootLvl, RootKey(), None, now)
      requires now ==> left || fsRootLvl == 0
      ensures TreeOk(left) && TreeOk(true)
    {
      hide Foot, FootAll, ValidAll, Less;
      if !now {
        Looser(nodeSize, nodes, fsRoot, fsRootLvl, RootKey(), None);
      }
      if fsRootLvl == 0 {
        RelaxLeaf(left);
      }
    }

    /** The scan of insertIntoLeaf for the first item not below the key. */
    static method AddItem(items: seq<Item>, it: Item) returns (all: seq<Item>)
      ensures all == InsertItem(items, it)
    {
      var insertIdx := |items|;
      for i := 0 to |items|
        invariant insertIdx == |items|
        invariant forall j | 0 <= j < i :: Less(items[j].k, it.k)
      {
        if !Less(items[i].k, it.k) {
          insertIdx := i;
          break;
        }
      }
      InsertPosUnique(items, it.k, insertIdx);
      all := items[..insertIdx] + [it] + items[insertIdx..];
    }

    /** The loop that adds up item sizes. */
    static method TotalData(items: seq<Item>) returns (totalData: nat)
      ensures totalData == DataSize(items)
    {
      totalData := 0;
      for i := 0 to |items|
        invariant totalData + DataSize(items[i..]) == DataSize(items)
      {
        DataAtSteps(items, 0, i);
        totalData := totalData + |items[i].data|;
      }
    }

    /** The items of the leaf for k, and the path to it. */
    method OpenLeaf(k: Key, ghost left: bool) returns (path: seq<PathElement>, items: seq<Item>)
      requires Valid() && TreeOk(left) && (left || fsRootLvl == 0 || !Less(k, RootKey()))
      ensures PathOk(nodes, path, fsRootLvl, k) && path[0].logical == fsRoot
      ensures DescentOf(path, k, left).Ok() && items == LeafItemsFor(k) == DescentOf(path, k, left).LeafItems()
      ensures LeafSize(items) <= nodeSize
      ensures path[fsRootLvl].logical in nodes && nodes[path[fsRootLvl].logical] == Leaf(items)
    {
      hide ChunksOk, Stored, LeafOrder, Walk, WalkAll, Foot, FootAll, StepOk, ValidAll, BtrfsTree.Valid, DecodeNode,
           LeafSize, LeafFor;
      path := FindLeafWithPath(fsRoot, fsRootLvl, k, RootKey(), left);
      DescentOk(path, k, left);
      var leaf := path[|path| - 1];
      var buf := ReadNode(leaf.logical);
      var r := ReadItems(buf);
      items := r.value;
      LeafFits(DescentOf(path, k, left));
    }

    static lemma LeafFits(d: Descent)
      requires d.Ok()
      ensures LeafSize(d.LeafItems()) <= d.ns
    {
      hide LeafSize, ValidAll, LeafOrder;
      d.ValidAt(d.lvl);
    }

    /** The leaf takes the item without a split. */
    method WriteFitting(leaf: u64, all: seq<Item>, ghost d: Descent, ghost it: Item, ghost left: bool)
      requires Valid() && d.Ok() && d.h == nodes && d.ns == nodeSize && d.lvl == fsRootLvl && d.left == (left || d.lvl == 0)
      requires |d.path| == d.lvl + 1 && d.path[0].logical == fsRoot && d.Addr(d.lvl) == leaf
      requires leaf in nodes && nodes[leaf].Leaf?
      requires it.k == d.k && all == InsertItem(d.LeafItems(), it) && LeafSize(all) <= nodeSize
      modifies this`dev, this`nodes
      ensures Spared(old(dev), dev, chunks, nodeSize, nodes)
      ensures Valid() && Items() == InsertItem(old(Items()), it)
      ensures TreeOk(true) <==> !HasKey(old(Items()), it.k)
      ensures !HasKey(old(Items()), it.k) ==> TreeOk(left)
      ensures OthersKept(old(nodes), old(Foot(nodes, fsRoot, fsRootLvl)))
    {
      hide Spared, ChunksOk, Stored, LeafOrder, Walk, WalkAll, Foot, FootAll, StepOk, ValidAll, BtrfsTree.Valid, DecodeNode,
           LeafSize, InsertItem, HasKey, Less, Edit.Done, Finished, Sorted, OthersKept;
      ghost var e := Edit(d, all, false, !HasKey(d.LeafItems(), it.k));
      WriteLeaf(leaf, all);
      e.InsertReady(it);
      LeafFinished(e);
      PlainResult(e, it, left);
    }

    /**
     insertIntoLeaf on the file tree. left says whether the tree may hold keys below the
     separators that lead to them. A split that finds no space, or a half the program cannot
     write, is a failure.
     */
    method InsertIntoLeaf(k: Key, itemData: seq<byte>, ghost left: bool) returns (ok: bool)
      requires Valid() && TreeOk(left) && (left || fsRootLvl == 0 || !Less(k, RootKey()))
      requires Overflows(Item(k, itemData)) ==> fsRootLvl < 255
      modifies this
      ensures Spared(old(dev), dev, chunks, nodeSize, nodes)
      ensures Valid()
      ensures !old(Overflows(Item(k, itemData))) ==> ok
      ensures old(Overflows(Item(k, itemData))) && old(NextNode()).None? ==> !ok && unchanged(this)
      ensures ok && old(Overflows(Item(k, itemData))) ==> old(HalvesWritable(Item(k, itemData)))
      ensures old(NextNode()).Some? && old(HalvesWritable(Item(k, itemData)) && ParentRoom(k)) ==> ok
      ensures old(HalvesFit(Item(k, itemData)) && FreshLevel()) && !ok ==> NextNode().None?
      ensures Spent(old(extents), old(nodes), old(fsRootLvl as nat) + 2)
      ensures ok ==>
        && (TreeOk(true) && Items() == InsertItem(old(Items()), Item(k, itemData)) <==> old(WillBeRight(Item(k, itemData))))
        && (old(WillBeRight(Item(k, itemData))) ==> TreeOk(left))
        && OthersKept(old(nodes), old(Foot(nodes, fsRoot, fsRootLvl)))
    {
      hide Spared, ChunksOk, Stored, LeafOrder, Walk, WalkAll, Foot, FootAll, StepOk, ValidAll, BtrfsTree.Valid, DecodeNode,
           LeafSize, InsertItem, HasKey, Less, Edit.Done, Finished, Sorted, OthersKept, Includes, Writable, FirstFit, FileRanges,
           HalfWritten, LeafFor, Spent, Descent.Ok, ParentRoom;
      var path, items := OpenLeaf(k, left);
      ghost var d, it := DescentOf(path, k, left), Item(k, itemData);
      ParentOf(d);
      if |items| >= 0xFFF0 {
        TooMany(items);
        SparedSame(dev, chunks, nodeSize, nodes);
        return false;
      }
      var all := AddItem(items, Item(k, itemData));
      var totalData := TotalData(all);
      Needed(all, totalData);
      if NODE_HEADER_SIZE + ITEM_HEADER_SIZE * |all| + totalData > nodeSize {
        AnyLeft(left);
        ghost var e, x, y;
        ok, e, x, y := SplitLeafWithPath(path, all, d, it);
        if ok {
          SplitResult(e, all, it, x, y, old(NextNode()).value, old(LevelAt(NextNode().value)) == 0, left);
          LowIsFlip(e, all, it);
        }
      } else {
        WriteFitting(path[|path| - 1].logical, all, d, it, left);
        NoneSpent(old(nodes), fsRootLvl as nat + 2);
        ok := true;
      }
    }

    lemma AnyLeft(left: bool)
      requires TreeOk(left)
      ensures BtrfsTree.Valid(nodeSize, nodes, fsRoot, fsRootLvl, RootKey(), None, true)
    {
      hide ValidAll, Foot;
      if !left {
        Looser(nodeSize, nodes, fsRoot, fsRootLvl, RootKey(), None);
      }
    }

    static lemma Needed(all: seq<Item>, totalData: nat)
      requires totalData == DataSize(all)
      ensures LeafSize(all) == NODE_HEADER_SIZE + ITEM_HEADER_SIZE * |all| + totalData
    {
    }

    /** The item-count limit of insertIntoLeaf is out of reach. */
    static lemma TooMany(items: seq<Item>)
      ensures LeafSize(items) <= 65536 ==> |items| < 0xFFF0
    {
    }

    /** For an absent key the split goes wrong exactly below the root's first separator. */
    static lemma LowIsFlip(e: Edit, all: seq<Item>, it: Item)
      requires e.Ok() && it.k == e.d.k && all == InsertItem(e.d.LeafItems(), it) && |all| > 0
      requires e.flip == e.FlipsAt(all[|all| / 2].k)
      ensures |all| >= 2 && !HasKey(Walk(e.d.h, e.d.path[0].logical, e.d.lvl), it.k) ==>
                (e.flip <==> e.d.lvl > 0 && !Less(e.d.lo, all[|all| / 2].k))
    {
      hide LeafOrder, Walk, WalkAll, Foot, FootAll, StepOk, PathOk, ValidAll, BtrfsTree.Valid, InsertItem, HasKey, Less;
      OnlyLeafForKey(e.d);
      e.SplitReady(it, |all| / 2, 0);
    }

    // ----- deletion and update -----

    /** The leaf for k as deleteFromLeaf and updateInLeaf find it. */
    method OpenLeafByKey(k: Key, ghost left: bool) returns (leaf: u64, items: seq<Item>, ghost d: Descent)
      requires Valid() && TreeOk(left) && (left || fsRootLvl == 0 || !Less(k, RootKey()))
      ensures d.Ok() && d.h == nodes && d.ns == nodeSize && d.lvl == fsRootLvl && d.k == k && d.left == (left || fsRootLvl == 0)
      ensures |d.path| == d.lvl + 1 && d.path[0].logical == fsRoot && d.Addr(d.lvl) == leaf
      ensures items == LeafItemsFor(k) == d.LeafItems() && LeafSize(items) <= nodeSize
      ensures leaf in nodes && nodes[leaf] == Leaf(items)
    {
      hide ChunksOk, Stored, LeafOrder, Walk, WalkAll, Foot, FootAll, StepOk, ValidAll, BtrfsTree.Valid, DecodeNode,
           LeafSize, LeafFor;
      leaf := FindLeaf(fsRoot, fsRootLvl, k, RootKey(), None, left);
      ghost var path := PathTo(nodes, fsRoot, fsRootLvl, k);
      PathToOk(nodeSize, nodes, fsRoot, fsRootLvl, RootKey(), None, left, k);
      DescentOk(path, k, left);
      d := DescentOf(path, k, left);
      var buf := ReadNode(leaf);
      var r := ReadItems(buf);
      items := r.value;
      LeafFits(d);
    }

    /** The scan for the position of a key; the last match wins. */
    static method FindKey(items: seq<Item>, k: Key) returns (idx: int)
      ensures idx == -1 ==> !HasKey(items, k)
      ensures idx != -1 ==> 0 <= idx < |items| && items[idx].k == k
    {
      idx := -1;
      for i := 0 to |items|
        invariant idx == -1 ==> forall j | 0 <= j < i :: items[j].k != k
        invariant idx != -1 ==> 0 <= idx < i && items[idx].k == k
      {
        if items[i].k == k {
          idx := i;
        }
      }
    }

    /** A rewritten leaf whose items stay in order gives a tree in order. */
    method RewriteLeaf(leaf: u64, items: seq<Item>, ghost d: Descent)
      requires Valid() && LeafSize(items) <= nodeSize
      requires d.Ok() && d.h == nodes && d.ns == nodeSize && d.lvl == fsRootLvl && (d.lvl == 0 ==> d.left)
      requires |d.path| == d.lvl + 1 && d.path[0].logical == fsRoot && d.Addr(d.lvl) == leaf
      requires leaf in nodes && nodes[leaf].Leaf?
      requires LeafOrder(items, d.Lo(d.lvl), d.Hi(d.lvl), d.Left(d.lvl))
      modifies this`dev, this`nodes
      ensures Spared(old(dev), dev, chunks, nodeSize, nodes)
      ensures Valid() && Finished(Edit(d, items, false, true))
    {
      hide Spared, ChunksOk, Stored, LeafOrder, Walk, WalkAll, Foot, FootAll, StepOk, ValidAll, BtrfsTree.Valid, DecodeNode,
           LeafSize, Less, Edit.Done, Finished;
      ghost var e := Edit(d, items, false, true);
      WriteLeaf(leaf, items);
      LeafFinished(e);
    }

    /** deleteFromLeaf on the file tree */
    method DeleteFromLeaf(k: Key, ghost left: bool) returns (ok: bool)
      requires Valid() && TreeOk(left)
      modifies this`dev, this`nodes
      ensures Spared(old(dev), dev, chunks, nodeSize, nodes)
      ensures Valid() && TreeOk(left)
      ensures ok <==> HasKey(old(Items()), k)
      ensures Items() == Without(old(Items()), k)
      ensures !ok ==> unchanged(this)
      ensures OthersKept(old(nodes), old(Foot(nodes, fsRoot, fsRootLvl)))
    {
      hide Spared, ChunksOk, Stored, LeafOrder, Walk, WalkAll, Foot, FootAll, StepOk, ValidAll, BtrfsTree.Valid, DecodeNode,
           LeafSize, HasKey, Less, Edit.Done, Sorted, LeafFor, Without;
      ghost var l := left || Less(k, RootKey());
      Widen(left, k);
      var leaf, items, d := OpenLeafByKey(k, l);
      OnlyLeafForKey(d);
      var deleteIdx := FindKey(items, k);
      if deleteIdx == -1 {
        WithoutNone(Items(), k);
        SparedSame(dev, chunks, nodeSize, nodes);
        return false;
      }
      HoldsKey(items, deleteIdx, k);
      var all := items[..deleteIdx] + items[deleteIdx + 1..];
      DeleteReady(d, deleteIdx);
      RewriteLeaf(leaf, all, d);
      DeleteMeans(d);
      FinishedOk(Edit(d, all, false, true), left);
      ok := true;
    }

    /** updateInLeaf on the file tree */
    method UpdateInLeaf(k: Key, itemData: seq<byte>, ghost left: bool) returns (ok: bool)
      requires Valid() && TreeOk(left)
      modifies this`dev, this`nodes
      ensures Spared(old(dev), dev, chunks, nodeSize, nodes)
      ensures Valid() && TreeOk(left)
      ensures ok <==> HasKey(old(Items()), k) && LeafSize(Replaced(old(LeafItemsFor(k)), k, itemData)) <= nodeSize
      ensures ok ==> Items() == Replaced(old(Items()), k, itemData)
      ensures !ok ==> unchanged(this)
      ensures OthersKept(old(nodes), old(Foot(nodes, fsRoot, fsRootLvl)))
    {
      hide Spared, ChunksOk, Stored, LeafOrder, Walk, WalkAll, Foot, FootAll, StepOk, ValidAll, BtrfsTree.Valid, DecodeNode,
           LeafSize, HasKey, Less, Edit.Done, Sorted, LeafFor, Replaced;
      ghost var l := left || Less(k, RootKey());
      Widen(left, k);
      var leaf, items, d := OpenLeafByKey(k, l);
      OnlyLeafForKey(d);
      var updateIdx := FindKey(items, k);
      SparedSame(dev, chunks, nodeSize, nodes);
      if updateIdx == -1 {
        return false;
      }
      HoldsKey(items, updateIdx, k);
      var all := items[updateIdx := Item(k, itemData)];
      UpdateReady(d, updateIdx, itemData);
      var totalData := TotalData(all);
      Needed(all, totalData);
      if NODE_HEADER_SIZE + ITEM_HEADER_SIZE * |all| + totalData > nodeSize {
        return false;
      }
      RewriteLeaf(leaf, all, d);
      UpdateMeans(d, itemData);
      FinishedOk(Edit(d, all, false, true), left);
      ok := true;
    }

    static lemma HoldsKey(items: seq<Item>, i: nat, k: Key)
      requires i < |items| && items[i].k == k
      ensures HasKey(items, k)
    {
    }

    /** A key below the root's first separator is only in trees that allow such keys. */
    lemma Widen(left: bool, k: Key)
      requires TreeOk(left)
      ensures TreeOk(left || Less(k, RootKey()))
      ensures !left && Less(k, RootKey()) && fsRootLvl > 0 ==> !HasKey(Items(), k)
    {
      hide Walk, WalkAll, Foot, FootAll, ValidAll;
      if !left {
        Looser(nodeSize, nodes, fsRoot, fsRootLvl, RootKey(), None);
        WalkOrdered(nodeSize, nodes, fsRoot, fsRootLvl, RootKey(), None, false);
      }
    }

    lemma FinishedOk(e: Edit, left: bool)
      requires e.Ok() && Finished(e) && e.good && e.d.ns == nodeSize && fsRootLvl == e.d.lvl
      requires e.d.left ==> left || fsRootLvl == 0
      ensures TreeOk(left)
    {
      hide Walk, WalkAll, Foot, FootAll, ValidAll, BtrfsTree.Valid;
      Relax(left, e.d.left);
    }

    static lemma DeleteReady(d: Descent, i: nat)
      requires d.Ok() && i < |d.LeafItems()| && d.LeafItems()[i].k == d.k
      ensures var items := d.LeafItems(); var all := items[..i] + items[i + 1..];
              && LeafOrder(all, d.Lo(d.lvl), d.Hi(d.lvl), d.Left(d.lvl)) && LeafSize(all) <= LeafSize(items)
              && all == Without(items, d.k)
    {
      hide Less, BelowHi, PathOk, StepOk, Chosen, BtrfsTree.Valid, ValidAll, Foot, Without;
      Edit(d, [], false, false).LeafBounds();
      var items := d.LeafItems();
      WithoutAt(items, i);
      assert items == items[..i] + ([items[i]] + items[i + 1..]);
      DataSizeConcat(items[..i], [items[i]] + items[i + 1..]);
      DataSizeConcat([items[i]], items[i + 1..]);
      DataSizeConcat(items[..i], items[i + 1..]);
      CutInOrder(items, i, d.Lo(d.lvl), d.Hi(d.lvl), d.Left(d.lvl));
    }

    static lemma CutInOrder(items: seq<Item>, i: nat, lo: Key, hi: Option<Key>, left: bool)
      requires i < |items| && LeafOrder(items, lo, hi, left)
      ensures LeafOrder(items[..i] + items[i + 1..], lo, hi, left)
    {
      hide Less, BelowHi;
      var all := items[..i] + items[i + 1..];
      assert forall j | 0 <= j < |all| :: all[j] == if j < i then items[j] else items[j + 1];
    }

    static lemma UpdateReady(d: Descent, i: nat, data: seq<byte>)
      requires d.Ok() && i < |d.LeafItems()| && d.LeafItems()[i].k == d.k
      ensures var items := d.LeafItems(); var all := items[i := Item(d.k, data)];
              && LeafOrder(all, d.Lo(d.lvl), d.Hi(d.lvl), d.Left(d.lvl))
              && all == Replaced(items, d.k, data)
    {
      hide BelowHi, PathOk, StepOk, Chosen, BtrfsTree.Valid, ValidAll, Foot;
      Edit(d, [], false, false).LeafBounds();
      var items := d.LeafItems();
      SetInOrder(items, i, data, d.Lo(d.lvl), d.Hi(d.lvl), d.Left(d.lvl));
    }

    static lemma SetInOrder(items: seq<Item>, i: nat, data: seq<byte>, lo: Key, hi: Option<Key>, left: bool)
      requires i < |items| && LeafOrder(items, lo, hi, left)
      ensures LeafOrder(items[i := Item(items[i].k, data)], lo, hi, left)
      ensures items[i := Item(items[i].k, data)] == Replaced(items, items[i].k, data)
    {
      hide BelowHi;
      var all := items[i := Item(items[i].k, data)];
      assert forall j | 0 <= j < |all| :: all[j].k == items[j].k;
      forall j | 0 <= j < |items| && j != i ensures items[j].k != items[i].k {
        LessIsStrictTotalOrder(items[i].k, items[j].k, items[i].k);
      }
    }

    static lemma {:induction false} DataSizeConcat(a: seq<Item>, b: seq<Item>)
      ensures DataSize(a + b) == DataSize(a) + DataSize(b)
    {
      if a == [] {
        assert a + b == b;
      } else {
        assert (a + b)[1..] == a[1..] + b;
        DataSizeConcat(a[1..], b);
      }
    }

    static lemma DeleteMeans(d: Descent)
      requires d.Ok()
      ensures d.Inner(0, Without(d.LeafItems(), d.k)) == Without(Walk(d.h, d.path[0].logical, d.lvl), d.k)
    {
      hide Walk, BtrfsTree.Valid, Less, PathOk, Sorted, HasKey, AllBelow, AllAbove, Without;
      var pre, post := BtrfsMeaning.WalkAround(d);
      WithoutAround(pre, d.LeafItems(), post, d.k);
    }

    static lemma UpdateMeans(d: Descent, data: seq<byte>)
      requires d.Ok()
      ensures d.Inner(0, Replaced(d.LeafItems(), d.k, data)) == Replaced(Walk(d.h, d.path[0].logical, d.lvl), d.k, data)
    {
      hide Walk, BtrfsTree.Valid, Less, PathOk, Sorted, HasKey, AllBelow, AllAbove, Replaced;
      var pre, post := BtrfsMeaning.WalkAround(d);
      ReplacedAround(pre, d.LeafItems(), post, d.k, data);
    }

    // ----- conditions a caller can see -----

    /**
     In a tree without keys below its separators, an absent key that is not below the root's first
     separator never makes its leaf split low.
     */
    lemma NeverSplitsLow(it: Item)
      requires Valid() && TreeOk(false) && (fsRootLvl == 0 || !Less(it.k, RootKey())) && !HasKey(Items(), it.k)
      ensures !SplitsLow(it)
    {
      hide ChunksOk, Stored, LeafOrder, Walk, WalkAll, Foot, FootAll, StepOk, ValidAll, BtrfsTree.Valid, LeafSize, LeafFor, InsertItem, PathOk,
           HasKey, Less;
      if SplitsLow(it) {
        PathToOk(nodeSize, nodes, fsRoot, fsRootLvl, RootKey(), None, false, it.k);
        var path := PathTo(nodes, fsRoot, fsRootLvl, it.k);
        DescentOk(path, it.k, false);
        var d, all := DescentOf(path, it.k, false), AllFor(it);
        OnlyLeafForKey(d);
        var flip := Edit(d, all, false, false).FlipsAt(all[|all| / 2].k);
        Edit(d, all, flip, false).SplitReady(it, |all| / 2, 0);
      }
    }

    /** With small items a leaf split never overfills a half. */
    lemma SmallItemsFit(it: Item, most: nat, left: bool)
      requires Valid() && TreeOk(left) && (left || fsRootLvl == 0 || !Less(it.k, RootKey()))
      requires BtrfsSplit.AtMost(LeafItemsFor(it.k), most) && BtrfsSplit.AtMost([it], most)
      requires most > 0 && BtrfsSplit.SmallEnough(nodeSize, most)
      ensures Overflows(it) ==> HalvesFit(it)
    {
      hide ChunksOk, Stored, LeafOrder, Walk, Foot, StepOk, ValidAll, BtrfsTree.Valid, LeafSize, LeafFor, InsertItem, PathOk;
      PathToOk(nodeSize, nodes, fsRoot, fsRootLvl, RootKey(), None, left, it.k);
      var path := PathTo(nodes, fsRoot, fsRootLvl, it.k);
      DescentOk(path, it.k, left);
      LeafFits(DescentOf(path, it.k, left));
      if Overflows(it) {
        BtrfsSplit.SmallFits(LeafItemsFor(it.k), it, nodeSize, most);
      }
    }
  }
}
