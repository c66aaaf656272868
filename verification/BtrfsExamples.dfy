/** Volumes on which each condition of an insertion fails while all the others hold. */
module BtrfsExamples {
  import opened Wrappers
  import opened Bytes
  import opened BtrfsTypes
  import opened BtrfsTree
  import opened BtrfsFormat
  import opened BtrfsPack
  import opened BtrfsSpace
  import opened BtrfsVolume
  import BtrfsMeaning
  import BtrfsPath
  import BtrfsSplit

  const NODE := 4096
  const ROOT: u64 := 0x10000
  const LEAF: u64 := 0x11000
  const SPARE: u64 := 0x12000

  /** One chunk of four nodes: an index node over one leaf, and space for two more. */
  const CHUNK := Chunk(0x10000, 4 * NODE, 0, 4)

  function Nodes(items: seq<Item>, sep: Key): Heap {
    map[ROOT := Index(1, [Ptr(sep, LEAF)]), LEAF := Leaf(items)]
  }

  function Device(root: seq<byte>, leaf: seq<byte>, level: byte): seq<byte> {
    root + leaf + (Zeros(100) + [level] + Zeros(NODE - 101)) + Zeros(NODE)
  }

  lemma ChunkOk()
    ensures ChunksOk([CHUNK], 4 * NODE)
    ensures forall x: nat | 0x10000 <= x < 0x10000 + 4 * NODE :: Resolve([CHUNK], x) == Some(x - 0x10000)
    ensures forall x: nat | 0x10000 <= x <= 0x10000 + 3 * NODE :: Mapped([CHUNK], x, NODE)
  {
    forall x: nat | 0x10000 <= x <= 0x10000 + 3 * NODE ensures Mapped([CHUNK], x, NODE) {
      assert InChunk([CHUNK], 0, x, NODE);
    }
  }

  lemma DeviceHolds(root: seq<byte>, leaf: seq<byte>, level: byte, items: seq<Item>, sep: Key)
    requires |root| == |leaf| == NODE
    requires DecodeNode(root) == Index(1, [Ptr(sep, LEAF)]) && DecodeNode(leaf) == Leaf(items)
    ensures var dev := Device(root, leaf, level);
            |dev| == 4 * NODE && dev[2 * NODE + 100] == level && Stored(dev, [CHUNK], NODE, Nodes(items, sep))
  {
    hide DecodeNode, Mapped;
    ChunkOk();
    var dev := Device(root, leaf, level);
    assert dev[0..NODE] == root && dev[NODE..2 * NODE] == leaf;
  }

  lemma TreeIs(items: seq<Item>, sep: Key)
    requires Sorted(items) && LeafSize(items) <= NODE
    ensures BtrfsTree.Valid(NODE, Nodes(items, sep), ROOT, 1, sep, None, true)
    ensures Distinct(Foot(Nodes(items, sep), ROOT, 1))
    ensures Walk(Nodes(items, sep), ROOT, 1) == items
    ensures forall k :: BtrfsPath.LeafFor(Nodes(items, sep), ROOT, 1, k) == LEAF
  {
    hide LeafSize;
    var h, ptrs := Nodes(items, sep), [Ptr(sep, LEAF)];
    assert ptrs[1..] == [];
    assert Walk(h, LEAF, 0) == items && Foot(h, LEAF, 0) == multiset{LEAF as nat};
    assert WalkAll(h, ptrs, 0) == Walk(h, LEAF, 0) + WalkAll(h, [], 0);
    assert FootAll(h, ptrs, 0) == Foot(h, LEAF, 0) + FootAll(h, [], 0);
    assert BtrfsTree.Valid(NODE, h, LEAF, 0, sep, None, true);
  }

  lemma SpareIsNext(occupied: seq<Range>)
    requires occupied == [Range(ROOT, NODE), Range(LEAF, NODE)]
    ensures FirstFit([CHUNK], occupied, NODE, NODE, METADATA) == Some(SPARE as nat)
  {
    var r := FirstFit([CHUNK], occupied, NODE, NODE, METADATA);
    assert TargetChunk([CHUNK], METADATA) == 0;
    assert Clash(ROOT, NODE, occupied[0]) && Clash(LEAF, NODE, occupied[1]);
    forall y: nat | Candidate(CHUNK, NODE, y) && y < SPARE ensures !Clear(y, NODE, occupied) {
      assert y == ROOT || y == LEAF;
    }
    assert FitsFirst(CHUNK, NODE, NODE, occupied, SPARE);
    FirstFitIs([CHUNK], occupied, NODE, NODE, METADATA, SPARE);
  }

  /** The device of such a volume. */
  method Format(items: seq<Item>, sep: Key, level: byte, crc: seq<byte> -> u32) returns (dev: seq<byte>)
    requires LeafSize(items) <= NODE
    ensures |dev| == 4 * NODE && dev[2 * NODE + 100] == level && Stored(dev, [CHUNK], NODE, Nodes(items, sep))
  {
    hide DecodeNode, LeafSize, Stored, Device, DecodeItems, DecodePtrs;
    var leaf := PackLeaf(Zeros(NODE), items, NODE, LEAF, 1, crc);
    FileSystem.LeafBytes(leaf.value, items, NODE, true);
    var root := PackIndex(Zeros(NODE), [Ptr(sep, LEAF)], 1, NODE, ROOT, 1, crc);
    FileSystem.IndexBytes(root, [Ptr(sep, LEAF)]);
    dev := Device(root, leaf.value, level);
    DeviceHolds(root, leaf.value, level, items, sep);
  }

  /** A volume whose tree is one leaf under a root with separator sep; the next node's space has the level byte given. */
  method Build(items: seq<Item>, sep: Key, level: byte) returns (fs: FileSystem)
    requires Sorted(items) && LeafSize(items) <= NODE && FileRanges(items) == []
    ensures fs.Valid() && fs.TreeOk(true) && fs.fsRootLvl == 1 && fs.nodeSize == NODE
    ensures fs.Items() == items && fs.RootKey() == sep && forall k :: fs.LeafItemsFor(k) == items
    ensures fs.NextNode() == Some(SPARE as nat) && (fs.FreshLevel() <==> level == 0)
  {
    hide LeafSize, Stored, ChunksOk, Recorded, FileSystem.TreeOk, FileSystem.Items, FileSystem.LeafItemsFor, FileSystem.NextNode,
         FileSystem.FreshLevel, FileSystem.RootKey;
    ChunkOk();
    var crc := (_: seq<byte>) => 0;
    var dev := Format(items, sep, level, crc);
    AreRecorded(items, sep);
    fs := new FileSystem(dev, NODE, NODE, 1, [CHUNK], crc, ROOT, 1, [Range(ROOT, NODE), Range(LEAF, NODE)], Nodes(items, sep));
    BuiltTree(fs, items, sep);
    BuiltSpace(fs, items, level);
  }

  lemma AreRecorded(items: seq<Item>, sep: Key)
    ensures Recorded([Range(ROOT, NODE), Range(LEAF, NODE)], NODE, Nodes(items, sep))
  {
    var s := [Range(ROOT, NODE), Range(LEAF, NODE)];
    assert s[0] in s && s[1] in s;
  }

  lemma BuiltTree(fs: FileSystem, items: seq<Item>, sep: Key)
    requires Sorted(items) && LeafSize(items) <= NODE
    requires fs.nodes == Nodes(items, sep) && fs.fsRoot == ROOT && fs.fsRootLvl == 1 && fs.nodeSize == NODE
    ensures fs.TreeOk(true) && fs.Items() == items && fs.RootKey() == sep && forall k :: fs.LeafItemsFor(k) == items
  {
    hide LeafSize, BtrfsTree.Valid, Foot, Walk, BtrfsPath.LeafFor;
    TreeIs(items, sep);
  }

  lemma BuiltSpace(fs: FileSystem, items: seq<Item>, level: byte)
    requires fs.Mounted() && fs.Items() == items && FileRanges(items) == []
    requires fs.chunks == [CHUNK] && fs.extents == [Range(ROOT, NODE), Range(LEAF, NODE)] && fs.nodeSize == NODE == fs.sectorSize
    requires |fs.dev| == 4 * NODE && fs.dev[2 * NODE + 100] == level
    ensures fs.NextNode() == Some(SPARE as nat) && (fs.FreshLevel() <==> level == 0)
  {
    hide Stored, FileSystem.Items, FirstFit, ChunksOk, Mapped, Resolve, FileRanges;
    ChunkOk();
    assert fs.extents + FileRanges(items) == fs.extents;
    SpareIsNext(fs.extents);
  }

  // ----- one condition at a time -----

  function Small(id: u64): Item {
    Item(Key(id, 1, 0), Zeros(1900))
  }

  lemma SmallLeaf()
    ensures var items := [Small(1), Small(2)];
            && Sorted(items) && LeafSize(items) <= NODE && FileRanges(items) == [] && !HasKey(items, Key(3, 1, 0))
            && var all := InsertItem(items, Small(3));
               all == [Small(1), Small(2), Small(3)] && LeafSize(all) > NODE && BtrfsSplit.HalvesFit(all, NODE)
  {
    hide Small, FileRanges;
    var items, all := [Small(1), Small(2)], [Small(1), Small(2), Small(3)];
    SmallIs();
    assert items[1..] == [Small(2)] && [Small(2)][1..] == [] && items[..1] == [Small(1)] && [Small(1)][..0] == [];
    BtrfsSplit.InsertAtEnd(items, Small(3));
    assert items + [Small(3)] == all;
    NoRanges(items);
    assert all[..1] == [Small(1)] && all[1..] == [Small(2), Small(3)];
    Sizes(1, 2, 3);
  }

  lemma SmallIs()
    ensures forall id: u64 :: Small(id).k == Key(id, 1, 0) && |Small(id).data| == 1900
  {
  }

  lemma Sizes(a: u64, b: u64, c: u64)
    ensures LeafSize([Small(a)]) == 2026 && LeafSize([Small(a), Small(b)]) == 3951 && LeafSize([Small(b), Small(c)]) == 3951
    ensures LeafSize([Small(a), Small(b), Small(c)]) == 5876
  {
    hide Small;
    SmallIs();
    Size3(Small(a), Small(b), Small(c));
  }

  lemma Size3(a: Item, b: Item, c: Item)
    ensures DataSize([a]) == |a.data| && DataSize([a, b]) == |a.data| + |b.data| && DataSize([b, c]) == |b.data| + |c.data|
    ensures DataSize([a, b, c]) == |a.data| + |b.data| + |c.data|
  {
    assert [a, b, c][1..] == [b, c] && [a, b][1..] == [b] && [b, c][1..] == [c] && [a][1..] == [] && [b][1..] == [] && [c][1..] == [];
  }

  lemma {:induction false} NoRanges(items: seq<Item>)
    requires forall i | 0 <= i < |items| :: items[i].k.typ != EXTENT_DATA || (|items[i].data| > 20 ==> items[i].data[20] == INLINE)
    ensures FileRanges(items) == []
  {
    if items != [] {
      NoRanges(items[..|items| - 1]);
    }
  }

  /** An absent key, halves that fit, fresh space, and a split below the root's first separator. */
  method SplitsLowExists() returns (fs: FileSystem, it: Item)
    ensures fs.Valid() && fs.TreeOk(true) && fs.fsRootLvl == 1
    ensures !HasKey(fs.Items(), it.k) && fs.Overflows(it) && fs.HalvesFit(it) && fs.FreshLevel()
    ensures fs.SplitsLow(it) && !fs.WillBeRight(it)
  {
    hide Small, LeafSize, FileRanges, InsertItem, BtrfsSplit.HalvesFit, FileSystem.TreeOk, FileSystem.Items, FileSystem.FreshLevel,
         FileSystem.LeafItemsFor, FileSystem.RootKey, FileSystem.Valid, HasKey;
    SmallLeaf();
    SmallIs();
    fs := Build([Small(1), Small(2)], Key(100, 1, 0), 0);
    it := Small(3);
  }

  /** An absent key, halves that fit, no low split, and space with an old index node's level byte. */
  method StaleSpaceExists() returns (fs: FileSystem, it: Item)
    ensures fs.Valid() && fs.TreeOk(true) && fs.fsRootLvl == 1
    ensures !HasKey(fs.Items(), it.k) && fs.Overflows(it) && fs.HalvesFit(it) && !fs.SplitsLow(it)
    ensures !fs.FreshLevel() && !fs.WillBeRight(it)
  {
    hide Small, LeafSize, FileRanges, InsertItem, BtrfsSplit.HalvesFit, FileSystem.TreeOk, FileSystem.Items, FileSystem.FreshLevel,
         FileSystem.LeafItemsFor, FileSystem.RootKey, FileSystem.Valid, HasKey;
    SmallLeaf();
    SmallIs();
    fs := Build([Small(1), Small(2)], Key(1, 1, 0), 1);
    it := Small(3);
  }

  /** An absent key, no low split, fresh space, and a half that can be written but does not fit. */
  method OverfullExists() returns (fs: FileSystem, it: Item)
    ensures fs.Valid() && fs.TreeOk(true) && fs.fsRootLvl == 1
    ensures !HasKey(fs.Items(), it.k) && fs.Overflows(it) && !fs.SplitsLow(it) && fs.FreshLevel()
    ensures !fs.HalvesFit(it) && !fs.WillBeRight(it)
    ensures var all := fs.AllFor(it); Writable(all[..|all| / 2], NODE) && Writable(all[|all| / 2..], NODE)
  {
    hide LeafSize, FileRanges, InsertItem, BtrfsSplit.HalvesFit, FileSystem.TreeOk, FileSystem.Items, FileSystem.FreshLevel,
         FileSystem.LeafItemsFor, FileSystem.RootKey, FileSystem.Valid, HasKey, Writable, Less;
    OverfullLeaf();
    var leaf := BtrfsSplit.Overfull(NODE, 1000);
    fs := Build(leaf.0, Key(0, 0, 0), 0);
    it := leaf.1;
  }

  /** Items of at most 1000 bytes burst a node of 4096 badly. */
  lemma OverfullLeaf()
    ensures !BtrfsSplit.SmallEnough(NODE, 1000)
    ensures var (items, it) := BtrfsSplit.Overfull(NODE, 1000);
            && Sorted(items) && LeafSize(items) <= NODE && FileRanges(items) == [] && !HasKey(items, it.k)
            && var all := InsertItem(items, it);
               && LeafSize(all) > NODE && !BtrfsSplit.HalvesFit(all, NODE) && |all| > 0 && Less(Key(0, 0, 0), all[|all| / 2].k)
               && Writable(all[..|all| / 2], NODE) && Writable(all[|all| / 2..], NODE)
  {
    hide FileRanges, InsertItem, BtrfsSplit.Overfull, LeafSize, Sorted, HasKey, Less, Writable;
    assert 3995 / 1000 == 3;
    BtrfsSplit.OverfullHalf(NODE, 1000);
    var (items, it) := BtrfsSplit.Overfull(NODE, 1000);
    var all := InsertItem(items, it);
    AllBlank(items);
    NoRanges(items);
    BtrfsSplit.TooLong(all, NODE);
    BtrfsMeaning.OneTooLong(items, it, |all| / 2, NODE);
    FittingIsWritable(all[..|all| / 2], NODE);
    OneOver(all[|all| / 2..]);
    Positive(items, it);
  }

  lemma AllBlank(items: seq<Item>)
    requires forall i | 0 <= i < |items| :: BtrfsSplit.Blank(items[i])
    ensures forall i | 0 <= i < |items| && |items[i].data| > 20 :: items[i].data[20] == INLINE
  {
    forall i | 0 <= i < |items| && |items[i].data| > 20 ensures items[i].data[20] == INLINE {
      assert BtrfsSplit.Blank(items[i]);
    }
  }

  lemma OneOver(items: seq<Item>)
    requires LeafSize(items) == NODE + 1
    ensures Writable(items, NODE)
  {
    assert 25 * |items| != NODE + 1 - NODE_HEADER_SIZE;
  }

  lemma Positive(items: seq<Item>, it: Item)
    requires (forall i | 0 <= i < |items| :: items[i].k.objectid > 0) && it.k.objectid > 0
    ensures var all := InsertItem(items, it); |all| == |items| + 1 && forall i | 0 <= i < |all| :: Less(Key(0, 0, 0), all[i].k)
  {
    var all, p := InsertItem(items, it), InsertPos(items, it.k);
    assert forall i | 0 <= i < |all| :: all[i] == if i < p then items[i] else if i == p then it else items[i - 1];
  }
}
