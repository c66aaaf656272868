/** Concrete volumes, extents and names on which an operation falls short of its promise. */
module Ext4Examples {
  import opened Wrappers
  import opened Bytes
  import opened Ext4Types
  import opened Ext4Bitmap
  import opened Ext4Alloc
  import opened Ext4Fs
  import opened Ext4Tree
  import opened Ext4Append
  import opened Ext4LastLeaf
  import opened Ext4Grow
  import opened Dirents
  import opened Ext4Dirs

  // ----- a full leaf below the root, with a block to spare -----

  const BLOCK := 1024
  const BITMAP := 1
  const LEAF := 2
  const SPARE := 7
  /** What a leaf block of this size holds. */
  const FULL := 84

  function Ones(n: nat): (s: seq<byte>)
    ensures |s| == n && forall i | 0 <= i < n :: s[i] == 0xFF
  {
    seq(n, _ => 0xFF)
  }

  /** Every bit but that of the spare block is set. */
  function Bitmap(): (s: seq<byte>)
    ensures |s| == BLOCK
  {
    Ones(BLOCK)[SPARE / 8 := ClearByte(0xFF, SPARE % 8)]
  }

  lemma BitmapIs()
    ensures ClearCount(Bitmap()) == 1
    ensures forall n | 0 <= n < 8 * BLOCK :: Taken(Bitmap(), n) <==> n != SPARE
  {
    hide ClearCount, ClearByte;
    var ones := Ones(BLOCK);
    Pow2Of8();
    FullIs(0xFF, 8);
    AllTaken(ones);
    FullMeans(ones);
    ReleaseBit(ones, SPARE);
  }

  function Extents(): (s: seq<Extent>)
    ensures |s| == FULL
  {
    seq(FULL, i requires 0 <= i < FULL => Extent(2 * i, 1, 0, 100 + i))
  }

  function Leaf(): (s: seq<byte>)
    ensures |s| == BLOCK
  {
    LeafBytes(Extents(), FULL, Zeros(BLOCK - HEADER_SIZE - FULL * ENTRY_SIZE))
  }

  function Device(): (dev: seq<seq<byte>>)
    ensures |dev| == 8 && dev[BITMAP] == Bitmap() && dev[LEAF] == Leaf() && forall b | 0 <= b < 8 :: |dev[b]| == BLOCK
  {
    var z := Zeros(BLOCK);
    [z, Bitmap(), Leaf(), z, z, z, z, z]
  }

  const GROUPS := [Group(BITMAP, 1, 0)]

  function Tree(): (s: seq<byte>)
    ensures |s| == I_BLOCK
  {
    IndexRoot(0, LEAF, I_BLOCK)
  }

  lemma ShapeIs()
    ensures Shape(Device(), GROUPS, BLOCK, 8) && BitmapOf(Device(), GROUPS, 0) == Bitmap() && SumFree(GROUPS) == 1
    ensures forall b: nat :: IsBitmap(GROUPS, b) <==> b == BITMAP
  {
    hide Device, Bitmap;
    assert GROUPS[1..] == [];
    assert SumFree([]) == 0;
    assert GROUPS[0].bitmapBlock == BITMAP;
  }

  lemma VolumeIs()
    ensures Consistent(Device(), GROUPS, BLOCK, 8, 1) && FreeBlocks(Device(), GROUPS, BLOCK, 8) == {SPARE as nat}
    ensures forall b: nat :: IsBitmap(GROUPS, b) <==> b == BITMAP
  {
    hide Device, Bitmap, Taken, ClearCount, BitmapOf, Shape, SumFree;
    BitmapIs();
    ShapeIs();
    forall b: nat ensures FreeIn(Device(), GROUPS, BLOCK, 8, b) <==> b == SPARE {
      FreeIs(Device(), GROUPS, BLOCK, 8, b, b / 8, b % 8);
    }
    assert FreeBlocks(Device(), GROUPS, BLOCK, 8) == {SPARE as nat};
  }

  /** The condition of AppendExtent fails on a consistent volume whose call would succeed. */
  lemma FullLeafExists()
    ensures Consistent(Device(), GROUPS, BLOCK, 8, 1)
    ensures var free := FreeBlocks(Device(), GROUPS, BLOCK, 8);
            && Placed(Device(), GROUPS, free) && TreeReady(Device(), GROUPS, free, Tree())
            && DecodeHeader(Tree()).magic == EXT_MAGIC && Appendable(Device(), Tree(), free)
            && !RightPlace(Device(), Tree())
  {
    hide Device, Bitmap, Leaf, Extents, LeafBytes, IndexRoot, DecodeHeader, LeafList, ReadTree, Foot, LastLeaf, IsBitmap, Consistent,
         FreeBlocks;
    VolumeIs();
    assert Leaf() == LeafBytes(Extents(), FULL, Zeros(BLOCK - HEADER_SIZE - FULL * ENTRY_SIZE)) by { LeafIs(); }
    LeafBytesRead(Extents(), FULL, Zeros(BLOCK - HEADER_SIZE - FULL * ENTRY_SIZE));
    IndexRootReads(Device(), 0, LEAF, I_BLOCK);
  }

  lemma LeafIs()
    ensures Leaf() == LeafBytes(Extents(), FULL, Zeros(BLOCK - HEADER_SIZE - FULL * ENTRY_SIZE))
  {
  }

  // ----- a merge at the end of the block numbers -----

  /** Block 0xFFFFFFFE is lost when block 0xFFFFFFFF is merged behind it. */
  lemma LosingMergeExists()
    ensures var list, x := [Extent(0xFFFF_FFFE, 1, 0, 7)], Extent(0xFFFF_FFFF, 1, 0, 8);
            && Mergeable(list[0], x) && !MergeKeeps(list, x)
            && FindPhysicalBlock(list, 0xFFFF_FFFE) == Some(7) && FindPhysicalBlock(AppendTo(list, x), 0xFFFF_FFFE) == None
  {
    hide FindPhysicalBlock;
    var list, x := [Extent(0xFFFF_FFFE, 1, 0, 7)], Extent(0xFFFF_FFFF, 1, 0, 8);
    MergedFind(list[0], x, 0xFFFF_FFFE);
    FindOne(list[0], 0xFFFF_FFFE);
    MergedIs(list, x);
    assert list[..0] == [] && [list[0].(len := 2)] == [] + [list[0].(len := 2)];
    assert FindPhysicalBlock([], 0xFFFF_FFFE) == None by { NothingMapped(); }
    assert !AllMapped(list[..0], 0xFFFF_FFFE, 0xFFFF_FFFF);
  }

  lemma NothingMapped()
    ensures FindPhysicalBlock([], 0xFFFF_FFFE) == None
  {
  }

  // ----- a long name that collides -----

  /** A name of 257 bytes, absent from a directory, is stored as the name the directory has. */
  lemma CollidingNameExists()
    ensures var name, list := seq(257, _ => 97 as byte), [DirEntry(12, 1, [97])];
            && Ext4Dirs.Distinct(list) && !Names(list, name)
            && !Ext4Dirs.Distinct(list + NewEntry(13, 1, name))
  {
    var name, list := seq(257, _ => 97 as byte), [DirEntry(12, 1, [97])];
    assert Stored(name) == [97] && list[0].name == [97];
    AtTheEnd(list, NewEntry(13, 1, name));
    AddDistinctIff(list + NewEntry(13, 1, name), list, 1, 13, 1, name);
  }
}
