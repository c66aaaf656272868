/**
 The ext4 volume: block allocation and release, extent lists, file contents
 (vfs/allocate.go, vfs/reclaim.go, vfs/writer.go, vfs/reader.go).
 */
module Ext4Fs {
  import opened Wrappers
  import opened Bytes
  import opened Arith
  import opened Ext4Bitmap
  import opened Ext4Alloc

  /** What can be handed out is on the device and is no bitmap. */
  ghost predicate Placed(dev: seq<seq<byte>>, groups: seq<Group>, free: set<nat>) {
    forall b | b in free :: b < |dev| && !IsBitmap(groups, b)
  }

  lemma {:induction false} SizeBound(s: set<nat>, n: nat)
    requires forall b | b in s :: b < n
    ensures |s| <= n
  {
    if n > 0 {
      SizeBound(s - {n - 1}, n - 1);
    } else {
      assert s == {};
    }
  }

  class FileSystem {
    const blockSize: nat
    const blocksPerGroup: nat
    /** DescSize > 32 */
    const wide: bool
    var dev: seq<seq<byte>>
    var groups: seq<Group>
    var sbFree: u32

    ghost predicate Valid()
      reads this
    {
      Consistent(dev, groups, blockSize, blocksPerGroup, sbFree) && Total() < 0x1_0000_0000
    }

    function Total(): nat
      reads this
    {
      |groups| * blocksPerGroup
    }

    ghost function FreeSet(): set<nat>
      requires Valid()
      reads this
    {
      FreeBlocks(dev, groups, blockSize, blocksPerGroup)
    }

    /** Every block but the bitmaps is as in d0. */
    ghost predicate Untouched(d0: seq<seq<byte>>, g0: seq<Group>)
      reads this
    {
      && |dev| == |d0| && |groups| == |g0|
      && (forall g | 0 <= g < |groups| :: groups[g].bitmapBlock == g0[g].bitmapBlock)
      && forall b | 0 <= b < |dev| && !IsBitmap(g0, b) :: dev[b] == d0[b]
    }

    method UpdateSuperblockFreeBlocks(delta: int)
      requires -0x8000_0000 <= delta <= 0x8000_0000
      modifies this`sbFree
      ensures 0 <= old(sbFree) + delta < 0x1_0000_0000 ==> sbFree == old(sbFree) + delta
      ensures old(sbFree) + delta < 0 ==> sbFree == 0
      ensures old(sbFree) + delta >= 0x1_0000_0000 ==> sbFree == old(sbFree) + delta - 0x1_0000_0000
    {
      var total := sbFree + delta;
      if total < 0 {
        total := 0;
      }
      sbFree := total % 0x1_0000_0000;
    }

    /** The writes after a bit change: bitmap block, group counter, superblock counter. */
    method Record(g: nat, n: nat, bm: seq<byte>, taken: bool)
      requires Valid() && g < |groups| && n < blocksPerGroup
      requires OneBit(BitmapOf(dev, groups, g), bm, n, taken)
      modifies this
      ensures Valid() && Untouched(old(dev), old(groups))
      ensures FreeSet() == if taken then old(FreeSet()) - {g * blocksPerGroup + n} else old(FreeSet()) + {g * blocksPerGroup + n}
      ensures sbFree == old(sbFree) + if taken then -1 else 1
    {
      hide ClearCount, Taken, FreeIn, FreeBlocks, SumFree, OneBit, Consistent, Untouched;
      ghost var d0, g0 := dev, groups;
      BitmapPlace(g);
      CountBelow(g, n, bm, taken);
      StaysConsistent(dev, groups, blockSize, blocksPerGroup, sbFree, g, n, bm, taken);
      dev := dev[groups[g].bitmapBlock := bm];
      var lo := if taken then (groups[g].freeLo + 0xFFFF) % 0x1_0000 else (groups[g].freeLo + 1) % 0x1_0000;
      groups := groups[g := groups[g].(freeLo := lo)];
      UpdateSuperblockFreeBlocks(if taken then -1 else 1);
      BitmapOnly(d0, g0, g, bm);
    }

    lemma BitmapPlace(g: nat)
      requires Valid() && g < |groups|
      ensures groups[g].bitmapBlock < |dev|
    {
    }

    lemma BitmapOnly(d0: seq<seq<byte>>, g0: seq<Group>, g: nat, bm: seq<byte>)
      requires g < |g0| == |groups| && g0[g].bitmapBlock < |d0| && dev == d0[g0[g].bitmapBlock := bm]
      requires groups == g0[g := groups[g]] && groups[g].bitmapBlock == g0[g].bitmapBlock
      ensures Untouched(d0, g0)
    {
    }

    lemma CountBelow(g: nat, n: nat, bm: seq<byte>, taken: bool)
      requires Valid() && g < |groups| && n < blocksPerGroup
      requires OneBit(BitmapOf(dev, groups, g), bm, n, taken)
      ensures taken || sbFree < 0xFFFF_FFFF
    {
      hide ClearCount, Taken, FreeIn, SumFree;
      if !taken {
        WasFree(dev, groups, blockSize, blocksPerGroup, g, n);
        var b := g * blocksPerGroup + n;
        MulMono(g + 1, |groups|, blocksPerGroup);
        assert (g + 1) * blocksPerGroup == g * blocksPerGroup + blocksPerGroup;
        assert b !in FreeSet();
        forall x | x in FreeSet() + {b} ensures x < Total() {
          if x != b {
            FreeBounded(dev, groups, blockSize, blocksPerGroup, x);
          }
        }
        SizeBound(FreeSet() + {b}, Total());
      }
    }

    /** AllocateBlock: the lowest free block, or none when there is none. */
    method AllocateBlock() returns (r: Option<nat>)
      requires Valid()
      modifies this
      ensures Valid() && Untouched(old(dev), old(groups))
      ensures Step(old(FreeSet()), if r.Some? then Allocated(r.value) else NothingFree, FreeSet())
      ensures r.Some? ==> forall b | b in old(FreeSet()) :: r.value <= b
      ensures r.Some? ==> sbFree == old(sbFree) - 1
      ensures r.None? ==> unchanged(this)
    {
      hide ClearCount, Taken, FreeIn, SumFree, OneBit;
      for g := 0 to |groups|
        invariant unchanged(this)
        invariant forall b | b in FreeSet() :: g * blocksPerGroup <= b
      {
        var free: int := groups[g].freeLo;
        if wide {
          free := free + 0x1_0000 * groups[g].freeHi;
        }
        var bitmap := dev[groups[g].bitmapBlock];
        NextGroup(g, bitmap);
        if free == 0 {
          FullMeans(bitmap);
          continue;
        }
        var n := FirstClear(bitmap);
        if n != -1 {
          LowestFree(g, n);
          TakeBit(bitmap, n);
          var bm := bitmap[n / 8 := SetByte(bitmap[n / 8], n % 8)];
          BitTaken(bitmap, bm, n);
          Record(g, n, bm, true);
          return Some(g * blocksPerGroup + n);
        }
      }
      NoMoreGroups();
      r := None;
    }

    lemma BitTaken(old_: seq<byte>, bm: seq<byte>, n: nat)
      requires n < 8 * |old_| && |bm| == |old_| && !Taken(old_, n)
      requires ClearCount(bm) == ClearCount(old_) - 1
      requires forall m | 0 <= m < 8 * |old_| :: Taken(bm, m) <==> m == n || Taken(old_, m)
      ensures OneBit(old_, bm, n, true)
    {
    }

    /** If group g's bitmap is full, every free block lies in a later group. */
    lemma NextGroup(g: nat, bitmap: seq<byte>)
      requires Valid() && g < |groups| && bitmap == BitmapOf(dev, groups, g)
      requires forall b | b in FreeSet() :: g * blocksPerGroup <= b
      ensures (forall n | 0 <= n < 8 * |bitmap| :: Taken(bitmap, n)) ==>
                forall b | b in FreeSet() :: (g + 1) * blocksPerGroup <= b
    {
      if forall n | 0 <= n < 8 * |bitmap| :: Taken(bitmap, n) {
        forall b | b in FreeSet() ensures (g + 1) * blocksPerGroup <= b {
          InGroup(b, g);
        }
      }
    }

    lemma InGroup(b: nat, g: nat)
      requires Valid() && b in FreeSet() && g * blocksPerGroup <= b
      ensures b < (g + 1) * blocksPerGroup ==>
                g < |groups| && b - g * blocksPerGroup < 8 * blockSize && !Taken(BitmapOf(dev, groups, g), b - g * blocksPerGroup)
    {
      hide Taken, ClearCount;
      assert (g + 1) * blocksPerGroup == g * blocksPerGroup + blocksPerGroup;
      if b < (g + 1) * blocksPerGroup {
        DivUnique(b, blocksPerGroup, g);
        assert FreeIn(dev, groups, blockSize, blocksPerGroup, b);
      }
    }

    /** The lowest clear bit of the first group with one is the lowest free block. */
    lemma LowestFree(g: nat, n: nat)
      requires Valid() && g < |groups| && n < 8 * blockSize && !Taken(BitmapOf(dev, groups, g), n)
      requires forall m | 0 <= m < n :: Taken(BitmapOf(dev, groups, g), m)
      requires forall b | b in FreeSet() :: g * blocksPerGroup <= b
      ensures n < blocksPerGroup && g * blocksPerGroup + n in FreeSet()
      ensures forall b | b in FreeSet() :: g * blocksPerGroup + n <= b
    {
      hide Taken, ClearCount;
      WasFree(dev, groups, blockSize, blocksPerGroup, g, n);
      forall b | b in FreeSet() ensures g * blocksPerGroup + n <= b {
        InGroup(b, g);
        assert (g + 1) * blocksPerGroup == g * blocksPerGroup + blocksPerGroup;
      }
    }

    lemma NoMoreGroups()
      requires Valid() && forall b | b in FreeSet() :: |groups| * blocksPerGroup <= b
      ensures FreeSet() == {}
    {
      if b: nat :| b in FreeSet() {
        FreeBounded(dev, groups, blockSize, blocksPerGroup, b);
      }
    }

    /** The block a number stands for once its group is cut to 32 bits. */
    function Target(blockNum: nat): nat
      requires blocksPerGroup > 0
    {
      (blockNum / blocksPerGroup) % 0x1_0000_0000 * blocksPerGroup + blockNum % blocksPerGroup
    }

    /** A number on the volume stands for itself; 2^32 groups further on it does so again. */
    lemma TargetMeans(blockNum: nat)
      requires Valid()
      ensures blocksPerGroup > 0
      ensures blockNum < Total() ==> Target(blockNum) == blockNum
      ensures Target(blockNum + 0x1_0000_0000 * blocksPerGroup) == Target(blockNum)
    {
      hide Consistent;
      Positive();
      if blockNum < Total() {
        GroupInRange(blockNum);
        MulMono(1, blocksPerGroup, |groups|);
        TargetSmall(blockNum, blocksPerGroup);
      }
      TargetAgain(blockNum, blocksPerGroup);
    }

    static lemma TargetSmall(b: nat, p: nat)
      requires p > 0 && b / p < 0x1_0000_0000
      ensures (b / p) % 0x1_0000_0000 * p + b % p == b
    {
      DivMod(b, p);
      DivUnique(b / p, 0x1_0000_0000, 0);
    }

    static lemma TargetAgain(b: nat, p: nat)
      requires p > 0
      ensures ((b + 0x1_0000_0000 * p) / p) % 0x1_0000_0000 == (b / p) % 0x1_0000_0000
      ensures (b + 0x1_0000_0000 * p) % p == b % p
    {
      var q := b / p;
      DivMod(b, p);
      assert (q + 0x1_0000_0000) * p == q * p + 0x1_0000_0000 * p;
      DivUnique(b + 0x1_0000_0000 * p, p, q + 0x1_0000_0000);
    }

    /** FreeBlock: releases a taken block of some group, refuses any other number. */
    method FreeBlock(blockNum: nat) returns (ok: bool)
      requires Valid()
      modifies this
      ensures Valid() && Untouched(old(dev), old(groups))
      ensures blocksPerGroup > 0
      ensures ok <==> Target(blockNum) < old(Total()) && Target(blockNum) !in old(FreeSet())
      ensures Step(old(FreeSet()), if ok then Freed(Target(blockNum)) else Refused, FreeSet())
      ensures if ok then sbFree == old(sbFree) + 1 else unchanged(this)
    {
      hide ClearCount, Taken, FreeIn, SumFree, OneBit;
      var groupIdx, localIndex := (blockNum / blocksPerGroup) % 0x1_0000_0000, blockNum % blocksPerGroup;
      DivMod(blockNum, blocksPerGroup);
      GroupInRange(Target(blockNum));
      DivUnique(Target(blockNum), blocksPerGroup, groupIdx);
      if groupIdx >= |groups| {
        return false;
      }
      var bitmap := dev[groups[groupIdx].bitmapBlock];
      WasFree(dev, groups, blockSize, blocksPerGroup, groupIdx, localIndex);
      if !HasBit(bitmap[localIndex / 8], localIndex % 8) {
        SameBit(bitmap, localIndex);
        return false;
      }
      SameBit(bitmap, localIndex);
      ReleaseBit(bitmap, localIndex);
      var bm := bitmap[localIndex / 8 := ClearByte(bitmap[localIndex / 8], localIndex % 8)];
      BitReleased(bitmap, bm, localIndex);
      Record(groupIdx, localIndex, bm, false);
      ok := true;
    }

    lemma SameBit(bitmap: seq<byte>, n: nat)
      requires n < 8 * |bitmap|
      ensures Taken(bitmap, n) == HasBit(bitmap[n / 8], n % 8)
    {
    }

    lemma BitReleased(old_: seq<byte>, bm: seq<byte>, n: nat)
      requires n < 8 * |old_| && |bm| == |old_| && Taken(old_, n)
      requires ClearCount(bm) == ClearCount(old_) + 1
      requires forall m | 0 <= m < 8 * |old_| :: Taken(bm, m) <==> m != n && Taken(old_, m)
      ensures OneBit(old_, bm, n, false)
    {
    }

    lemma GroupInRange(b: nat)
      requires Valid()
      ensures b / blocksPerGroup < |groups| <==> b < |groups| * blocksPerGroup
    {
      hide Consistent;
      assert blocksPerGroup > 0 by { Positive(); }
      DivMod(b, blocksPerGroup);
      MulMono(b / blocksPerGroup + 1, |groups|, blocksPerGroup);
      MulMono(|groups|, b / blocksPerGroup, blocksPerGroup);
      assert (b / blocksPerGroup + 1) * blocksPerGroup == (b / blocksPerGroup) * blocksPerGroup + blocksPerGroup;
    }

    lemma Positive()
      requires Valid()
      ensures blocksPerGroup > 0
    {
    }

    /** A whole-block write to a block that is no bitmap. */
    method WriteBlock(b: nat, data: seq<byte>)
      requires Valid() && b < |dev| && !IsBitmap(groups, b) && |data| == blockSize
      modifies this`dev
      ensures Valid() && FreeSet() == old(FreeSet())
      ensures dev == old(dev)[b := data]
    {
      BitmapsKept(dev, groups, blockSize, blocksPerGroup, sbFree, b, data);
      dev := dev[b := data];
    }

    static lemma BitmapsKept(dev: seq<seq<byte>>, groups: seq<Group>, blockSize: nat, perGroup: nat, sbFree: nat, b: nat, data: seq<byte>)
      requires Consistent(dev, groups, blockSize, perGroup, sbFree) && b < |dev| && !IsBitmap(groups, b) && |data| == blockSize
      ensures Consistent(dev[b := data], groups, blockSize, perGroup, sbFree)
      ensures FreeBlocks(dev[b := data], groups, blockSize, perGroup) == FreeBlocks(dev, groups, blockSize, perGroup)
    {
      hide Taken, ClearCount, SumFree, FreeIn, BitmapOf;
      var dev1 := dev[b := data];
      forall g: nat | g < |groups| ensures BitmapOf(dev1, groups, g) == BitmapOf(dev, groups, g) {
        BitmapKept(dev, groups, b, data, g);
      }
      assert Shape(dev1, groups, blockSize, perGroup);
      forall x: nat ensures FreeIn(dev1, groups, blockSize, perGroup, x) <==> FreeIn(dev, groups, blockSize, perGroup, x) {
        SameStatus(dev, dev1, groups, blockSize, perGroup, x);
      }
      assert FreeBlocks(dev1, groups, blockSize, perGroup) == FreeBlocks(dev, groups, blockSize, perGroup);
    }

    static lemma BitmapKept(dev: seq<seq<byte>>, groups: seq<Group>, b: nat, data: seq<byte>, g: nat)
      requires b < |dev| && !IsBitmap(groups, b) && g < |groups| && groups[g].bitmapBlock < |dev|
      ensures BitmapOf(dev[b := data], groups, g) == BitmapOf(dev, groups, g)
    {
    }

    static lemma SameStatus(dev: seq<seq<byte>>, dev1: seq<seq<byte>>, groups: seq<Group>, blockSize: nat, perGroup: nat, x: nat)
      requires Shape(dev, groups, blockSize, perGroup) && Shape(dev1, groups, blockSize, perGroup)
      requires forall g: nat | g < |groups| :: BitmapOf(dev1, groups, g) == BitmapOf(dev, groups, g)
      ensures FreeIn(dev1, groups, blockSize, perGroup, x) <==> FreeIn(dev, groups, blockSize, perGroup, x)
    {
      hide Taken, BitmapOf;
      DivMod(x, perGroup);
      if x / perGroup < |groups| {
        assert BitmapOf(dev1, groups, x / perGroup) == BitmapOf(dev, groups, x / perGroup);
      }
    }
  }
}
