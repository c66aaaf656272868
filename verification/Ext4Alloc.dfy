/**
 The block allocator's state: bitmaps, group counters and the superblock counter
 (vfs/allocate.go, vfs/reclaim.go). The device is an array of blocks.
 */
module Ext4Alloc {
  import opened Bytes
  import opened Arith
  import opened Ext4Bitmap

  /** A group descriptor: where its bitmap is and how many of its blocks are free. */
  datatype Group = Group(bitmapBlock: nat, freeLo: u16, freeHi: u16)

  function SumFree(groups: seq<Group>): nat {
    if groups == [] then 0 else groups[0].freeLo + SumFree(groups[1..])
  }

  lemma {:induction false} SumUpdate(groups: seq<Group>, g: nat, x: Group)
    requires g < |groups|
    ensures SumFree(groups[g := x]) == SumFree(groups) - groups[g].freeLo + x.freeLo
    ensures SumFree(groups) >= groups[g].freeLo
  {
    if g == 0 {
      assert groups[g := x][1..] == groups[1..];
    } else {
      assert groups[g := x][1..] == groups[1..][g - 1 := x];
      SumUpdate(groups[1..], g - 1, x);
    }
  }

  /** The free count of a 64-byte descriptor, of which the allocator steps only the low half. */
  function WideCount(lo: u16, hi: u16): nat {
    lo + 0x1_0000 * hi
  }

  lemma WideCountParts(lo: u16, hi: u16)
    ensures WideCount(lo, hi) / 0x1_0000 == hi && WideCount(lo, hi) % 0x1_0000 == lo
  {
  }

  lemma WideCountSteps(lo: u16, hi: u16)
    ensures var down: int := (lo + 0xFFFF) % 0x1_0000;
            WideCount(down, hi) == WideCount(lo, hi) - 1 <==> lo != 0
    ensures var up: int := (lo + 1) % 0x1_0000;
            WideCount(up, hi) == WideCount(lo, hi) + 1 <==> lo != 0xFFFF
  {
  }

  // ----- the allocation state -----

  /** Every group's bitmap is a block of its own. */
  ghost predicate Shape(dev: seq<seq<byte>>, groups: seq<Group>, blockSize: nat, perGroup: nat) {
    && 0 < perGroup <= 8 * blockSize < 0x1_0000
    && (forall b | 0 <= b < |dev| :: |dev[b]| == blockSize)
    && (forall g | 0 <= g < |groups| :: groups[g].bitmapBlock < |dev|)
    && forall g, h | 0 <= g < h < |groups| :: groups[g].bitmapBlock != groups[h].bitmapBlock
  }

  ghost function BitmapOf(dev: seq<seq<byte>>, groups: seq<Group>, g: nat): seq<byte>
    requires g < |groups| && groups[g].bitmapBlock < |dev|
  {
    dev[groups[g].bitmapBlock]
  }

  /** Block b belongs to a group and its bit is clear. */
  ghost predicate FreeIn(dev: seq<seq<byte>>, groups: seq<Group>, blockSize: nat, perGroup: nat, b: nat)
    requires Shape(dev, groups, blockSize, perGroup)
  {
    DivMod(b, perGroup);
    b / perGroup < |groups| && !Taken(BitmapOf(dev, groups, b / perGroup), b % perGroup)
  }

  lemma FreeBounded(dev: seq<seq<byte>>, groups: seq<Group>, blockSize: nat, perGroup: nat, b: nat)
    requires Shape(dev, groups, blockSize, perGroup) && FreeIn(dev, groups, blockSize, perGroup, b)
    ensures b < |groups| * perGroup
  {
    DivMod(b, perGroup);
    MulMono(b / perGroup + 1, |groups|, perGroup);
    assert (b / perGroup + 1) * perGroup == (b / perGroup) * perGroup + perGroup;
  }

  /** The free blocks. */
  ghost function FreeBlocks(dev: seq<seq<byte>>, groups: seq<Group>, blockSize: nat, perGroup: nat): (s: set<nat>)
    requires Shape(dev, groups, blockSize, perGroup)
    ensures forall b: nat :: b in s <==> FreeIn(dev, groups, blockSize, perGroup, b)
  {
    var s := set b: nat | b < |groups| * perGroup && FreeIn(dev, groups, blockSize, perGroup, b);
    assert forall b: nat :: b in s <==> FreeIn(dev, groups, blockSize, perGroup, b) by {
      forall b: nat | FreeIn(dev, groups, blockSize, perGroup, b) ensures b in s {
        FreeBounded(dev, groups, blockSize, perGroup, b);
      }
    }
    s
  }

  ghost predicate CountsAgree(dev: seq<seq<byte>>, groups: seq<Group>, blockSize: nat, perGroup: nat)
    requires Shape(dev, groups, blockSize, perGroup)
  {
    forall g | 0 <= g < |groups| :: groups[g].freeHi == 0 && groups[g].freeLo == ClearCount(BitmapOf(dev, groups, g))
  }

  ghost predicate TailsTaken(dev: seq<seq<byte>>, groups: seq<Group>, blockSize: nat, perGroup: nat)
    requires Shape(dev, groups, blockSize, perGroup)
  {
    forall g, n | 0 <= g < |groups| && perGroup <= n < 8 * blockSize :: Taken(BitmapOf(dev, groups, g), n)
  }

  /** Bitmaps, group counts and the superblock count agree; bits past a group are set. */
  ghost predicate Consistent(dev: seq<seq<byte>>, groups: seq<Group>, blockSize: nat, perGroup: nat, sbFree: nat) {
    && Shape(dev, groups, blockSize, perGroup)
    && CountsAgree(dev, groups, blockSize, perGroup) && TailsTaken(dev, groups, blockSize, perGroup)
    && sbFree == SumFree(groups) && sbFree == |FreeBlocks(dev, groups, blockSize, perGroup)|
  }

  ghost predicate IsBitmap(groups: seq<Group>, b: nat) {
    exists g :: 0 <= g < |groups| && groups[g].bitmapBlock == b
  }

  /** bm is bitmap old_ with bit n changed to taken. */
  ghost predicate OneBit(old_: seq<byte>, bm: seq<byte>, n: nat, taken: bool) {
    && |bm| == |old_| && n < 8 * |bm|
    && (taken <==> !Taken(old_, n))
    && (forall m | 0 <= m < 8 * |bm| :: Taken(bm, m) <==> if m == n then taken else Taken(old_, m))
    && ClearCount(bm) == ClearCount(old_) + if taken then -1 else 1
  }

  /** Writing back group g's bitmap with one bit changed changes that block's status alone. */
  lemma OneBlockChanged(dev: seq<seq<byte>>, groups: seq<Group>, blockSize: nat, perGroup: nat, g: nat, n: nat,
                        bm: seq<byte>, taken: bool, groups1: seq<Group>)
    requires Shape(dev, groups, blockSize, perGroup) && g < |groups| && n < perGroup
    requires OneBit(BitmapOf(dev, groups, g), bm, n, taken)
    requires |groups1| == |groups| && forall h | 0 <= h < |groups| :: groups1[h].bitmapBlock == groups[h].bitmapBlock
    ensures var dev1 := dev[groups[g].bitmapBlock := bm];
            && Shape(dev1, groups1, blockSize, perGroup)
            && (forall h | 0 <= h < |groups| :: BitmapOf(dev1, groups1, h) == if h == g then bm else BitmapOf(dev, groups, h))
            && (forall b: nat :: FreeIn(dev1, groups1, blockSize, perGroup, b) <==>
                                 if b == g * perGroup + n then !taken else FreeIn(dev, groups, blockSize, perGroup, b))
  {
    hide Taken, ClearCount, FreeIn;
    var dev1 := dev[groups[g].bitmapBlock := bm];
    forall h | 0 <= h < |groups| ensures BitmapOf(dev1, groups1, h) == if h == g then bm else BitmapOf(dev, groups, h) {
      if h < g { assert groups[h].bitmapBlock != groups[g].bitmapBlock; }
      else if g < h { assert groups[g].bitmapBlock != groups[h].bitmapBlock; }
    }
    assert Shape(dev1, groups1, blockSize, perGroup);
    forall b: nat ensures FreeIn(dev1, groups1, blockSize, perGroup, b) <==>
                          if b == g * perGroup + n then !taken else FreeIn(dev, groups, blockSize, perGroup, b) {
      StatusOf(dev, dev1, groups, groups1, blockSize, perGroup, g, n, bm, taken, b);
    }
  }

  lemma StatusOf(dev: seq<seq<byte>>, dev1: seq<seq<byte>>, groups: seq<Group>, groups1: seq<Group>, blockSize: nat, perGroup: nat,
                 g: nat, n: nat, bm: seq<byte>, taken: bool, b: nat)
    requires Shape(dev, groups, blockSize, perGroup) && Shape(dev1, groups1, blockSize, perGroup) && |groups1| == |groups|
    requires g < |groups| && n < perGroup && OneBit(BitmapOf(dev, groups, g), bm, n, taken)
    requires forall h: nat | h < |groups| :: BitmapOf(dev1, groups1, h) == if h == g then bm else BitmapOf(dev, groups, h)
    ensures FreeIn(dev1, groups1, blockSize, perGroup, b) <==>
            if b == g * perGroup + n then !taken else FreeIn(dev, groups, blockSize, perGroup, b)
  {
    hide Taken, ClearCount, BitmapOf, Shape, OneBit, FreeIn;
    var q, m := QuotientOf(b, dev, groups, blockSize, perGroup, g, n);
    FreeIs(dev, groups, blockSize, perGroup, b, q, m);
    FreeIs(dev1, groups1, blockSize, perGroup, b, q, m);
    if q < |groups| {
      StatusAt(dev, dev1, groups, groups1, blockSize, perGroup, g, n, bm, taken, q, m);
    }
  }

  lemma QuotientOf(b: nat, dev: seq<seq<byte>>, groups: seq<Group>, blockSize: nat, perGroup: nat, g: nat, n: nat) returns (q: nat, m: nat)
    requires Shape(dev, groups, blockSize, perGroup) && n < perGroup
    ensures perGroup > 0 && q == b / perGroup && m == b % perGroup && m < perGroup
    ensures b == g * perGroup + n <==> q == g && m == n
  {
    hide Shape;
    BlockPosition(b, perGroup, g, n);
    q, m := b / perGroup, b % perGroup;
  }

  lemma FreeIs(dev: seq<seq<byte>>, groups: seq<Group>, blockSize: nat, perGroup: nat, b: nat, q: nat, m: nat)
    requires Shape(dev, groups, blockSize, perGroup) && perGroup > 0 && q == b / perGroup && m == b % perGroup && m < perGroup
    ensures q < |groups| ==> groups[q].bitmapBlock < |dev| && m < 8 * |BitmapOf(dev, groups, q)|
    ensures FreeIn(dev, groups, blockSize, perGroup, b) <==> q < |groups| && !Taken(BitmapOf(dev, groups, q), m)
  {
    hide Taken;
  }

  lemma StatusAt(dev: seq<seq<byte>>, dev1: seq<seq<byte>>, groups: seq<Group>, groups1: seq<Group>, blockSize: nat, perGroup: nat,
                 g: nat, n: nat, bm: seq<byte>, taken: bool, h: nat, m: nat)
    requires Shape(dev, groups, blockSize, perGroup) && Shape(dev1, groups1, blockSize, perGroup) && |groups1| == |groups|
    requires g < |groups| && n < perGroup && OneBit(BitmapOf(dev, groups, g), bm, n, taken) && h < |groups| && m < perGroup
    requires BitmapOf(dev1, groups1, h) == if h == g then bm else BitmapOf(dev, groups, h)
    ensures m < 8 * |BitmapOf(dev, groups, h)| && m < 8 * |BitmapOf(dev1, groups1, h)|
    ensures !Taken(BitmapOf(dev1, groups1, h), m) <==> if h == g && m == n then !taken else !Taken(BitmapOf(dev, groups, h), m)
  {
    hide Taken, ClearCount, BitmapOf, Shape;
    ShapeParts(dev, groups, blockSize, perGroup);
    BitmapSize(dev, groups, blockSize, perGroup, h);
    BitmapSize(dev1, groups1, blockSize, perGroup, h);
    if h == g {
      assert Taken(bm, m) <==> if m == n then taken else Taken(BitmapOf(dev, groups, g), m);
    }
  }

  lemma ShapeParts(dev: seq<seq<byte>>, groups: seq<Group>, blockSize: nat, perGroup: nat)
    requires Shape(dev, groups, blockSize, perGroup)
    ensures 0 < perGroup <= 8 * blockSize
  {
  }

  lemma BitmapSize(dev: seq<seq<byte>>, groups: seq<Group>, blockSize: nat, perGroup: nat, g: nat)
    requires Shape(dev, groups, blockSize, perGroup) && g < |groups|
    ensures groups[g].bitmapBlock < |dev| && |BitmapOf(dev, groups, g)| == blockSize
  {
  }

  lemma BlockPosition(b: nat, perGroup: nat, g: nat, n: nat)
    requires n < perGroup
    ensures b == g * perGroup + n <==> b / perGroup == g && b % perGroup == n
    ensures b % perGroup < perGroup
  {
    DivMod(b, perGroup);
    if b == g * perGroup + n {
      DivUnique(b, perGroup, g);
    }
  }

  /** Counters moved along with the bitmap keep everything in agreement. */
  lemma StaysConsistent(dev: seq<seq<byte>>, groups: seq<Group>, blockSize: nat, perGroup: nat, sbFree: nat, g: nat, n: nat,
                        bm: seq<byte>, taken: bool)
    requires Consistent(dev, groups, blockSize, perGroup, sbFree) && g < |groups| && n < perGroup
    requires OneBit(BitmapOf(dev, groups, g), bm, n, taken)
    ensures var d: int := if taken then -1 else 1;
            && 0 <= groups[g].freeLo + d < 0x1_0000 && sbFree + d >= 0
            && var dev1, groups1 := dev[groups[g].bitmapBlock := bm], groups[g := groups[g].(freeLo := groups[g].freeLo + d)];
               && Consistent(dev1, groups1, blockSize, perGroup, sbFree + d)
               && FreeBlocks(dev1, groups1, blockSize, perGroup)
                  == if taken then FreeBlocks(dev, groups, blockSize, perGroup) - {g * perGroup + n}
                     else FreeBlocks(dev, groups, blockSize, perGroup) + {g * perGroup + n}
  {
    hide Taken, ClearCount, SumFree, FreeIn, Shape, BitmapOf, OneBit, FreeBlocks, CountsAgree, TailsTaken;
    var d: int := if taken then -1 else 1;
    OneBitCounts(dev, groups, blockSize, perGroup, sbFree, g, n, bm, taken);
    var dev1, groups1 := dev[groups[g].bitmapBlock := bm], groups[g := groups[g].(freeLo := groups[g].freeLo + d)];
    OneBlockChanged(dev, groups, blockSize, perGroup, g, n, bm, taken, groups1);
    SumUpdate(groups, g, groups1[g]);
    FreeSetChanged(dev, dev1, groups, groups1, blockSize, perGroup, g * perGroup + n, taken);
    WasFree(dev, groups, blockSize, perGroup, g, n);
    CountsKept(dev, dev1, groups, groups1, blockSize, perGroup, g, n, bm, taken);
    TailsKept(dev, dev1, groups, groups1, blockSize, perGroup, g, n, bm, taken);
  }

  lemma CountsKept(dev: seq<seq<byte>>, dev1: seq<seq<byte>>, groups: seq<Group>, groups1: seq<Group>, blockSize: nat, perGroup: nat,
                   g: nat, n: nat, bm: seq<byte>, taken: bool)
    requires Shape(dev, groups, blockSize, perGroup) && Shape(dev1, groups1, blockSize, perGroup) && g < |groups| && |groups1| == |groups|
    requires CountsAgree(dev, groups, blockSize, perGroup) && OneBit(BitmapOf(dev, groups, g), bm, n, taken)
    requires forall h | 0 <= h < |groups| :: BitmapOf(dev1, groups1, h) == if h == g then bm else BitmapOf(dev, groups, h)
    requires forall h | 0 <= h < |groups| && h != g :: groups1[h] == groups[h]
    requires groups1[g].freeHi == groups[g].freeHi && groups1[g].freeLo == ClearCount(bm)
    ensures CountsAgree(dev1, groups1, blockSize, perGroup)
  {
    hide Taken, ClearCount, BitmapOf;
  }

  lemma TailsKept(dev: seq<seq<byte>>, dev1: seq<seq<byte>>, groups: seq<Group>, groups1: seq<Group>, blockSize: nat, perGroup: nat,
                  g: nat, n: nat, bm: seq<byte>, taken: bool)
    requires Shape(dev, groups, blockSize, perGroup) && Shape(dev1, groups1, blockSize, perGroup) && g < |groups| && |groups1| == |groups|
    requires TailsTaken(dev, groups, blockSize, perGroup) && OneBit(BitmapOf(dev, groups, g), bm, n, taken) && n < perGroup
    requires forall h | 0 <= h < |groups| :: BitmapOf(dev1, groups1, h) == if h == g then bm else BitmapOf(dev, groups, h)
    ensures TailsTaken(dev1, groups1, blockSize, perGroup)
  {
    hide Taken, ClearCount;
    forall h, m | 0 <= h < |groups| && perGroup <= m < 8 * blockSize ensures Taken(BitmapOf(dev1, groups1, h), m) {
      assert Taken(BitmapOf(dev, groups, h), m);
    }
  }

  lemma OneBitCounts(dev: seq<seq<byte>>, groups: seq<Group>, blockSize: nat, perGroup: nat, sbFree: nat, g: nat, n: nat,
                     bm: seq<byte>, taken: bool)
    requires Consistent(dev, groups, blockSize, perGroup, sbFree) && g < |groups| && n < perGroup
    requires OneBit(BitmapOf(dev, groups, g), bm, n, taken)
    ensures var d: int := if taken then -1 else 1;
            && groups[g].freeLo + d == ClearCount(bm) && 0 <= groups[g].freeLo + d < 0x1_0000 && sbFree + d >= 0
            && |bm| == blockSize && groups[g].bitmapBlock < |dev|
            && (taken <==> !Taken(BitmapOf(dev, groups, g), n))
  {
    hide Taken, ClearCount, SumFree, FreeIn, FreeBlocks;
    CountFits(dev, groups, blockSize, perGroup, g, bm, if taken then -1 else 1);
    SumUpdate(groups, g, groups[g]);
  }

  lemma FreeSetChanged(dev: seq<seq<byte>>, dev1: seq<seq<byte>>, groups: seq<Group>, groups1: seq<Group>, blockSize: nat, perGroup: nat,
                       r: nat, taken: bool)
    requires Shape(dev, groups, blockSize, perGroup) && Shape(dev1, groups1, blockSize, perGroup)
    requires forall b: nat :: FreeIn(dev1, groups1, blockSize, perGroup, b) <==> if b == r then !taken else FreeIn(dev, groups, blockSize, perGroup, b)
    ensures FreeBlocks(dev1, groups1, blockSize, perGroup)
            == if taken then FreeBlocks(dev, groups, blockSize, perGroup) - {r} else FreeBlocks(dev, groups, blockSize, perGroup) + {r}
  {
    hide FreeIn, Shape;
  }

  lemma CountFits(dev: seq<seq<byte>>, groups: seq<Group>, blockSize: nat, perGroup: nat, g: nat, bm: seq<byte>, d: int)
    requires Shape(dev, groups, blockSize, perGroup) && g < |groups| && |bm| == blockSize
    requires groups[g].freeLo + d == ClearCount(bm)
    ensures 0 <= groups[g].freeLo + d < 0x1_0000
  {
  }

  lemma WasFree(dev: seq<seq<byte>>, groups: seq<Group>, blockSize: nat, perGroup: nat, g: nat, n: nat)
    requires Shape(dev, groups, blockSize, perGroup) && g < |groups| && n < perGroup
    ensures FreeIn(dev, groups, blockSize, perGroup, g * perGroup + n) <==> !Taken(BitmapOf(dev, groups, g), n)
  {
    BlockPosition(g * perGroup + n, perGroup, g, n);
  }

  // ----- runs of the allocator -----

  datatype Event = Allocated(block: nat) | Freed(block: nat) | NothingFree | Refused

  /** What one call does to the set of free blocks. */
  ghost predicate Step(free0: set<nat>, e: Event, free1: set<nat>) {
    match e
    case Allocated(b) => b in free0 && free1 == free0 - {b}
    case Freed(b) => b !in free0 && free1 == free0 + {b}
    case NothingFree => free0 == {} && free1 == free0
    case Refused => free1 == free0
  }

  ghost predicate Run(states: seq<set<nat>>, events: seq<Event>) {
    |states| == |events| + 1 && forall i | 0 <= i < |events| :: Step(states[i], events[i], states[i + 1])
  }

  /** Freeing the block just allocated restores the set. */
  lemma FreeUndoes(free0: set<nat>, b: nat, free1: set<nat>, free2: set<nat>)
    requires Step(free0, Allocated(b), free1) && Step(free1, Freed(b), free2)
    ensures free2 == free0
  {
    assert free0 - {b} + {b} == free0;
  }

  /** Between an allocation and a later state where the block is free there is a free of it. */
  lemma {:induction false} FreedBetween(states: seq<set<nat>>, events: seq<Event>, i: nat, j: nat, b: nat) returns (k: nat)
    requires Run(states, events) && i <= j < |states| && b !in states[i] && b in states[j]
    ensures i <= k < j && events[k] == Freed(b)
    decreases j
  {
    assert Step(states[j - 1], events[j - 1], states[j]);
    if b in states[j - 1] {
      k := FreedBetween(states, events, i, j - 1, b);
    } else {
      k := j - 1;
    }
  }

  /** In no run of the allocator is a block handed out twice without a free in between. */
  lemma NoDoubleAllocation(states: seq<set<nat>>, events: seq<Event>, i: nat, j: nat) returns (k: nat)
    requires Run(states, events) && i < j < |events|
    requires events[i].Allocated? && events[j] == events[i]
    ensures i < k < j && events[k] == Freed(events[i].block)
  {
    assert Step(states[i], events[i], states[i + 1]) && Step(states[j], events[j], states[j + 1]);
    k := FreedBetween(states, events, i + 1, j, events[i].block);
  }

  /** The free count moves with the allocations and frees of a run. */
  function Balance(events: seq<Event>): int {
    if events == [] then 0
    else Balance(events[..|events| - 1]) +
         match events[|events| - 1] case Allocated(_) => -1 case Freed(_) => 1 case _ => 0
  }

  lemma {:induction false} RunBalance(states: seq<set<nat>>, events: seq<Event>)
    requires Run(states, events)
    ensures |states[|events|]| == |states[0]| + Balance(events)
  {
    if events != [] {
      var n := |events| - 1;
      assert Step(states[n], events[n], states[n + 1]);
      forall i | 0 <= i < n ensures Step(states[..n + 1][i], events[..n][i], states[..n + 1][i + 1]) {
        assert Step(states[i], events[i], states[i + 1]);
      }
      RunBalance(states[..n + 1], events[..n]);
      assert states[..n + 1][|events[..n]|] == states[n];
    }
  }
}
