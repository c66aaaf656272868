/** TruncateInode and FreeExtents: giving a file's tail back (vfs/reclaim.go). */
module Ext4Truncate {
  import opened Wrappers
  import opened Bytes
  import opened Arith
  import opened Ext4Types
  import opened Ext4Alloc
  import opened Ext4Fs
  import opened Ext4Tree
  import opened Ext4Append
  import opened Ext4LastLeaf
  import opened Ext4Grow

  // ----- extents cut at block n -----

  /** Extents as the program assumes them: not empty, ending before the last 32-bit block. */
  predicate Sane(e: Extent) {
    e.Count() > 0 && e.block + e.Count() < 0x1_0000_0000
  }

  predicate AllSane(list: seq<Extent>) {
    forall i | 0 <= i < |list| :: Sane(list[i])
  }

  predicate AllInit(list: seq<Extent>) {
    forall i | 0 <= i < |list| :: !list[i].Uninit()
  }

  function CutOne(e: Extent, n: nat): seq<Extent> {
    if n == 0 then []
    else if e.block + e.Count() <= n then [e]
    else if e.block >= n then []
    else [e.(len := e.len - e.Count() + (n - e.block))]
  }

  /** The extents kept: those below block n, and the front of one that reaches across. */
  function Cut(list: seq<Extent>, n: nat): seq<Extent> {
    if list == [] then [] else Cut(list[..|list| - 1], n) + CutOne(list[|list| - 1], n)
  }

  function Span(start: nat, count: nat): (s: seq<nat>)
    ensures |s| == count && forall i | 0 <= i < count :: s[i] == start + i
  {
    seq(count, i => start + i)
  }

  /** An empty extent at block 0: its last block number, a 64-bit difference, is the largest there is. */
  predicate Void(e: Extent) {
    e.block + e.Count() == 0
  }

  function DropOne(e: Extent, n: nat): seq<nat> {
    if n == 0 && e.Uninit() then []
    else if n > 0 && Void(e) then Span(e.Phys() + n, (e.Count() - n) % 0x1_0000_0000_0000_0000)
    else if n > 0 && e.block + e.Count() <= n then []
    else if e.block >= n then Span(e.Phys(), e.Count())
    else Span(e.Phys() + (n - e.block), e.Count() - (n - e.block))
  }

  /** The block numbers given to FreeBlock, in order. */
  function Dropped(list: seq<Extent>, n: nat): seq<nat> {
    if list == [] then [] else Dropped(list[..|list| - 1], n) + DropOne(list[|list| - 1], n)
  }

  /** Every physical block of the list. */
  function DataBlocks(list: seq<Extent>): seq<nat> {
    if list == [] then []
    else DataBlocks(list[..|list| - 1]) + Span(list[|list| - 1].Phys(), list[|list| - 1].Count())
  }

  lemma FindCutOne(e: Extent, n: nat, l: u32)
    requires Sane(e)
    ensures FindPhysicalBlock(CutOne(e, n), l) == if l < n then FindPhysicalBlock([e], l) else None
  {
    hide FindPhysicalBlock, Extent.Count, Extent.Phys, Extent.Uninit;
    FindNothing(l);
    FindOne(e, l);
    if 0 < n && e.block < n < e.block + e.Count() {
      Shortened(e, n - e.block);
      FindOne(e.(len := e.len - e.Count() + (n - e.block)), l);
    }
  }

  /** Cutting restricts the block map to the blocks below n. */
  lemma {:induction false} CutRestricts(list: seq<Extent>, n: nat, l: u32)
    requires AllSane(list)
    ensures FindPhysicalBlock(Cut(list, n), l) == if l < n then FindPhysicalBlock(list, l) else None
  {
    hide FindPhysicalBlock, CutOne;
    if list == [] {
      FindNothing(l);
    } else {
      var first, last := list[..|list| - 1], list[|list| - 1];
      assert list == first + [last];
      CutRestricts(first, n, l);
      FindCutOne(last, n, l);
      FindConcat(first, [last], l);
      FindConcat(Cut(first, n), CutOne(last, n), l);
    }
  }

  lemma FindNothing(l: u32)
    ensures FindPhysicalBlock([], l) == None
  {
  }

  lemma SpanSplit(start: nat, k: nat, count: nat)
    requires k <= count
    ensures multiset(Span(start, count)) == multiset(Span(start, k)) + multiset(Span(start + k, count - k))
  {
    assert Span(start, count) == Span(start, k) + Span(start + k, count - k);
  }

  lemma DataOfOne(e: Extent)
    ensures DataBlocks([e]) == Span(e.Phys(), e.Count())
  {
    assert [e][..0] == [];
    assert DataBlocks([e]) == DataBlocks([]) + Span(e.Phys(), e.Count());
  }

  lemma Shortened(e: Extent, k: nat)
    requires k <= e.Count()
    ensures 0 <= e.len - e.Count() + k < 0x1_0000
    ensures var kept := e.(len := e.len - e.Count() + k);
            kept.Count() == k && kept.Phys() == e.Phys() && kept.Uninit() == e.Uninit()
  {
  }

  lemma OneConserved(e: Extent, n: nat)
    requires Sane(e)
    ensures multiset(DataBlocks(CutOne(e, n))) + multiset(DropOne(e, n)) ==
            multiset(if n == 0 && e.Uninit() then [] else Span(e.Phys(), e.Count()))
  {
    hide Span, DataBlocks, Extent.Count, Extent.Phys, Extent.Uninit;
    NoData();
    if 0 < n && e.block < n {
      if e.block + e.Count() <= n {
        DataOfOne(e);
      } else {
        Shortened(e, n - e.block);
        DataOfOne(e.(len := e.len - e.Count() + (n - e.block)));
        SpanSplit(e.Phys(), n - e.block, e.Count());
      }
    }
  }

  lemma NoData()
    ensures DataBlocks([]) == []
  {
  }

  lemma DataLast(list: seq<Extent>)
    requires list != []
    ensures DataBlocks(list) == DataBlocks(list[..|list| - 1]) + Span(list[|list| - 1].Phys(), list[|list| - 1].Count())
  {
  }

  lemma {:induction false} DataConcat(a: seq<Extent>, b: seq<Extent>)
    ensures DataBlocks(a + b) == DataBlocks(a) + DataBlocks(b)
  {
    hide Span, Extent.Phys, Extent.Count, DataBlocks;
    NoData();
    if b == [] {
      assert a + b == a;
    } else {
      assert (a + b)[..|a + b| - 1] == a + b[..|b| - 1];
      DataConcat(a, b[..|b| - 1]);
      DataLast(a + b);
      DataLast(b);
    }
  }

  /**
   Kept and freed blocks together are the old ones, each once; but a truncation to nothing
   leaks the blocks of uninitialized extents.
   */
  lemma {:induction false} BlocksConserved(list: seq<Extent>, n: nat)
    requires AllSane(list)
    ensures multiset(DataBlocks(Cut(list, n))) + multiset(Dropped(list, n)) <= multiset(DataBlocks(list))
    ensures |DataBlocks(Cut(list, n))| + |Dropped(list, n)| == |DataBlocks(list)| <==> n > 0 || AllInit(list)
  {
    hide Span, CutOne, DropOne, Sane;
    if list != [] {
      var first, last := list[..|list| - 1], list[|list| - 1];
      BlocksConserved(first, n);
      DataConcat(Cut(first, n), CutOne(last, n));
      OneConserved(last, n);
      SizesOfOne(last, n);
      FewerFirst(list, n);
    }
  }

  lemma SizesOfOne(e: Extent, n: nat)
    requires Sane(e)
    ensures |DataBlocks(CutOne(e, n))| + |DropOne(e, n)| == (if n == 0 && e.Uninit() then 0 else e.Count()) && e.Count() > 0
  {
    OneConserved(e, n);
    var a, b := DataBlocks(CutOne(e, n)), DropOne(e, n);
    assert |multiset(a) + multiset(b)| == |a| + |b|;
  }

  lemma FewerFirst(list: seq<Extent>, n: nat)
    requires AllSane(list) && list != []
    requires multiset(DataBlocks(Cut(list[..|list| - 1], n))) + multiset(Dropped(list[..|list| - 1], n)) <= multiset(DataBlocks(list[..|list| - 1]))
    ensures |DataBlocks(Cut(list[..|list| - 1], n))| + |Dropped(list[..|list| - 1], n)| <= |DataBlocks(list[..|list| - 1])|
    ensures AllInit(list) <==> AllInit(list[..|list| - 1]) && !list[|list| - 1].Uninit()
  {
    hide DataBlocks, Cut, Dropped, Extent.Uninit;
    var a, b, c := DataBlocks(Cut(list[..|list| - 1], n)), Dropped(list[..|list| - 1], n), DataBlocks(list[..|list| - 1]);
    assert |multiset(a) + multiset(b)| == |a| + |b|;
    SubBag(multiset(a) + multiset(b), multiset(c));
    forall i | 0 <= i < |list| ensures list[i] == if i < |list| - 1 then list[..|list| - 1][i] else list[|list| - 1] {
    }
  }

  lemma SubBag(a: multiset<nat>, b: multiset<nat>)
    requires a <= b
    ensures |a| <= |b|
  {
    assert b == a + (b - a);
  }

  // ----- freeing a list of blocks -----

  ghost function Elems(s: seq<nat>): set<nat> {
    set b | b in s
  }

  /** Each block is on the volume, in use, and named once. */
  ghost predicate Releasable(s: seq<nat>, free: set<nat>, total: nat) {
    && (forall i | 0 <= i < |s| :: s[i] < total && s[i] !in free)
    && forall i, j | 0 <= i < j < |s| :: s[i] != s[j]
  }

  lemma OneMoreFree(s: seq<nat>, b: nat, free: set<nat>, total: nat)
    requires Releasable(s, free, total)
    ensures Releasable(s + [b], free, total) <==> b < total && b !in free + Elems(s)
    ensures free + Elems(s + [b]) == free + Elems(s) + {b}
  {
    var t := s + [b];
    assert forall i | 0 <= i < |s| :: t[i] == s[i];
    assert t[|s|] == b;
    if Releasable(t, free, total) {
      assert forall i | 0 <= i < |s| :: t[i] != t[|s|];
    }
  }

  lemma PrefixReleasable(s: seq<nat>, t: seq<nat>, free: set<nat>, total: nat)
    requires Releasable(s + t, free, total)
    ensures Releasable(s, free, total)
  {
    assert forall i | 0 <= i < |s| :: (s + t)[i] == s[i];
  }

  /** The blocks FreeBlock takes the numbers for. */
  function Targets(fs: FileSystem, s: seq<nat>): (r: seq<nat>)
    requires fs.blocksPerGroup > 0
    ensures |r| == |s| && forall i | 0 <= i < |s| :: r[i] == fs.Target(s[i])
  {
    seq(|s|, i requires 0 <= i < |s| => fs.Target(s[i]))
  }

  lemma TargetsConcat(fs: FileSystem, a: seq<nat>, b: seq<nat>)
    requires fs.blocksPerGroup > 0
    ensures Targets(fs, a + b) == Targets(fs, a) + Targets(fs, b)
  {
    hide FileSystem.Target;
  }

  /** On the volume a number is its own target. */
  lemma TargetsAre(fs: FileSystem, s: seq<nat>)
    requires fs.Valid() && forall i | 0 <= i < |s| :: s[i] < fs.Total()
    ensures fs.blocksPerGroup > 0 && Targets(fs, s) == s
  {
    hide FileSystem.Target, FileSystem.Valid;
    fs.Positive();
    forall i | 0 <= i < |s| ensures Targets(fs, s)[i] == s[i] {
      fs.TargetMeans(s[i]);
    }
  }

  /** A volume before a series of frees. */
  datatype Before = Before(dev: seq<seq<byte>>, groups: seq<Group>, free: set<nat>, sbFree: nat)

  ghost function Now(fs: FileSystem): Before
    requires fs.Valid()
    reads fs
  {
    Before(fs.dev, fs.groups, fs.FreeSet(), fs.sbFree)
  }

  /** Only the bitmaps changed: the blocks of s are free now, and counted. */
  ghost predicate Released(fs: FileSystem, was: Before, s: seq<nat>)
    requires fs.Valid()
    reads fs
  {
    && SamePlaces(was.groups, fs.groups) && |fs.dev| == |was.dev|
    && (forall b | 0 <= b < |fs.dev| && !IsBitmap(was.groups, b) :: fs.dev[b] == was.dev[b])
    && fs.FreeSet() == was.free + Elems(s) && fs.sbFree == was.sbFree + |s|
    && Releasable(s, was.free, fs.Total())
  }

  lemma NothingReleased(fs: FileSystem)
    requires fs.Valid()
    ensures Released(fs, Now(fs), [])
  {
    hide Consistent, FreeBlocks;
  }

  /** FreeBlock, as one step of a series. */
  method FreeOne(fs: FileSystem, b: nat, ghost was: Before, ghost s: seq<nat>) returns (ok: bool)
    requires fs.Valid() && Released(fs, was, s)
    modifies fs
    ensures fs.Valid() && fs.blocksPerGroup > 0
    ensures fs.Total() == old(fs.Total())
    ensures ok <==> Releasable(s + [fs.Target(b)], was.free, fs.Total())
    ensures Released(fs, was, if ok then s + [fs.Target(b)] else s)
  {
    hide Consistent, FreeBlocks, Releasable, FileSystem.Target, IsBitmap, Elems;
    fs.Positive();
    ghost var groups0 := fs.groups;
    SameBitmaps(was.groups, groups0);
    OneMoreFree(s, fs.Target(b), was.free, fs.Total());
    ok := fs.FreeBlock(b);
  }

  /** The loop over the blocks of a range; done is what was freed before. */
  method FreeRun(fs: FileSystem, start: nat, count: nat, ghost was: Before, ghost done: seq<nat>) returns (ok: bool)
    requires fs.Valid() && Released(fs, was, done)
    modifies fs
    ensures fs.Valid() && fs.blocksPerGroup > 0
    ensures fs.Total() == old(fs.Total())
    ensures ok <==> Releasable(done + Targets(fs, Span(start, count)), was.free, fs.Total())
    ensures ok ==> Released(fs, was, done + Targets(fs, Span(start, count)))
    ensures !ok ==> exists k: nat :: k < count && Released(fs, was, done + Targets(fs, Span(start, k)))
  {
    hide Consistent, FreeBlocks, Releasable, FileSystem.Target, IsBitmap, Elems, Released, FileSystem.Valid;
    fs.Positive();
    assert done + Targets(fs, Span(start, 0)) == done;
    IsReleasable(fs, was, done);
    for i := 0 to count
      invariant fs.Valid() && fs.Total() == old(fs.Total())
      invariant Released(fs, was, done + Targets(fs, Span(start, i)))
    {
      NextTarget(fs, start, i, done);
      var one := FreeOne(fs, start + i, was, done + Targets(fs, Span(start, i)));
      if !one {
        StopsShort(fs, start, i, count, was, done);
        return false;
      }
    }
    IsReleasable(fs, was, done + Targets(fs, Span(start, count)));
    ok := true;
  }

  lemma IsReleasable(fs: FileSystem, was: Before, s: seq<nat>)
    requires fs.Valid() && Released(fs, was, s)
    ensures Releasable(s, was.free, fs.Total())
  {
  }

  lemma NextTarget(fs: FileSystem, start: nat, i: nat, done: seq<nat>)
    requires fs.blocksPerGroup > 0
    ensures done + Targets(fs, Span(start, i)) + [fs.Target(start + i)] == done + Targets(fs, Span(start, i + 1))
  {
    hide FileSystem.Target;
    assert Span(start, i + 1) == Span(start, i) + [start + i];
    TargetsConcat(fs, Span(start, i), [start + i]);
  }

  lemma StopsShort(fs: FileSystem, start: nat, i: nat, count: nat, was: Before, done: seq<nat>)
    requires fs.blocksPerGroup > 0 && i < count
    requires !Releasable(done + Targets(fs, Span(start, i + 1)), was.free, fs.Total())
    ensures !Releasable(done + Targets(fs, Span(start, count)), was.free, fs.Total())
  {
    hide FileSystem.Target, Releasable;
    var a, b := Span(start, i + 1), Span(start + i + 1, count - i - 1);
    assert Span(start, count) == a + b;
    TargetsConcat(fs, a, b);
    var s := done + Targets(fs, a);
    assert done + Targets(fs, Span(start, count)) == s + Targets(fs, b);
    if Releasable(s + Targets(fs, b), was.free, fs.Total()) {
      PrefixReleasable(s, Targets(fs, b), was.free, fs.Total());
    }
  }

  // ----- FreeExtents and TruncateInode -----

  lemma {:induction false} DropPrefix(list: seq<Extent>, i: nat, n: nat) returns (rest: seq<nat>)
    requires i <= |list|
    ensures Dropped(list, n) == Dropped(list[..i], n) + rest
  {
    hide DropOne;
    if i == |list| {
      assert list[..i] == list;
      rest := [];
    } else {
      var first := list[..|list| - 1];
      assert first[..i] == list[..i];
      var r := DropPrefix(first, i, n);
      rest := r + DropOne(list[|list| - 1], n);
    }
  }

  lemma DropNext(list: seq<Extent>, i: nat, n: nat)
    requires i < |list|
    ensures Dropped(list[..i + 1], n) == Dropped(list[..i], n) + DropOne(list[i], n)
    ensures Cut(list[..i + 1], n) == Cut(list[..i], n) + CutOne(list[i], n)
  {
    assert list[..i + 1][..i] == list[..i];
  }

  lemma StopsShortOf(fs: FileSystem, list: seq<Extent>, i: nat, n: nat, was: Before)
    requires fs.blocksPerGroup > 0 && i < |list|
    requires !Releasable(Targets(fs, Dropped(list[..i], n)) + Targets(fs, DropOne(list[i], n)), was.free, fs.Total())
    ensures !Releasable(Targets(fs, Dropped(list, n)), was.free, fs.Total())
  {
    hide FileSystem.Target, Releasable, Dropped, DropOne;
    DropNext(list, i, n);
    var rest := DropPrefix(list, i + 1, n);
    var d := Dropped(list[..i + 1], n);
    TargetsConcat(fs, Dropped(list[..i], n), DropOne(list[i], n));
    TargetsConcat(fs, d, rest);
    if Releasable(Targets(fs, Dropped(list, n)), was.free, fs.Total()) {
      PrefixReleasable(Targets(fs, d), Targets(fs, rest), was.free, fs.Total());
    }
  }

  /** Outside the bitmaps nothing changes; free blocks stay free. */
  ghost predicate OnlyFrees(fs: FileSystem, was: Before)
    requires fs.Valid()
    reads fs
  {
    && SamePlaces(was.groups, fs.groups) && |fs.dev| == |was.dev| && was.free <= fs.FreeSet()
    && forall b | 0 <= b < |fs.dev| && !IsBitmap(was.groups, b) :: fs.dev[b] == was.dev[b]
  }

  lemma ReleasedOnlyFrees(fs: FileSystem, was: Before, s: seq<nat>)
    requires fs.Valid() && Released(fs, was, s)
    ensures OnlyFrees(fs, was)
  {
    hide Consistent, FreeBlocks;
  }

  /** FreeExtents: the blocks of the initialized extents, each freed once, or an error. */
  method FreeExtents(fs: FileSystem, extents: seq<Extent>) returns (ok: bool)
    requires fs.Valid()
    modifies fs
    ensures fs.Valid() && fs.blocksPerGroup > 0 && OnlyFrees(fs, old(Now(fs)))
    ensures fs.Total() == old(fs.Total())
    ensures ok <==> Releasable(Targets(fs, Dropped(extents, 0)), old(fs.FreeSet()), fs.Total())
    ensures ok ==> Released(fs, old(Now(fs)), Targets(fs, Dropped(extents, 0)))
  {
    hide Consistent, FreeBlocks, Releasable, FileSystem.Target, IsBitmap, Elems, Released, FileSystem.Valid, OnlyFrees, Dropped, Span, Targets;
    ghost var was := Now(fs);
    fs.Positive();
    NothingReleased(fs);
    NothingDropped(fs, extents, 0);
    for i := 0 to |extents|
      invariant fs.Valid() && fs.Total() == old(fs.Total())
      invariant Released(fs, was, Targets(fs, Dropped(extents[..i], 0)))
    {
      DropNext(extents, i, 0);
      TargetsConcat(fs, Dropped(extents[..i], 0), DropOne(extents[i], 0));
      if extents[i].Uninit() {
        TargetsNone(fs, Dropped(extents[..i], 0));
        continue;
      }
      var one := FreeRun(fs, extents[i].Phys(), extents[i].Count(), was, Targets(fs, Dropped(extents[..i], 0)));
      if !one {
        StopsShortOf(fs, extents, i, 0, was);
        ghost var k: nat :| k < extents[i].Count() && Released(fs, was, Targets(fs, Dropped(extents[..i], 0)) + Targets(fs, Span(extents[i].Phys(), k)));
        ReleasedOnlyFrees(fs, was, Targets(fs, Dropped(extents[..i], 0)) + Targets(fs, Span(extents[i].Phys(), k)));
        return false;
      }
    }
    assert extents[..|extents|] == extents;
    IsReleasable(fs, was, Targets(fs, Dropped(extents, 0)));
    ReleasedOnlyFrees(fs, was, Targets(fs, Dropped(extents, 0)));
    ok := true;
  }

  lemma NothingDropped(fs: FileSystem, list: seq<Extent>, n: nat)
    requires fs.blocksPerGroup > 0
    ensures Targets(fs, Dropped(list[..0], n)) == [] && Cut(list[..0], n) == []
  {
  }

  lemma TargetsNone(fs: FileSystem, s: seq<nat>)
    requires fs.blocksPerGroup > 0
    ensures s + [] == s && Targets(fs, []) == [] && Targets(fs, s) + [] == Targets(fs, s)
  {
  }

  /** The loop of TruncateInode over the old extents; blocks up to lastBlock stay. */
  method CutExtents(fs: FileSystem, extents: seq<Extent>, lastBlock: nat) returns (ok: bool, kept: seq<Extent>)
    requires fs.Valid() && lastBlock < 0x1000_0000_0000_0000
    modifies fs
    ensures fs.Valid() && fs.blocksPerGroup > 0 && OnlyFrees(fs, old(Now(fs)))
    ensures fs.Total() == old(fs.Total())
    ensures ok <==> Releasable(Targets(fs, Dropped(extents, lastBlock + 1)), old(fs.FreeSet()), fs.Total())
    ensures ok ==> Released(fs, old(Now(fs)), Targets(fs, Dropped(extents, lastBlock + 1))) && kept == Cut(extents, lastBlock + 1)
  {
    hide Consistent, FreeBlocks, Releasable, FileSystem.Target, IsBitmap, Elems, Released, FileSystem.Valid, OnlyFrees, Dropped, Span, Targets, Cut,
         Extent.Count, Extent.Phys, Extent.Uninit;
    ghost var was, n := Now(fs), lastBlock + 1;
    fs.Positive();
    NothingReleased(fs);
    NothingDropped(fs, extents, n);
    kept := [];
    for i := 0 to |extents|
      invariant fs.Valid() && fs.Total() == old(fs.Total())
      invariant Released(fs, was, Targets(fs, Dropped(extents[..i], n))) && kept == Cut(extents[..i], n)
    {
      var e := extents[i];
      ghost var done := Dropped(extents[..i], n);
      DropNext(extents, i, n);
      TargetsConcat(fs, done, DropOne(e, n));
      TargetsNone(fs, done);
      var endBlock := (e.block + e.Count() - 1) % 0x1_0000_0000_0000_0000;
      EndBlock(e);
      if endBlock <= lastBlock {
        kept := kept + [e];
        continue;
      }
      var keepCount := if e.block > lastBlock then 0 else lastBlock - e.block + 1;
      var freeCount := (e.Count() - keepCount) % 0x1_0000_0000_0000_0000;
      WhatGoes(e, n, keepCount, freeCount);
      var one := FreeRun(fs, e.Phys() + keepCount, freeCount, was, Targets(fs, done));
      if Void(e) {
        FreeTotal(fs);
        TooMany(Targets(fs, done) + Targets(fs, Span(e.Phys() + keepCount, freeCount)), was.free, fs.Total());
      }
      if !one {
        StopsShortOf(fs, extents, i, n, was);
        ghost var k: nat :| k < freeCount && Released(fs, was, Targets(fs, done) + Targets(fs, Span(e.Phys() + keepCount, k)));
        ReleasedOnlyFrees(fs, was, Targets(fs, done) + Targets(fs, Span(e.Phys() + keepCount, k)));
        return false, kept;
      }
      if keepCount > 0 {
        kept := kept + [e.(len := e.len - e.Count() + keepCount)];
      }
    }
    assert extents[..|extents|] == extents;
    IsReleasable(fs, was, Targets(fs, Dropped(extents, n)));
    ReleasedOnlyFrees(fs, was, Targets(fs, Dropped(extents, n)));
    ok := true;
  }

  lemma EndBlock(e: Extent)
    ensures (e.block + e.Count() - 1) % 0x1_0000_0000_0000_0000 ==
            if Void(e) then 0xFFFF_FFFF_FFFF_FFFF else e.block + e.Count() - 1
  {
    assert e.Count() < 0x8000;
  }

  lemma WhatGoes(e: Extent, n: nat, keepCount: nat, freeCount: nat)
    requires 0 < n <= 0x1000_0000_0000_0000 && (Void(e) || e.block + e.Count() > n)
    requires keepCount == if e.block >= n then 0 else n - e.block
    requires freeCount == (e.Count() - keepCount) % 0x1_0000_0000_0000_0000
    ensures DropOne(e, n) == Span(e.Phys() + keepCount, freeCount)
    ensures Void(e) ==> freeCount > 0x1_0000_0000
    ensures !Void(e) ==>
              && keepCount <= e.Count() && 0 <= e.len - e.Count() + keepCount < 0x1_0000 && freeCount == e.Count() - keepCount
              && CutOne(e, n) == if keepCount == 0 then [] else [e.(len := e.len - e.Count() + keepCount)]
  {
    hide Span, Extent.Phys;
    assert e.Count() < 0x8000;
    if !Void(e) {
      Shortened(e, keepCount);
    }
  }

  /** A volume has fewer than 2^32 blocks. */
  lemma FreeTotal(fs: FileSystem)
    requires fs.Valid()
    ensures fs.Total() < 0x1_0000_0000
  {
  }

  /** More numbers than the volume has blocks cannot all be freed. */
  lemma {:induction false} TooMany(s: seq<nat>, free: set<nat>, total: nat)
    ensures |s| > total ==> !Releasable(s, free, total)
  {
    if |s| > total && Releasable(s, free, total) {
      DistinctCount(s);
      SubsetSize(Elems(s), UpTo(total));
    }
  }

  ghost function UpTo(n: nat): (r: set<nat>)
    ensures |r| == n && forall b: nat :: b in r <==> b < n
  {
    if n == 0 then {} else UpTo(n - 1) + {n - 1}
  }

  lemma {:induction false} DistinctCount(s: seq<nat>)
    requires forall i, j | 0 <= i < j < |s| :: s[i] != s[j]
    ensures |Elems(s)| == |s|
  {
    if s != [] {
      var t, b := s[..|s| - 1], s[|s| - 1];
      DistinctCount(t);
      assert s == t + [b] && b !in t;
      assert Elems(s) == Elems(t) + {b};
    }
  }

  lemma SubsetSize(a: set<nat>, b: set<nat>)
    requires a <= b
    ensures |a| <= |b|
  {
    assert b == a + (b - a);
  }

  /** The root written by TruncateInode: the header counts all kept extents, four of them fit. */
  method WriteRoot(data: array<byte>, kept: seq<Extent>)
    requires data.Length == I_BLOCK
    modifies data
    ensures data[..] == Root(kept, old(data[..]))
  {
    hide EncodeHeader, Holds, Filled, Overwrite;
    ghost var was := data[..];
    var h := EncodeHeader(Header(EXT_MAGIC, |kept| % 0x1_0000, EXT_MAX, 0, 0));
    PutBytes(data, 0, h);
    IsOverwrite(was, data[..], 0, h);
    var m := if |kept| <= 4 then |kept| else 4;
    WriteEntries(data, kept[..m]);
  }

  function Root(kept: seq<Extent>, was: seq<byte>): (s: seq<byte>)
    requires |was| == I_BLOCK
    ensures |s| == I_BLOCK
  {
    var m := if |kept| <= 4 then |kept| else 4;
    Filled(Overwrite(was, 0, EncodeHeader(Header(EXT_MAGIC, |kept| % 0x1_0000, EXT_MAX, 0, 0))), kept[..m], m)
  }

  /** The new root reads as the kept extents exactly when there are at most four. */
  lemma RootReads(dev: seq<seq<byte>>, kept: seq<Extent>, was: seq<byte>)
    requires |was| == I_BLOCK
    ensures var s := Root(kept, was);
            && (ReadTree(dev, s) == Some(kept) <==> |kept| <= 4)
            && (|kept| <= 4 ==> Depth(s) == 0 && LeafOk(s) && Foot(dev, s) == multiset{})
  {
    hide DecodeHeader, EncodeHeader, EncodeExtents, ParseLeaf, ReadTree, Foot;
    var s, h := Root(kept, was), Header(EXT_MAGIC, |kept| % 0x1_0000, EXT_MAX, 0, 0);
    var m := if |kept| <= 4 then |kept| else 4;
    assert s == EncodeHeader(h) + s[HEADER_SIZE..];
    HeaderRoundTrip(h, s[HEADER_SIZE..]);
    ReadLeaf(dev, s);
    if |kept| <= 4 {
      assert kept[..m] == kept;
      assert s[HEADER_SIZE..HEADER_SIZE + m * ENTRY_SIZE] == EncodeExtents(kept);
      ParseEncoded(s, kept);
    } else {
      ParseFits(s, h.entries);
    }
  }

  lemma ParseFits(buf: seq<byte>, n: nat)
    requires |buf| >= HEADER_SIZE
    ensures ParseLeaf(buf, n).Some? ==> |ParseLeaf(buf, n).value| == n && HEADER_SIZE + n * ENTRY_SIZE <= |buf|
  {
    hide DecodeExtent, Entry;
  }

  /** Blocks a file of this size needs. */
  function BlocksFor(size: nat, blockSize: nat): nat
    requires blockSize > 0
  {
    (size + blockSize - 1) / blockSize
  }

  lemma LastBlock(size: nat, blockSize: nat)
    requires size > 0 && blockSize > 0
    ensures var last: int := if size % blockSize == 0 then size / blockSize - 1 else size / blockSize;
            last >= 0 && last + 1 == BlocksFor(size, blockSize)
  {
    var q, r := size / blockSize, size % blockSize;
    DivMod(size, blockSize);
    if r == 0 {
      MulMono(q, 0, blockSize);
      DivUnique(size + blockSize - 1, blockSize, q);
    } else {
      assert (q + 1) * blockSize == q * blockSize + blockSize;
      DivUnique(size + blockSize - 1, blockSize, q + 1);
    }
  }

  lemma Halves(x: nat)
    ensures x == (x / 0x1_0000_0000) * 0x1_0000_0000 + x % 0x1_0000_0000
    ensures x > 0xFFFF_FFFF <==> x / 0x1_0000_0000 > 0
    ensures x < 0x1_0000_0000_0000 ==> (x / 0x1_0000_0000) % 0x1_0000 == x / 0x1_0000_0000
  {
  }

  /** The sector count is that of a file this long, exactly if its high half is stored or was 0. */
  ghost predicate SectorsFor(stored: nat, size: nat, blockSize: nat, oldHigh: u16)
    requires blockSize > 0
  {
    var sectors := BlocksFor(size, blockSize) * (blockSize / 512);
    sectors < 0x1_0000_0000_0000 ==> (stored == sectors <==> sectors > 0xFFFF_FFFF || oldHigh == 0)
  }

  /** i_size and the sector count as TruncateInode and WriteFileAt store them. */
  method SetSize(inode: Inode, size: nat, blockSize: nat)
    requires size < 0x1_0000_0000_0000_0000 && blockSize > 0
    modifies inode
    ensures inode.Size() == if inode.IsDir() then size % 0x1_0000_0000 else size
    ensures SectorsFor(inode.Sectors(), size, blockSize, old(inode.blocksHigh))
  {
    inode.sizeLo := size % 0x1_0000_0000;
    if !inode.IsDir() {
      inode.sizeHigh := size / 0x1_0000_0000;
    }
    var newBlocks := (size + blockSize - 1) / blockSize;
    var sectorCount := newBlocks * (blockSize / 512);
    Halves(sectorCount);
    Halves(size);
    inode.blocksLo := sectorCount % 0x1_0000_0000;
    if sectorCount > 0xFFFF_FFFF {
      inode.blocksHigh := (sectorCount / 0x1_0000_0000) % 0x1_0000;
    }
  }

  /** The blocks a truncation gives to FreeBlock, and the extents it keeps. */
  function Lost(read: Option<seq<Extent>>, newSize: nat, blockSize: nat): seq<nat> {
    if read.None? || blockSize == 0 then [] else Dropped(read.value, BlocksFor(newSize, blockSize))
  }

  function Left(read: Option<seq<Extent>>, newSize: nat, blockSize: nat): seq<Extent> {
    if read.None? || blockSize == 0 then [] else Cut(read.value, BlocksFor(newSize, blockSize))
  }

  /** Every one of these blocks can be freed. */
  ghost predicate CanRelease(fs: FileSystem, s: seq<nat>, was: Before)
    reads fs
  {
    fs.blocksPerGroup > 0 && Releasable(Targets(fs, s), was.free, fs.Total())
  }

  /** The volume and the inode's tree after a truncation. */
  ghost predicate Truncated(fs: FileSystem, tree: seq<byte>, read: Option<seq<Extent>>, newSize: nat, was: Before)
    requires fs.Valid()
    reads fs
  {
    && fs.blocksPerGroup > 0 && Released(fs, was, Targets(fs, Lost(read, newSize, fs.blockSize)))
    && var kept := Left(read, newSize, fs.blockSize);
       && (ReadTree(fs.dev, tree) == Some(kept) <==> |kept| <= 4)
       && (|kept| <= 4 ==> TreeReady(fs.dev, fs.groups, fs.FreeSet(), tree))
  }

  /**
   TruncateInode. When every block to be freed is in use and named once, the tail is freed,
   the size set, and the inode reads as the cut extents if they fit the root: four at most.
   */
  method TruncateInode(fs: FileSystem, inode: Inode, newSize: u64) returns (ok: bool)
    requires fs.Valid() && fs.blockSize >= 1024 && inode.iBlock.Length == I_BLOCK
    modifies fs, inode, inode.iBlock
    ensures fs.Valid() && OnlyFrees(fs, old(Now(fs)))
    ensures newSize >= old(inode.Size()) ==> ok && unchanged(fs) && unchanged(inode)
    ensures newSize < old(inode.Size()) ==>
              (ok <==> inode.usesExtents && old(ReadTree(fs.dev, inode.iBlock[..])).Some?
                       && CanRelease(fs, Lost(old(ReadTree(fs.dev, inode.iBlock[..])), newSize, fs.blockSize), old(Now(fs))))
    ensures !ok || newSize >= old(inode.Size()) ==> inode.iBlock[..] == old(inode.iBlock[..]) && unchanged(inode)
    ensures ok && newSize < old(inode.Size()) ==>
              && Truncated(fs, inode.iBlock[..], old(ReadTree(fs.dev, inode.iBlock[..])), newSize, old(Now(fs)))
              && inode.Size() == newSize && SectorsFor(inode.Sectors(), newSize, fs.blockSize, old(inode.blocksHigh))
    ensures newSize < old(inode.Size()) && inode.usesExtents && OwnsBlocks(old(ReadTree(fs.dev, inode.iBlock[..])), old(fs.FreeSet()), fs.Total()) ==>
              ok && TruncatedMap(fs, inode.iBlock[..], old(ReadTree(fs.dev, inode.iBlock[..])), newSize, old(Now(fs)))
  {
    hide Consistent, FreeBlocks, Releasable, FileSystem.Target, IsBitmap, Elems, Released, OnlyFrees, Dropped, Span, Targets, Cut,
         ReadTree, Foot, Root, DecodeHeader, LeafOk, BlocksFor, AllSane, AllInit, SamePlaces, TruncatedMap, Lost, Left, SectorsFor;
    fs.Positive();
    GroundFacts(fs);
    ghost var was0, read0 := Now(fs), ReadTree(fs.dev, inode.iBlock[..]);
    var curSize := inode.Size();
    if newSize >= curSize {
      return true;
    }
    if !inode.usesExtents {
      return false;
    }
    OwnedCanRelease(fs, read0, newSize);
    var read := ParseExtentNode(fs.dev, inode.iBlock[..]);
    if read.None? {
      return false;
    }
    var extents, kept := read.value, [];
    WhatIsLost(extents, newSize, fs.blockSize);
    if newSize == 0 {
      NothingKept(extents, fs.blockSize);
      ok := FreeExtents(fs, extents);
    } else {
      var newLastBlock := newSize / fs.blockSize;
      if newSize % fs.blockSize == 0 {
        newLastBlock := newLastBlock - 1;
      }
      LastBlock(newSize, fs.blockSize);
      FewBlocks(newSize, fs.blockSize);
      ok, kept := CutExtents(fs, extents, newLastBlock);
    }
    if !ok {
      return false;
    }
    ghost var was := inode.iBlock[..];
    WriteRoot(inode.iBlock, kept);
    RootReads(fs.dev, kept, was);
    SetSize(inode, newSize, fs.blockSize);
    NoTreeBlocks(fs.dev, fs.groups, fs.FreeSet(), inode.iBlock[..]);
    TruncatedMeans(fs, inode.iBlock[..], read0, newSize, was0);
  }

  lemma FewBlocks(size: nat, blockSize: nat)
    requires size < 0x1_0000_0000_0000_0000 && blockSize >= 1024
    ensures size / blockSize < 0x1000_0000_0000_0000
  {
    DivMod(size, blockSize);
    MulMono(1024, blockSize, size / blockSize);
    assert (size / blockSize) * blockSize >= 1024 * (size / blockSize);
  }

  lemma WhatIsLost(extents: seq<Extent>, newSize: nat, blockSize: nat)
    requires blockSize > 0
    ensures Lost(Some(extents), newSize, blockSize) == Dropped(extents, BlocksFor(newSize, blockSize))
    ensures Left(Some(extents), newSize, blockSize) == Cut(extents, BlocksFor(newSize, blockSize))
  {
  }

  lemma GroundFacts(fs: FileSystem)
    requires fs.Valid()
    ensures fs.blockSize > 0 && OnlyFrees(fs, Now(fs))
  {
    hide FreeBlocks;
  }

  lemma NoTreeBlocks(dev: seq<seq<byte>>, groups: seq<Group>, free: set<nat>, buf: seq<byte>)
    ensures ReadTree(dev, buf).Some? && |buf| >= HEADER_SIZE && Depth(buf) == 0 && LeafOk(buf) && Foot(dev, buf) == multiset{} ==>
              TreeReady(dev, groups, free, buf)
  {
    hide ReadTree, Foot, DecodeHeader, LeafOk;
  }

  lemma {:induction false} NothingKept(list: seq<Extent>, blockSize: nat)
    requires blockSize > 0
    ensures BlocksFor(0, blockSize) == 0 && Cut(list, 0) == []
  {
    DivUnique(blockSize - 1, blockSize, 0);
    if list != [] {
      NothingKept(list[..|list| - 1], blockSize);
    }
  }

  // ----- what a truncation means for a file that owns its blocks -----

  lemma {:induction false} AtMostOnce(s: seq<nat>, b: nat)
    requires forall i, j | 0 <= i < j < |s| :: s[i] != s[j]
    ensures multiset(s)[b] <= 1
  {
    if s != [] {
      var t := s[..|s| - 1];
      assert s == t + [s[|s| - 1]];
      AtMostOnce(t, b);
      if b == s[|s| - 1] {
        assert b !in t;
        assert b !in multiset(t);
      }
    }
  }

  lemma TwiceCounts(s: seq<nat>, i: nat, j: nat)
    requires i < j < |s| && s[i] == s[j]
    ensures multiset(s)[s[i]] >= 2
  {
    var a, b := s[..j], s[j..];
    assert s == a + b;
    assert a[i] == s[i] && b[0] == s[j];
    assert s[i] in multiset(a) && s[i] in multiset(b);
  }

  lemma PartReleasable(s: seq<nat>, all: seq<nat>, free: set<nat>, total: nat)
    requires Releasable(all, free, total) && multiset(s) <= multiset(all)
    ensures Releasable(s, free, total)
  {
    forall i | 0 <= i < |s| ensures s[i] < total && s[i] !in free {
      assert s[i] in multiset(s);
      assert s[i] in multiset(all);
      assert s[i] in all;
    }
    forall i, j | 0 <= i < j < |s| ensures s[i] != s[j] {
      if s[i] == s[j] {
        TwiceCounts(s, i, j);
        AtMostOnce(all, s[i]);
      }
    }
  }

  lemma ApartFrom(s: seq<nat>, d: seq<nat>, all: seq<nat>, free: set<nat>, total: nat)
    requires Releasable(all, free, total) && multiset(s) + multiset(d) <= multiset(all)
    ensures Releasable(s, free + Elems(d), total)
  {
    PartReleasable(s, all, free, total);
    forall i | 0 <= i < |s| ensures s[i] !in Elems(d) {
      if s[i] in d {
        assert s[i] in multiset(s) && s[i] in multiset(d);
        assert (multiset(s) + multiset(d))[s[i]] >= 2;
        AtMostOnce(all, s[i]);
      }
    }
  }

  /**
   A file whose blocks are its own can always be truncated: what is dropped is releasable,
   what is kept stays in use, and the free count rises by exactly the blocks lost, unless
   uninitialized extents are leaked by a truncation to nothing.
   */
  lemma TruncationSucceeds(list: seq<Extent>, n: nat, free: set<nat>, total: nat)
    requires AllSane(list) && Releasable(DataBlocks(list), free, total)
    ensures Releasable(Dropped(list, n), free, total)
    ensures Releasable(DataBlocks(Cut(list, n)), free + Elems(Dropped(list, n)), total)
    ensures |Dropped(list, n)| == |DataBlocks(list)| - |DataBlocks(Cut(list, n))| <==> n > 0 || AllInit(list)
  {
    hide Cut, Dropped, DataBlocks, Releasable, AllSane, AllInit, Elems;
    BlocksConserved(list, n);
    PartReleasable(Dropped(list, n), DataBlocks(list), free, total);
    ApartFrom(DataBlocks(Cut(list, n)), Dropped(list, n), DataBlocks(list), free, total);
  }

  /** A file with extents as the program assumes them, whose blocks are in use and its own. */
  ghost predicate OwnsBlocks(read: Option<seq<Extent>>, free: set<nat>, total: nat) {
    read.Some? && AllSane(read.value) && Releasable(DataBlocks(read.value), free, total)
  }

  /** The block map is the old one below block n. */
  ghost predicate MapBelow(list1: seq<Extent>, list: seq<Extent>, n: nat) {
    forall l: u32 :: FindPhysicalBlock(list1, l) == if l < n then FindPhysicalBlock(list, l) else None
  }

  /**
   What a truncation of a file that owns its blocks comes to: exactly the blocks beyond the new end
   are free now, the superblock counts them, the kept ones are still the file's, and the map is the
   old one below the end if the root can hold the kept extents.
   */
  ghost predicate TruncatedMap(fs: FileSystem, tree: seq<byte>, read: Option<seq<Extent>>, newSize: nat, was: Before)
    requires fs.Valid()
    reads fs
  {
    read.Some? && fs.blockSize > 0 &&
    var list, n := read.value, BlocksFor(newSize, fs.blockSize);
    var kept := Cut(list, n);
    && fs.FreeSet() == was.free + Elems(Dropped(list, n))
    && (fs.sbFree == was.sbFree + |DataBlocks(list)| - |DataBlocks(kept)| <==> n > 0 || AllInit(list))
    && Releasable(DataBlocks(kept), fs.FreeSet(), fs.Total())
    && MapBelow(kept, list, n)
    && (|kept| <= 4 ==> ReadTree(fs.dev, tree) == Some(kept))
  }

  lemma DroppedIsTarget(fs: FileSystem, list: seq<Extent>, n: nat, free: set<nat>)
    requires fs.Valid() && Releasable(Dropped(list, n), free, fs.Total())
    ensures fs.blocksPerGroup > 0 && Targets(fs, Dropped(list, n)) == Dropped(list, n)
  {
    hide FileSystem.Valid, Dropped, Targets;
    TargetsAre(fs, Dropped(list, n));
  }

  lemma OwnedCanRelease(fs: FileSystem, read: Option<seq<Extent>>, newSize: nat)
    requires fs.Valid() && fs.blockSize > 0
    ensures OwnsBlocks(read, fs.FreeSet(), fs.Total()) ==> CanRelease(fs, Lost(read, newSize, fs.blockSize), Now(fs))
  {
    hide FileSystem.Valid, Dropped, Targets, Releasable, DataBlocks, AllSane, FreeBlocks, BlocksFor;
    if OwnsBlocks(read, fs.FreeSet(), fs.Total()) {
      TruncationSucceeds(read.value, BlocksFor(newSize, fs.blockSize), fs.FreeSet(), fs.Total());
      DroppedIsTarget(fs, read.value, BlocksFor(newSize, fs.blockSize), fs.FreeSet());
    }
  }

  lemma TruncatedMeans(fs: FileSystem, tree: seq<byte>, read: Option<seq<Extent>>, newSize: nat, was: Before)
    requires fs.Valid() && fs.blockSize > 0 && Truncated(fs, tree, read, newSize, was)
    ensures OwnsBlocks(read, was.free, fs.Total()) ==> TruncatedMap(fs, tree, read, newSize, was)
  {
    hide FileSystem.Valid, Dropped, Targets, Releasable, DataBlocks, AllSane, AllInit, FreeBlocks, BlocksFor, Elems, Cut, TreeReady,
         ReadTree, IsBitmap, SamePlaces, FindPhysicalBlock;
    if OwnsBlocks(read, was.free, fs.Total()) {
      var list, n := read.value, BlocksFor(newSize, fs.blockSize);
      TruncationSucceeds(list, n, was.free, fs.Total());
      DroppedIsTarget(fs, list, n, was.free);
      forall l: u32 ensures FindPhysicalBlock(Cut(list, n), l) == if l < n then FindPhysicalBlock(list, l) else None {
        CutRestricts(list, n, l);
      }
    }
  }
}
