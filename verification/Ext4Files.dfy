/** Bytes of a file without holes: WriteFileAt and ReadFileAt (vfs/writer.go, vfs/reader.go). */
module Ext4Files {
  import opened Wrappers
  import opened Bytes
  import opened Arith
  import opened Ext4Types
  import opened Ext4Alloc
  import opened Ext4Fs
  import opened Ext4Tree
  import opened Ext4Append
  import opened Ext4LastLeaf
  import opened Ext4Grow
  import opened Ext4Truncate

  // ----- files without holes -----

  /** The extents are initialized and follow one another from logical block 0. */
  ghost predicate Dense(list: seq<Extent>) {
    list == [] ||
    var first, last := list[..|list| - 1], list[|list| - 1];
    && Dense(first) && !last.Uninit() && last.block == |DataBlocks(first)|
    && last.block + last.Count() < 0x1_0000_0000
  }

  lemma DataSnoc(first: seq<Extent>, e: Extent)
    ensures DataBlocks(first + [e]) == DataBlocks(first) + Span(e.Phys(), e.Count())
  {
    assert (first + [e])[..|first|] == first;
  }

  lemma DenseSnoc(first: seq<Extent>, e: Extent)
    ensures Dense(first + [e]) <==>
            Dense(first) && !e.Uninit() && e.block == |DataBlocks(first)| && e.block + e.Count() < 0x1_0000_0000
  {
    assert (first + [e])[..|first|] == first;
  }

  /** In a dense list logical block l is the l-th data block. */
  lemma {:induction false} DenseFind(list: seq<Extent>, l: u32)
    requires Dense(list)
    ensures FindPhysicalBlock(list, l) == if l < |DataBlocks(list)| then Some(DataBlocks(list)[l]) else None
  {
    hide FindPhysicalBlock, Extent.Count, Extent.Phys, Extent.Uninit, DataBlocks;
    if list == [] {
      FindNothing(l);
      NoData();
    } else {
      var first, last := list[..|list| - 1], list[|list| - 1];
      assert list == first + [last];
      DenseFind(first, l);
      FindConcat(first, [last], l);
      FindOne(last, l);
      DataLast(list);
    }
  }

  /** Growing a dense list by one block in front of nothing keeps it dense. */
  lemma DenseGrown(list1: seq<Extent>, list: seq<Extent>, x: Extent, merged: bool)
    requires Dense(list) && Grew(list1, list, x, merged)
    requires !x.Uninit() && x.Count() == 1 && x.block == |DataBlocks(list)| && x.block + 1 < 0x1_0000_0000
    ensures Dense(list1) && DataBlocks(list1) == DataBlocks(list) + [x.Phys()]
  {
    hide Dense, DataBlocks;
    assert Span(x.Phys(), 1) == [x.Phys()];
    DataSnoc(list, x);
    DenseSnoc(list, x);
    if merged {
      DenseMerged(list, x);
    }
  }

  lemma DenseMerged(list: seq<Extent>, x: Extent)
    requires Dense(list) && list != [] && Mergeable(list[|list| - 1], x) && x.Count() == 1
    requires x.block == |DataBlocks(list)| && x.block + 1 < 0x1_0000_0000
    ensures Dense(AppendTo(list, x)) && DataBlocks(AppendTo(list, x)) == DataBlocks(list) + [x.Phys()]
  {
    hide Dense, DataBlocks;
    var first, last := list[..|list| - 1], list[|list| - 1];
    var merged := last.(len := last.Count() + 1);
    assert list == first + [last] && AppendTo(list, x) == first + [merged];
    DataSnoc(first, last);
    DataSnoc(first, merged);
    DenseSnoc(first, last);
    DenseSnoc(first, merged);
    MergedSpan(last, merged, x);
  }

  lemma MergedSpan(last: Extent, merged: Extent, x: Extent)
    requires Mergeable(last, x) && x.Count() == 1 && merged == last.(len := last.Count() + 1)
    ensures Span(merged.Phys(), merged.Count()) == Span(last.Phys(), last.Count()) + [x.Phys()]
    ensures !merged.Uninit() && merged.Count() == last.Count() + 1
  {
  }

  // ----- bytes -----

  /** Byte i of the blocks p, one after another. */
  function ByteAt(dev: seq<seq<byte>>, p: seq<nat>, blockSize: nat, i: nat): byte
    requires blockSize > 0 && (forall b | 0 <= b < |dev| :: |dev[b]| == blockSize)
    requires i / blockSize < |p| && p[i / blockSize] < |dev|
  {
    DivMod(i, blockSize);
    dev[p[i / blockSize]][i % blockSize]
  }

  ghost predicate OnDev(dev: seq<seq<byte>>, p: seq<nat>, blockSize: nat) {
    && blockSize > 0 && (forall b | 0 <= b < |dev| :: |dev[b]| == blockSize)
    && forall k | 0 <= k < |p| :: p[k] < |dev|
  }

  lemma InBlocks(i: nat, n: nat, blockSize: nat)
    requires blockSize > 0
    ensures i < n * blockSize <==> i / blockSize < n
  {
    DivMod(i, blockSize);
    MulMono(i / blockSize + 1, n, blockSize);
    MulMono(n, i / blockSize, blockSize);
    assert (i / blockSize + 1) * blockSize == (i / blockSize) * blockSize + blockSize;
  }

  /** The first size bytes of the file. */
  ghost function Contents(dev: seq<seq<byte>>, p: seq<nat>, blockSize: nat, size: nat): (s: seq<byte>)
    requires OnDev(dev, p, blockSize) && size <= |p| * blockSize
    ensures |s| == size
  {
    seq(size, i requires 0 <= i < size => InBlocks(i, |p|, blockSize); ByteAt(dev, p, blockSize, i))
  }

  // ----- reading -----

  /** Where ReadFileAt finds each block: extents count one after another, whatever block they name. */
  function Places(list: seq<Extent>): seq<Option<nat>> {
    if list == [] then []
    else Places(list[..|list| - 1]) + PlacesOf(list[|list| - 1])
  }

  function PlacesOf(e: Extent): (s: seq<Option<nat>>)
    ensures |s| == e.Count() && forall i | 0 <= i < |s| :: s[i] == if e.Uninit() then None else Some(e.Phys() + i)
  {
    seq(e.Count(), i requires 0 <= i => PlaceOf(e, i))
  }

  function PlaceOf(e: Extent, i: nat): Option<nat> {
    if e.Uninit() then None else Some(e.Phys() + i)
  }

  ghost predicate Readable(dev: seq<seq<byte>>, places: seq<Option<nat>>, blockSize: nat) {
    && blockSize > 0 && (forall b | 0 <= b < |dev| :: |dev[b]| == blockSize)
    && forall k | 0 <= k < |places| :: places[k].Some? ==> places[k].value < |dev|
  }

  /** Byte i as ReadFileAt sees it: uninitialized extents and the space behind the last read as zero. */
  ghost function SeenAt(dev: seq<seq<byte>>, places: seq<Option<nat>>, blockSize: nat, i: nat): byte
    requires Readable(dev, places, blockSize)
  {
    DivMod(i, blockSize);
    var q := i / blockSize;
    if q < |places| && places[q].Some? then dev[places[q].value][i % blockSize] else 0
  }

  /** What the buffer holds once the blocks below limit have been read. */
  ghost function Partly(dev: seq<seq<byte>>, places: seq<Option<nat>>, blockSize: nat, i: nat, limit: nat): byte
    requires Readable(dev, places, blockSize)
  {
    if i < limit * blockSize then SeenAt(dev, places, blockSize, i) else 0
  }

  lemma PlacesNext(list: seq<Extent>, j: nat)
    requires j < |list|
    ensures Places(list[..j + 1]) == Places(list[..j]) + PlacesOf(list[j])
  {
    assert list[..j + 1][..j] == list[..j];
  }

  lemma {:induction false} PlacesPrefix(list: seq<Extent>, j: nat)
    requires j <= |list|
    ensures |Places(list[..j])| <= |Places(list)|
    ensures forall k | 0 <= k < |Places(list[..j])| :: Places(list)[k] == Places(list[..j])[k]
  {
    hide PlacesOf;
    if j == |list| {
      assert list[..j] == list;
    } else {
      var first := list[..|list| - 1];
      assert first[..j] == list[..j];
      PlacesPrefix(first, j);
    }
  }

  /** Block base + i of the file is block i of extent j. */
  lemma PlaceOfBlock(list: seq<Extent>, j: nat, i: nat)
    requires j < |list| && i < list[j].Count()
    ensures var base := |Places(list[..j])|;
            base + i < |Places(list)| && Places(list)[base + i] == if list[j].Uninit() then None else Some(list[j].Phys() + i)
  {
    PlacesNext(list, j);
    PlacesPrefix(list, j + 1);
  }

  /** Reading one more block q, whose bytes in [start, end) were copied. */
  lemma OneMoreBlock(dev: seq<seq<byte>>, places: seq<Option<nat>>, blockSize: nat, q: nat, i: nat)
    requires Readable(dev, places, blockSize) && q * blockSize <= i < q * blockSize + blockSize
    ensures SeenAt(dev, places, blockSize, i) ==
            if q < |places| && places[q].Some? then dev[places[q].value][i - q * blockSize] else 0
  {
    DivUnique(i, blockSize, q);
  }

  /** The buffer after the blocks below limit: n bytes of the file from start, the rest untouched. */
  ghost predicate Read(buf: seq<byte>, was: seq<byte>, dev: seq<seq<byte>>, places: seq<Option<nat>>, blockSize: nat,
                       start: nat, n: nat, limit: nat)
    requires Readable(dev, places, blockSize)
  {
    && |buf| == |was| && n <= |buf|
    && (forall k | 0 <= k < n :: buf[k] == Partly(dev, places, blockSize, start + k, limit))
    && forall k | n <= k < |buf| :: buf[k] == was[k]
  }

  /** Blocks without a byte in [start, start + n), or without a place, leave the buffer right. */
  lemma SkipBlocks(buf: seq<byte>, was: seq<byte>, dev: seq<seq<byte>>, places: seq<Option<nat>>, blockSize: nat,
                   start: nat, n: nat, limit: nat, limit1: nat)
    requires Readable(dev, places, blockSize) && Read(buf, was, dev, places, blockSize, start, n, limit) && limit <= limit1
    requires limit1 * blockSize <= start || limit * blockSize >= start + n
             || forall q | limit <= q < limit1 :: q >= |places| || places[q].None?
    ensures Read(buf, was, dev, places, blockSize, start, n, limit1)
  {
    hide SeenAt;
    MulMono(limit, limit1, blockSize);
    forall k | 0 <= k < n ensures buf[k] == Partly(dev, places, blockSize, start + k, limit1) {
      if limit * blockSize <= start + k < limit1 * blockSize {
        InBlocks(start + k, limit, blockSize);
        InBlocks(start + k, limit1, blockSize);
        DivMod(start + k, blockSize);
        OneMoreBlock(dev, places, blockSize, (start + k) / blockSize, start + k);
      }
    }
  }

  /** A block with a place, its part in [start, start + n) copied into the buffer. */
  lemma TakeBlock(buf: seq<byte>, buf1: seq<byte>, was: seq<byte>, dev: seq<seq<byte>>, places: seq<Option<nat>>, blockSize: nat,
                  start: nat, n: nat, q: nat, dst: nat, src: nat, len: nat)
    requires Readable(dev, places, blockSize) && Read(buf, was, dev, places, blockSize, start, n, q)
    requires q < |places| && places[q].Some? && src + len <= blockSize && dst + len <= n && |buf1| == |buf|
    requires start + dst == q * blockSize + src
    requires src == 0 || dst == 0
    requires src + len == blockSize || dst + len == n
    requires Holds(buf1, dst, dev[places[q].value][src..src + len])
    requires forall k | 0 <= k < |buf| && !(dst <= k < dst + len) :: buf1[k] == buf[k]
    ensures Read(buf1, was, dev, places, blockSize, start, n, q + 1)
  {
    hide SeenAt;
    assert (q + 1) * blockSize == q * blockSize + blockSize;
    forall k | 0 <= k < n ensures buf1[k] == Partly(dev, places, blockSize, start + k, q + 1) {
      if dst <= k < dst + len {
        OneMoreBlock(dev, places, blockSize, q, start + k);
        assert buf1[k] == buf1[dst..dst + len][k - dst];
      }
    }
  }

  lemma NothingRead(buf: seq<byte>, was: seq<byte>, dev: seq<seq<byte>>, places: seq<Option<nat>>, blockSize: nat, start: nat, n: nat)
    requires Readable(dev, places, blockSize) && |buf| == |was| && n <= |buf|
    requires (forall k | 0 <= k < n :: buf[k] == 0) && forall k | n <= k < |buf| :: buf[k] == was[k]
    ensures Read(buf, was, dev, places, blockSize, start, n, 0)
  {
  }

  lemma NoPlaces(list: seq<Extent>)
    ensures Places(list[..0]) == []
  {
  }

  lemma IsReadable(dev: seq<seq<byte>>, places: seq<Option<nat>>, blockSize: nat, q: nat)
    requires Readable(dev, places, blockSize)
    ensures blockSize > 0
    ensures q < |places| && places[q].Some? ==> places[q].value < |dev| && |dev[places[q].value]| == blockSize
  {
  }

  /** With every block below limit read, and none left that matters, the read is complete. */
  lemma AllRead(buf: seq<byte>, was: seq<byte>, dev: seq<seq<byte>>, places: seq<Option<nat>>, blockSize: nat, start: nat, n: nat, limit: nat)
    requires Readable(dev, places, blockSize) && Read(buf, was, dev, places, blockSize, start, n, limit)
    requires limit * blockSize >= start + n || limit >= |places|
    ensures forall k | 0 <= k < n :: buf[k] == SeenAt(dev, places, blockSize, start + k)
    ensures n <= |buf| == |was| && forall k | n <= k < |buf| :: buf[k] == was[k]
  {
    forall k | 0 <= k < n ensures buf[k] == SeenAt(dev, places, blockSize, start + k) {
      InBlocks(start + k, limit, blockSize);
    }
  }

  lemma Distribute(a: nat, b: nat, s: nat)
    ensures (a + b) * s == a * s + b * s
  {
  }

  lemma SkipUninit(buf: seq<byte>, was: seq<byte>, dev: seq<seq<byte>>, list: seq<Extent>, blockSize: nat, start: nat, n: nat, j: nat)
    requires Readable(dev, Places(list), blockSize) && j < |list| && list[j].Uninit()
    requires Read(buf, was, dev, Places(list), blockSize, start, n, |Places(list[..j])|)
    ensures Read(buf, was, dev, Places(list), blockSize, start, n, |Places(list[..j])| + list[j].Count())
  {
    hide Read, Readable, Places, Extent.Count, Extent.Uninit, Extent.Phys;
    var places, limit := Places(list), |Places(list[..j])|;
    forall q | limit <= q < limit + list[j].Count() ensures q >= |places| || places[q].None? {
      PlaceOfBlock(list, j, q - limit);
    }
    SkipBlocks(buf, was, dev, places, blockSize, start, n, limit, limit + list[j].Count());
  }

  /** The zeroes ReadFileAt starts from. */
  method ZeroFront(buf: array<byte>, n: nat)
    requires n <= buf.Length
    modifies buf
    ensures forall k | 0 <= k < n :: buf[..][k] == 0
    ensures forall k | n <= k < buf.Length :: buf[..][k] == old(buf[..])[k]
  {
    for i := 0 to n
      invariant forall k | 0 <= k < i :: buf[k] == 0
      invariant forall k | i <= k < buf.Length :: buf[k] == old(buf[k])
    {
      buf[i] := 0;
    }
  }

  /** ReadFileAt: the bytes of the extents' blocks, cut at the end of the file. */
  method ReadFileAt(dev: seq<seq<byte>>, blockSize: nat, extents: seq<Extent>, fileSize: nat, buf: array<byte>, ofst: int)
    returns (n: nat)
    requires Readable(dev, Places(extents), blockSize)
    modifies buf
    ensures n == if ofst < 0 || ofst >= fileSize then 0
                 else if ofst + buf.Length > fileSize then fileSize - ofst else buf.Length
    ensures forall k | 0 <= k < n :: buf[k] == SeenAt(dev, Places(extents), blockSize, ofst + k)
    ensures forall k | n <= k < buf.Length :: buf[k] == old(buf[k])
  {
    hide SeenAt, Partly, Places, PlacesOf, Extent.Count, Extent.Phys, Extent.Uninit, Read, Readable, Holds;
    if ofst < 0 || ofst >= fileSize {
      return 0;
    }
    var start: nat := ofst;
    var end := start + buf.Length;
    if end > fileSize {
      end := fileSize;
    }
    n := end - start;
    ghost var was, places := buf[..], Places(extents);
    ZeroFront(buf, n);
    NothingRead(buf[..], was, dev, places, blockSize, start, n);
    assert Places(extents[..0]) == [] by { NoPlaces(extents); }
    ghost var limit: nat := 0;
    var logicalPos := 0;
    IsReadable(dev, places, blockSize, 0);
    for j := 0 to |extents|
      invariant limit == |Places(extents[..j])| && logicalPos == limit * blockSize
      invariant Read(buf[..], was, dev, places, blockSize, start, n, limit)
    {
      var e := extents[j];
      var extentEnd := logicalPos + e.Count() * blockSize;
      PlacesNext(extents, j);
      Distribute(limit, e.Count(), blockSize);
      if extentEnd <= start {
        SkipBlocks(buf[..], was, dev, places, blockSize, start, n, limit, limit + e.Count());
      } else if logicalPos >= end {
        AllRead(buf[..], was, dev, places, blockSize, start, n, limit);
        return;
      } else if e.Uninit() {
        SkipUninit(buf[..], was, dev, extents, blockSize, start, n, j);
      } else {
        ReadExtent(dev, blockSize, extents, j, logicalPos, start, end, buf, was);
      }
      logicalPos := extentEnd;
      limit := limit + e.Count();
    }
    assert extents[..|extents|] == extents;
    AllRead(buf[..], was, dev, places, blockSize, start, n, limit);
  }

  /** The inner loop of ReadFileAt over the blocks of extent j. */
  method ReadExtent(dev: seq<seq<byte>>, blockSize: nat, extents: seq<Extent>, j: nat, logicalPos: nat, start: nat, end: nat,
                    buf: array<byte>, ghost was: seq<byte>)
    requires Readable(dev, Places(extents), blockSize) && j < |extents| && !extents[j].Uninit()
    requires logicalPos == |Places(extents[..j])| * blockSize && start <= end && end - start <= buf.Length
    requires Read(buf[..], was, dev, Places(extents), blockSize, start, end - start, |Places(extents[..j])|)
    modifies buf
    ensures Read(buf[..], was, dev, Places(extents), blockSize, start, end - start, |Places(extents[..j])| + extents[j].Count())
  {
    hide SeenAt, Partly, Places, PlacesOf, Extent.Count, Extent.Phys, Extent.Uninit, Read, Readable, Holds;
    var e := extents[j];
    ghost var base, places, n := |Places(extents[..j])|, Places(extents), end - start;
    IsReadable(dev, places, blockSize, 0);
    for i := 0 to e.Count()
      invariant Read(buf[..], was, dev, places, blockSize, start, n, base + i)
    {
      var blockStart := logicalPos + i * blockSize;
      var blockEnd := blockStart + blockSize;
      assert (base + i) * blockSize == blockStart;
      assert (base + i + 1) * blockSize == blockEnd;
      if blockEnd <= start {
        SkipBlocks(buf[..], was, dev, places, blockSize, start, n, base + i, base + i + 1);
        continue;
      }
      if blockStart >= end {
        SkipBlocks(buf[..], was, dev, places, blockSize, start, n, base + i, base + e.Count());
        return;
      }
      PlaceOfBlock(extents, j, i);
      IsReadable(dev, places, blockSize, base + i);
      var blockBuf := dev[e.Phys() + i];
      var srcStart := if start > blockStart then start - blockStart else 0;
      var srcEnd := if end < blockEnd then end - blockStart else blockSize;
      var dstStart := blockStart + srcStart - start;
      ghost var b0 := buf[..];
      PutBytes(buf, dstStart, blockBuf[srcStart..srcEnd]);
      TakeBlock(b0, buf[..], was, dev, places, blockSize, start, n, base + i, dstStart, srcStart, srcEnd - srcStart);
    }
  }

  // ----- files that own their blocks -----

  /** A file in its volume at one moment. */
  datatype File = File(dev: seq<seq<byte>>, groups: seq<Group>, free: set<nat>, tree: seq<byte>, list: seq<Extent>)

  ghost predicate FileReady(f: File, total: nat, blockSize: nat) {
    && TreeReady(f.dev, f.groups, f.free, f.tree) && ReadTree(f.dev, f.tree) == Some(f.list) && Dense(f.list)
    && OnDev(f.dev, DataBlocks(f.list), blockSize) && Releasable(DataBlocks(f.list), f.free, total)
    && forall k | 0 <= k < |DataBlocks(f.list)| ::
         !IsBitmap(f.groups, DataBlocks(f.list)[k]) && DataBlocks(f.list)[k] !in Foot(f.dev, f.tree)
  }

  /** What happened to a file touched only its own blocks, free blocks and bitmaps. */
  ghost predicate Evolved(f: File, g: File) {
    && |g.dev| == |f.dev| && SamePlaces(f.groups, g.groups) && g.free <= f.free
    && (forall b: nat | b in Foot(g.dev, g.tree) :: b in Foot(f.dev, f.tree) || b in f.free)
    && (forall b: nat | b in DataBlocks(g.list) :: b in DataBlocks(f.list) || b in f.free)
    && forall b: nat | b < |f.dev| && Foreign(f, b) :: g.dev[b] == f.dev[b]
  }

  /** Block b is in use, but not by this file nor as a bitmap: another file's, say. */
  ghost predicate Foreign(f: File, b: nat) {
    !IsBitmap(f.groups, b) && b !in f.free && b !in Foot(f.dev, f.tree) && b !in DataBlocks(f.list)
  }

  lemma StillForeign(f: File, g: File, b: nat)
    requires Evolved(f, g) && Foreign(f, b)
    ensures Foreign(g, b)
  {
    hide Foot, DataBlocks, IsBitmap;
    SameBitmaps(f.groups, g.groups);
  }

  lemma EvolvedTwice(f: File, g: File, h: File)
    requires Evolved(f, g) && Evolved(g, h)
    ensures Evolved(f, h)
  {
    hide Foot, DataBlocks, Foreign;
    forall b: nat | b < |f.dev| && Foreign(f, b) ensures h.dev[b] == f.dev[b] {
      StillForeign(f, g, b);
    }
  }

  /** A tree none of whose blocks changed is as ready, and as roomy, as before. */
  lemma TreeKept(dev: seq<seq<byte>>, dev1: seq<seq<byte>>, groups: seq<Group>, groups1: seq<Group>, free: set<nat>, free1: set<nat>,
                 buf: seq<byte>, blockSize: nat)
    requires TreeReady(dev, groups, free, buf) && AgreeOn(dev, dev1, Foot(dev, buf)) && SamePlaces(groups, groups1) && free1 <= free
    ensures TreeReady(dev1, groups1, free1, buf) && ReadTree(dev1, buf) == ReadTree(dev, buf) && Foot(dev1, buf) == Foot(dev, buf)
    ensures TailOf(dev1, buf) == TailOf(dev, buf)
  {
    hide ReadTree, Foot, LastLeaf, DecodeHeader, Depth, LeafOk, IsBitmap;
    TreeFrame(dev, dev1, buf);
    SameBitmaps(groups, groups1);
    if Depth(buf) > 0 && LastLeaf(dev, buf).Some? {
      LastLeafFrame(dev, dev1, buf);
      LastLeafInFoot(dev, buf);
    } else if Depth(buf) > 0 && LastLeaf(dev1, buf).Some? {
      LastLeafFrameNone(dev, dev1, buf);
    }
  }

  /** The extent AppendExtent is given for block new as logical block l. */
  function OneBlock(l: u32, new_: nat): (x: Extent)
  {
    Extent(l, 1, (new_ / 0x1_0000_0000) % 0x1_0000, new_ % 0x1_0000_0000)
  }

  /**
   n more blocks, from logical block l on, can be allocated and appended one after the other
   until no block is free: none of them meets a full leaf below the root that it would split.
   */
  ghost predicate CanTake(t: Tail, free: set<nat>, l: nat, n: nat, blockSize: nat)
    decreases n
  {
    n == 0 || free == {} ||
    (&& t.Tail? && l < 0x1_0000_0000
     && var rest, x := free - {Lowest(free)}, OneBlock(l, Lowest(free));
        if t.HasRoom() || (t.root && rest != {})
        then CanTake(t.Next(x, blockSize), t.LeavesFree(rest), l + 1, n - 1, blockSize)
        else rest == {})
  }

  /** h is f with x appended when these blocks were free. */
  ghost predicate Advanced(f: File, h: File, x: Extent, free: set<nat>, blockSize: nat) {
    var t := TailOf(f.dev, f.tree);
    t.Tail? && TailOf(h.dev, h.tree) == t.Next(x, blockSize) && h.free == t.LeavesFree(free)
  }

  /** The file can grow to this many blocks. */
  ghost predicate CanGrowTo(f: File, blocks: nat, blockSize: nat) {
    var n := |DataBlocks(f.list)|;
    CanTake(TailOf(f.dev, f.tree), f.free, n, if blocks > n then blocks - n else 0, blockSize)
  }

  /** As many free entries as blocks are enough. */
  lemma {:induction false} SpareSuffices(t: Tail, free: set<nat>, l: nat, n: nat, blockSize: nat)
    requires n <= t.Spare(blockSize) && l + n <= 0x1_0000_0000
    ensures CanTake(t, free, l, n, blockSize)
    decreases n
  {
    hide Capacity, Mergeable;
    if n > 0 && free != {} {
      var rest, x := free - {Lowest(free)}, OneBlock(l, Lowest(free));
      if t.HasRoom() || (t.root && rest != {}) {
        SpareSuffices(t.Next(x, blockSize), t.LeavesFree(rest), l + 1, n - 1, blockSize);
      }
    }
  }

  /** The file's blocks go to the same place on disk and in the same leaf: no entry is needed for them. */
  ghost predicate Continues(t: Tail, l: nat, b: nat) {
    && t.HasRoom() && t.last.Some?
    && var e := t.last.value;
       !e.Uninit() && e.startHi == 0 && e.block + e.Count() == l && e.startLo + e.Count() == b
  }

  /** Blocks that follow the last extent on disk merge into it, however many there are up to its 15 bits. */
  lemma {:induction false} RunSuffices(t: Tail, free: set<nat>, l: nat, b: nat, n: nat, blockSize: nat)
    requires Continues(t, l, b) && t.last.value.Count() + n <= 0x7FFF && l + n <= 0x1_0000_0000 && b + n <= 0x1_0000_0000
    requires (forall c: nat | b <= c < b + n :: c in free) && forall c | c in free :: c >= b
    ensures CanTake(t, free, l, n, blockSize)
    decreases n
  {
    if n > 0 {
      assert b in free && Lowest(free) == b;
      var x, rest := OneBlock(l, b), free - {b};
      OneBlockIs(l, b);
      MergesOn(t, l, b, blockSize);
      RunSuffices(t.Next(x, blockSize), rest, l + 1, b + 1, n - 1, blockSize);
    }
  }

  lemma MergesOn(t: Tail, l: u32, b: nat, blockSize: nat)
    requires Continues(t, l, b) && t.last.value.Count() < 0x7FFF && b < 0x1_0000_0000
    ensures var t1 := t.Next(OneBlock(l, b), blockSize);
            t.Takes(OneBlock(l, b)) && Continues(t1, l + 1, b + 1) && t1.last.value.Count() == t.last.value.Count() + 1
  {
    OneBlockIs(l, b);
  }

  /** A file without blocks can take a run of free blocks of any length up to those 15 bits. */
  lemma FreshRunSuffices(t: Tail, free: set<nat>, b: nat, n: nat, blockSize: nat)
    requires t.HasRoom() && t.entries + 1 < t.max && t.last.None? && n <= 0x7FFF && b + n <= 0x1_0000_0000
    requires (forall c: nat | b <= c < b + n :: c in free) && forall c | c in free :: c >= b
    ensures CanTake(t, free, 0, n, blockSize)
  {
    hide Capacity, Tail.Next, Tail.Takes, OneBlock, Continues;
    if n > 0 {
      assert b in free && Lowest(free) == b;
      FirstAdds(t, b, blockSize);
      RunSuffices(t.Next(OneBlock(0, b), blockSize), free - {b}, 1, b + 1, n - 1, blockSize);
    }
  }

  lemma FirstAdds(t: Tail, b: nat, blockSize: nat)
    requires t.HasRoom() && t.entries + 1 < t.max && t.last.None? && b < 0x1_0000_0000
    ensures var t1 := t.Next(OneBlock(0, b), blockSize); Continues(t1, 1, b + 1) && t1.last.value.Count() == 1
  {
    OneBlockIs(0, b);
  }

  /** What the tail says of the tree. */
  lemma TailRight(dev: seq<seq<byte>>, groups: seq<Group>, free: set<nat>, tree: seq<byte>)
    requires TreeReady(dev, groups, free, tree)
    ensures var t := TailOf(dev, tree);
            && |tree| >= HEADER_SIZE && DecodeHeader(tree).magic == EXT_MAGIC
            && (t.Tail? ==> t.entries <= t.max)
            && (RightPlace(dev, tree) <==> t.HasRoom() || (t.Tail? && t.root))
            && (t.Tail? ==> (Appendable(dev, tree, free) <==> t.HasRoom() || free != {}))
  {
    hide ReadTree, LastLeaf, DecodeHeader, Foot, LastOf, LeafList;
    MagicOk(dev, tree);
  }

  ghost function Snap(fs: FileSystem, inode: Inode, list: seq<Extent>): File
    requires fs.Valid()
    reads fs, inode, inode.iBlock
  {
    File(fs.dev, fs.groups, fs.FreeSet(), inode.iBlock[..], list)
  }

  // ----- one more block for the file -----

  /** g is f with block new of its free blocks taken, only bitmaps having been written. */
  ghost predicate Took(f: File, g: File, new_: nat) {
    && new_ in f.free && g.free == f.free - {new_} && SamePlaces(f.groups, g.groups) && |g.dev| == |f.dev|
    && g.tree == f.tree && g.list == f.list
    && forall b | 0 <= b < |f.dev| && !IsBitmap(f.groups, b) :: g.dev[b] == f.dev[b]
  }

  lemma TookTree(f: File, g: File, new_: nat, total: nat, blockSize: nat)
    requires FileReady(f, total, blockSize) && Took(f, g, new_)
    ensures TreeReady(g.dev, g.groups, g.free, g.tree) && ReadTree(g.dev, g.tree) == Some(f.list)
    ensures Foot(g.dev, g.tree) == Foot(f.dev, f.tree) && TailOf(g.dev, g.tree) == TailOf(f.dev, f.tree)
    ensures new_ !in Foot(f.dev, f.tree) && new_ !in DataBlocks(f.list)
  {
    hide ReadTree, Foot, LastLeaf, DecodeHeader, Depth, LeafOk, IsBitmap, Dense, DataBlocks, NodeOk, TailOf;
    TreeKept(f.dev, g.dev, f.groups, g.groups, f.free, g.free, f.tree, blockSize);
  }

  lemma OneBlockIs(l: u32, new_: nat)
    requires new_ < 0x1_0000_0000_0000
    ensures var x := OneBlock(l, new_); x.Count() == 1 && x.Phys() == new_ && !x.Uninit() && x.block == l
  {
  }

  /** h is g after the append of new as the next block of the file. */
  ghost predicate Attached(g: File, h: File, new_: nat, blockSize: nat) {
    && |DataBlocks(g.list)| + 1 < 0x1_0000_0000 && new_ < 0x1_0000_0000
    && Appended(g.dev, g.groups, g.free, g.tree, h.dev, h.free, h.tree, OneBlock(|DataBlocks(g.list)|, new_), blockSize)
    && SamePlaces(g.groups, h.groups) && ReadTree(h.dev, h.tree) == Some(h.list)
  }

  lemma AttachedList(f: File, g: File, h: File, new_: nat, total: nat, blockSize: nat)
    requires FileReady(f, total, blockSize) && Took(f, g, new_) && Attached(g, h, new_, blockSize)
    ensures Dense(h.list) && DataBlocks(h.list) == DataBlocks(f.list) + [new_]
    ensures |DataBlocks(f.list)| < 0x1_0000_0000 && Advanced(f, h, OneBlock(|DataBlocks(f.list)|, new_), f.free - {new_}, blockSize)
    ensures TreeReady(h.dev, h.groups, h.free, h.tree)
  {
    hide ReadTree, Foot, LastLeaf, DecodeHeader, Depth, LeafOk, IsBitmap, Dense, DataBlocks, NodeOk, TailOf, Grew;
    TookTree(f, g, new_, total, blockSize);
    OneBlockIs(|DataBlocks(f.list)|, new_);
    var x := OneBlock(|DataBlocks(f.list)|, new_);
    DenseGrown(h.list, f.list, x, TailOf(g.dev, g.tree).Takes(x));
    SameBitmaps(g.groups, h.groups);
  }

  lemma AttachedBlocks(f: File, g: File, h: File, new_: nat, total: nat, blockSize: nat)
    requires FileReady(f, total, blockSize) && Took(f, g, new_) && Attached(g, h, new_, blockSize) && Placed(f.dev, f.groups, f.free)
    requires Foot(g.dev, g.tree) == Foot(f.dev, f.tree) && DataBlocks(h.list) == DataBlocks(f.list) + [new_]
    requires new_ !in Foot(f.dev, f.tree)
    ensures forall k | 0 <= k < |DataBlocks(h.list)| ::
              DataBlocks(h.list)[k] < |h.dev| && !IsBitmap(h.groups, DataBlocks(h.list)[k]) && DataBlocks(h.list)[k] !in Foot(h.dev, h.tree)
    ensures forall k | 0 <= k < |DataBlocks(f.list)| :: h.dev[DataBlocks(f.list)[k]] == f.dev[DataBlocks(f.list)[k]]
  {
    hide ReadTree, Foot, LastLeaf, DecodeHeader, Depth, LeafOk, IsBitmap, Dense, DataBlocks, NodeOk, TailOf, Grew, TreeReady;
    SameBitmaps(f.groups, g.groups);
    SameBitmaps(g.groups, h.groups);
  }

  lemma AttachedReady(f: File, g: File, h: File, new_: nat, total: nat, blockSize: nat)
    requires FileReady(f, total, blockSize) && Took(f, g, new_) && Attached(g, h, new_, blockSize) && Placed(f.dev, f.groups, f.free)
    requires new_ < total && forall b | 0 <= b < |h.dev| :: |h.dev[b]| == blockSize
    ensures FileReady(h, total, blockSize) && DataBlocks(h.list) == DataBlocks(f.list) + [new_]
    ensures |DataBlocks(f.list)| < 0x1_0000_0000 && Advanced(f, h, OneBlock(|DataBlocks(f.list)|, new_), f.free - {new_}, blockSize)
    ensures Placed(h.dev, h.groups, h.free)
    ensures forall k | 0 <= k < |DataBlocks(f.list)| :: h.dev[DataBlocks(f.list)[k]] == f.dev[DataBlocks(f.list)[k]]
  {
    hide ReadTree, Foot, LastLeaf, DecodeHeader, Depth, LeafOk, IsBitmap, Dense, DataBlocks, NodeOk, TailOf, Grew, TreeReady;
    TookTree(f, g, new_, total, blockSize);
    AttachedList(f, g, h, new_, total, blockSize);
    AttachedBlocks(f, g, h, new_, total, blockSize);
    FewerFree(DataBlocks(f.list), f.free, g.free, total);
    OneMoreFree(DataBlocks(f.list), new_, g.free, total);
    FewerFree(DataBlocks(h.list), g.free, h.free, total);
    SameBitmaps(f.groups, g.groups);
    SameBitmaps(g.groups, h.groups);
  }

  lemma FewerFree(s: seq<nat>, free: set<nat>, free1: set<nat>, total: nat)
    requires Releasable(s, free, total) && free1 <= free
    ensures Releasable(s, free1, total)
  {
  }

  lemma AttachedEvolves(f: File, g: File, h: File, new_: nat, total: nat, blockSize: nat)
    requires FileReady(f, total, blockSize) && Took(f, g, new_) && Attached(g, h, new_, blockSize)
    ensures Evolved(f, h)
  {
    hide ReadTree, LastLeaf, DecodeHeader, Depth, LeafOk, IsBitmap, Dense, DataBlocks, NodeOk, TailOf, Grew, TreeReady, Foot;
    TookTree(f, g, new_, total, blockSize);
    AttachedList(f, g, h, new_, total, blockSize);
    SameBitmaps(f.groups, g.groups);
    SameBitmaps(g.groups, h.groups);
  }

  /** The branch of WriteFileAt for a block the file does not have yet. */
  method GrowFile(fs: FileSystem, inode: Inode, logicalBlock: nat, ghost list: seq<Extent>, ghost blocks: nat)
    returns (ok: bool, physBlock: nat, ghost list1: seq<Extent>)
    requires fs.Valid() && Placed(fs.dev, fs.groups, fs.FreeSet()) && fs.blockSize >= 1024 && inode.iBlock.Length == I_BLOCK
    requires inode.usesExtents && FileReady(Snap(fs, inode, list), fs.Total(), fs.blockSize)
    requires logicalBlock == |DataBlocks(list)| && logicalBlock + 1 < 0x1_0000_0000
    requires blocks > logicalBlock && CanGrowTo(Snap(fs, inode, list), blocks, fs.blockSize)
    modifies fs, inode.iBlock
    ensures fs.Valid() && fs.Total() == old(fs.Total())
    ensures Evolved(old(Snap(fs, inode, list)), Snap(fs, inode, list1))
    ensures ok ==> FileReady(Snap(fs, inode, list1), fs.Total(), fs.blockSize) && Placed(fs.dev, fs.groups, fs.FreeSet())
                   && DataBlocks(list1) == DataBlocks(list) + [physBlock]
                   && CanGrowTo(Snap(fs, inode, list1), blocks, fs.blockSize)
    ensures ok ==> forall k | 0 <= k < |DataBlocks(list)| :: fs.dev[DataBlocks(list)[k]] == old(fs.dev[DataBlocks(list)[k]])
    ensures !ok ==> fs.FreeSet() == {}
  {
    hide ReadTree, LastLeaf, DecodeHeader, Depth, LeafOk, IsBitmap, Dense, DataBlocks, NodeOk, TailOf, Grew, TreeReady, Foot,
         Appended, Consistent, FreeBlocks, FileReady, Evolved;
    ghost var f := Snap(fs, inode, list);
    list1 := list;
    FreeIsSmall(fs);
    SnapEvolves(f);
    var r := fs.AllocateBlock();
    if r.None? {
      return false, 0, list1;
    }
    physBlock := r.value;
    ghost var g := Snap(fs, inode, list);
    SameBitmaps(f.groups, g.groups);
    assert physBlock == Lowest(f.free);
    TookRoom(f, g, physBlock, fs.Total(), fs.blockSize, blocks);
    var newExt := OneBlock(logicalBlock, physBlock);
    ok := AppendExtent(fs, inode, newExt);
    if !ok {
      TookEvolves(f, g, physBlock, fs.Total(), fs.blockSize);
      return;
    }
    AppendedReads(g.dev, g.groups, g.free, g.tree, fs.dev, fs.FreeSet(), inode.iBlock[..], newExt, fs.blockSize);
    list1 := ReadTree(fs.dev, inode.iBlock[..]).value;
    ghost var h := Snap(fs, inode, list1);
    BlockSizes(fs);
    AttachedReady(f, g, h, physBlock, fs.Total(), fs.blockSize);
    AttachedEvolves(f, g, h, physBlock, fs.Total(), fs.blockSize);
    OneLess(f, h, physBlock, blocks, fs.blockSize);
  }

  /** The block just appended was the next one the file could take. */
  lemma OneLess(f: File, h: File, new_: nat, blocks: nat, blockSize: nat)
    requires f.free != {} && new_ == Lowest(f.free) && CanGrowTo(f, blocks, blockSize)
    requires |DataBlocks(f.list)| < blocks && |DataBlocks(f.list)| < 0x1_0000_0000 && |DataBlocks(h.list)| == |DataBlocks(f.list)| + 1
    requires TailOf(f.dev, f.tree).Tail?
    requires var t, rest := TailOf(f.dev, f.tree), f.free - {new_};
             (t.HasRoom() || (t.root && rest != {})) && Advanced(f, h, OneBlock(|DataBlocks(f.list)|, new_), rest, blockSize)
    ensures CanGrowTo(h, blocks, blockSize)
  {
    hide DataBlocks, TailOf, Tail.Next, Tail.LeavesFree;
  }

  lemma AppendedReads(dev: seq<seq<byte>>, groups: seq<Group>, free: set<nat>, buf: seq<byte>,
                      dev1: seq<seq<byte>>, free1: set<nat>, buf1: seq<byte>, x: Extent, blockSize: nat)
    requires Appended(dev, groups, free, buf, dev1, free1, buf1, x, blockSize)
    ensures ReadTree(dev1, buf1).Some?
  {
    hide ReadTree, Foot, NodeOk, TailOf, IsBitmap, Grew;
  }

  lemma SnapEvolves(f: File)
    ensures Evolved(f, f)
  {
    hide Foot, DataBlocks;
  }

  /** After the allocation the tree is ready for the append, which fails only without a free block. */
  lemma TookRoom(f: File, g: File, new_: nat, total: nat, blockSize: nat, blocks: nat)
    requires FileReady(f, total, blockSize) && Took(f, g, new_) && Placed(f.dev, f.groups, f.free)
    requires new_ == Lowest(f.free) && CanGrowTo(f, blocks, blockSize) && |DataBlocks(f.list)| < blocks
    ensures TreeReady(g.dev, g.groups, g.free, g.tree) && Placed(g.dev, g.groups, g.free)
    ensures |g.tree| >= HEADER_SIZE && DecodeHeader(g.tree).magic == EXT_MAGIC
    ensures TailOf(g.dev, g.tree) == TailOf(f.dev, f.tree) && TailOf(f.dev, f.tree).Tail?
    ensures Appendable(g.dev, g.tree, g.free) ==> RightPlace(g.dev, g.tree)
    ensures var t := TailOf(f.dev, f.tree); Appendable(g.dev, g.tree, g.free) <==> t.HasRoom() || (t.root && g.free != {})
    ensures !Appendable(g.dev, g.tree, g.free) ==> g.free == {}
  {
    hide ReadTree, LastLeaf, DecodeHeader, Depth, LeafOk, IsBitmap, Dense, DataBlocks, NodeOk, TailOf, Foot, Tail.Next, Tail.LeavesFree,
         RightPlace, Appendable;
    TookTree(f, g, new_, total, blockSize);
    SameBitmaps(f.groups, g.groups);
    TailRight(g.dev, g.groups, g.free, g.tree);
  }

  lemma TookEvolves(f: File, g: File, new_: nat, total: nat, blockSize: nat)
    requires FileReady(f, total, blockSize) && Took(f, g, new_)
    ensures Evolved(f, g)
  {
    hide ReadTree, LastLeaf, DecodeHeader, Depth, LeafOk, IsBitmap, Dense, DataBlocks, NodeOk, TailOf, Foot;
    TookTree(f, g, new_, total, blockSize);
  }

  // ----- writing -----

  function StartOf(block: nat, blockSize: nat): nat {
    block * blockSize
  }

  /** The bytes of a block at base with the write at ofst laid over them. */
  function Patch(base: nat, ofst: nat, data: seq<byte>, was: seq<byte>): (s: seq<byte>)
    ensures |s| == |was|
    ensures forall o | 0 <= o < |was| :: s[o] == if ofst <= base + o < ofst + |data| then data[base + o - ofst] else was[o]
  {
    seq(|was|, o requires 0 <= o < |was| => if ofst <= base + o < ofst + |data| then data[base + o - ofst] else was[o])
  }

  /** What an old block k of the file holds once the blocks below l have been written. */
  function BlockNow(was: seq<byte>, k: nat, blockSize: nat, l: nat, ofst: nat, data: seq<byte>): seq<byte> {
    if k < l then Patch(StartOf(k, blockSize), ofst, data, was) else was
  }

  /** The file's blocks once those below block l have been written, p0 being the old ones. */
  ghost predicate WrittenTo(dev0: seq<seq<byte>>, p0: seq<nat>, dev: seq<seq<byte>>, p: seq<nat>, blockSize: nat,
                            l: nat, ofst: nat, data: seq<byte>)
    requires OnDev(dev0, p0, blockSize) && OnDev(dev, p, blockSize)
  {
    && p0 <= p
    && (forall k | 0 <= k < |p0| :: dev[p[k]] == BlockNow(dev0[p0[k]], k, blockSize, l, ofst, data))
    && (|p| > |p0| ==> |p| <= l)
    && forall k | |p0| <= k < |p| :: dev[p[k]] == Patch(StartOf(k, blockSize), ofst, data, dev[p[k]])
  }

  /** Nothing to do below the write's first block. */
  lemma NothingWritten(dev: seq<seq<byte>>, p: seq<nat>, blockSize: nat, first: nat, data: seq<byte>)
    requires OnDev(dev, p, blockSize)
    ensures WrittenTo(dev, p, dev, p, blockSize, first, first * blockSize, data)
  {
    forall k | 0 <= k < |p| && k < first ensures Patch(StartOf(k, blockSize), first * blockSize, data, dev[p[k]]) == dev[p[k]] {
      MulMono(k + 1, first, blockSize);
      assert (k + 1) * blockSize == k * blockSize + blockSize;
    }
  }

  /** Writing block l of the file, one it had. */
  lemma OneMoreWritten(dev0: seq<seq<byte>>, p0: seq<nat>, dev: seq<seq<byte>>, p: seq<nat>, blockSize: nat,
                       l: nat, ofst: nat, data: seq<byte>, block: seq<byte>)
    requires OnDev(dev0, p0, blockSize) && OnDev(dev, p, blockSize) && l < |p|
    requires WrittenTo(dev0, p0, dev, p, blockSize, l, ofst, data)
    requires forall i, j | 0 <= i < j < |p| :: p[i] != p[j]
    requires block == Patch(StartOf(l, blockSize), ofst, data, dev[p[l]])
    ensures OnDev(dev[p[l] := block], p, blockSize)
    ensures WrittenTo(dev0, p0, dev[p[l] := block], p, blockSize, l + 1, ofst, data)
  {
    hide Patch;
    var dev1 := dev[p[l] := block];
    forall k | 0 <= k < |p| ensures dev1[p[k]] == if k == l then block else dev[p[k]] {
      if k < l { assert p[k] != p[l]; } else if l < k { assert p[l] != p[k]; }
    }
  }

  /** Writing the block the file just got. */
  lemma NewWritten(dev0: seq<seq<byte>>, p0: seq<nat>, dev: seq<seq<byte>>, p: seq<nat>, blockSize: nat,
                   l: nat, ofst: nat, data: seq<byte>, block: seq<byte>)
    requires OnDev(dev0, p0, blockSize) && OnDev(dev, p, blockSize) && l + 1 == |p| > |p0|
    requires WrittenTo(dev0, p0, dev, p[..l], blockSize, l, ofst, data)
    requires forall i, j | 0 <= i < j < |p| :: p[i] != p[j]
    requires block == Patch(StartOf(l, blockSize), ofst, data, dev[p[l]])
    ensures OnDev(dev[p[l] := block], p, blockSize)
    ensures WrittenTo(dev0, p0, dev[p[l] := block], p, blockSize, l + 1, ofst, data)
  {
    hide Patch;
    var dev1, q := dev[p[l] := block], p[..l];
    forall k | 0 <= k < l ensures dev1[p[k]] == dev[q[k]] {
      assert p[k] != p[l];
    }
    assert forall k | 0 <= k < |p0| :: p[k] == q[k] == p0[k];
    PatchTwice(StartOf(l, blockSize), ofst, data, dev[p[l]]);
  }

  lemma PatchTwice(base: nat, ofst: nat, data: seq<byte>, was: seq<byte>)
    ensures Patch(base, ofst, data, Patch(base, ofst, data, was)) == Patch(base, ofst, data, was)
  {
  }

  /** The copy WriteFileAt makes into the block buffer. */
  method PatchBlock(blockData: seq<byte>, buf: seq<byte>, start: nat, blockStart: nat) returns (b: seq<byte>)
    requires start <= blockStart < start + |buf|
    ensures b == Patch(blockStart, start, buf, blockData)
  {
    var end, blockSize := start + |buf|, |blockData|;
    var readEnd := if end < blockStart + blockSize then end - blockStart else blockSize;
    var srcStart := blockStart - start;
    var block := new byte[blockSize](i requires 0 <= i < blockSize => blockData[i]);
    assert block[..] == blockData;
    ghost var s := buf[srcStart..srcStart + readEnd];
    PutBytes(block, 0, buf[srcStart..srcStart + readEnd]);
    b := block[..];
    forall o | 0 <= o < blockSize
      ensures b[o] == if start <= blockStart + o < start + |buf| then buf[blockStart + o - start] else blockData[o]
    {
      if o < readEnd {
        assert b[o] == b[0..0 + |s|][o] == s[o];
      }
    }
  }

  /** The old bytes with the write laid over them, longer if it ends behind them. */
  function Overlay(old_: seq<byte>, ofst: nat, data: seq<byte>): (s: seq<byte>)
    requires ofst <= |old_|
  {
    old_[..ofst] + data + if ofst + |data| < |old_| then old_[ofst + |data|..] else []
  }

  lemma ContentsAt(dev: seq<seq<byte>>, p: seq<nat>, blockSize: nat, size: nat, i: nat)
    requires OnDev(dev, p, blockSize) && i < size <= |p| * blockSize
    ensures i / blockSize < |p| && Contents(dev, p, blockSize, size)[i] == ByteAt(dev, p, blockSize, i)
  {
    InBlocks(i, |p|, blockSize);
  }

  /** With all its blocks written the file reads as the overlay. */
  lemma WrittenContents(dev0: seq<seq<byte>>, p0: seq<nat>, dev: seq<seq<byte>>, p: seq<nat>, blockSize: nat,
                        l: nat, ofst: nat, data: seq<byte>, size: nat)
    requires OnDev(dev0, p0, blockSize) && OnDev(dev, p, blockSize) && WrittenTo(dev0, p0, dev, p, blockSize, l, ofst, data)
    requires ofst <= size <= |p0| * blockSize && ofst + |data| <= l * blockSize && l <= |p|
    ensures var size1 := if ofst + |data| > size then ofst + |data| else size;
            size1 <= |p| * blockSize
            && Contents(dev, p, blockSize, size1) == Overlay(Contents(dev0, p0, blockSize, size), ofst, data)
  {
    hide Patch, WrittenTo, Contents;
    var size1 := if ofst + |data| > size then ofst + |data| else size;
    Longer(dev0, p0, dev, p, blockSize, l, ofst, data);
    MulMono(|p0|, |p|, blockSize);
    MulMono(l, |p|, blockSize);
    assert |Overlay(Contents(dev0, p0, blockSize, size), ofst, data)| == size1;
    forall i | 0 <= i < size1
      ensures Contents(dev, p, blockSize, size1)[i] == Overlay(Contents(dev0, p0, blockSize, size), ofst, data)[i]
    {
      OverlayAt(dev0, p0, dev, p, blockSize, l, ofst, data, size, size1, i);
    }
  }

  lemma OverlayAt(dev0: seq<seq<byte>>, p0: seq<nat>, dev: seq<seq<byte>>, p: seq<nat>, blockSize: nat,
                  l: nat, ofst: nat, data: seq<byte>, size: nat, size1: nat, i: nat)
    requires OnDev(dev0, p0, blockSize) && OnDev(dev, p, blockSize) && WrittenTo(dev0, p0, dev, p, blockSize, l, ofst, data)
    requires ofst <= size <= |p0| * blockSize && ofst + |data| <= l * blockSize
    requires size1 == (if ofst + |data| > size then ofst + |data| else size) && i < size1 <= |p| * blockSize
    ensures |Overlay(Contents(dev0, p0, blockSize, size), ofst, data)| == size1
    ensures Contents(dev, p, blockSize, size1)[i] == Overlay(Contents(dev0, p0, blockSize, size), ofst, data)[i]
  {
    hide Patch, WrittenTo, Contents, ByteAt;
    ContentsAt(dev, p, blockSize, size1, i);
    WrittenByte(dev0, p0, dev, p, blockSize, l, ofst, data, size, i);
    if i < size {
      ContentsAt(dev0, p0, blockSize, size, i);
    }
  }

  lemma Longer(dev0: seq<seq<byte>>, p0: seq<nat>, dev: seq<seq<byte>>, p: seq<nat>, blockSize: nat, l: nat, ofst: nat, data: seq<byte>)
    requires OnDev(dev0, p0, blockSize) && OnDev(dev, p, blockSize) && WrittenTo(dev0, p0, dev, p, blockSize, l, ofst, data)
    ensures |p0| <= |p|
  {
  }

  lemma WrittenByte(dev0: seq<seq<byte>>, p0: seq<nat>, dev: seq<seq<byte>>, p: seq<nat>, blockSize: nat,
                    l: nat, ofst: nat, data: seq<byte>, size: nat, i: nat)
    requires OnDev(dev0, p0, blockSize) && OnDev(dev, p, blockSize) && WrittenTo(dev0, p0, dev, p, blockSize, l, ofst, data)
    requires ofst <= size <= |p0| * blockSize && ofst + |data| <= l * blockSize
    requires i < size || i < ofst + |data|
    requires i / blockSize < |p| 
    ensures ofst <= i < ofst + |data| ==> ByteAt(dev, p, blockSize, i) == data[i - ofst]
    ensures !(ofst <= i < ofst + |data|) ==> i / blockSize < |p0| && ByteAt(dev, p, blockSize, i) == ByteAt(dev0, p0, blockSize, i)
  {
    hide Patch;
    var k, o := i / blockSize, i % blockSize;
    DivMod(i, blockSize);
    assert StartOf(k, blockSize) + o == i;
    InBlocks(i, |p0|, blockSize);
    InBlocks(i, l, blockSize);
    if k < |p0| {
      assert dev[p[k]] == if k < l then Patch(StartOf(k, blockSize), ofst, data, dev0[p0[k]]) else dev0[p0[k]];
    } else {
      assert dev[p[k]] == Patch(StartOf(k, blockSize), ofst, data, dev[p[k]]);
    }
  }

  /**
   What WriteFileAt takes for granted: a dense file that owns its blocks, a block-aligned offset in
   it, and no full leaf below the root in the way of the blocks to come.
   */
  ghost predicate CanWrite(f: File, total: nat, blockSize: nat, size: nat, ofst: nat, len: nat) {
    && FileReady(f, total, blockSize) && Placed(f.dev, f.groups, f.free)
    && ofst % blockSize == 0 && ofst <= size <= |DataBlocks(f.list)| * blockSize
    && ofst + len < 0x1_0000_0000_0000_0000 && BlocksFor(ofst + len, blockSize) < 0xFFFF_FFFF
    && CanGrowTo(f, BlocksFor(ofst + len, blockSize), blockSize)
  }

  /** Writing data leaves the free blocks and the tree's tail as they are. */
  ghost predicate SameTail(f: File, h: File) {
    TailOf(h.dev, h.tree) == TailOf(f.dev, f.tree) && h.free == f.free
  }

  /** The write of one data block leaves the file ready. */
  lemma DataWritten(f: File, k: nat, block: seq<byte>, total: nat, blockSize: nat)
    requires FileReady(f, total, blockSize) && k < |DataBlocks(f.list)| && |block| == blockSize
    ensures var h := f.(dev := f.dev[DataBlocks(f.list)[k] := block]);
            FileReady(h, total, blockSize) && Evolved(f, h) && SameTail(f, h)
            && (Placed(f.dev, f.groups, f.free) ==> Placed(h.dev, h.groups, h.free))
  {
    hide ReadTree, LastLeaf, DecodeHeader, Depth, LeafOk, IsBitmap, Dense, DataBlocks, NodeOk, TailOf, Foot, Releasable;
    var h := f.(dev := f.dev[DataBlocks(f.list)[k] := block]);
    TreeKept(f.dev, h.dev, f.groups, f.groups, f.free, f.free, f.tree, blockSize);
  }

  lemma ReadyBlocks(f: File, total: nat, blockSize: nat)
    requires FileReady(f, total, blockSize)
    ensures OnDev(f.dev, DataBlocks(f.list), blockSize) && Dense(f.list)
    ensures forall i, j | 0 <= i < j < |DataBlocks(f.list)| :: DataBlocks(f.list)[i] != DataBlocks(f.list)[j]
    ensures forall k | 0 <= k < |DataBlocks(f.list)| :: !IsBitmap(f.groups, DataBlocks(f.list)[k])
  {
    hide Dense, DataBlocks, Foot, TreeReady, ReadTree, IsBitmap;
  }

  /** One round of the loop of WriteFileAt. */
  method WriteOne(fs: FileSystem, inode: Inode, buf: seq<byte>, start: nat, logicalBlock: nat, physBlock: nat, ghost list: seq<Extent>)
    requires fs.Valid() && FileReady(Snap(fs, inode, list), fs.Total(), fs.blockSize) && Placed(fs.dev, fs.groups, fs.FreeSet())
    requires logicalBlock < |DataBlocks(list)| && physBlock == DataBlocks(list)[logicalBlock]
    requires start <= logicalBlock * fs.blockSize < start + |buf|
    modifies fs`dev
    ensures fs.Valid() && fs.Total() == old(fs.Total())
    ensures FileReady(Snap(fs, inode, list), fs.Total(), fs.blockSize) && Placed(fs.dev, fs.groups, fs.FreeSet())
    ensures Evolved(old(Snap(fs, inode, list)), Snap(fs, inode, list))
    ensures SameTail(old(Snap(fs, inode, list)), Snap(fs, inode, list))
    ensures physBlock < |old(fs.dev)|
    ensures fs.dev == old(fs.dev)[physBlock := Patch(StartOf(logicalBlock, fs.blockSize), start, buf, old(fs.dev)[physBlock])]
  {
    hide ReadTree, LastLeaf, DecodeHeader, Depth, LeafOk, IsBitmap, Dense, DataBlocks, NodeOk, TailOf, TreeReady, Foot,
         Consistent, FreeBlocks, FileReady, Evolved, Patch, Placed;
    ghost var f := Snap(fs, inode, list);
    ReadyBlocks(f, fs.Total(), fs.blockSize);
    var blockData := fs.dev[physBlock];
    var block := PatchBlock(blockData, buf, start, logicalBlock * fs.blockSize);
    DataWritten(f, logicalBlock, block, fs.Total(), fs.blockSize);
    fs.WriteBlock(physBlock, block);
    assert Snap(fs, inode, list) == f.(dev := f.dev[physBlock := block]);
  }

  /** Reading the blocks elsewhere on the device does not disturb what was written. */
  lemma WrittenKept(dev0: seq<seq<byte>>, p0: seq<nat>, dev: seq<seq<byte>>, dev1: seq<seq<byte>>, p: seq<nat>, blockSize: nat,
                    l: nat, ofst: nat, data: seq<byte>)
    requires OnDev(dev0, p0, blockSize) && OnDev(dev, p, blockSize) && WrittenTo(dev0, p0, dev, p, blockSize, l, ofst, data)
    requires OnDev(dev1, p, blockSize) && forall k | 0 <= k < |p| :: dev1[p[k]] == dev[p[k]]
    ensures WrittenTo(dev0, p0, dev1, p, blockSize, l, ofst, data)
  {
    hide Patch, BlockNow;
    forall k | 0 <= k < |p0| ensures dev1[p[k]] == BlockNow(dev0[p0[k]], k, blockSize, l, ofst, data) {
      assert dev1[p[k]] == dev[p[k]];
    }
    forall k | |p0| <= k < |p| ensures dev1[p[k]] == Patch(StartOf(k, blockSize), ofst, data, dev1[p[k]]) {
      assert dev1[p[k]] == dev[p[k]];
    }
  }

  /** The block numbers WriteFileAt runs through. */
  lemma WriteRange(start: nat, end: nat, blockSize: nat)
    requires blockSize > 0 && start % blockSize == 0 && start < end
    ensures var first, last := start / blockSize, (end - 1) / blockSize;
            && first <= last && first * blockSize == start && last + 1 == BlocksFor(end, blockSize)
            && end <= (last + 1) * blockSize && forall l | first <= l <= last :: start <= l * blockSize < end
  {
    var first, last := start / blockSize, (end - 1) / blockSize;
    DivMod(start, blockSize);
    DivMod(end - 1, blockSize);
    DivMono(start, end - 1, blockSize);
    assert (last + 1) * blockSize == last * blockSize + blockSize;
    DivUnique(end + blockSize - 1, blockSize, last + 1);
    forall l | first <= l <= last ensures start <= l * blockSize < end {
      MulMono(first, l, blockSize);
      MulMono(l, last, blockSize);
    }
  }

  /** Everything known between two rounds of the loop of WriteFileAt. */
  ghost predicate Underway(f: File, h: File, total: nat, blockSize: nat, l: nat, ofst: nat, data: seq<byte>) {
    && FileReady(f, total, blockSize) && FileReady(h, total, blockSize) && Placed(h.dev, h.groups, h.free) && Evolved(f, h)
    && WrittenTo(f.dev, DataBlocks(f.list), h.dev, DataBlocks(h.list), blockSize, l, ofst, data)
    && |DataBlocks(h.list)| == (if l > |DataBlocks(f.list)| then l else |DataBlocks(f.list)|)
    && CanGrowTo(h, BlocksFor(ofst + |data|, blockSize), blockSize)
  }

  lemma UnderwayWrote(f: File, g: File, h: File, total: nat, blockSize: nat, l: nat, ofst: nat, data: seq<byte>)
    requires Underway(f, g, total, blockSize, l, ofst, data) && l < |DataBlocks(f.list)|
    requires FileReady(h, total, blockSize) && Placed(h.dev, h.groups, h.free) && Evolved(g, h) && SameTail(g, h)
    requires h.list == g.list && DataBlocks(g.list)[l] < |g.dev|
    requires h.dev == g.dev[DataBlocks(g.list)[l] := Patch(StartOf(l, blockSize), ofst, data, g.dev[DataBlocks(g.list)[l]])]
    ensures Underway(f, h, total, blockSize, l + 1, ofst, data)
  {
    hide Dense, DataBlocks, Foot, TreeReady, ReadTree, IsBitmap, Evolved, TailOf, CanTake, NodeOk, FileReady, Placed, WrittenTo, Patch;
    EvolvedTwice(f, g, h);
    ReadyBlocks(f, total, blockSize);
    ReadyBlocks(g, total, blockSize);
    OneMoreWritten(f.dev, DataBlocks(f.list), g.dev, DataBlocks(g.list), blockSize, l, ofst, data,
                   Patch(StartOf(l, blockSize), ofst, data, g.dev[DataBlocks(g.list)[l]]));
  }

  lemma UnderwayGrew(f: File, g: File, m: File, h: File, total: nat, blockSize: nat, l: nat, ofst: nat, data: seq<byte>, new_: nat)
    requires Underway(f, g, total, blockSize, l, ofst, data) && l >= |DataBlocks(f.list)|
    requires FileReady(m, total, blockSize) && Evolved(g, m) && DataBlocks(m.list) == DataBlocks(g.list) + [new_]
    requires CanGrowTo(m, BlocksFor(ofst + |data|, blockSize), blockSize)
    requires forall k | 0 <= k < |DataBlocks(g.list)| :: DataBlocks(g.list)[k] < |g.dev| && DataBlocks(g.list)[k] < |m.dev|
    requires forall k | 0 <= k < |DataBlocks(g.list)| :: m.dev[DataBlocks(g.list)[k]] == g.dev[DataBlocks(g.list)[k]]
    requires FileReady(h, total, blockSize) && Placed(h.dev, h.groups, h.free) && Evolved(m, h) && SameTail(m, h)
    requires h.list == m.list && new_ < |m.dev|
    requires h.dev == m.dev[new_ := Patch(StartOf(l, blockSize), ofst, data, m.dev[new_])]
    ensures Underway(f, h, total, blockSize, l + 1, ofst, data)
  {
    hide Dense, DataBlocks, Foot, TreeReady, ReadTree, IsBitmap, Evolved, TailOf, CanTake, NodeOk, FileReady, Placed, WrittenTo, Patch;
    EvolvedTwice(f, g, m);
    EvolvedTwice(f, m, h);
    ReadyBlocks(f, total, blockSize);
    ReadyBlocks(g, total, blockSize);
    ReadyBlocks(m, total, blockSize);
    var p, q := DataBlocks(g.list), DataBlocks(m.list);
    assert q[..l] == p;
    WrittenKept(f.dev, DataBlocks(f.list), g.dev, m.dev, p, blockSize, l, ofst, data);
    NewWritten(f.dev, DataBlocks(f.list), m.dev, q, blockSize, l, ofst, data, Patch(StartOf(l, blockSize), ofst, data, m.dev[new_]));
  }

  lemma Started(f: File, total: nat, blockSize: nat, size: nat, ofst: nat, data: seq<byte>, first: nat)
    requires blockSize > 0 && CanWrite(f, total, blockSize, size, ofst, |data|) && first == ofst / blockSize
    ensures first <= |DataBlocks(f.list)| && Underway(f, f, total, blockSize, first, ofst, data)
  {
    hide Dense, DataBlocks, Foot, TreeReady, ReadTree, IsBitmap, TailOf, CanTake, NodeOk, WrittenTo, Patch, BlocksFor;
    SnapEvolves(f);
    DivMod(ofst, blockSize);
    MulMono(|DataBlocks(f.list)| + 1, first, blockSize);
    assert (|DataBlocks(f.list)| + 1) * blockSize == |DataBlocks(f.list)| * blockSize + blockSize;
    NothingWritten(f.dev, DataBlocks(f.list), blockSize, first, data);
  }

  lemma UnderwayParts(f: File, h: File, total: nat, blockSize: nat, l: nat, ofst: nat, data: seq<byte>)
    requires Underway(f, h, total, blockSize, l, ofst, data)
    ensures FileReady(f, total, blockSize) && FileReady(h, total, blockSize) && Placed(h.dev, h.groups, h.free) && Evolved(f, h)
    ensures |DataBlocks(h.list)| == if l > |DataBlocks(f.list)| then l else |DataBlocks(f.list)|
    ensures CanGrowTo(h, BlocksFor(ofst + |data|, blockSize), blockSize)
    ensures DataBlocks(f.list) <= DataBlocks(h.list) && OnDev(h.dev, DataBlocks(h.list), blockSize)
  {
    hide Dense, DataBlocks, Foot, TreeReady, ReadTree, IsBitmap, Evolved, TailOf, CanTake, NodeOk, Placed, Patch;
  }

  /** The loop of WriteFileAt. */
  method WriteBlocks(fs: FileSystem, inode: Inode, extents: seq<Extent>, buf: seq<byte>, start: nat, ghost size: nat)
    returns (ok: bool, ghost list: seq<Extent>)
    requires fs.Valid() && fs.blockSize >= 1024 && inode.iBlock.Length == I_BLOCK && inode.usesExtents && buf != []
    requires CanWrite(Snap(fs, inode, extents), fs.Total(), fs.blockSize, size, start, |buf|)
    modifies fs, inode.iBlock
    ensures fs.Valid() && fs.Total() == old(fs.Total())
    ensures Evolved(old(Snap(fs, inode, extents)), Snap(fs, inode, list))
    ensures ok ==> Underway(old(Snap(fs, inode, extents)), Snap(fs, inode, list), fs.Total(), fs.blockSize,
                            BlocksFor(start + |buf|, fs.blockSize), start, buf)
    ensures !ok ==> fs.FreeSet() == {}
  {
    hide ReadTree, LastLeaf, DecodeHeader, Depth, LeafOk, IsBitmap, Dense, DataBlocks, NodeOk, TailOf, TreeReady, Foot,
         Consistent, FreeBlocks, FileReady, Evolved, Patch, Placed, Underway, BlocksFor, FindPhysicalBlock, OnDev, FileSystem.Valid;
    ghost var f, total, bs := Snap(fs, inode, extents), fs.Total(), fs.blockSize;
    Started(f, total, bs, size, start, buf, start / bs);
    var end := start + |buf|;
    WriteRange(start, end, bs);
    var logicalBlock, lastBlock := start / fs.blockSize, (end - 1) / fs.blockSize;
    list := extents;
    while logicalBlock <= lastBlock
      invariant start / fs.blockSize <= logicalBlock <= lastBlock + 1
      invariant fs.Valid() && fs.Total() == total
      invariant Underway(f, Snap(fs, inode, list), total, bs, logicalBlock, start, buf)
    {
      ghost var g := Snap(fs, inode, list);
      UnderwayParts(f, g, total, bs, logicalBlock, start, buf);
      ReadyBlocks(f, total, bs);
      DenseFind(extents, logicalBlock);
      var found := FindPhysicalBlock(extents, logicalBlock);
      var physBlock: nat;
      if found.Some? {
        physBlock := found.value;
        WriteOne(fs, inode, buf, start, logicalBlock, physBlock, list);
        UnderwayWrote(f, g, Snap(fs, inode, list), total, bs, logicalBlock, start, buf);
      } else {
        ghost var list1;
        ok, physBlock, list1 := GrowFile(fs, inode, logicalBlock, list, BlocksFor(end, bs));
        ghost var m := Snap(fs, inode, list1);
        EvolvedTwice(f, g, m);
        if !ok {
          list := list1;
          return;
        }
        ReadyBlocks(g, total, bs);
        ReadyBlocks(m, total, bs);
        OnBoth(g.dev, m.dev, DataBlocks(g.list), DataBlocks(m.list), physBlock, bs);
        list := list1;
        WriteOne(fs, inode, buf, start, logicalBlock, physBlock, list);
        UnderwayGrew(f, g, m, Snap(fs, inode, list), total, bs, logicalBlock, start, buf, physBlock);
      }
      logicalBlock := logicalBlock + 1;
    }
    UnderwayParts(f, Snap(fs, inode, list), total, bs, logicalBlock, start, buf);
    ok := true;
  }

  lemma OnBoth(dev: seq<seq<byte>>, dev1: seq<seq<byte>>, p: seq<nat>, q: seq<nat>, new_: nat, blockSize: nat)
    requires OnDev(dev, p, blockSize) && OnDev(dev1, q, blockSize) && q == p + [new_]
    ensures new_ < |dev1| && forall k | 0 <= k < |p| :: p[k] < |dev| && p[k] < |dev1|
  {
    assert q[|p|] == new_;
    assert forall k | 0 <= k < |p| :: q[k] == p[k];
  }

  // ----- WriteFileAt and what a read sees afterwards -----

  /** The bytes of a file as its size and extents give them. */
  ghost function FileBytes(f: File, size: nat, blockSize: nat): seq<byte>
    requires OnDev(f.dev, DataBlocks(f.list), blockSize) && size <= |DataBlocks(f.list)| * blockSize
  {
    Contents(f.dev, DataBlocks(f.list), blockSize, size)
  }

  /** The result of a whole write. */
  ghost predicate Wrote(f: File, h: File, total: nat, blockSize: nat, size: nat, size1: nat, ofst: nat, data: seq<byte>) {
    && FileReady(h, total, blockSize) && Placed(h.dev, h.groups, h.free)
    && ofst <= size <= |DataBlocks(f.list)| * blockSize && OnDev(f.dev, DataBlocks(f.list), blockSize)
    && size1 == (if ofst + |data| > size then ofst + |data| else size) && size1 <= |DataBlocks(h.list)| * blockSize
    && FileBytes(h, size1, blockSize) == Overlay(FileBytes(f, size, blockSize), ofst, data)
  }

  lemma UnderwayDone(f: File, h: File, total: nat, blockSize: nat, size: nat, ofst: nat, data: seq<byte>)
    requires data != [] && blockSize > 0 && ofst <= size <= |DataBlocks(f.list)| * blockSize && ofst % blockSize == 0
    requires Underway(f, h, total, blockSize, BlocksFor(ofst + |data|, blockSize), ofst, data)
    ensures Wrote(f, h, total, blockSize, size, if ofst + |data| > size then ofst + |data| else size, ofst, data)
  {
    hide Dense, DataBlocks, Foot, TreeReady, ReadTree, IsBitmap, Evolved, TailOf, CanTake, NodeOk, Placed, Patch, WrittenTo, Contents, Overlay, BlocksFor;
    WriteRange(ofst, ofst + |data|, blockSize);
    WrittenContents(f.dev, DataBlocks(f.list), h.dev, DataBlocks(h.list), blockSize, BlocksFor(ofst + |data|, blockSize), ofst, data, size);
  }

  /**
   WriteFileAt at a block-aligned offset inside a dense file: the file's bytes become the
   overlay, and no block in use elsewhere changes. It fails only when the volume is full.
   */
  method WriteFileAt(fs: FileSystem, inode: Inode, buf: seq<byte>, ofst: int) returns (n: nat, ok: bool, ghost list: seq<Extent>)
    requires fs.Valid() && fs.blockSize >= 1024 && inode.iBlock.Length == I_BLOCK
    requires Proceeds(fs, inode, buf, ofst) ==>
               CanWrite(Snap(fs, inode, ReadTree(fs.dev, inode.iBlock[..]).value), fs.Total(), fs.blockSize, inode.Size(), ofst, |buf|)
    modifies fs, inode, inode.iBlock
    ensures fs.Valid()
    ensures !old(Proceeds(fs, inode, buf, ofst)) ==>
              n == 0 && (ok <==> inode.IsRegular() && inode.usesExtents && buf == [])
              && unchanged(fs) && unchanged(inode) && inode.iBlock[..] == old(inode.iBlock[..])
    ensures old(Proceeds(fs, inode, buf, ofst)) ==>
              Evolved(old(Snap(fs, inode, ReadTree(fs.dev, inode.iBlock[..]).value)), Snap(fs, inode, list))
    ensures old(Proceeds(fs, inode, buf, ofst)) && ok ==>
              n == |buf| && Wrote(old(Snap(fs, inode, ReadTree(fs.dev, inode.iBlock[..]).value)), Snap(fs, inode, list), fs.Total(), fs.blockSize,
                                  old(inode.Size()), inode.Size(), ofst, buf)
    ensures old(Proceeds(fs, inode, buf, ofst)) && !ok ==> n == 0 && fs.FreeSet() == {} && inode.Size() == old(inode.Size())
    ensures if ok && buf != [] && ofst + |buf| > old(inode.Size()) then SectorsFor(inode.Sectors(), ofst + |buf|, fs.blockSize, old(inode.blocksHigh))
            else inode.Sectors() == old(inode.Sectors())
  {
    hide ReadTree, LastLeaf, DecodeHeader, Depth, LeafOk, IsBitmap, Dense, DataBlocks, NodeOk, TailOf, TreeReady, Foot,
         Consistent, FreeBlocks, FileReady, Evolved, Patch, Placed, Underway, BlocksFor, OnDev, Wrote, FileSystem.Valid, SectorsFor;
    list := [];
    if !inode.IsRegular() || !inode.usesExtents {
      return 0, false, list;
    }
    if buf == [] {
      return 0, true, list;
    }
    var fileSize := inode.Size();
    if ofst < 0 {
      return 0, false, list;
    }
    var read := ParseExtentNode(fs.dev, inode.iBlock[..]);
    if read.None? {
      return 0, false, list;
    }
    ghost var f := Snap(fs, inode, read.value);
    var end := ofst + |buf|;
    ok, list := WriteBlocks(fs, inode, read.value, buf, ofst, fileSize);
    if !ok {
      return 0, false, list;
    }
    UnderwayDone(f, Snap(fs, inode, list), fs.Total(), fs.blockSize, fileSize, ofst, buf);
    if end > fileSize {
      SetSize(inode, end, fs.blockSize);
    }
    n := |buf|;
  }

  /** The checks before WriteFileAt starts to write. */
  ghost predicate Proceeds(fs: FileSystem, inode: Inode, buf: seq<byte>, ofst: int)
    reads fs, inode, inode.iBlock
  {
    inode.IsRegular() && inode.usesExtents && buf != [] && ofst >= 0 && ReadTree(fs.dev, inode.iBlock[..]).Some?
  }

  lemma {:induction false} DensePlaces(list: seq<Extent>)
    requires Dense(list)
    ensures |Places(list)| == |DataBlocks(list)|
    ensures forall k | 0 <= k < |Places(list)| :: Places(list)[k] == Some(DataBlocks(list)[k])
  {
    hide Extent.Count, Extent.Phys, Extent.Uninit, PlacesOf, Span;
    if list != [] {
      var first, last := list[..|list| - 1], list[|list| - 1];
      DensePlaces(first);
      SamePlace(Places(first), DataBlocks(first), PlacesOf(last), Span(last.Phys(), last.Count()));
    }
  }

  lemma SamePlace(a: seq<Option<nat>>, b: seq<nat>, c: seq<Option<nat>>, d: seq<nat>)
    requires |a| == |b| && |c| == |d|
    requires (forall k | 0 <= k < |a| :: a[k] == Some(b[k])) && forall k | 0 <= k < |c| :: c[k] == Some(d[k])
    ensures forall k | 0 <= k < |a + c| :: (a + c)[k] == Some((b + d)[k])
  {
  }

  /** Counting extents by position, as ReadFileAt does, finds the file's bytes when the list is dense. */
  lemma DenseReads(f: File, blockSize: nat, size: nat, i: nat)
    requires Dense(f.list) && OnDev(f.dev, DataBlocks(f.list), blockSize) && i < size <= |DataBlocks(f.list)| * blockSize
    ensures Readable(f.dev, Places(f.list), blockSize)
    ensures SeenAt(f.dev, Places(f.list), blockSize, i) == FileBytes(f, size, blockSize)[i]
  {
    hide Dense, DataBlocks, Places;
    DensePlaces(f.list);
    ContentsAt(f.dev, DataBlocks(f.list), blockSize, size, i);
  }

  /** The bytes of the inode's file, as far as its blocks are on the device. */
  ghost function BytesOf(fs: FileSystem, inode: Inode): seq<byte>
    requires fs.Valid()
    reads fs, inode, inode.iBlock
  {
    if ReadTree(fs.dev, inode.iBlock[..]).None? then []
    else
      var f := Snap(fs, inode, ReadTree(fs.dev, inode.iBlock[..]).value);
      if OnDev(f.dev, DataBlocks(f.list), fs.blockSize) && inode.Size() <= |DataBlocks(f.list)| * fs.blockSize
      then FileBytes(f, inode.Size(), fs.blockSize) else []
  }

  /** What ReadFileAt sees of a dense file is its bytes. */
  lemma DenseSeen(f: File, blockSize: nat, size: nat)
    requires Dense(f.list) && OnDev(f.dev, DataBlocks(f.list), blockSize) && size <= |DataBlocks(f.list)| * blockSize
    ensures Readable(f.dev, Places(f.list), blockSize)
    ensures forall i | 0 <= i < size :: SeenAt(f.dev, Places(f.list), blockSize, i) == FileBytes(f, size, blockSize)[i]
  {
    hide Dense, DataBlocks, Places, SeenAt, Readable, Contents;
    DensePlaces(f.list);
    PlacesReadable(f, blockSize);
    forall i | 0 <= i < size ensures SeenAt(f.dev, Places(f.list), blockSize, i) == FileBytes(f, size, blockSize)[i] {
      DenseReads(f, blockSize, size, i);
    }
  }

  lemma PlacesReadable(f: File, blockSize: nat)
    requires |Places(f.list)| == |DataBlocks(f.list)| && OnDev(f.dev, DataBlocks(f.list), blockSize)
    requires forall k | 0 <= k < |Places(f.list)| :: Places(f.list)[k] == Some(DataBlocks(f.list)[k])
    ensures Readable(f.dev, Places(f.list), blockSize)
  {
    hide Places, DataBlocks;
  }

  /**
   WriteFileAt and then ReadFileAt at any offset into a buffer of any length: the old bytes overlaid
   with the data, cut at the end of the file.
   */
  method WriteThenRead(fs: FileSystem, inode: Inode, data: seq<byte>, ofst: int, out: array<byte>, at: int)
    returns (ok: bool, n: nat)
    requires fs.Valid() && fs.blockSize >= 1024 && inode.iBlock.Length == I_BLOCK && out != inode.iBlock
    requires Proceeds(fs, inode, data, ofst)
    requires CanWrite(Snap(fs, inode, ReadTree(fs.dev, inode.iBlock[..]).value), fs.Total(), fs.blockSize, inode.Size(), ofst, |data|)
    modifies fs, inode, inode.iBlock, out
    ensures fs.Valid() && (!ok ==> fs.FreeSet() == {} && out[..] == old(out[..]))
    ensures ok ==> ofst <= |old(BytesOf(fs, inode))| && BytesOf(fs, inode) == Overlay(old(BytesOf(fs, inode)), ofst, data)
    ensures ok ==>
              var s := BytesOf(fs, inode);
              && |s| == inode.Size()
              && n == (if at < 0 || at >= |s| then 0 else if at + out.Length > |s| then |s| - at else out.Length)
              && (forall k | 0 <= k < n :: out[k] == s[at + k])
              && forall k | n <= k < out.Length :: out[k] == old(out[k])
  {
    hide ReadTree, IsBitmap, Dense, DataBlocks, TreeReady, TailOf, CanTake, Foot, Evolved, Placed, OnDev, SeenAt, Places, Readable,
         FileSystem.Valid, Contents, Overlay;
    ghost var list;
    n, ok, list := WriteFileAt(fs, inode, data, ofst);
    if !ok {
      return false, 0;
    }
    ghost var h := Snap(fs, inode, list);
    ReadyReads(h, fs.Total(), fs.blockSize);
    DenseSeen(h, fs.blockSize, inode.Size());
    var read := ParseExtentNode(fs.dev, inode.iBlock[..]);
    n := ReadFileAt(fs.dev, fs.blockSize, read.value, inode.Size(), out, at);
  }

  lemma ReadyReads(f: File, total: nat, blockSize: nat)
    requires FileReady(f, total, blockSize)
    ensures Dense(f.list) && OnDev(f.dev, DataBlocks(f.list), blockSize) && ReadTree(f.dev, f.tree) == Some(f.list)
  {
    hide ReadTree, IsBitmap, Dense, DataBlocks, TreeReady, Foot;
    ReadyBlocks(f, total, blockSize);
  }

  /** Two files of one volume with no block in common. */
  ghost predicate Separate(f: File, other: File) {
    && other.dev == f.dev && other.groups == f.groups && other.free == f.free
    && forall b: nat | b in DataBlocks(other.list) || b in Foot(other.dev, other.tree) ::
         b !in DataBlocks(f.list) && b !in Foot(f.dev, f.tree)
  }

  /** Whatever a write did to one file, the other is as ready as before and holds the same bytes. */
  lemma OtherFileKept(f: File, h: File, other: File, total: nat, blockSize: nat, size: nat)
    requires FileReady(other, total, blockSize) && Separate(f, other) && Evolved(f, h)
    requires forall b | 0 <= b < |h.dev| :: |h.dev[b]| == blockSize
    requires size <= |DataBlocks(other.list)| * blockSize
    ensures var after := File(h.dev, h.groups, h.free, other.tree, other.list);
            FileReady(after, total, blockSize) && Separate(h, after)
            && FileBytes(after, size, blockSize) == FileBytes(other, size, blockSize)
  {
    hide ReadTree, LastLeaf, DecodeHeader, Depth, LeafOk, IsBitmap, Dense, DataBlocks, NodeOk, TailOf, Foot, Contents, ByteAt;
    var after := File(h.dev, h.groups, h.free, other.tree, other.list);
    var p := DataBlocks(other.list);
    assert AgreeOn(f.dev, h.dev, Foot(other.dev, other.tree)) by {
      forall b: nat | b in Foot(other.dev, other.tree) && b < |f.dev| ensures h.dev[b] == f.dev[b] {
        assert Foreign(f, b);
      }
    }
    TreeKept(other.dev, h.dev, other.groups, h.groups, other.free, h.free, other.tree, blockSize);
    FewerFree(p, other.free, h.free, total);
    SameBitmaps(f.groups, h.groups);
    forall k | 0 <= k < |p| ensures h.dev[p[k]] == f.dev[p[k]] {
      assert Foreign(f, p[k]);
    }
    SameBytes(other.dev, h.dev, p, blockSize, size);
  }

  lemma SameBytes(dev: seq<seq<byte>>, dev1: seq<seq<byte>>, p: seq<nat>, blockSize: nat, size: nat)
    requires OnDev(dev, p, blockSize) && OnDev(dev1, p, blockSize) && size <= |p| * blockSize
    requires forall k | 0 <= k < |p| :: dev1[p[k]] == dev[p[k]]
    ensures Contents(dev1, p, blockSize, size) == Contents(dev, p, blockSize, size)
  {
    hide Contents;
    forall i | 0 <= i < size ensures Contents(dev1, p, blockSize, size)[i] == Contents(dev, p, blockSize, size)[i] {
      ContentsAt(dev, p, blockSize, size, i);
      ContentsAt(dev1, p, blockSize, size, i);
    }
  }

  /** The bounds of the slice of the buffer WriteFileAt takes for its first block, as 64-bit numbers. */
  function FirstSlice(start: nat, len: nat, blockSize: nat): (int, int)
    requires blockSize > 0
  {
    var blockStart := (start / blockSize) * blockSize;
    var readStart := if start > blockStart then start - blockStart else 0;
    var readEnd := if start + len < blockStart + blockSize then start + len - blockStart else blockSize;
    var lo := (blockStart - start) % 0x1_0000_0000_0000_0000;
    (lo, (lo + (readEnd - readStart)) % 0x1_0000_0000_0000_0000)
  }

  /** The slice is within the buffer exactly for a block-aligned offset; otherwise the program stops there. */
  lemma FirstSliceInside(start: nat, len: nat, blockSize: nat)
    requires 0 < blockSize < 0x1_0000_0000 && 0 < len && start + len < 0x8000_0000_0000_0000
    ensures var (lo, hi) := FirstSlice(start, len, blockSize); 0 <= lo <= hi <= len <==> start % blockSize == 0
  {
    var m := start % blockSize;
    DivMod(start, blockSize);
    var blockStart := (start / blockSize) * blockSize;
    assert start - blockStart == m;
    if m > 0 {
      var lo := (-m) % 0x1_0000_0000_0000_0000;
      assert lo == 0x1_0000_0000_0000_0000 - m;
    }
  }
}
