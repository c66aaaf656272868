/** Directories as lists of entries: ReadDir, Lookup, AddDirEntry, RemoveDirEntry (vfs/directory.go, vfs/dirent.go). */
module Ext4Dirs {
  import opened Wrappers
  import opened Bytes
  import opened Arith
  import opened Ext4Types
  import opened Ext4Alloc
  import opened Ext4Fs
  import opened Ext4Tree
  import opened Ext4Grow
  import opened Ext4Truncate
  import opened Ext4Files
  import opened Dirents

  // ----- listings -----

  ghost predicate AllTiled(dev: seq<seq<byte>>, p: seq<nat>) {
    forall k | 0 <= k < |p| :: p[k] < |dev| && Tiled(dev[p[k]])
  }

  /** The entries of the blocks p, one block after another. */
  ghost function Listing(dev: seq<seq<byte>>, p: seq<nat>): seq<DirEntry>
    requires AllTiled(dev, p)
  {
    if p == [] then [] else Listing(dev, p[..|p| - 1]) + Entries(dev[p[|p| - 1]])
  }

  /** A directory without holes whose blocks are all tiled. */
  ghost predicate DirReady(f: File, total: nat, blockSize: nat) {
    && FileReady(f, total, blockSize) && AllTiled(f.dev, DataBlocks(f.list)) && blockSize % 4 == 0 && 1024 <= blockSize < 0x1_0000
  }

  lemma {:induction false} ListingConcat(dev: seq<seq<byte>>, p: seq<nat>, q: seq<nat>)
    requires AllTiled(dev, p) && AllTiled(dev, q)
    ensures AllTiled(dev, p + q) && Listing(dev, p + q) == Listing(dev, p) + Listing(dev, q)
  {
    hide Tiled, Entries;
    if q == [] {
      assert p + q == p;
    } else {
      assert (p + q)[..|p + q| - 1] == p + q[..|q| - 1];
      ListingConcat(dev, p, q[..|q| - 1]);
    }
  }

  lemma {:induction false} ListingFrame(dev: seq<seq<byte>>, dev1: seq<seq<byte>>, p: seq<nat>)
    requires AllTiled(dev, p) && |dev1| == |dev| && forall k | 0 <= k < |p| :: dev1[p[k]] == dev[p[k]]
    ensures AllTiled(dev1, p) && Listing(dev1, p) == Listing(dev, p)
  {
    hide Tiled, Entries;
    if p != [] {
      ListingFrame(dev, dev1, p[..|p| - 1]);
    }
  }

  lemma ListingOne(dev: seq<seq<byte>>, b: nat)
    requires b < |dev| && Tiled(dev[b])
    ensures AllTiled(dev, [b]) && Listing(dev, [b]) == Entries(dev[b])
  {
    hide Tiled, Entries;
    assert [b][..0] == [];
    assert Listing(dev, [b]) == Listing(dev, []) + Entries(dev[b]);
  }

  /** The listing around block k. */
  lemma ListingSplit(dev: seq<seq<byte>>, p: seq<nat>, k: nat)
    requires AllTiled(dev, p) && k < |p|
    ensures AllTiled(dev, p[..k]) && AllTiled(dev, p[k + 1..])
    ensures Listing(dev, p) == Listing(dev, p[..k]) + Entries(dev[p[k]]) + Listing(dev, p[k + 1..])
  {
    hide Tiled, Entries;
    ListingOne(dev, p[k]);
    ListingConcat(dev, p[..k], [p[k]]);
    assert p == (p[..k] + [p[k]]) + p[k + 1..];
    ListingConcat(dev, p[..k] + [p[k]], p[k + 1..]);
  }

  /** Rewriting block k rewrites its part of the listing. */
  lemma ListingUpdate(dev: seq<seq<byte>>, p: seq<nat>, k: nat, b: seq<byte>)
    requires AllTiled(dev, p) && k < |p| && Tiled(b) && forall i, j | 0 <= i < j < |p| :: p[i] != p[j]
    ensures AllTiled(dev[p[k] := b], p) && AllTiled(dev, p[..k]) && AllTiled(dev, p[k + 1..])
    ensures Listing(dev[p[k] := b], p) == Listing(dev, p[..k]) + Entries(b) + Listing(dev, p[k + 1..])
  {
    hide Tiled, Entries, Listing;
    var dev1 := dev[p[k] := b];
    forall i | 0 <= i < |p| ensures dev1[p[i]] == if i == k then b else dev[p[i]] {
      if i < k { assert p[i] != p[k]; } else if k < i { assert p[k] != p[i]; }
    }
    ListingSplit(dev, p, k);
    ListingSplit(dev1, p, k);
    ListingFrame(dev, dev1, p[..k]);
    ListingFrame(dev, dev1, p[k + 1..]);
  }

  lemma InsertedInside(a: seq<DirEntry>, l1: seq<DirEntry>, l: seq<DirEntry>, c: seq<DirEntry>, at: nat, new_: seq<DirEntry>)
    requires Inserted(l1, l, at, new_)
    ensures Inserted(a + l1 + c, a + l + c, |a| + at, new_)
  {
    var s := a + l + c;
    assert s[..|a| + at] == a + l[..at];
    assert s[|a| + at..] == l[at..] + c;
    assert a + (l[..at] + new_ + l[at..]) + c == (a + l[..at]) + new_ + (l[at..] + c);
  }

  lemma RemovedInside(a: seq<DirEntry>, l1: seq<DirEntry>, l: seq<DirEntry>, c: seq<DirEntry>, at: nat, name: seq<byte>)
    requires RemovedFrom(l1, l, at, name) && !Names(a, name)
    ensures RemovedFrom(a + l1 + c, a + l + c, |a| + at, name)
  {
    var s := a + l + c;
    assert s[|a| + at] == l[at];
    assert s[..|a| + at] == a + l[..at];
    assert s[|a| + at + 1..] == l[at + 1..] + c;
    assert a + (l[..at] + l[at + 1..]) + c == (a + l[..at]) + (l[at + 1..] + c);
    forall i | 0 <= i < |a| + at ensures s[i].name != name {
      if i < |a| { assert s[i] == a[i]; } else { assert s[i] == l[i - |a|]; }
    }
  }

  // ----- names -----

  ghost predicate Distinct(list: seq<DirEntry>) {
    forall i, j | 0 <= i < j < |list| :: list[i].name != list[j].name
  }

  /** The name a reader sees: the length byte keeps the length modulo 256. */
  function Stored(name: seq<byte>): seq<byte> {
    name[..|name| % 256]
  }

  /** Adding an entry keeps names distinct if and only if it is invisible or its name as stored is new. */
  lemma AddDistinctIff(list1: seq<DirEntry>, list: seq<DirEntry>, at: nat, inode: u32, fileType: byte, name: seq<byte>)
    requires Inserted(list1, list, at, NewEntry(inode, fileType, name)) && Distinct(list)
    ensures Distinct(list1) <==> inode == 0 || |name| % 256 == 0 || !Names(list, Stored(name))
  {
    var new_ := NewEntry(inode, fileType, name);
    var m := |new_|;
    if m == 0 {
      assert list1 == list;
    } else {
      assert forall i | 0 <= i < |list1| :: list1[i] == if i < at then list[i] else if i == at then new_[0] else list[i - 1];
      if k :| 0 <= k < |list| && list[k].name == Stored(name) {
        assert list1[if k < at then k else k + 1].name == list1[at].name;
      }
    }
  }

  /** Adding an absent name of at most 255 bytes keeps names distinct. */
  lemma AddKeepsDistinct(list1: seq<DirEntry>, list: seq<DirEntry>, at: nat, inode: u32, fileType: byte, name: seq<byte>)
    requires Inserted(list1, list, at, NewEntry(inode, fileType, name)) && Distinct(list) && !Names(list, name) && |name| < 256
    ensures Distinct(list1)
  {
    assert Stored(name) == name;
    AddDistinctIff(list1, list, at, inode, fileType, name);
  }

  /** An absent name of more than 255 bytes can repeat a name the directory has. */
  lemma LongNameCollides(list1: seq<DirEntry>, list: seq<DirEntry>, at: nat, inode: u32, fileType: byte, name: seq<byte>)
    requires Inserted(list1, list, at, NewEntry(inode, fileType, name)) && Distinct(list) && !Names(list, name)
    ensures !Distinct(list1) <==> inode != 0 && |name| % 256 > 0 && Names(list, Stored(name))
    ensures !Distinct(list1) ==> |name| > 255
  {
    AddDistinctIff(list1, list, at, inode, fileType, name);
    assert |name| < 256 ==> Stored(name) == name;
  }

  lemma RemoveKeepsDistinct(list1: seq<DirEntry>, list: seq<DirEntry>, at: nat, name: seq<byte>)
    requires RemovedFrom(list1, list, at, name) && Distinct(list)
    ensures Distinct(list1) && !Names(list1, name)
  {
    forall i | 0 <= i < |list1| ensures list1[i] == if i < at then list[i] else list[i + 1] {
    }
  }

  // ----- running over the blocks -----

  lemma {:induction false} DataPrefix(list: seq<Extent>, j: nat)
    requires j <= |list|
    ensures DataBlocks(list[..j]) <= DataBlocks(list)
    ensures j < |list| ==> DataBlocks(list[..j + 1]) == DataBlocks(list[..j]) + Span(list[j].Phys(), list[j].Count())
    ensures j < |list| ==> DataBlocks(list[..j + 1]) <= DataBlocks(list)
    decreases |list|, |list| - j
  {
    hide Extent.Phys, Extent.Count, DataBlocks;
    if j == |list| {
      assert list[..j] == list;
    } else {
      DataPrefix(list, j + 1);
      assert list[..j + 1] == list[..j] + [list[j]];
      DataSnoc(list[..j], list[j]);
    }
  }

  /** Block i of extent j is the directory's block number |DataBlocks(list[..j])| + i. */
  lemma BlockOf(list: seq<Extent>, j: nat, i: nat)
    requires j < |list| && i < list[j].Count()
    ensures var k := |DataBlocks(list[..j])| + i;
            && k < |DataBlocks(list)| && DataBlocks(list)[k] == list[j].Phys() + i
  {
    hide Extent.Phys, Extent.Count, DataBlocks;
    DataPrefix(list, j);
    var p := DataBlocks(list[..j + 1]);
    assert p[|DataBlocks(list[..j])| + i] == Span(list[j].Phys(), list[j].Count())[i];
  }

  lemma ExtentDone(list: seq<Extent>, j: nat)
    requires j < |list|
    ensures |DataBlocks(list[..j + 1])| == |DataBlocks(list[..j])| + list[j].Count()
  {
    DataPrefix(list, j);
  }

  lemma {:induction false} DenseInit(list: seq<Extent>, j: nat)
    requires Dense(list) && j < |list|
    ensures !list[j].Uninit() && list[j].len == list[j].Count()
  {
    if j < |list| - 1 {
      DenseInit(list[..|list| - 1], j);
    }
  }

  lemma ListingNext(dev: seq<seq<byte>>, p: seq<nat>, k: nat)
    requires AllTiled(dev, p) && k < |p|
    ensures AllTiled(dev, p[..k]) && AllTiled(dev, p[..k + 1]) && p[k] < |dev| && Tiled(dev[p[k]])
    ensures Listing(dev, p[..k + 1]) == Listing(dev, p[..k]) + Entries(dev[p[k]])
  {
    hide Tiled, Entries, Listing, AllTiled;
    PartTiled(dev, p, k);
    PartTiled(dev, p, k + 1);
    TiledAt(dev, p, k);
    ListingOne(dev, p[k]);
    ListingConcat(dev, p[..k], [p[k]]);
    assert p[..k + 1] == p[..k] + [p[k]];
  }

  lemma TiledAt(dev: seq<seq<byte>>, p: seq<nat>, k: nat)
    requires AllTiled(dev, p) && k < |p|
    ensures p[k] < |dev| && Tiled(dev[p[k]])
  {
  }

  lemma PartTiled(dev: seq<seq<byte>>, p: seq<nat>, k: nat)
    requires AllTiled(dev, p) && k <= |p|
    ensures AllTiled(dev, p[..k])
  {
    hide Tiled;
    assert forall i | 0 <= i < k :: p[..k][i] == p[i];
  }

  lemma TiledParses(b: seq<byte>)
    requires Tiled(b)
    ensures Parse(b, 0) == Some(Entries(b))
  {
    ParseTiled(b, 0);
  }

  /** The blocks ReadDir reads: all sixteen bits of an extent's length count. */
  function Scan(list: seq<Extent>): seq<nat> {
    if list == [] then [] else Scan(list[..|list| - 1]) + Span(list[|list| - 1].Phys(), list[|list| - 1].len)
  }

  /** The entries of the blocks, or none if a block is not on the device or does not parse. */
  function ParseBlocks(dev: seq<seq<byte>>, p: seq<nat>): Option<seq<DirEntry>> {
    if p == [] then Some([])
    else
      var b := p[|p| - 1];
      match (ParseBlocks(dev, p[..|p| - 1]), if b < |dev| then Parse(dev[b], 0) else None)
      case (Some(s), Some(t)) => Some(s + t)
      case _ => None
  }

  lemma ParseNext(dev: seq<seq<byte>>, p: seq<nat>, b: nat)
    ensures ParseBlocks(dev, p + [b]) ==
            if ParseBlocks(dev, p).None? || b >= |dev| || Parse(dev[b], 0).None? then None
            else Some(ParseBlocks(dev, p).value + Parse(dev[b], 0).value)
  {
    hide Parse;
    assert (p + [b])[..|p|] == p;
  }

  lemma {:induction false} NonePrefix(dev: seq<seq<byte>>, p: seq<nat>, q: seq<nat>)
    requires ParseBlocks(dev, p).None?
    ensures ParseBlocks(dev, p + q).None?
  {
    hide ParseBlocks, Parse;
    if q == [] {
      assert p + q == p;
    } else {
      NonePrefix(dev, p, q[..|q| - 1]);
      assert p + q == (p + q[..|q| - 1]) + [q[|q| - 1]];
      ParseNext(dev, p + q[..|q| - 1], q[|q| - 1]);
    }
  }

  lemma {:induction false} ScanPrefix(list: seq<Extent>, j: nat) returns (rest: seq<nat>)
    requires j <= |list|
    ensures Scan(list) == Scan(list[..j]) + rest
  {
    hide Extent.Phys;
    if j == |list| {
      assert list[..j] == list;
      rest := [];
    } else {
      assert list[..|list| - 1][..j] == list[..j];
      var r := ScanPrefix(list[..|list| - 1], j);
      rest := r + Span(list[|list| - 1].Phys(), list[|list| - 1].len);
    }
  }

  lemma ScanNext(list: seq<Extent>, j: nat)
    requires j < |list|
    ensures Scan(list[..j + 1]) == Scan(list[..j]) + Span(list[j].Phys(), list[j].len)
  {
    assert list[..j + 1][..j] == list[..j];
  }

  /** A block that cannot be read, or does not parse, fails the whole directory. */
  lemma ScanFails(dev: seq<seq<byte>>, list: seq<Extent>, j: nat, i: nat)
    requires j < |list| && i < list[j].len && ParseBlocks(dev, Scan(list[..j]) + Span(list[j].Phys(), i + 1)).None?
    ensures ParseBlocks(dev, Scan(list)).None?
  {
    hide ParseBlocks, Scan, Extent.Phys;
    var e := list[j];
    ScanNext(list, j);
    var rest := ScanPrefix(list, j + 1);
    var a, b := Span(e.Phys(), i + 1), Span(e.Phys() + i + 1, e.len - i - 1);
    assert Span(e.Phys(), e.len) == a + b;
    assert Scan(list) == (Scan(list[..j]) + a) + (b + rest);
    NonePrefix(dev, Scan(list[..j]) + a, b + rest);
  }

  /** A directory without holes and with tiled blocks reads as its listing. */
  lemma ScanIsListing(dev: seq<seq<byte>>, list: seq<Extent>)
    requires Dense(list) && AllTiled(dev, DataBlocks(list))
    ensures ParseBlocks(dev, Scan(list)) == Some(Listing(dev, DataBlocks(list)))
  {
    hide DataBlocks, Tiled, Entries, Listing, Extent.Phys, Extent.Count, Extent.Uninit, ParseBlocks, Scan;
    DenseScan(list);
    ParseTiledBlocks(dev, DataBlocks(list));
  }

  lemma {:induction false} DenseScan(list: seq<Extent>)
    requires Dense(list)
    ensures Scan(list) == DataBlocks(list)
  {
    hide Extent.Phys, DataBlocks;
    NoData();
    if list != [] {
      DenseScan(list[..|list| - 1]);
      DataLast(list);
      DenseInit(list, |list| - 1);
    }
  }

  lemma {:induction false} ParseTiledBlocks(dev: seq<seq<byte>>, p: seq<nat>)
    requires AllTiled(dev, p)
    ensures ParseBlocks(dev, p) == Some(Listing(dev, p))
  {
    hide Tiled, Entries, Parse;
    if p != [] {
      ParseTiledBlocks(dev, p[..|p| - 1]);
      TiledParses(dev[p[|p| - 1]]);
    }
  }

  /** What ReadDir makes of an unindexed directory. */
  function DirEntries(dev: seq<seq<byte>>, tree: seq<byte>): Option<seq<DirEntry>> {
    if ReadTree(dev, tree).None? then None else ParseBlocks(dev, Scan(ReadTree(dev, tree).value))
  }

  /** ReadDir on an unindexed directory. */
  method ReadDir(dev: seq<seq<byte>>, inode: Inode) returns (r: Option<seq<DirEntry>>)
    ensures r == if inode.IsDir() then DirEntries(dev, inode.iBlock[..]) else None
  {
    hide ReadTree, Extent.Phys, ParseBlocks, Scan, Parse, Span;
    if !inode.IsDir() {
      return None;
    }
    var read := ParseExtentNode(dev, inode.iBlock[..]);
    if read.None? {
      return None;
    }
    var extents := read.value;
    var entries := [];
    NothingYet(dev, extents);
    for j := 0 to |extents|
      invariant ParseBlocks(dev, Scan(extents[..j])) == Some(entries)
    {
      var e := extents[j];
      ghost var before := Scan(extents[..j]);
      NoSpan(before, e.Phys());
      for i := 0 to e.len
        invariant ParseBlocks(dev, before + Span(e.Phys(), i)) == Some(entries)
      {
        SpanNext(before, e.Phys(), i);
        ParseNext(dev, before + Span(e.Phys(), i), e.Phys() + i);
        if e.Phys() + i >= |dev| {
          ScanFails(dev, extents, j, i);
          return None;
        }
        var blockEntries := ParseDirBlock(dev[e.Phys() + i]);
        if blockEntries.None? {
          ScanFails(dev, extents, j, i);
          return None;
        }
        entries := entries + blockEntries.value;
      }
      ScanNext(extents, j);
    }
    assert extents[..|extents|] == extents;
    r := Some(entries);
  }

  lemma NothingYet(dev: seq<seq<byte>>, list: seq<Extent>)
    ensures ParseBlocks(dev, Scan(list[..0])) == Some([])
  {
  }

  lemma NoSpan(p: seq<nat>, start: nat)
    ensures p + Span(start, 0) == p
  {
  }

  lemma SpanNext(p: seq<nat>, start: nat, i: nat)
    ensures p + Span(start, i + 1) == p + Span(start, i) + [start + i]
  {
    assert Span(start, i + 1) == Span(start, i) + [start + i];
  }

  ghost predicate FirstNamed(list: seq<DirEntry>, at: nat, name: seq<byte>) {
    at < |list| && list[at].name == name && forall i | 0 <= i < at :: list[i].name != name
  }

  /** The inode of the first entry with this name; unreadable directories have none. */
  method Lookup(dev: seq<seq<byte>>, inode: Inode, name: seq<byte>) returns (r: Option<u32>)
    ensures var read := DirEntries(dev, inode.iBlock[..]);
            && (r.Some? <==> inode.IsDir() && read.Some? && Names(read.value, name))
            && (r.Some? ==> exists at: nat :: FirstNamed(read.value, at, name) && r.value == read.value[at].inode)
  {
    hide DirEntries;
    var read := ReadDir(dev, inode);
    if read.None? {
      return None;
    }
    var entries := read.value;
    for i := 0 to |entries|
      invariant forall k | 0 <= k < i :: entries[k].name != name
    {
      if entries[i].name == name {
        assert FirstNamed(entries, i, name);
        return Some(entries[i].inode);
      }
    }
    r := None;
  }

  // ----- adding and removing entries -----

  /** One block of the directory rewritten. */
  lemma BlockRewritten(f: File, k: nat, b: seq<byte>, total: nat, blockSize: nat)
    requires DirReady(f, total, blockSize) && k < |DataBlocks(f.list)| && |b| == blockSize && Tiled(b)
    ensures DataBlocks(f.list)[k] < |f.dev| && Tiled(f.dev[DataBlocks(f.list)[k]])
    ensures var h := f.(dev := f.dev[DataBlocks(f.list)[k] := b]);
            DirReady(h, total, blockSize) && Evolved(f, h) && SameTail(f, h)
            && (Placed(f.dev, f.groups, f.free) ==> Placed(h.dev, h.groups, h.free))
  {
    hide Tiled, Dense, DataBlocks, Foot, TreeReady, ReadTree, IsBitmap, TailOf, Evolved, FileReady, Placed;
    ReadyBlocks(f, total, blockSize);
    DataWritten(f, k, b, total, blockSize);
    ListingUpdate(f.dev, DataBlocks(f.list), k, b);
  }

  lemma AddedToListing(f: File, k: nat, b: seq<byte>, at: nat, new_: seq<DirEntry>, total: nat, blockSize: nat) returns (at1: nat)
    requires DirReady(f, total, blockSize) && k < |DataBlocks(f.list)| && |b| == blockSize && Tiled(b)
    requires Tiled(f.dev[DataBlocks(f.list)[k]]) && Inserted(Entries(b), Entries(f.dev[DataBlocks(f.list)[k]]), at, new_)
    ensures var dev1, p := f.dev[DataBlocks(f.list)[k] := b], DataBlocks(f.list);
            AllTiled(dev1, p) && Inserted(Listing(dev1, p), Listing(f.dev, p), at1, new_)
  {
    hide Tiled, Dense, DataBlocks, Foot, TreeReady, ReadTree, IsBitmap, FileReady, Entries, Listing, Inserted;
    var p := DataBlocks(f.list);
    ReadyBlocks(f, total, blockSize);
    ListingUpdate(f.dev, p, k, b);
    ListingSplit(f.dev, p, k);
    InsertedInside(Listing(f.dev, p[..k]), Entries(b), Entries(f.dev[p[k]]), Listing(f.dev, p[k + 1..]), at, new_);
    at1 := |Listing(f.dev, p[..k])| + at;
  }

  lemma RemovedFromListing(f: File, k: nat, b: seq<byte>, at: nat, name: seq<byte>, total: nat, blockSize: nat) returns (at1: nat)
    requires DirReady(f, total, blockSize) && k < |DataBlocks(f.list)| && |b| == blockSize && Tiled(b)
    requires Tiled(f.dev[DataBlocks(f.list)[k]]) && RemovedFrom(Entries(b), Entries(f.dev[DataBlocks(f.list)[k]]), at, name)
    requires AllTiled(f.dev, DataBlocks(f.list)[..k]) && !Names(Listing(f.dev, DataBlocks(f.list)[..k]), name)
    ensures var dev1, p := f.dev[DataBlocks(f.list)[k] := b], DataBlocks(f.list);
            AllTiled(dev1, p) && RemovedFrom(Listing(dev1, p), Listing(f.dev, p), at1, name)
  {
    hide Tiled, Dense, DataBlocks, Foot, TreeReady, ReadTree, IsBitmap, FileReady, Entries, Listing, RemovedFrom, Names;
    var p := DataBlocks(f.list);
    ReadyBlocks(f, total, blockSize);
    ListingUpdate(f.dev, p, k, b);
    ListingSplit(f.dev, p, k);
    RemovedInside(Listing(f.dev, p[..k]), Entries(b), Entries(f.dev[p[k]]), Listing(f.dev, p[k + 1..]), at, name);
    at1 := |Listing(f.dev, p[..k])| + at;
  }

  /** Some entry of the first n blocks could give up room for a name of this length. */
  ghost predicate RoomIn(dev: seq<seq<byte>>, p: seq<nat>, n: nat, nameLen: nat)
    requires AllTiled(dev, p) && n <= |p|
  {
    exists k :: 0 <= k < n && SlackFrom(dev[p[k]], 0, nameLen)
  }

  lemma RoomNext(dev: seq<seq<byte>>, p: seq<nat>, k: nat, nameLen: nat)
    requires AllTiled(dev, p) && k < |p|
    ensures p[k] < |dev| && Chain(dev[p[k]], 0, |dev[p[k]]|)
    ensures RoomIn(dev, p, k + 1, nameLen) <==> RoomIn(dev, p, k, nameLen) || SlackFrom(dev[p[k]], 0, nameLen)
    ensures RoomIn(dev, p, k + 1, nameLen) ==> RoomIn(dev, p, |p|, nameLen)
  {
    hide SlackFrom, Chain;
  }

  lemma DirParts(f: File, total: nat, blockSize: nat)
    requires DirReady(f, total, blockSize)
    ensures AllTiled(f.dev, DataBlocks(f.list)) && FileReady(f, total, blockSize) && Dense(f.list) && ReadTree(f.dev, f.tree) == Some(f.list)
    ensures forall b | 0 <= b < |f.dev| :: |f.dev[b]| == blockSize
    ensures forall k | 0 <= k < |DataBlocks(f.list)| :: !IsBitmap(f.groups, DataBlocks(f.list)[k])
    ensures 1024 <= blockSize < 0x1_0000 && blockSize % 4 == 0
  {
    hide DataBlocks, Foot, TreeReady, IsBitmap, Tiled;
  }

  /** The loops of AddDirEntry over the blocks the directory has. */
  method AddInPlace(fs: FileSystem, extents: seq<Extent>, name: seq<byte>, inode: u32, fileType: byte, ghost f: File)
    returns (found: bool, ghost at: nat)
    requires fs.Valid() && f.dev == fs.dev && f.groups == fs.groups && f.free == fs.FreeSet() && f.list == extents
    requires DirReady(f, fs.Total(), fs.blockSize) && |name| < 0xFFF0
    modifies fs`dev
    ensures fs.Valid() && fs.FreeSet() == old(fs.FreeSet()) && fs.Total() == old(fs.Total())
    ensures found <==> RoomIn(f.dev, DataBlocks(extents), |DataBlocks(extents)|, |name|)
    ensures !found ==> fs.dev == old(fs.dev)
    ensures found ==>
              var h, p := f.(dev := fs.dev), DataBlocks(extents);
              && DirReady(h, fs.Total(), fs.blockSize) && Evolved(f, h) && SameTail(f, h)
              && (Placed(f.dev, f.groups, f.free) ==> Placed(h.dev, h.groups, h.free))
              && Inserted(Listing(fs.dev, p), Listing(f.dev, p), at, NewEntry(inode, fileType, name))
  {
    hide Tiled, Entries, DataBlocks, Listing, ReadTree, Dense, Extent.Count, Extent.Phys, Extent.Uninit, AllTiled, RoomIn, DirReady,
         Evolved, TailOf, Placed, Inserted, SlackFrom, Chain, NewEntry, FreeBlocks, Consistent, Foot, TreeReady, FileReady, IsBitmap;
    ghost var p, total := DataBlocks(extents), fs.Total();
    DirParts(f, total, fs.blockSize);
    NoRoomYet(f.dev, p, |name|, extents);
    at := 0;
    for j := 0 to |extents|
      invariant unchanged(fs) && |DataBlocks(extents[..j])| <= |p| && !RoomIn(f.dev, p, |DataBlocks(extents[..j])|, |name|)
    {
      var e := extents[j];
      for i := 0 to e.Count()
        invariant unchanged(fs) && |DataBlocks(extents[..j])| + i <= |p|
        invariant !RoomIn(f.dev, p, |DataBlocks(extents[..j])| + i, |name|)
      {
        BlockOf(extents, j, i);
        ghost var k := |DataBlocks(extents[..j])| + i;
        RoomNext(f.dev, p, k, |name|);
        TiledAt(f.dev, p, k);
        var block := fs.dev[e.Phys() + i];
        var buf := new byte[fs.blockSize](o requires 0 <= o < fs.blockSize => block[o]);
        assert buf[..] == block;
        ghost var at0, off0;
        found, at0, off0 := AddToBlock(buf, inode, fileType, name);
        if found {
          at := AddedToListing(f, k, buf[..], at0, NewEntry(inode, fileType, name), total, fs.blockSize);
          BlockRewritten(f, k, buf[..], total, fs.blockSize);
          fs.WriteBlock(e.Phys() + i, buf[..]);
          return;
        }
      }
      ExtentDone(extents, j);
    }
    assert extents[..|extents|] == extents;
    found := false;
  }

  lemma NoRoomYet(dev: seq<seq<byte>>, p: seq<nat>, nameLen: nat, list: seq<Extent>)
    requires AllTiled(dev, p)
    ensures |DataBlocks(list[..0])| == 0 && !RoomIn(dev, p, 0, nameLen)
  {
  }

  /** A new block with its entries behind the blocks the directory had. */
  lemma BlockAdded(f: File, m: File, new_: nat, b: seq<byte>, total: nat, blockSize: nat)
    requires DirReady(f, total, blockSize) && FileReady(m, total, blockSize) && Evolved(f, m)
    requires DataBlocks(m.list) == DataBlocks(f.list) + [new_]
    requires forall k | 0 <= k < |DataBlocks(f.list)| :: DataBlocks(f.list)[k] < |m.dev| && m.dev[DataBlocks(f.list)[k]] == f.dev[DataBlocks(f.list)[k]]
    requires |b| == blockSize && Tiled(b)
    ensures AllTiled(f.dev, DataBlocks(f.list)) && new_ < |m.dev|
    ensures var h := m.(dev := m.dev[new_ := b]);
            && DirReady(h, total, blockSize) && Evolved(f, h) && Evolved(m, h)
            && Inserted(Listing(h.dev, DataBlocks(h.list)), Listing(f.dev, DataBlocks(f.list)), |Listing(f.dev, DataBlocks(f.list))|, Entries(b))
            && (Placed(m.dev, m.groups, m.free) ==> Placed(h.dev, h.groups, h.free))
  {
    hide Tiled, Dense, DataBlocks, Foot, TreeReady, ReadTree, IsBitmap, TailOf, Evolved, FileReady, Placed, Entries, Listing;
    var p, q := DataBlocks(f.list), DataBlocks(m.list);
    ReadyBlocks(m, total, blockSize);
    NewOnDev(m.dev, p, q, new_, blockSize);
    var h := m.(dev := m.dev[new_ := b]);
    DataWritten(m, |p|, b, total, blockSize);
    EvolvedTwice(f, m, h);
    forall k | 0 <= k < |p| ensures h.dev[p[k]] == f.dev[p[k]] {
      assert q[k] == p[k] && q[|p|] == new_;
      assert q[k] != q[|p|];
    }
    SameSize(f, m);
    ListingFrame(f.dev, h.dev, p);
    ListingOne(h.dev, new_);
    ListingConcat(h.dev, p, [new_]);
    AtTheEnd(Listing(f.dev, p), Entries(b));
  }

  lemma NewOnDev(dev: seq<seq<byte>>, p: seq<nat>, q: seq<nat>, new_: nat, blockSize: nat)
    requires OnDev(dev, q, blockSize) && q == p + [new_]
    ensures new_ < |dev| && q[|p|] == new_
  {
    assert q[|p|] == new_;
  }

  lemma SameSize(f: File, m: File)
    requires Evolved(f, m)
    ensures |m.dev| == |f.dev|
  {
  }

  lemma AtTheEnd(list: seq<DirEntry>, new_: seq<DirEntry>)
    ensures Inserted(list + new_, list, |list|, new_)
  {
    assert list[..|list|] == list;
  }

  /** What AddDirEntry takes for granted of a directory. */
  ghost predicate CanAdd(f: File, total: nat, blockSize: nat, size: nat, nameLen: nat) {
    && DirReady(f, total, blockSize) && Placed(f.dev, f.groups, f.free)
    && size == |DataBlocks(f.list)| * blockSize && size + blockSize < 0x1_0000_0000
    && nameLen + 11 <= blockSize
    && (RoomIn(f.dev, DataBlocks(f.list), |DataBlocks(f.list)|, nameLen) || CanGrowTo(f, |DataBlocks(f.list)| + 1, blockSize))
  }

  /** The checks at the start of AddDirEntry and RemoveDirEntry. */
  ghost predicate IsDirectory(dev: seq<seq<byte>>, inode: Inode)
    reads inode, inode.iBlock
  {
    inode.IsDir() && inode.usesExtents && ReadTree(dev, inode.iBlock[..]).Some?
  }

  /** The directory before a call. */
  ghost function Dir(fs: FileSystem, inode: Inode): File
    requires fs.Valid() && ReadTree(fs.dev, inode.iBlock[..]).Some?
    reads fs, inode, inode.iBlock
  {
    Snap(fs, inode, ReadTree(fs.dev, inode.iBlock[..]).value)
  }

  ghost function ListingOf(f: File): seq<DirEntry> {
    if AllTiled(f.dev, DataBlocks(f.list)) then Listing(f.dev, DataBlocks(f.list)) else []
  }

  lemma BlockNumber(size: nat, n: nat, blockSize: nat)
    requires blockSize > 0 && size == n * blockSize && size + blockSize < 0x1_0000_0000
    ensures size / blockSize == n && n + 1 < 0x1_0000_0000 && (n + 1) * blockSize == size + blockSize
  {
    DivUnique(size, blockSize, n);
    MulMono(1, blockSize, n);
    assert n * 1 <= n * blockSize;
  }

  /** The new block of AddDirEntry, when no entry has room. */
  method AddInNewBlock(fs: FileSystem, inode: Inode, name: seq<byte>, child: u32, fileType: byte, ghost f: File)
    returns (ok: bool, ghost list: seq<Extent>)
    requires fs.Valid() && inode.iBlock.Length == I_BLOCK && inode.usesExtents && inode.IsDir()
    requires f == Snap(fs, inode, f.list) && CanAdd(f, fs.Total(), fs.blockSize, inode.Size(), |name|)
    requires CanGrowTo(f, |DataBlocks(f.list)| + 1, fs.blockSize)
    modifies fs, inode, inode.iBlock
    ensures fs.Valid() && fs.Total() == old(fs.Total()) && Evolved(f, Snap(fs, inode, list))
    ensures !ok ==> fs.FreeSet() == {} && inode.Size() == old(inode.Size())
    ensures inode.Sectors() == old(inode.Sectors())
    ensures ok ==>
              && DirReady(Snap(fs, inode, list), fs.Total(), fs.blockSize)
              && |DataBlocks(list)| == |DataBlocks(f.list)| + 1 && inode.Size() == |DataBlocks(list)| * fs.blockSize
              && Inserted(ListingOf(Snap(fs, inode, list)), ListingOf(f), |ListingOf(f)|, NewEntry(child, fileType, name))
  {
    hide Tiled, Entries, DataBlocks, Listing, ReadTree, Dense, AllTiled, RoomIn,
         Evolved, Placed, Inserted, NewEntry, FreeBlocks, Consistent, Foot, TreeReady, FileReady, IsBitmap, TailOf, CanTake, NodeOk, Visible, Need;
    DirParts(f, fs.Total(), fs.blockSize);
    BlockNumber(inode.Size(), |DataBlocks(f.list)|, fs.blockSize);
    var grown, newBlock, list1 := GrowFile(fs, inode, inode.Size() / fs.blockSize, f.list, |DataBlocks(f.list)| + 1);
    list := list1;
    if !grown {
      return false, list;
    }
    ghost var m := Snap(fs, inode, list);
    BlockSizes(fs);
    OneIsVisible(DirEntry(child, fileType, name));
    var blockBuf := WriteDirBlock([DirEntry(child, fileType, name)], fs.blockSize);
    OldOnDev(f, m, fs.Total(), fs.blockSize);
    BlockAdded(f, m, newBlock, blockBuf, fs.Total(), fs.blockSize);
    NewIsData(m, |DataBlocks(f.list)|, fs.Total(), fs.blockSize);
    fs.WriteBlock(newBlock, blockBuf);
    var newSize := inode.Size() + fs.blockSize;
    inode.sizeLo := newSize % 0x1_0000_0000;
    ok := true;
  }

  lemma OneIsVisible(e: DirEntry)
    requires |e.name| + 11 < 0x1_0000 && |e.name| < 0xFFF0
    ensures Visible([e]) == NewEntry(e.inode, e.fileType, e.name) && Need([e]) == MinRecLen(|e.name|)
  {
    assert [e][..0] == [];
    assert Visible([e]) == Visible([]) + NewEntry(e.inode, e.fileType, e.name);
    assert Need([e]) == Need([]) + MinRecLen(|e.name|);
  }

  lemma OldOnDev(f: File, m: File, total: nat, blockSize: nat)
    requires FileReady(f, total, blockSize) && Evolved(f, m)
    ensures forall k | 0 <= k < |DataBlocks(f.list)| :: DataBlocks(f.list)[k] < |m.dev|
  {
    hide Dense, DataBlocks, Foot, TreeReady, ReadTree, IsBitmap;
  }

  lemma NewIsData(m: File, k: nat, total: nat, blockSize: nat)
    requires FileReady(m, total, blockSize) && k < |DataBlocks(m.list)|
    ensures DataBlocks(m.list)[k] < |m.dev| && !IsBitmap(m.groups, DataBlocks(m.list)[k])
  {
    hide Dense, DataBlocks, Foot, TreeReady, ReadTree, IsBitmap;
  }

  /**
   AddDirEntry on an unindexed directory: a name that is there is refused; otherwise the listing
   gains exactly the new entry, every block stays tiled, and a block is allocated only if no
   entry has room. It fails only when that block cannot be had.
   */
  method AddDirEntry(fs: FileSystem, inode: Inode, name: seq<byte>, child: u32, fileType: byte)
    returns (ok: bool, ghost list: seq<Extent>, ghost at: nat)
    requires fs.Valid() && inode.iBlock.Length == I_BLOCK
    requires IsDirectory(fs.dev, inode) ==> CanAdd(Dir(fs, inode), fs.Total(), fs.blockSize, inode.Size(), |name|)
    modifies fs, inode, inode.iBlock
    ensures fs.Valid() && inode.Sectors() == old(inode.Sectors())
    ensures !old(IsDirectory(fs.dev, inode)) ==> !ok && unchanged(fs) && unchanged(inode) && inode.iBlock[..] == old(inode.iBlock[..])
    ensures old(IsDirectory(fs.dev, inode)) ==>
              && Evolved(old(Dir(fs, inode)), Snap(fs, inode, list))
              && (Names(old(ListingOf(Dir(fs, inode))), name) ==> !ok && unchanged(fs) && unchanged(inode))
              && (!ok ==> Names(old(ListingOf(Dir(fs, inode))), name) || fs.FreeSet() == {})
    ensures old(IsDirectory(fs.dev, inode)) && ok ==>
              && DirReady(Snap(fs, inode, list), fs.Total(), fs.blockSize) && inode.Size() == |DataBlocks(list)| * fs.blockSize
              && Inserted(ListingOf(Snap(fs, inode, list)), old(ListingOf(Dir(fs, inode))), at, NewEntry(child, fileType, name))
              && |DataBlocks(list)| == |DataBlocks(old(Dir(fs, inode)).list)| + (if old(HasPlace(Dir(fs, inode), |name|)) then 0 else 1)
              && (Distinct(old(ListingOf(Dir(fs, inode)))) ==>
                    (Distinct(ListingOf(Snap(fs, inode, list)))
                     <==> child == 0 || |name| % 256 == 0 || !Names(old(ListingOf(Dir(fs, inode))), Stored(name))))
  {
    hide Distinct, Stored, Tiled, Entries, DataBlocks, Listing, ReadTree, Dense, AllTiled, RoomIn, Names, DirReady,
         Evolved, Placed, Inserted, NewEntry, FreeBlocks, Consistent, Foot, TreeReady, FileReady, IsBitmap, TailOf, CanTake, NodeOk, ParseBlocks, Scan;
    list, at := [], 0;
    if !inode.IsDir() || !inode.usesExtents {
      return false, list, at;
    }
    var read := ParseExtentNode(fs.dev, inode.iBlock[..]);
    if read.None? {
      return false, list, at;
    }
    list := read.value;
    ghost var f := Snap(fs, inode, list);
    DirParts(f, fs.Total(), fs.blockSize);
    SnapEvolves(f);
    BlockSizes(fs);
    ScanIsListing(fs.dev, list);
    var there := Lookup(fs.dev, inode, name);
    if there.Some? {
      return false, list, at;
    }
    var found;
    found, at := AddInPlace(fs, read.value, name, child, fileType, f);
    if found {
      DirParts(f.(dev := fs.dev), fs.Total(), fs.blockSize);
      IsListing(f);
      IsListing(f.(dev := fs.dev));
      AddedDistinct(ListingOf(f.(dev := fs.dev)), ListingOf(f), at, child, fileType, name);
      return true, list, at;
    }
    ok, list := AddInNewBlock(fs, inode, name, child, fileType, f);
    at := |ListingOf(f)|;
    if ok {
      AddedDistinct(ListingOf(Snap(fs, inode, list)), ListingOf(f), at, child, fileType, name);
    }
  }

  lemma IsListing(f: File)
    requires AllTiled(f.dev, DataBlocks(f.list))
    ensures ListingOf(f) == Listing(f.dev, DataBlocks(f.list))
  {
  }

  lemma AddedDistinct(list1: seq<DirEntry>, list: seq<DirEntry>, at: nat, inode: u32, fileType: byte, name: seq<byte>)
    requires Inserted(list1, list, at, NewEntry(inode, fileType, name))
    ensures Distinct(list) ==> (Distinct(list1) <==> inode == 0 || |name| % 256 == 0 || !Names(list, Stored(name)))
  {
    hide Distinct, Inserted, NewEntry, Names, Stored;
    if Distinct(list) {
      AddDistinctIff(list1, list, at, inode, fileType, name);
    }
  }

  ghost predicate HasPlace(f: File, nameLen: nat) {
    AllTiled(f.dev, DataBlocks(f.list)) && RoomIn(f.dev, DataBlocks(f.list), |DataBlocks(f.list)|, nameLen)
  }

  lemma NotListedNext(dev: seq<seq<byte>>, p: seq<nat>, k: nat, name: seq<byte>)
    requires AllTiled(dev, p) && k < |p|
    ensures AllTiled(dev, p[..k]) && AllTiled(dev, p[..k + 1]) && p[k] < |dev| && Tiled(dev[p[k]])
    ensures Names(Listing(dev, p[..k + 1]), name) <==> Names(Listing(dev, p[..k]), name) || Names(Entries(dev[p[k]]), name)
  {
    hide Tiled, Entries, Listing, AllTiled, Names;
    ListingNext(dev, p, k);
    NamesConcat(Listing(dev, p[..k]), Entries(dev[p[k]]), name);
  }

  lemma PartNames(dev: seq<seq<byte>>, p: seq<nat>, k: nat, name: seq<byte>)
    requires AllTiled(dev, p) && k <= |p|
    ensures AllTiled(dev, p[..k])
    ensures Names(Listing(dev, p[..k]), name) ==> Names(Listing(dev, p), name)
  {
    hide Tiled, Entries, Listing, Names;
    assert p == p[..k] + p[k..];
    assert forall i | 0 <= i < |p| - k :: p[k..][i] == p[k + i];
    PartTiled(dev, p, k);
    ListingConcat(dev, p[..k], p[k..]);
    NamesConcat(Listing(dev, p[..k]), Listing(dev, p[k..]), name);
  }

  lemma NoneNamed(dev: seq<seq<byte>>, p: seq<nat>, list: seq<Extent>, name: seq<byte>)
    ensures |DataBlocks(list[..0])| == 0 && AllTiled(dev, p[..0]) && !Names(Listing(dev, p[..0]), name)
  {
  }

  /** The directory as the loops of RemoveDirEntry know it: no entry of this name in the first k blocks. */
  ghost predicate Unnamed(dev: seq<seq<byte>>, p: seq<nat>, k: nat, name: seq<byte>) {
    k <= |p| && AllTiled(dev, p[..k]) && !Names(Listing(dev, p[..k]), name)
  }

  /**
   RemoveDirEntry on an unindexed directory: the listing loses exactly its first entry of this
   name and every block stays tiled; a name that is not there is an error.
   */
  method RemoveDirEntry(fs: FileSystem, inode: Inode, name: seq<byte>) returns (ok: bool, ghost at: nat)
    requires fs.Valid() && inode.iBlock.Length == I_BLOCK
    requires IsDirectory(fs.dev, inode) ==> DirReady(Dir(fs, inode), fs.Total(), fs.blockSize)
    modifies fs`dev
    ensures fs.Valid() && fs.FreeSet() == old(fs.FreeSet())
    ensures ok <==> old(IsDirectory(fs.dev, inode)) && Names(old(ListingOf(Dir(fs, inode))), name)
    ensures !ok ==> unchanged(fs)
    ensures ok ==>
              var f, h := old(Dir(fs, inode)), Snap(fs, inode, old(Dir(fs, inode)).list);
              && DirReady(h, fs.Total(), fs.blockSize) && Evolved(f, h)
              && RemovedFrom(ListingOf(h), ListingOf(f), at, name)
              && (Distinct(ListingOf(f)) ==> Distinct(ListingOf(h)) && !Names(ListingOf(h), name))
  {
    hide Tiled, Entries, DataBlocks, Listing, ReadTree, Dense, Extent.Count, Extent.Phys, AllTiled, DirReady, Unnamed, Names,
         Evolved, TailOf, Placed, RemovedFrom, FreeBlocks, Consistent, Foot, TreeReady, FileReady, IsBitmap;
    at := 0;
    if !inode.IsDir() || !inode.usesExtents {
      return false, at;
    }
    var read := ParseExtentNode(fs.dev, inode.iBlock[..]);
    if read.None? {
      return false, at;
    }
    var extents := read.value;
    ghost var f, p, total := Snap(fs, inode, extents), DataBlocks(extents), fs.Total();
    DirParts(f, total, fs.blockSize);
    NoneNamed(f.dev, p, extents, name);
    UnnamedIs(f.dev, p, 0, name);
    for j := 0 to |extents|
      invariant unchanged(fs) && Unnamed(f.dev, p, |DataBlocks(extents[..j])|, name)
    {
      var e := extents[j];
      for i := 0 to e.Count()
        invariant unchanged(fs) && Unnamed(f.dev, p, |DataBlocks(extents[..j])| + i, name)
      {
        BlockOf(extents, j, i);
        ghost var k := |DataBlocks(extents[..j])| + i;
        NotListedNext(f.dev, p, k, name);
        var block := fs.dev[e.Phys() + i];
        var buf := new byte[fs.blockSize](o requires 0 <= o < fs.blockSize => block[o]);
        assert buf[..] == block;
        ghost var at0, off0, prev0;
        ok, at0, off0, prev0 := RemoveFromBlock(buf, name);
        if ok {
          UnnamedPart(f.dev, p, k, name);
          at := RemovedFromListing(f, k, buf[..], at0, name, total, fs.blockSize);
          PartNames(f.dev, p, k + 1, name);
          BlockRewritten(f, k, buf[..], total, fs.blockSize);
          fs.WriteBlock(e.Phys() + i, buf[..]);
          RemovedDistinct(Listing(fs.dev, p), Listing(f.dev, p), at, name);
          return;
        }
        UnnamedPart(f.dev, p, k, name);
        UnnamedIs(f.dev, p, k + 1, name);
      }
      ExtentDone(extents, j);
    }
    assert extents[..|extents|] == extents;
    UnnamedPart(f.dev, p, |p|, name);
    assert p[..|p|] == p;
    ok := false;
  }

  lemma RemovedDistinct(list1: seq<DirEntry>, list: seq<DirEntry>, at: nat, name: seq<byte>)
    requires RemovedFrom(list1, list, at, name)
    ensures Distinct(list) ==> Distinct(list1) && !Names(list1, name)
  {
    hide Distinct, Names, RemovedFrom;
    if Distinct(list) {
      RemoveKeepsDistinct(list1, list, at, name);
    }
  }

  lemma UnnamedIs(dev: seq<seq<byte>>, p: seq<nat>, k: nat, name: seq<byte>)
    requires k <= |p| && AllTiled(dev, p[..k]) && !Names(Listing(dev, p[..k]), name)
    ensures Unnamed(dev, p, k, name)
  {
  }

  lemma UnnamedPart(dev: seq<seq<byte>>, p: seq<nat>, k: nat, name: seq<byte>)
    requires Unnamed(dev, p, k, name)
    ensures k <= |p| && AllTiled(dev, p[..k]) && !Names(Listing(dev, p[..k]), name)
  {
  }
}
