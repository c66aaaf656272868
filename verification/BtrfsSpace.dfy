/** Chunk translation and the first-fit space allocator (btrfs/tree.go, btrfs/writer.go). */
module BtrfsSpace {
  import opened Wrappers
  import opened Arith

  datatype Chunk = Chunk(logical: nat, length: nat, physical: nat, flags: bv64)

  datatype Range = Range(logical: nat, length: nat)

  // ----- chunk translation -----

  predicate Within(c: Chunk, logical: nat) {
    c.logical <= logical < c.logical + c.length
  }

  /** treeContext.resolve: the first chunk that covers the address. */
  function Resolve(chunks: seq<Chunk>, logical: nat): Option<nat> {
    if chunks == [] then None
    else if Within(chunks[0], logical) then Some(chunks[0].physical + (logical - chunks[0].logical))
    else Resolve(chunks[1..], logical)
  }

  ghost predicate Apart(a: nat, n: nat, b: nat, m: nat) {
    a + n <= b || b + m <= a
  }

  /** Chunks overlap neither logically nor on the device, which holds them all. */
  ghost predicate ChunksOk(chunks: seq<Chunk>, devSize: nat) {
    && (forall i | 0 <= i < |chunks| ::
          chunks[i].logical > 0 && chunks[i].length > 0
          && chunks[i].physical + chunks[i].length <= devSize
          && chunks[i].logical + chunks[i].length <= 0x1_0000_0000_0000_0000)
    && forall i, j | 0 <= i < j < |chunks| ::
         Apart(chunks[i].logical, chunks[i].length, chunks[j].logical, chunks[j].length)
         && Apart(chunks[i].physical, chunks[i].length, chunks[j].physical, chunks[j].length)
  }

  /** The range lies inside chunk i. */
  ghost predicate InChunk(chunks: seq<Chunk>, i: nat, logical: nat, n: nat) {
    i < |chunks| && chunks[i].logical <= logical && logical + n <= chunks[i].logical + chunks[i].length
  }

  ghost predicate Mapped(chunks: seq<Chunk>, logical: nat, n: nat) {
    exists i: nat :: InChunk(chunks, i, logical, n)
  }

  lemma {:induction false} ResolveIn(chunks: seq<Chunk>, devSize: nat, i: nat, logical: nat)
    requires ChunksOk(chunks, devSize) && i < |chunks| && Within(chunks[i], logical)
    ensures Resolve(chunks, logical) == Some(chunks[i].physical + (logical - chunks[i].logical))
  {
    if i > 0 {
      assert chunks[1..][i - 1] == chunks[i];
      assert Apart(chunks[0].logical, chunks[0].length, chunks[i].logical, chunks[i].length);
      ResolveIn(chunks[1..], devSize, i - 1, logical);
    }
  }

  /** Ranges apart in the logical space are apart on the device. */
  lemma ResolveApart(chunks: seq<Chunk>, devSize: nat, a: nat, b: nat, n: nat)
    requires ChunksOk(chunks, devSize) && Mapped(chunks, a, n) && Mapped(chunks, b, n) && n > 0
    requires Apart(a, n, b, n)
    ensures Resolve(chunks, a).Some? && Resolve(chunks, b).Some?
    ensures Resolve(chunks, a).value + n <= devSize
    ensures Apart(Resolve(chunks, a).value, n, Resolve(chunks, b).value, n)
  {
    var i: nat :| InChunk(chunks, i, a, n);
    var j: nat :| InChunk(chunks, j, b, n);
    ResolveIn(chunks, devSize, i, a);
    ResolveIn(chunks, devSize, j, b);
    assert i < j ==> Apart(chunks[i].physical, chunks[i].length, chunks[j].physical, chunks[j].length);
    assert j < i ==> Apart(chunks[j].physical, chunks[j].length, chunks[i].physical, chunks[i].length);
  }

  /** So is a single byte apart from a range. */
  lemma ByteApart(chunks: seq<Chunk>, devSize: nat, a: nat, n: nat, x: nat)
    requires ChunksOk(chunks, devSize) && Mapped(chunks, a, n) && Mapped(chunks, x, 1) && n > 0
    requires Apart(a, n, x, 1)
    ensures Resolve(chunks, a).Some? && Resolve(chunks, x).Some?
    ensures Resolve(chunks, a).value + n <= devSize && Resolve(chunks, x).value < devSize
    ensures Apart(Resolve(chunks, a).value, n, Resolve(chunks, x).value, 1)
  {
    var i: nat :| InChunk(chunks, i, a, n);
    var j: nat :| InChunk(chunks, j, x, 1);
    ResolveIn(chunks, devSize, i, a);
    ResolveIn(chunks, devSize, j, x);
    assert i < j ==> Apart(chunks[i].physical, chunks[i].length, chunks[j].physical, chunks[j].length);
    assert j < i ==> Apart(chunks[j].physical, chunks[j].length, chunks[i].physical, chunks[i].length);
  }

  lemma ResolveMapped(chunks: seq<Chunk>, devSize: nat, a: nat, n: nat)
    requires ChunksOk(chunks, devSize) && Mapped(chunks, a, n) && n > 0
    ensures Resolve(chunks, a).Some? && Resolve(chunks, a).value + n <= devSize && a > 0
    ensures a + n <= 0x1_0000_0000_0000_0000
  {
    var i: nat :| InChunk(chunks, i, a, n);
    ResolveIn(chunks, devSize, i, a);
  }

  // ----- allocation -----

  predicate ByLogical(s: seq<Range>) {
    forall i, j | 0 <= i < j < |s| :: s[i].logical <= s[j].logical
  }

  /** sort.Slice on the start addresses. */
  function Insert(r: Range, s: seq<Range>): (t: seq<Range>)
    requires ByLogical(s)
    ensures ByLogical(t) && forall x :: x in t <==> x == r || x in s
  {
    if s == [] || r.logical <= s[0].logical then [r] + s
    else
      assert s == [s[0]] + s[1..];
      var t := Insert(r, s[1..]);
      assert forall i | 0 <= i < |t| :: t[i] in t && s[0].logical <= t[i].logical;
      [s[0]] + t
  }

  function SortRanges(s: seq<Range>): (t: seq<Range>)
    ensures ByLogical(t) && forall x :: x in t <==> x in s
  {
    if s == [] then []
    else
      assert s == [s[0]] + s[1..];
      Insert(s[0], SortRanges(s[1..]))
  }

  /** A block of the given size at x would collide with the range. */
  ghost predicate Clash(x: nat, size: nat, r: Range) {
    r.logical < x + size && x < r.logical + r.length
  }

  ghost predicate Clear(x: nat, size: nat, occupied: seq<Range>) {
    forall r | r in occupied :: !Clash(x, size, r)
  }

  /** Start addresses the allocator considers: the chunk's own start and sector boundaries. */
  ghost predicate Candidate(c: Chunk, sector: nat, x: nat)
    requires sector > 0
  {
    x >= c.logical && (x == c.logical || x % sector == 0)
  }

  /** The chunk a request is served from: the first with a matching flag, else the first. */
  function TargetChunk(chunks: seq<Chunk>, bgType: bv64): (i: nat)
    requires chunks != []
    ensures i < |chunks|
  {
    FirstWithFlag(chunks, bgType, 0)
  }

  predicate HasFlag(c: Chunk, bgType: bv64) {
    c.flags & bgType != 0
  }

  function FirstWithFlag(chunks: seq<Chunk>, bgType: bv64, from: nat): (i: nat)
    requires chunks != [] && from <= |chunks|
    ensures i < |chunks|
    ensures (exists j :: from <= j < |chunks| && HasFlag(chunks[j], bgType)) ==>
              from <= i && HasFlag(chunks[i], bgType) && forall j | from <= j < i :: !HasFlag(chunks[j], bgType)
    ensures (forall j | from <= j < |chunks| :: !HasFlag(chunks[j], bgType)) ==> i == 0
    decreases |chunks| - from
  {
    if from == |chunks| then 0
    else if HasFlag(chunks[from], bgType) then from
    else FirstWithFlag(chunks, bgType, from + 1)
  }

  /** Chunk i is the first that has a flag in common with the request, or the very first if none has. */
  ghost predicate Serves(chunks: seq<Chunk>, bgType: bv64, i: nat) {
    && i < |chunks|
    && (forall j | 0 <= j < i :: chunks[j].flags & bgType == 0)
    && (chunks[i].flags & bgType != 0 || (i == 0 && forall j | 0 <= j < |chunks| :: chunks[j].flags & bgType == 0))
  }

  lemma TargetServes(chunks: seq<Chunk>, bgType: bv64)
    requires chunks != []
    ensures Serves(chunks, bgType, TargetChunk(chunks, bgType))
  {
    var i := TargetChunk(chunks, bgType);
    if j :| 0 <= j < |chunks| && HasFlag(chunks[j], bgType) {
      assert HasFlag(chunks[i], bgType) && forall j | 0 <= j < i :: !HasFlag(chunks[j], bgType);
    } else {
      assert forall j | 0 <= j < |chunks| :: !HasFlag(chunks[j], bgType);
    }
  }

  /** Start x is the lowest that fits, and ends inside the chunk. */
  ghost predicate FitsFirst(c: Chunk, sector: nat, aligned: nat, occupied: seq<Range>, x: nat)
    requires sector > 0
  {
    && Candidate(c, sector, x) && Clear(x, aligned, occupied) && x + aligned <= c.logical + c.length
    && forall y: nat | Candidate(c, sector, y) && y < x :: !Clear(y, aligned, occupied)
  }

  function SectorOr(sectorSize: nat): (r: nat)
    ensures r > 0
  {
    if sectorSize == 0 then 4096 else sectorSize
  }

  /** The address a request will get, if any. */
  ghost function FirstFit(chunks: seq<Chunk>, occupied: seq<Range>, sectorSize: nat, size: nat, bgType: bv64): Option<nat> {
    if chunks == [] then None
    else
      var c, sector := chunks[TargetChunk(chunks, bgType)], SectorOr(sectorSize);
      if x: nat :| FitsFirst(c, sector, AlignUp(size, sector), occupied, x) then Some(x) else None
  }

  lemma OneFirst(c: Chunk, sector: nat, aligned: nat, occupied: seq<Range>, x: nat, y: nat)
    requires sector > 0 && FitsFirst(c, sector, aligned, occupied, x) && FitsFirst(c, sector, aligned, occupied, y)
    ensures x == y
  {
  }

  lemma FirstFitIs(chunks: seq<Chunk>, occupied: seq<Range>, sectorSize: nat, size: nat, bgType: bv64, x: nat)
    requires chunks != []
    requires var sector := SectorOr(sectorSize);
             FitsFirst(chunks[TargetChunk(chunks, bgType)], sector, AlignUp(size, sector), occupied, x)
    ensures FirstFit(chunks, occupied, sectorSize, size, bgType) == Some(x)
  {
    hide FitsFirst, TargetChunk, AlignUp;
    var c, sector := chunks[TargetChunk(chunks, bgType)], SectorOr(sectorSize);
    var y := FirstFit(chunks, occupied, sectorSize, size, bgType).value;
    OneFirst(c, sector, AlignUp(size, sector), occupied, x, y);
  }

  /** A first fit resolves to where it lies in its chunk. */
  lemma FitResolves(chunks: seq<Chunk>, devSize: nat, bgType: bv64, sector: nat, aligned: nat, occupied: seq<Range>, x: nat)
    requires chunks != [] && ChunksOk(chunks, devSize) && sector > 0 && aligned > 0
    requires FitsFirst(chunks[TargetChunk(chunks, bgType)], sector, aligned, occupied, x)
    ensures var c := chunks[TargetChunk(chunks, bgType)]; Resolve(chunks, x) == Some(c.physical + (x - c.logical))
  {
    hide TargetChunk, ChunksOk;
    ResolveIn(chunks, devSize, TargetChunk(chunks, bgType), x);
  }

  /**
   allocateSpace over the collected occupied ranges. The result is the lowest candidate that
   collides with none of them and ends inside the chunk, with the address on the device that
   it resolves to; failure means there is none.
   */
  method AllocateSpace(chunks: seq<Chunk>, occupied: seq<Range>, sectorSize: nat, size: nat, bgType: bv64)
    returns (r: Option<(nat, nat)>)
    requires size > 0
    ensures FirstFit(chunks, occupied, sectorSize, size, bgType) == if r.None? then None else Some(r.value.0)
    ensures r.Some? ==>
              var c, sector := chunks[TargetChunk(chunks, bgType)], SectorOr(sectorSize);
              && FitsFirst(c, sector, AlignUp(size, sector), occupied, r.value.0)
              && r.value.1 == c.physical + (r.value.0 - c.logical)
              && forall devSize: nat | ChunksOk(chunks, devSize) :: Resolve(chunks, r.value.0) == Some(r.value.1)
    ensures r.None? && chunks != [] ==>
              var c, sector := chunks[TargetChunk(chunks, bgType)], SectorOr(sectorSize);
              forall x: nat | Candidate(c, sector, x) && x + AlignUp(size, sector) <= c.logical + c.length ::
                !Clear(x, AlignUp(size, sector), occupied)
  {
    if chunks == [] {
      return None;
    }
    var c := chunks[TargetChunk(chunks, bgType)];
    var sorted := SortRanges(occupied);
    var sector := SectorOr(sectorSize);
    var aligned := AlignUp(size, sector);
    var candidate: nat := c.logical;
    var i := 0;
    while i < |sorted|
      invariant 0 <= i <= |sorted|
      invariant Candidate(c, sector, candidate)
      invariant forall j | 0 <= j < i :: !Clash(candidate, aligned, sorted[j])
      invariant forall x: nat | Candidate(c, sector, x) && x < candidate :: !Clear(x, aligned, occupied)
    {
      var occ := sorted[i];
      if occ.logical + occ.length <= candidate {
        i := i + 1;
        continue;
      }
      if occ.logical >= candidate + aligned {
        assert forall j | i <= j < |sorted| :: sorted[j].logical >= occ.logical;
        break;
      }
      var next := AlignUp(occ.logical + occ.length, sector);
      forall x: nat | Candidate(c, sector, x) && x < next ensures !Clear(x, aligned, occupied) {
        if x >= candidate {
          if x >= occ.logical + occ.length {
            AlignUpLeast(occ.logical + occ.length, sector, x);
          }
          assert occ in occupied && Clash(x, aligned, occ);
        }
      }
      candidate := next;
      i := i + 1;
    }
    assert Clear(candidate, aligned, occupied) by {
      forall o | o in occupied ensures !Clash(candidate, aligned, o) {
        assert o in sorted;
      }
    }
    if candidate + aligned <= c.logical + c.length {
      r := Some((candidate, c.physical + (candidate - c.logical)));
      assert FitsFirst(c, sector, aligned, occupied, candidate);
      FirstFitIs(chunks, occupied, sectorSize, size, bgType, candidate);
      forall devSize: nat | ChunksOk(chunks, devSize) ensures Resolve(chunks, candidate) == Some(r.value.1) {
        FitResolves(chunks, devSize, bgType, sector, aligned, occupied, candidate);
      }
    } else {
      r := None;
    }
  }
}
