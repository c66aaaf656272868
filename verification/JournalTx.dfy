/**
 The in-memory transaction over the ext4 device and its journaled commit
 (vfs/journal_writer.go).
 */
module JournalTx {
  import opened Wrappers
  import opened Bytes
  import opened Arith
  import opened Ext4Types
  import opened JournalFormat

  // ----- a flat device seen through dirty blocks -----

  type Blocks = map<nat, seq<byte>>

  ghost predicate BlocksOk(dirty: Blocks, blockSize: nat, devSize: nat) {
    && blockSize > 0 && devSize % blockSize == 0
    && forall b | b in dirty :: |dirty[b]| == blockSize && b * blockSize + blockSize <= devSize
  }

  /** Byte x of the device with the dirty blocks laid over it. */
  function ByteAt(dev: seq<byte>, dirty: Blocks, blockSize: nat, x: nat): byte
    requires blockSize > 0 && x < |dev|
    requires forall b | b in dirty :: |dirty[b]| == blockSize
  {
    DivMod(x, blockSize);
    if x / blockSize in dirty then dirty[x / blockSize][x % blockSize] else dev[x]
  }

  function Overlaid(dev: seq<byte>, dirty: Blocks, blockSize: nat): (v: seq<byte>)
    requires blockSize > 0 && forall b | b in dirty :: |dirty[b]| == blockSize
    ensures |v| == |dev| && forall x | 0 <= x < |dev| :: v[x] == ByteAt(dev, dirty, blockSize, x)
  {
    seq(|dev|, x requires 0 <= x < |dev| => ByteAt(dev, dirty, blockSize, x))
  }

  /** A byte position belongs to exactly one block. */
  lemma BlockOf(x: nat, b: nat, blockSize: nat)
    requires blockSize > 0
    ensures x / blockSize == b <==> b * blockSize <= x < b * blockSize + blockSize
    ensures x / blockSize == b ==> x % blockSize == x - b * blockSize
  {
    DivMod(x, blockSize);
    if b * blockSize <= x < b * blockSize + blockSize {
      DivUnique(x, blockSize, b);
    }
  }

  /** Compared with before, after shows p at off within block blockNum and nothing else new. */
  ghost predicate ShowsPatch(dev: seq<byte>, before: Blocks, after: Blocks, blockSize: nat, blockNum: nat, off: nat, p: seq<byte>)
    requires blockSize > 0
    requires forall b | b in before :: |before[b]| == blockSize
    requires forall b | b in after :: |after[b]| == blockSize
  {
    forall x: nat {:trigger ByteAt(dev, after, blockSize, x)} | x < |dev| ::
      ByteAt(dev, after, blockSize, x)
      == if x / blockSize == blockNum && off <= x < off + |p| then p[x - off] else ByteAt(dev, before, blockSize, x)
  }

  /** Block b holds some of the n bytes at off. */
  ghost predicate Touches(off: nat, n: nat, b: nat, blockSize: nat) {
    n > 0 && b * blockSize < off + n && off < b * blockSize + blockSize
  }

  lemma DivLess(x: nat, b: nat, blockSize: nat)
    requires blockSize > 0
    ensures x < b * blockSize <==> x / blockSize < b
  {
    DivMod(x, blockSize);
    if x / blockSize < b {
      MulMono(x / blockSize + 1, b, blockSize);
      assert (x / blockSize + 1) * blockSize == x / blockSize * blockSize + blockSize;
    } else {
      MulMono(b, x / blockSize, blockSize);
    }
  }

  lemma TouchedBlocks(off: nat, n: nat, blockSize: nat)
    requires n > 0 && blockSize > 0
    ensures forall b: nat :: Touches(off, n, b, blockSize) <==> off / blockSize <= b <= (off + n - 1) / blockSize
  {
    forall b: nat ensures Touches(off, n, b, blockSize) <==> off / blockSize <= b <= (off + n - 1) / blockSize {
      DivLess(off + n - 1, b, blockSize);
      DivLess(off, b + 1, blockSize);
      assert (b + 1) * blockSize == b * blockSize + blockSize;
    }
  }

  /** Where a commit finds the journal. */
  datatype Journal = NoInode | Unreadable | Blocks(extents: seq<Extent>)

  ghost predicate IsJournal(journal: Journal, b: nat) {
    journal.Blocks? && InJournal(journal.extents, b)
  }

  /** A transaction as CommitTransaction put it into the log. */
  datatype LogEntry = LogEntry(pos: u32, maxlen: u32, sequence: u32, order: seq<nat>, dirty: Blocks, desc: seq<byte>, commit: seq<byte>) {
    ghost predicate In(dev: seq<byte>, extents: seq<Extent>, blockSize: nat) {
      Logged(dev, extents, blockSize, pos, maxlen, sequence, order, dirty, desc, commit)
    }
  }

  /** The journal has a block on the device at this position. */
  ghost predicate PosOk(extents: seq<Extent>, blockSize: nat, devSize: nat, pos: u32) {
    FindPhysicalBlock(extents, pos).Some? && OnDevice(FindPhysicalBlock(extents, pos).value, blockSize, devSize)
  }

  /** So has it for the descriptor, n data blocks and the commit block of a transaction. */
  ghost predicate AllPosOk(extents: seq<Extent>, blockSize: nat, devSize: nat, pos0: u32, maxlen: u32, n: nat) {
    forall i: nat | i <= n + 1 :: PosOk(extents, blockSize, devSize, AdvanceBy(pos0, maxlen, i))
  }

  // The journal superblock's fields.

  predicate HasMagic(jsb: seq<byte>)
    requires |jsb| >= 24
  {
    Get32(jsb[0..4]) == JBD2_MAGIC || Get32(jsb[0..4]) == JBD2_MAGIC_OLD
  }

  function Sequence(jsb: seq<byte>): u32
    requires |jsb| >= 24
  {
    Get32(jsb[12..16])
  }

  function MaxLen(jsb: seq<byte>): u32
    requires |jsb| >= 24
  {
    Get32(jsb[20..24])
  }

  /** Where the next transaction goes. */
  function StartPos(jsb: seq<byte>): u32
    requires |jsb| >= 24
  {
    var start := Get32(jsb[16..20]);
    if start == 0 || start > MaxLen(jsb) then 1 else start
  }

  lemma SuperFields(jsb: seq<byte>)
    requires |jsb| >= 24
    ensures HasMagic(jsb) <==> Le32(jsb, 0) == 0xC03B_3998 || Le32(jsb, 0) == 0xC03B_3999
    ensures Sequence(jsb) == Le32(jsb, 12) && MaxLen(jsb) == Le32(jsb, 20)
    ensures var start := Le32(jsb, 16); StartPos(jsb) == if start == 0 || start > Le32(jsb, 20) then 1 else start
  {
    hide Get32;
    Get32Is(jsb, 0);
    Get32Is(jsb, 12);
    Get32Is(jsb, 16);
    Get32Is(jsb, 20);
  }

  /**
   The superblock s is jsb after a transaction of n blocks: the number one higher, the start behind
   the commit block, everything else as it was.
   */
  ghost predicate MovedOn(jsb: seq<byte>, s: seq<byte>, n: nat) {
    && |jsb| == |s| >= 24
    && Le32(s, 12) == (Le32(jsb, 12) + 1) % 0x1_0000_0000
    && var start, maxlen := Le32(jsb, 16), Le32(jsb, 20);
       && Le32(s, 16) == AdvanceBy(if start == 0 || start > maxlen then 1 else start, maxlen, n + 2)
       && Le32(s, 20) == maxlen
       && forall i | 0 <= i < |s| && !(12 <= i < 20) :: s[i] == jsb[i]
  }

  /** Block b lies on the device. */
  ghost predicate OnDevice(b: nat, blockSize: nat, devSize: nat) {
    b * blockSize + blockSize <= devSize
  }

  /** The devices agree on block b. */
  ghost predicate SameBlock(d0: seq<byte>, d1: seq<byte>, b: nat, blockSize: nat) {
    |d0| == |d1| && (OnDevice(b, blockSize, |d0|) ==> BlockAt(d0, b, blockSize) == BlockAt(d1, b, blockSize))
  }

  class Volume {
    const blockSize: nat
    var dev: seq<byte>
    /** Whether fs.dev is a TxDevice, and its dirty blocks. */
    var active: bool
    var dirty: Blocks

    ghost predicate Valid()
      reads this
    {
      BlocksOk(dirty, blockSize, |dev|) && (!active ==> dirty == map[])
    }

    /** What readers see: the device, overlaid while a transaction is open. */
    ghost function View(): seq<byte>
      requires Valid()
      reads this
    {
      Overlaid(dev, dirty, blockSize)
    }

    constructor (dev: seq<byte>, blockSize: nat)
      requires blockSize > 0 && |dev| % blockSize == 0
      ensures Valid() && View() == dev && this.dev == dev && !active && this.blockSize == blockSize
    {
      this.dev, this.blockSize, this.active, this.dirty := dev, blockSize, false, map[];
    }

    method BeginTransaction()
      requires Valid()
      modifies this`active, this`dirty
      ensures Valid() && active && View() == old(View())
      ensures dirty == if old(active) then old(dirty) else map[]
    {
      if active {
        return;
      }
      active, dirty := true, map[];
    }

    /** The device is as it was at Begin, since only dirty blocks took the writes. */
    method RollbackTransaction()
      requires Valid()
      modifies this`active, this`dirty
      ensures Valid() && !active && View() == dev
    {
      active, dirty := false, map[];
    }

    /** TxDevice.ReadAt, for any iteration order over the dirty blocks. */
    method ReadAt(off: nat, len: nat) returns (p: seq<byte>)
      requires Valid()
      ensures p == View()[Min(off, |dev|)..Min(off + len, |dev|)]
    {
      hide ByteAt;
      p := dev[Min(off, |dev|)..Min(off + len, |dev|)];
      var readEnd := off + |p|;
      var rest := dirty.Keys;
      NoneDirty(dev, blockSize);
      assert dirty - rest == map[];
      while rest != {}
        invariant rest <= dirty.Keys
        invariant |p| == Min(off + len, |dev|) - Min(off, |dev|)
        invariant forall k | 0 <= k < |p| :: p[k] == ByteAt(dev, dirty - rest, blockSize, off + k)
        decreases rest
      {
        var b :| b in rest;
        p := LayOver(p, off, b, dirty - rest);
        assert dirty - (rest - {b}) == (dirty - rest)[b := dirty[b]];
        rest := rest - {b};
      }
      assert dirty - rest == dirty;
    }

    static lemma NoneDirty(dev: seq<byte>, blockSize: nat)
      requires blockSize > 0
      ensures forall x | 0 <= x < |dev| :: ByteAt(dev, map[], blockSize, x) == dev[x]
    {
    }

    /** One turn of ReadAt's loop: block b is copied over the part of the buffer it covers. */
    method LayOver(q: seq<byte>, off: nat, b: nat, ghost seen: Blocks) returns (p: seq<byte>)
      requires Valid() && b in dirty && (q == [] || off + |q| <= |dev|)
      requires (forall c | c in seen :: |seen[c]| == blockSize)
      requires forall k | 0 <= k < |q| :: q[k] == ByteAt(dev, seen, blockSize, off + k)
      ensures |p| == |q|
      ensures forall k | 0 <= k < |p| :: p[k] == ByteAt(dev, seen[b := dirty[b]], blockSize, off + k)
    {
      var blockStart := b * blockSize;
      var blockEnd := blockStart + blockSize;
      var lo, hi := Max(off, blockStart), Min(off + |q|, blockEnd);
      p := q;
      if lo < hi {
        p := q[..lo - off] + dirty[b][lo - blockStart..hi - blockStart] + q[hi - off..];
      }
      forall k | 0 <= k < |p| ensures p[k] == ByteAt(dev, seen[b := dirty[b]], blockSize, off + k) {
        BlockOf(off + k, b, blockSize);
      }
    }

    /** TxDevice.WriteAt: the write goes to dirty copies of the blocks it touches. */
    method WriteAt(p: seq<byte>, off: nat)
      requires Valid() && active && off + |p| <= |dev|
      modifies this`dirty
      ensures Valid() && View() == Overwrite(old(View()), off, p)
      ensures forall b: nat :: b in dirty <==> b in old(dirty) || Touches(off, |p|, b, blockSize)
    {
      hide ByteAt, Overwrite, Overlaid, PatchedTo, ShowsPatch;
      if |p| == 0 {
        OverwriteNothing(View(), off, p);
        assert forall b: nat :: !Touches(off, |p|, b, blockSize);
        return;
      }
      var writeEnd := off + |p|;
      var startBlock, endBlock := off / blockSize, (writeEnd - 1) / blockSize;
      DivMono(off, writeEnd - 1, blockSize);
      ghost var v := View();
      var blockNum := startBlock;
      PatchedFrom(v, off, p, startBlock);
      while blockNum <= endBlock
        invariant startBlock <= blockNum <= endBlock + 1 && BlocksOk(dirty, blockSize, |dev|)
        invariant forall b: nat :: b in dirty <==> b in old(dirty) || startBlock <= b < blockNum
        invariant PatchedTo(dev, dirty, blockSize, blockNum, off, p, v)
        decreases endBlock + 1 - blockNum
      {
        BlockStarts(blockNum, off, writeEnd);
        ghost var before := dirty;
        WriteBlock(p, off, blockNum);
        PatchedNext(dev, before, dirty, blockSize, blockNum, off, p, v);
        blockNum := blockNum + 1;
      }
      PatchedWhole(v, off, p, blockNum);
      TouchedBlocks(off, |p|, blockSize);
    }

    /** The blocks below blockNum show the write, the others the view v from before. */
    static ghost predicate PatchedTo(dev: seq<byte>, dirty: Blocks, blockSize: nat, blockNum: nat, off: nat, p: seq<byte>, v: seq<byte>)
      requires BlocksOk(dirty, blockSize, |dev|)
    {
      |v| == |dev| && forall x: nat {:trigger ByteAt(dev, dirty, blockSize, x)} | x < |dev| ::
        ByteAt(dev, dirty, blockSize, x) == if off <= x < off + |p| && x / blockSize < blockNum then p[x - off] else v[x]
    }

    lemma PatchedFrom(v: seq<byte>, off: nat, p: seq<byte>, start: nat)
      requires Valid() && v == View() && p != [] && start == off / blockSize
      ensures PatchedTo(dev, dirty, blockSize, start, off, p, v)
    {
      hide ByteAt;
      forall x: nat | x < |dev| ensures ByteAt(dev, dirty, blockSize, x) == if off <= x < off + |p| && x / blockSize < start then p[x - off] else v[x] {
        DivMono(off, x, blockSize);
      }
    }

    static lemma PatchedNext(dev: seq<byte>, before: Blocks, after: Blocks, blockSize: nat, blockNum: nat, off: nat, p: seq<byte>, v: seq<byte>)
      requires BlocksOk(before, blockSize, |dev|) && BlocksOk(after, blockSize, |dev|)
      requires PatchedTo(dev, before, blockSize, blockNum, off, p, v) && ShowsPatch(dev, before, after, blockSize, blockNum, off, p)
      ensures PatchedTo(dev, after, blockSize, blockNum + 1, off, p, v)
    {
      hide ByteAt;
    }

    lemma PatchedWhole(v: seq<byte>, off: nat, p: seq<byte>, blockNum: nat)
      requires Valid() && p != [] && off + |p| <= |dev| && blockNum > (off + |p| - 1) / blockSize
      requires PatchedTo(dev, dirty, blockSize, blockNum, off, p, v)
      ensures View() == Overwrite(v, off, p)
    {
      hide ByteAt, Overwrite;
      var w := View();
      forall x: nat | x < |v| ensures w[x] == if off <= x < off + |p| then p[x - off] else v[x] {
        DivMono(x, off + |p| - 1, blockSize);
        assert w[x] == ByteAt(dev, dirty, blockSize, x);
      }
      OverwriteIs(v, off, p, w);
    }

    static lemma OverwriteNothing(v: seq<byte>, off: nat, p: seq<byte>)
      requires off <= |v| && p == []
      ensures Overwrite(v, off, p) == v
    {
    }

    static lemma OverwriteIs(v: seq<byte>, off: nat, p: seq<byte>, w: seq<byte>)
      requires off + |p| <= |v| == |w| && forall x | 0 <= x < |v| :: w[x] == if off <= x < off + |p| then p[x - off] else v[x]
      ensures w == Overwrite(v, off, p)
    {
    }

    lemma BlockStarts(b: nat, off: nat, writeEnd: nat)
      requires BlocksOk(dirty, blockSize, |dev|) && off < writeEnd <= |dev|
      requires off / blockSize <= b <= (writeEnd - 1) / blockSize
      ensures b * blockSize < writeEnd && b * blockSize + blockSize <= |dev| && off < b * blockSize + blockSize
    {
      DivMod(writeEnd - 1, blockSize);
      DivMod(off, blockSize);
      MulMono(b, (writeEnd - 1) / blockSize, blockSize);
      MulMono(off / blockSize, b, blockSize);
      BlockInside(|dev|, blockSize, b);
    }

    /** One turn of WriteAt's loop: read the block unless it is dirty, then patch it. */
    method WriteBlock(p: seq<byte>, off: nat, blockNum: nat)
      requires BlocksOk(dirty, blockSize, |dev|) && p != []
      requires blockNum * blockSize + blockSize <= |dev|
      requires off < blockNum * blockSize + blockSize && blockNum * blockSize < off + |p|
      modifies this`dirty
      ensures BlocksOk(dirty, blockSize, |dev|) && dirty.Keys == old(dirty.Keys) + {blockNum}
      ensures ShowsPatch(dev, old(dirty), dirty, blockSize, blockNum, off, p)
    {
      hide ByteAt, ShowsPatch;
      var blockStart := blockNum * blockSize;
      var blockEnd := blockStart + blockSize;
      var blockData := if blockNum in dirty then dirty[blockNum] else dev[blockStart..blockEnd];
      var lo, hi := Max(off, blockStart), Min(off + |p|, blockEnd);
      ghost var before := dirty;
      var patched := blockData[..lo - blockStart] + p[lo - off..hi - off] + blockData[hi - blockStart..];
      dirty := dirty[blockNum := patched];
      PatchedBytes(blockData, p, off, blockStart, lo, hi, patched);
      PatchShows(dev, before, blockNum, blockStart, blockSize, off, p, blockData, patched);
    }

    static lemma PatchedBytes(blockData: seq<byte>, p: seq<byte>, off: nat, blockStart: nat, lo: nat, hi: nat, patched: seq<byte>)
      requires lo == Max(off, blockStart) && hi == Min(off + |p|, blockStart + |blockData|) && lo < hi
      requires patched == blockData[..lo - blockStart] + p[lo - off..hi - off] + blockData[hi - blockStart..]
      ensures |patched| == |blockData|
      ensures forall i | 0 <= i < |blockData| ::
                patched[i] == if off <= blockStart + i < off + |p| then p[blockStart + i - off] else blockData[i]
    {
    }

    static lemma PatchShows(dev: seq<byte>, before: Blocks, blockNum: nat, blockStart: nat, blockSize: nat, off: nat,
                            p: seq<byte>, blockData: seq<byte>, patched: seq<byte>)
      requires blockSize > 0 && blockStart == blockNum * blockSize && blockStart + blockSize <= |dev|
      requires forall b | b in before :: |before[b]| == blockSize
      requires blockData == if blockNum in before then before[blockNum] else dev[blockStart..blockStart + blockSize]
      requires |patched| == blockSize
      requires forall i | 0 <= i < blockSize ::
                 patched[i] == if off <= blockStart + i < off + |p| then p[blockStart + i - off] else blockData[i]
      ensures ShowsPatch(dev, before, before[blockNum := patched], blockSize, blockNum, off, p)
    {
      forall x: nat | x < |dev|
        ensures ByteAt(dev, before[blockNum := patched], blockSize, x)
             == if x / blockSize == blockNum && off <= x < off + |p| then p[x - off] else ByteAt(dev, before, blockSize, x)
      {
        BlockOf(x, blockNum, blockSize);
      }
    }

    // ----- commit -----

    /** writeDirtyBlocksDirectly, for any iteration order. */
    method WriteDirtyBlocksDirectly(blocks: Blocks)
      requires BlocksOk(blocks, blockSize, |dev|)
      modifies this`dev
      ensures |dev| == old(|dev|)
      ensures forall b | b in blocks :: BlockAt(dev, b, blockSize) == blocks[b]
      ensures forall b: nat | b !in blocks :: SameBlock(old(dev), dev, b, blockSize)
    {
      var rest := blocks.Keys;
      while rest != {}
        invariant rest <= blocks.Keys && |dev| == old(|dev|)
        invariant forall b | b in blocks && b !in rest :: BlockAt(dev, b, blockSize) == blocks[b]
        invariant forall b: nat | b !in blocks :: SameBlock(old(dev), dev, b, blockSize)
        decreases rest
      {
        hide BlockAt;
        var b :| b in rest;
        ghost var d0 := dev;
        dev := Overwrite(dev, b * blockSize, blocks[b]);
        WriteShowsAll(d0, b, blocks[b]);
        rest := rest - {b};
      }
    }

    lemma WriteShowsAll(d0: seq<byte>, a: nat, data: seq<byte>)
      requires |data| == blockSize && a * blockSize + blockSize <= |d0|
      ensures forall b: nat | OnDevice(b, blockSize, |d0|) ::
                BlockAt(Overwrite(d0, a * blockSize, data), b, blockSize) == if a == b then data else BlockAt(d0, b, blockSize)
    {
      forall b: nat | OnDevice(b, blockSize, |d0|)
        ensures BlockAt(Overwrite(d0, a * blockSize, data), b, blockSize) == if a == b then data else BlockAt(d0, b, blockSize)
      {
        WriteShows(d0, a, data, blockSize, b);
      }
    }

    /** The loop that fills the descriptor and copies and escapes the data, in any order. */
    method Describe(blocks: Blocks, sequence: u32) returns (desc: seq<byte>, datas: seq<seq<byte>>, ghost order: seq<nat>)
      requires forall b | b in blocks :: |blocks[b]| == blockSize
      requires HEADER_SIZE + TAG_SIZE * |blocks| <= blockSize
      ensures |desc| == blockSize && Describes(desc, sequence, order, blocks)
      ensures |order| == |blocks| && forall b :: b in blocks <==> b in order
      ensures |datas| == |order| && forall i | 0 <= i < |order| :: datas[i] == Escaped(blocks[order[i]])
    {
      hide Put, Tag, TagFlags, BlockHeader, Escaped;
      var descBuf := new byte[blockSize](_ => 0);
      PutBytes(descBuf, 0, BlockHeader(JBD2_DESCRIPTOR, sequence));
      datas, order := [], [];
      var rest := blocks.Keys;
      var off := HEADER_SIZE;
      while rest != {}
        invariant rest <= blocks.Keys && |order| + |rest| == |blocks| && |datas| == |order|
        invariant off == HEADER_SIZE + TAG_SIZE * |order|
        invariant forall b :: b in blocks && b !in rest <==> b in order
        invariant Describes(descBuf[..], sequence, order, blocks)
        invariant forall i | 0 <= i < |order| :: datas[i] == Escaped(blocks[order[i]])
        decreases rest
      {
        var b :| b in rest;
        ghost var d0 := descBuf[..];
        var flags := TagFlags(blocks[b], |datas| == |blocks| - 1);
        PutBytes(descBuf, off, Tag(b, flags));
        TagAdded(d0, descBuf[..], sequence, order, blocks, b);
        datas := datas + [Escaped(blocks[b])];
        order := order + [b];
        off := off + TAG_SIZE;
        rest := rest - {b};
      }
      desc := descBuf[..];
    }

    static lemma TagAdded(d0: seq<byte>, d1: seq<byte>, sequence: u32, order: seq<nat>, blocks: Blocks, b: nat)
      requires Describes(d0, sequence, order, blocks) && b in blocks && |d0| == |d1|
      requires var off := HEADER_SIZE + TAG_SIZE * |order|;
               && Holds(d1, off, Tag(b, TagFlags(blocks[b], |order| == |blocks| - 1)))
               && forall i | 0 <= i < |d0| && !(off <= i < off + TAG_SIZE) :: d1[i] == d0[i]
      ensures Describes(d1, sequence, order + [b], blocks)
    {
      hide Put, Tag, TagFlags, BlockHeader;
      var off := HEADER_SIZE + TAG_SIZE * |order|;
      StillHolds(d0, d1, off, TAG_SIZE, 0, BlockHeader(JBD2_DESCRIPTOR, sequence));
      forall i | 0 <= i < |order|
        ensures Holds(d1, HEADER_SIZE + TAG_SIZE * i, Tag(order[i], TagFlags(blocks[order[i]], i == |blocks| - 1)))
      {
        StillHolds(d0, d1, off, TAG_SIZE, HEADER_SIZE + TAG_SIZE * i, Tag(order[i], TagFlags(blocks[order[i]], i == |blocks| - 1)));
      }
    }

    /** One write to a journal position. */
    method WriteJournal(extents: seq<Extent>, pos: u32, data: seq<byte>) returns (ok: bool)
      requires |data| == blockSize
      modifies this`dev
      ensures |dev| == old(|dev|) && (!ok ==> dev == old(dev))
      ensures ok <==> PosOk(extents, blockSize, |dev|, pos)
      ensures ok ==> AtPosition(dev, extents, blockSize, pos, data)
      ensures forall b: nat | FindPhysicalBlock(extents, pos) != Some(b) :: SameBlock(old(dev), dev, b, blockSize)
    {
      hide FindPhysicalBlock, BlockAt;
      var phys := FindPhysicalBlock(extents, pos);
      if phys.None? || phys.value * blockSize + blockSize > |dev| {
        return false;
      }
      ghost var d0 := dev;
      dev := Overwrite(dev, phys.value * blockSize, data);
      WriteShowsAll(d0, phys.value, data);
      assert OnDevice(phys.value, blockSize, |dev|);
      ok := true;
    }

    /** What stands at one position stays while another is written. */
    static lemma PositionKept(d0: seq<byte>, d1: seq<byte>, extents: seq<Extent>, blockSize: nat, p: u32, q: u32, data: seq<byte>)
      requires AtPosition(d0, extents, blockSize, p, data) && |d0| == |d1| && p != q && OneToOne(extents)
      requires forall b: nat | FindPhysicalBlock(extents, q) != Some(b) :: SameBlock(d0, d1, b, blockSize)
      ensures AtPosition(d1, extents, blockSize, p, data)
    {
      hide FindPhysicalBlock, BlockAt;
      var b := FindPhysicalBlock(extents, p).value;
      assert FindPhysicalBlock(extents, q) != Some(b);
      assert OnDevice(b, blockSize, |d0|);
    }

    /** The journal has a block of its own for each of the n + 2 positions of a transaction. */
    static ghost predicate Roomy(extents: seq<Extent>, pos0: u32, maxlen: u32, n: nat) {
      OneToOne(extents) && 1 <= pos0 <= maxlen < 0xFFFF_FFFF && n + 2 <= maxlen
    }

    /** Descriptor block, data blocks, commit block. */
    method WriteLog(extents: seq<Extent>, blocks: Blocks, pos0: u32, maxlen: u32, sequence: u32, now: u64)
      returns (ok: bool, pos: u32, ghost order: seq<nat>, ghost desc: seq<byte>, ghost commit: seq<byte>)
      requires blockSize >= 1024 && HEADER_SIZE + TAG_SIZE * |blocks| <= blockSize
      requires forall b | b in blocks :: |blocks[b]| == blockSize
      modifies this`dev
      ensures |dev| == old(|dev|)
      ensures forall b: nat | !InJournal(extents, b) :: SameBlock(old(dev), dev, b, blockSize)
      ensures ok <==> AllPosOk(extents, blockSize, |dev|, pos0, maxlen, |blocks|)
      ensures ok ==> pos == AdvanceBy(pos0, maxlen, |blocks| + 1) && |commit| >= 24 && Le64(commit, 16) == now
      ensures ok && Roomy(extents, pos0, maxlen, |blocks|) ==>
                Logged(dev, extents, blockSize, pos0, maxlen, sequence, order, blocks, desc, commit)
    {
      hide FindPhysicalBlock, BlockAt, Put, BlockHeader, Describes, OneToOne, AtPosition, InJournal, SameBlock, Escaped, Holds, PosOk;
      ghost var was := dev;
      var datas;
      desc, commit, pos := [], [], pos0;
      var d;
      d, datas, order := Describe(blocks, sequence);
      desc := d;
      ok := WriteJournal(extents, pos, d);
      OnlyJournal(was, was, dev, extents, pos);
      assert AdvanceBy(pos0, maxlen, 0) == pos0;
      if !ok {
        return;
      }
      for i := 0 to |datas|
        invariant |dev| == old(|dev|) && pos == AdvanceBy(pos0, maxlen, i)
        invariant forall j: nat | j <= i :: PosOk(extents, blockSize, |dev|, AdvanceBy(pos0, maxlen, j))
        invariant forall b: nat | !InJournal(extents, b) :: SameBlock(old(dev), dev, b, blockSize)
        invariant Roomy(extents, pos0, maxlen, |blocks|) ==> LoggedUpTo(extents, pos0, maxlen, desc, datas, i)
      {
        ghost var d0 := dev;
        pos := Advance(pos, maxlen);
        ok := WriteJournal(extents, pos, datas[i]);
        OnlyJournal(was, d0, dev, extents, pos);
        assert pos == AdvanceBy(pos0, maxlen, i + 1);
        if !ok {
          return;
        }
        if Roomy(extents, pos0, maxlen, |blocks|) {
          OneMore(d0, extents, pos0, maxlen, desc, datas, i);
        }
      }
      pos := Advance(pos, maxlen);
      var c := CommitBlock(sequence, now);
      commit := c;
      ghost var d0 := dev;
      ok := WriteJournal(extents, pos, c);
      assert pos == AdvanceBy(pos0, maxlen, |datas| + 1);
      OnlyJournal(was, d0, dev, extents, pos);
      if ok && Roomy(extents, pos0, maxlen, |blocks|) {
        AllKept(d0, extents, pos0, maxlen, desc, datas, |datas|);
      }
    }

    /** A write at a journal position leaves the blocks outside the journal alone. */
    lemma OnlyJournal(d0: seq<byte>, d1: seq<byte>, d2: seq<byte>, extents: seq<Extent>, pos: u32)
      requires d1 == d0 || forall b: nat | !InJournal(extents, b) :: SameBlock(d0, d1, b, blockSize)
      requires forall b: nat | FindPhysicalBlock(extents, pos) != Some(b) :: SameBlock(d1, d2, b, blockSize)
      ensures forall b: nat | !InJournal(extents, b) :: SameBlock(d0, d2, b, blockSize)
    {
      hide FindPhysicalBlock, BlockAt;
      forall b: nat | !InJournal(extents, b) ensures SameBlock(d0, d2, b, blockSize) {
        assert FindPhysicalBlock(extents, pos) != Some(b);
      }
    }

    method CommitBlock(sequence: u32, now: u64) returns (c: seq<byte>)
      requires blockSize >= 1024
      ensures |c| == blockSize && Holds(c, 0, BlockHeader(JBD2_COMMIT, sequence)) && Le64(c, 16) == now
      ensures forall k | 12 <= k < |c| && !(16 <= k < 24) :: c[k] == 0
    {
      hide Put, BlockHeader, Get64;
      var buf := new byte[blockSize](_ => 0);
      PutBytes(buf, 0, BlockHeader(JBD2_COMMIT, sequence));
      ghost var b0 := buf[..];
      PutBytes(buf, 16, Put(now, 8));
      c := buf[..];
      StillHolds(b0, c, 16, 8, 0, BlockHeader(JBD2_COMMIT, sequence));
      assert c[16..24] == Put(now, 8);
      GetPutFixed(now);
      Get64Is(c, 16);
    }

    /** Descriptor and the first i data blocks stand in the log. */
    ghost predicate LoggedUpTo(extents: seq<Extent>, pos0: u32, maxlen: u32, desc: seq<byte>, datas: seq<seq<byte>>, i: nat)
      requires i <= |datas|
      reads this
    {
      && AtPosition(dev, extents, blockSize, pos0, desc)
      && forall j | 0 <= j < i :: AtPosition(dev, extents, blockSize, AdvanceBy(pos0, maxlen, j + 1), datas[j])
    }

    /** What stood in the log on device d0 still stands after a write at the next position. */
    lemma AllKept(d0: seq<byte>, extents: seq<Extent>, pos0: u32, maxlen: u32, desc: seq<byte>, datas: seq<seq<byte>>, i: nat)
      requires i <= |datas| && Roomy(extents, pos0, maxlen, |datas|) && |d0| == |dev|
      requires AtPosition(d0, extents, blockSize, pos0, desc)
      requires forall j | 0 <= j < i :: AtPosition(d0, extents, blockSize, AdvanceBy(pos0, maxlen, j + 1), datas[j])
      requires forall b: nat | FindPhysicalBlock(extents, AdvanceBy(pos0, maxlen, i + 1)) != Some(b) ::
                 SameBlock(d0, dev, b, blockSize)
      ensures LoggedUpTo(extents, pos0, maxlen, desc, datas, i)
    {
      hide FindPhysicalBlock, BlockAt, SameBlock, OneToOne, AtPosition;
      var q := AdvanceBy(pos0, maxlen, i + 1);
      AdvanceDistinct(pos0, maxlen, 0, i + 1);
      PositionKept(d0, dev, extents, blockSize, pos0, q, desc);
      forall j | 0 <= j < i ensures AtPosition(dev, extents, blockSize, AdvanceBy(pos0, maxlen, j + 1), datas[j]) {
        AdvanceDistinct(pos0, maxlen, j + 1, i + 1);
        PositionKept(d0, dev, extents, blockSize, AdvanceBy(pos0, maxlen, j + 1), q, datas[j]);
      }
    }

    lemma OneMore(d0: seq<byte>, extents: seq<Extent>, pos0: u32, maxlen: u32, desc: seq<byte>, datas: seq<seq<byte>>, i: nat)
      requires i < |datas| && Roomy(extents, pos0, maxlen, |datas|) && |d0| == |dev|
      requires AtPosition(d0, extents, blockSize, pos0, desc)
      requires forall j | 0 <= j < i :: AtPosition(d0, extents, blockSize, AdvanceBy(pos0, maxlen, j + 1), datas[j])
      requires forall b: nat | FindPhysicalBlock(extents, AdvanceBy(pos0, maxlen, i + 1)) != Some(b) ::
                 SameBlock(d0, dev, b, blockSize)
      requires AtPosition(dev, extents, blockSize, AdvanceBy(pos0, maxlen, i + 1), datas[i])
      ensures LoggedUpTo(extents, pos0, maxlen, desc, datas, i + 1)
    {
      AllKept(d0, extents, pos0, maxlen, desc, datas, i);
    }

    /** The journal superblock, if it can be read. */
    ghost function Super(journal: Journal): Option<seq<byte>>
      reads this
    {
      if journal.Blocks? && PosOk(journal.extents, blockSize, |dev|, 0)
      then Some(BlockAt(dev, FindPhysicalBlock(journal.extents, 0).value, blockSize)) else None
    }

    /** Seen before a commit: it will log the transaction. */
    ghost predicate Logs(journal: Journal)
      requires blockSize >= 1024
      reads this
    {
      && dirty != map[] && Super(journal).Some? && HasMagic(Super(journal).value)
      && HEADER_SIZE + TAG_SIZE * |dirty| <= blockSize
      && AllPosOk(journal.extents, blockSize, |dev|, StartPos(Super(journal).value), MaxLen(Super(journal).value), |dirty|)
    }

    /** Seen before a commit: there is nothing to log, or no journal to log it in. */
    ghost predicate SkipsLog(journal: Journal)
      requires blockSize >= 1024
      reads this
    {
      dirty == map[] || journal.NoInode? || (Super(journal).Some? && !HasMagic(Super(journal).value))
    }

    /**
     CommitTransaction. It succeeds exactly if the transaction is logged or need not be. Then every
     dirty block, and every block outside the journal, is what readers saw in the transaction, and
     the log holds the whole transaction, behind a journal superblock moved on, if it is logged in a
     roomy journal that it does not itself write to. On failure only the journal changed, and the
     transaction is gone. More tags than the descriptor block holds stop the program before it
     writes anything, which counts as a failure.
     */
    method CommitTransaction(journal: Journal, now: u64) returns (ok: bool, ghost logged: Option<LogEntry>)
      requires Valid() && blockSize >= 1024
      modifies this
      ensures Valid() && !active && |dev| == old(|dev|)
      ensures logged.Some? <==> old(Logs(journal))
      ensures ok <==> old(Logs(journal) || SkipsLog(journal))
      ensures ok ==> forall b: nat | b in old(dirty) || !IsJournal(journal, b) :: SameBlock(old(View()), dev, b, blockSize)
      ensures !ok ==> forall b: nat | !IsJournal(journal, b) :: SameBlock(old(dev), dev, b, blockSize)
      ensures logged.Some? ==>
                var jsb := old(Super(journal)).value;
                && |logged.value.commit| >= 24 && Le64(logged.value.commit, 16) == now
                && logged.value.dirty == old(dirty) && logged.value.sequence == Sequence(jsb)
                && logged.value.pos == StartPos(jsb) && logged.value.maxlen == MaxLen(jsb)
                && (Roomy(journal.extents, StartPos(jsb), MaxLen(jsb), |old(dirty)|)
                    && (forall b | b in old(dirty) :: !IsJournal(journal, b)) ==>
                      && logged.value.In(dev, journal.extents, blockSize)
                      && AtPosition(dev, journal.extents, blockSize, 0, NextSuper(jsb, |old(dirty)|))
                      && MovedOn(jsb, NextSuper(jsb, |old(dirty)|), |old(dirty)|))
      ensures ok && logged.None? ==> forall b: nat | b !in old(dirty) :: SameBlock(old(dev), dev, b, blockSize)
    {
      hide FindPhysicalBlock, BlockAt, Put, BlockHeader, Describes, OneToOne, AtPosition, ByteAt, Roomy, Logged, AllPosOk, NextSuper,
           StartPos, MaxLen, Sequence, MovedOn;
      logged := None;
      var blocks := dirty;
      ViewBlocks();
      active, dirty := false, map[];
      if |blocks| == 0 {
        return true, None;
      }
      if journal.NoInode? {
        WriteDirtyBlocksDirectly(blocks);
        return true, None;
      }
      if journal.Unreadable? {
        return false, None;
      }
      var extents := journal.extents;
      var jsbBlock := FindPhysicalBlock(extents, 0);
      if jsbBlock.None? || jsbBlock.value * blockSize + blockSize > |dev| {
        return false, None;
      }
      var jsbBuf := BlockAt(dev, jsbBlock.value, blockSize);
      var magic := Get32(jsbBuf[0..4]);
      if magic != JBD2_MAGIC && magic != JBD2_MAGIC_OLD {
        WriteDirtyBlocksDirectly(blocks);
        return true, None;
      }
      if HEADER_SIZE + TAG_SIZE * |blocks| > blockSize {
        return false, None;
      }
      NextMovedOn(jsbBuf, |blocks|);
      ok, logged := LogAndWrite(extents, jsbBuf, blocks, now);
    }

    /** Steps 3 to 7 of CommitTransaction: log, journal superblock, write-back. */
    method LogAndWrite(extents: seq<Extent>, jsbBuf: seq<byte>, blocks: Blocks, now: u64)
      returns (ok: bool, ghost logged: Option<LogEntry>)
      requires BlocksOk(blocks, blockSize, |dev|) && blockSize >= 1024 && HEADER_SIZE + TAG_SIZE * |blocks| <= blockSize
      requires |jsbBuf| == blockSize && PosOk(extents, blockSize, |dev|, 0)
      modifies this`dev
      ensures |dev| == old(|dev|) && (ok <==> logged.Some?)
      ensures ok <==> AllPosOk(extents, blockSize, |dev|, StartPos(jsbBuf), MaxLen(jsbBuf), |blocks|)
      ensures ok ==> forall b | b in blocks :: BlockAt(dev, b, blockSize) == blocks[b]
      ensures forall b: nat | (!ok || b !in blocks) && !InJournal(extents, b) :: SameBlock(old(dev), dev, b, blockSize)
      ensures ok ==>
                && |logged.value.commit| >= 24 && Le64(logged.value.commit, 16) == now
                && logged.value.dirty == blocks && logged.value.sequence == Sequence(jsbBuf)
                && logged.value.pos == StartPos(jsbBuf) && logged.value.maxlen == MaxLen(jsbBuf)
      ensures ok && Roomy(extents, StartPos(jsbBuf), MaxLen(jsbBuf), |blocks|) && (forall b | b in blocks :: !InJournal(extents, b)) ==>
                && logged.value.In(dev, extents, blockSize)
                && AtPosition(dev, extents, blockSize, 0, NextSuper(jsbBuf, |blocks|))
    {
      hide FindPhysicalBlock, BlockAt, Put, BlockHeader, Describes, OneToOne, AtPosition, Logged, PatchSuper, PosOk, AllPosOk;
      logged := None;
      var sequence, start, maxlen := Get32(jsbBuf[12..16]), Get32(jsbBuf[16..20]), Get32(jsbBuf[20..24]);
      var pos0 := if start == 0 || start > maxlen then 1 else start;
      var pos;
      ghost var order, desc, commit;
      ok, pos, order, desc, commit := WriteLog(extents, blocks, pos0, maxlen, sequence, now);
      if !ok {
        return;
      }
      var next := Advance(pos, maxlen);
      ghost var dev1, super := dev, PatchSuper(jsbBuf, sequence, next);
      ok := WriteJournal(extents, 0, PatchSuper(jsbBuf, sequence, next));
      ghost var dev2 := dev;
      WriteDirtyBlocksDirectly(blocks);
      StillSame(old(dev), dev1, dev2, dev, extents, blocks, blockSize);
      logged := Some(LogEntry(pos0, maxlen, sequence, order, blocks, desc, commit));
      if Roomy(extents, pos0, maxlen, |blocks|) && forall b | b in blocks :: !InJournal(extents, b) {
        LogSurvives(dev1, dev2, dev, extents, logged.value, blockSize);
        SuperSurvives(dev2, dev, extents, super, blockSize);
      }
    }

    /** The journal superblock after a transaction of n blocks. */
    static function NextSuper(jsb: seq<byte>, n: nat): seq<byte>
      requires |jsb| >= 24
    {
      PatchSuper(jsb, Sequence(jsb), Advance(AdvanceBy(StartPos(jsb), MaxLen(jsb), n + 1), MaxLen(jsb)))
    }

    static lemma NextMovedOn(jsb: seq<byte>, n: nat)
      requires |jsb| >= 24
      ensures MovedOn(jsb, NextSuper(jsb, n), n)
    {
      hide Put, Get32, Advance;
      var s, seq1, next := NextSuper(jsb, n), (Sequence(jsb) + 1) % 0x1_0000_0000, AdvanceBy(StartPos(jsb), MaxLen(jsb), n + 2);
      assert s[12..16] == Put(seq1, 4) && s[16..20] == Put(next, 4) && s[20..24] == jsb[20..24];
      GetPutFixed(seq1);
      GetPutFixed(next);
      Get32Is(s, 12);
      Get32Is(s, 16);
      Get32Is(s, 20);
      Get32Is(jsb, 12);
      Get32Is(jsb, 16);
      Get32Is(jsb, 20);
    }

    static lemma SuperSurvives(d2: seq<byte>, d3: seq<byte>, extents: seq<Extent>, super: seq<byte>, blockSize: nat)
      requires AtPosition(d2, extents, blockSize, 0, super) && |d2| == |d3|
      requires forall b: nat | InJournal(extents, b) :: SameBlock(d2, d3, b, blockSize)
      ensures AtPosition(d3, extents, blockSize, 0, super)
    {
      hide FindPhysicalBlock, BlockAt;
      var b := FindPhysicalBlock(extents, 0).value;
      assert InJournal(extents, b) && OnDevice(b, blockSize, |d2|);
    }

    static lemma StillSame(d0: seq<byte>, d1: seq<byte>, d2: seq<byte>, d3: seq<byte>, extents: seq<Extent>, blocks: Blocks, blockSize: nat)
      requires |d0| == |d1| == |d2| == |d3|
      requires forall b: nat | !InJournal(extents, b) :: SameBlock(d0, d1, b, blockSize)
      requires forall b: nat | FindPhysicalBlock(extents, 0) != Some(b) :: SameBlock(d1, d2, b, blockSize)
      requires forall b: nat | b !in blocks :: SameBlock(d2, d3, b, blockSize)
      ensures forall b: nat | b !in blocks && !InJournal(extents, b) :: SameBlock(d0, d3, b, blockSize)
    {
      hide FindPhysicalBlock, BlockAt;
      forall b: nat | b !in blocks && !InJournal(extents, b) ensures SameBlock(d0, d3, b, blockSize) {
        assert FindPhysicalBlock(extents, 0) != Some(b);
        assert SameBlock(d0, d1, b, blockSize) && SameBlock(d1, d2, b, blockSize) && SameBlock(d2, d3, b, blockSize);
      }
    }

    /** The journal superblock with the next sequence number and start position. */
    static function PatchSuper(jsb: seq<byte>, sequence: u32, next: u32): (s: seq<byte>)
      requires |jsb| >= 24
      ensures |s| == |jsb|
    {
      jsb[..12] + Put((sequence + 1) % 0x1_0000_0000, 4) + Put(next, 4) + jsb[20..]
    }

    /** Block by block, readers see dirty data where there is some and the device elsewhere. */
    lemma ViewBlocks()
      requires Valid()
      ensures forall b: nat | OnDevice(b, blockSize, |dev|) ::
                BlockAt(View(), b, blockSize) == if b in dirty then dirty[b] else BlockAt(dev, b, blockSize)
    {
      forall b: nat | OnDevice(b, blockSize, |dev|)
        ensures BlockAt(View(), b, blockSize) == if b in dirty then dirty[b] else BlockAt(dev, b, blockSize)
      {
        var s, t := BlockAt(View(), b, blockSize), if b in dirty then dirty[b] else BlockAt(dev, b, blockSize);
        forall i | 0 <= i < blockSize ensures s[i] == t[i] {
          BlockOf(b * blockSize + i, b, blockSize);
        }
      }
    }

    /** Neither the journal superblock nor blocks outside the journal disturb the log. */
    static lemma LogSurvives(d1: seq<byte>, d2: seq<byte>, d3: seq<byte>, extents: seq<Extent>, e: LogEntry, blockSize: nat)
      requires e.In(d1, extents, blockSize) && Roomy(extents, e.pos, e.maxlen, |e.dirty|) && |d1| == |d2| == |d3|
      requires forall b: nat | FindPhysicalBlock(extents, 0) != Some(b) :: SameBlock(d1, d2, b, blockSize)
      requires forall b: nat | InJournal(extents, b) :: SameBlock(d2, d3, b, blockSize)
      ensures e.In(d3, extents, blockSize)
    {
      hide FindPhysicalBlock, BlockAt, Put, BlockHeader, Describes, SameBlock, AtPosition, InJournal, Escaped;
      Survives(d1, d2, d3, extents, e.pos, e.desc, blockSize);
      forall i | 0 <= i < |e.order|
        ensures AtPosition(d3, extents, blockSize, AdvanceBy(e.pos, e.maxlen, i + 1), Escaped(e.dirty[e.order[i]]))
      {
        AdvanceDistinct(e.pos, e.maxlen, 0, i + 1);
        Survives(d1, d2, d3, extents, AdvanceBy(e.pos, e.maxlen, i + 1), Escaped(e.dirty[e.order[i]]), blockSize);
      }
      AdvanceDistinct(e.pos, e.maxlen, 0, |e.order| + 1);
      Survives(d1, d2, d3, extents, AdvanceBy(e.pos, e.maxlen, |e.order| + 1), e.commit, blockSize);
    }

    static lemma Survives(d1: seq<byte>, d2: seq<byte>, d3: seq<byte>, extents: seq<Extent>, p: u32, data: seq<byte>, blockSize: nat)
      requires AtPosition(d1, extents, blockSize, p, data) && p != 0 && OneToOne(extents) && |d1| == |d2| == |d3|
      requires forall b: nat | FindPhysicalBlock(extents, 0) != Some(b) :: SameBlock(d1, d2, b, blockSize)
      requires forall b: nat | InJournal(extents, b) :: SameBlock(d2, d3, b, blockSize)
      ensures AtPosition(d3, extents, blockSize, p, data)
    {
      hide FindPhysicalBlock, BlockAt;
      PositionKept(d1, d2, extents, blockSize, p, 0, data);
      var b := FindPhysicalBlock(extents, p).value;
      assert InJournal(extents, b) && OnDevice(b, blockSize, |d2|);
    }
  }
}
