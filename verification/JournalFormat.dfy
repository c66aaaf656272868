/**
 What a commit writes (vfs/journal_writer.go, constants of vfs/jbd2.go): whole-block writes,
 the circle of journal positions, and the descriptor, data and commit blocks.
 */
module JournalFormat {
  import opened Wrappers
  import opened Bytes
  import opened Arith
  import opened Ext4Types

  const JBD2_MAGIC: u32 := 0xC03B3998
  const JBD2_MAGIC_OLD: u32 := 0xC03B3999
  const JBD2_DESCRIPTOR: u32 := 1
  const JBD2_COMMIT: u32 := 3
  const FLAG_ESCAPE: u32 := 1
  const FLAG_LAST_TAG: u32 := 64
  const HEADER_SIZE := 12
  const TAG_SIZE := 8

  // ----- whole-block writes -----

  function BlockAt(dev: seq<byte>, b: nat, blockSize: nat): (s: seq<byte>)
    requires b * blockSize + blockSize <= |dev|
    ensures |s| == blockSize
  {
    dev[b * blockSize..b * blockSize + blockSize]
  }

  /** Different blocks share no byte. */
  lemma BlocksApart(a: nat, b: nat, blockSize: nat)
    requires a != b
    ensures a * blockSize + blockSize <= b * blockSize || b * blockSize + blockSize <= a * blockSize
  {
    if a < b { MulMono(a + 1, b, blockSize); } else { MulMono(b + 1, a, blockSize); }
    assert (a + 1) * blockSize == a * blockSize + blockSize && (b + 1) * blockSize == b * blockSize + blockSize;
  }

  /** A whole-block write shows in its block and in no other. */
  lemma WriteShows(dev: seq<byte>, a: nat, data: seq<byte>, blockSize: nat, b: nat)
    requires |data| == blockSize && a * blockSize + blockSize <= |dev| && b * blockSize + blockSize <= |dev|
    ensures BlockAt(Overwrite(dev, a * blockSize, data), b, blockSize) == if a == b then data else BlockAt(dev, b, blockSize)
  {
    if a != b {
      BlocksApart(a, b, blockSize);
    }
  }

  // ----- the circle of positions -----

  /** pos++; if pos > S_maxlen { pos = 1 } on 32 bits */
  function Advance(pos: u32, maxlen: u32): u32 {
    var next := (pos + 1) % 0x1_0000_0000;
    if next > maxlen then 1 else next
  }

  function AdvanceBy(pos: u32, maxlen: u32, n: nat): u32 {
    if n == 0 then pos else Advance(AdvanceBy(pos, maxlen, n - 1), maxlen)
  }

  /** Up to one round, positions count up and restart behind the journal's superblock. */
  lemma {:induction false} AdvanceRound(pos: u32, maxlen: u32, n: nat)
    requires 1 <= pos <= maxlen < 0xFFFF_FFFF && n < maxlen
    ensures AdvanceBy(pos, maxlen, n) == if pos + n <= maxlen then pos + n else pos + n - maxlen
  {
    if n > 0 {
      AdvanceRound(pos, maxlen, n - 1);
    }
  }

  lemma AdvanceDistinct(pos: u32, maxlen: u32, i: nat, j: nat)
    requires 1 <= pos <= maxlen < 0xFFFF_FFFF && i < j < maxlen
    ensures AdvanceBy(pos, maxlen, i) != AdvanceBy(pos, maxlen, j)
    ensures AdvanceBy(pos, maxlen, i) != 0 && AdvanceBy(pos, maxlen, j) != 0
  {
    AdvanceRound(pos, maxlen, i);
    AdvanceRound(pos, maxlen, j);
  }

  /** The journal's blocks: its inode's extents name them by position. */
  ghost predicate InJournal(extents: seq<Extent>, b: nat) {
    exists l: u32 :: FindPhysicalBlock(extents, l) == Some(b)
  }

  /** No two journal positions share a block. */
  ghost predicate OneToOne(extents: seq<Extent>) {
    forall l: u32, m: u32 | l != m && FindPhysicalBlock(extents, l).Some? ::
      FindPhysicalBlock(extents, l) != FindPhysicalBlock(extents, m)
  }

  // ----- block contents -----

  const MAGIC_BYTES: seq<byte> := [0x98, 0x39, 0x3B, 0xC0]
  /** MAGIC_BYTES with 4A 6F 6E 75 exclusive-ored in. */
  const ESCAPED_BYTES: seq<byte> := [0xD2, 0x56, 0x55, 0xB5]

  /** Data blocks that start with the journal's magic number are escaped. */
  predicate NeedsEscape(data: seq<byte>) {
    |data| >= 4 && data[..4] == MAGIC_BYTES
  }

  function Escaped(data: seq<byte>): (s: seq<byte>)
    ensures |s| == |data|
  {
    if NeedsEscape(data) then ESCAPED_BYTES + data[4..] else data
  }

  /** What a reader of the log does with a block whose tag has or lacks the escape flag. */
  function Unescaped(flagged: bool, data: seq<byte>): seq<byte> {
    if flagged && |data| >= 4 then MAGIC_BYTES + data[4..] else data
  }

  lemma EscapeRoundTrip(data: seq<byte>)
    ensures Unescaped(NeedsEscape(data), Escaped(data)) == data
    ensures !NeedsEscape(Escaped(data))
  {
    if NeedsEscape(data) {
      assert data == data[..4] + data[4..];
      assert Escaped(data)[4..] == data[4..];
      assert Escaped(data)[..4] == ESCAPED_BYTES;
      assert ESCAPED_BYTES[0] != MAGIC_BYTES[0];
    }
  }

  /** Escaped are blocks that start with the magic number, by 4A 6F 6E 75. */
  lemma EscapedIs(data: seq<byte>)
    ensures NeedsEscape(data) <==> |data| >= 4 && Le32(data, 0) == 0xC03B_3998
    ensures NeedsEscape(data) ==> Escaped(data) == [0xD2, 0x56, 0x55, 0xB5] + data[4..]
  {
    if |data| >= 4 {
      BytesOf(data);
    }
  }

  lemma BytesOf(data: seq<byte>)
    requires |data| >= 4
    ensures Le32(data, 0) == 0xC03B_3998 <==> data[..4] == MAGIC_BYTES
  {
    var a: int, b: int, c: int, d: int := data[0], data[1], data[2], data[3];
    assert Le32(data, 0) == a + 0x100 * b + 0x1_0000 * c + 0x100_0000 * d;
    assert data[..4] == [data[0], data[1], data[2], data[3]];
  }

  lemma EscapeIsXor()
    ensures 0x98 as bv8 ^ 0x4A == 0xD2 && 0x39 as bv8 ^ 0x6F == 0x56 && 0x3B as bv8 ^ 0x6E == 0x55 && 0xC0 as bv8 ^ 0x75 == 0xB5
  {
  }

  function TagFlags(data: seq<byte>, last: bool): u32 {
    (if NeedsEscape(data) then FLAG_ESCAPE else 0) + if last then FLAG_LAST_TAG else 0
  }

  function Tag(block: nat, flags: u32): (s: seq<byte>)
    ensures |s| == TAG_SIZE
  {
    Put(block, 4) + Put(flags, 4)
  }

  function BlockHeader(kind: u32, sequence: u32): (s: seq<byte>)
    ensures |s| == HEADER_SIZE
  {
    Put(JBD2_MAGIC, 4) + Put(kind, 4) + Put(sequence, 4)
  }

  // ----- a transaction in the log -----

  /** The block at a journal position holds these bytes. */
  ghost predicate AtPosition(dev: seq<byte>, extents: seq<Extent>, blockSize: nat, pos: u32, data: seq<byte>) {
    && FindPhysicalBlock(extents, pos).Some?
    && FindPhysicalBlock(extents, pos).value * blockSize + blockSize <= |dev|
    && BlockAt(dev, FindPhysicalBlock(extents, pos).value, blockSize) == data
  }

  /** desc describes the blocks of order, in that order, and is zero behind their tags. */
  ghost predicate Describes(desc: seq<byte>, sequence: u32, order: seq<nat>, dirty: map<nat, seq<byte>>) {
    && Holds(desc, 0, BlockHeader(JBD2_DESCRIPTOR, sequence))
    && (forall i | 0 <= i < |order| :: order[i] in dirty)
    && (forall i | 0 <= i < |order| ::
          Holds(desc, HEADER_SIZE + TAG_SIZE * i, Tag(order[i], TagFlags(dirty[order[i]], i == |dirty| - 1))))
    && forall k | HEADER_SIZE + TAG_SIZE * |order| <= k < |desc| :: desc[k] == 0
  }

  /** The whole dirty map is in the log from position pos on, between descriptor and commit block. */
  ghost predicate Logged(dev: seq<byte>, extents: seq<Extent>, blockSize: nat, pos: u32, maxlen: u32, sequence: u32,
                         order: seq<nat>, dirty: map<nat, seq<byte>>, desc: seq<byte>, commit: seq<byte>) {
    && (forall b :: b in dirty <==> b in order) && |order| == |dirty|
    && Describes(desc, sequence, order, dirty) && Holds(commit, 0, BlockHeader(JBD2_COMMIT, sequence))
    && AtPosition(dev, extents, blockSize, pos, desc)
    && (forall i | 0 <= i < |order| ::
          AtPosition(dev, extents, blockSize, AdvanceBy(pos, maxlen, i + 1), Escaped(dirty[order[i]])))
    && AtPosition(dev, extents, blockSize, AdvanceBy(pos, maxlen, |order| + 1), commit)
  }

  lemma TagReads(desc: seq<byte>, at: nat, block: u32, flags: u32)
    requires Holds(desc, at, Tag(block, flags))
    ensures at + TAG_SIZE <= |desc| && Get32(desc[at..at + 4]) == block && Get32(desc[at + 4..at + 8]) == flags
  {
    var tag := desc[at..at + TAG_SIZE];
    assert desc[at..at + 4] == tag[..4] == Put(block, 4);
    assert desc[at + 4..at + 8] == tag[4..8] == Put(flags, 4);
    GetPutFixed(block);
    GetPutFixed(flags);
  }

  lemma HeaderReads(s: seq<byte>, kind: u32, sequence: u32)
    requires Holds(s, 0, BlockHeader(kind, sequence))
    ensures 12 <= |s| && Le32(s, 0) == 0xC03B_3998 && Le32(s, 4) == kind && Le32(s, 8) == sequence
  {
    hide Put, Get32;
    var h := BlockHeader(kind, sequence);
    HeldPart(s, 0, h, 0, 4);
    HeldPart(s, 0, h, 4, 8);
    HeldPart(s, 0, h, 8, 12);
    assert h[0..4] == Put(JBD2_MAGIC, 4) && h[4..8] == Put(kind, 4) && h[8..12] == Put(sequence, 4);
    GetPutFixed(JBD2_MAGIC);
    GetPutFixed(kind);
    GetPutFixed(sequence);
    Get32Is(s, 0);
    Get32Is(s, 4);
    Get32Is(s, 8);
  }

  /** Descriptor and commit block carry the magic number, their kind and the transaction's number. */
  lemma LoggedHeaders(dev: seq<byte>, extents: seq<Extent>, blockSize: nat, pos: u32, maxlen: u32, sequence: u32,
                      order: seq<nat>, dirty: map<nat, seq<byte>>, desc: seq<byte>, commit: seq<byte>)
    requires Logged(dev, extents, blockSize, pos, maxlen, sequence, order, dirty, desc, commit)
    ensures 12 <= |desc| && Le32(desc, 0) == 0xC03B_3998 && Le32(desc, 4) == 1 && Le32(desc, 8) == sequence
    ensures 12 <= |commit| && Le32(commit, 0) == 0xC03B_3998 && Le32(commit, 4) == 3 && Le32(commit, 8) == sequence
  {
    hide Holds, BlockHeader, FindPhysicalBlock, BlockAt;
    HeaderReads(desc, JBD2_DESCRIPTOR, sequence);
    HeaderReads(commit, JBD2_COMMIT, sequence);
  }

  lemma FlagsRead(data: seq<byte>, last: bool)
    ensures TagFlags(data, last) == (if |data| >= 4 && Le32(data, 0) == 0xC03B_3998 then 1 else 0) + if last then 64 else 0
    ensures TagFlags(data, last) >= FLAG_LAST_TAG <==> last
    ensures TagFlags(data, last) % 2 == 1 <==> NeedsEscape(data)
  {
    EscapedIs(data);
  }

  /** Reading a logged block back by its tag gives the dirty block, whatever its bytes. */
  lemma LoggedReadsBack(dev: seq<byte>, extents: seq<Extent>, blockSize: nat, pos: u32, maxlen: u32, sequence: u32,
                        order: seq<nat>, dirty: map<nat, seq<byte>>, desc: seq<byte>, commit: seq<byte>, i: nat)
    requires Logged(dev, extents, blockSize, pos, maxlen, sequence, order, dirty, desc, commit)
    requires i < |order|
    requires order[i] < 0x1_0000_0000
    ensures var at := 12 + 8 * i;
            && at + 8 <= |desc|
            && Le32(desc, at) == order[i] && order[i] in dirty
            && var flags := Le32(desc, at + 4);
               && flags == (if |dirty[order[i]]| >= 4 && Le32(dirty[order[i]], 0) == 0xC03B_3998 then 1 else 0)
                           + (if i == |dirty| - 1 then 64 else 0)
               && FindPhysicalBlock(extents, AdvanceBy(pos, maxlen, i + 1)).Some?
               && var b := FindPhysicalBlock(extents, AdvanceBy(pos, maxlen, i + 1)).value;
                  && b * blockSize + blockSize <= |dev|
                  && Unescaped(flags % 2 == 1, BlockAt(dev, b, blockSize)) == dirty[order[i]]
  {
    hide Put, Get32, Tag, Escaped, Unescaped, NeedsEscape, TagFlags, BlockHeader, FindPhysicalBlock, BlockAt;
    var at, data, last := HEADER_SIZE + TAG_SIZE * i, dirty[order[i]], i == |dirty| - 1;
    TagReads(desc, at, order[i], TagFlags(data, last));
    Get32Is(desc, at);
    Get32Is(desc, at + 4);
    FlagsRead(data, last);
    EscapeRoundTrip(data);
    assert AtPosition(dev, extents, blockSize, AdvanceBy(pos, maxlen, i + 1), Escaped(data));
  }
}
