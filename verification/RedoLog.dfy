/**
 The before-image log of vfs/redolog.go: its file format, its one entry per write, and what
 a crash at any point of a write leaves for the next open to recover.
 */
module RedoLog {
  import opened Wrappers
  import opened Bytes

  const HDR_SIZE := 12

  datatype Entry = Entry(offset: int, data: seq<byte>)

  /** int64(x) */
  function ToInt64(x: u64): int {
    if x < 0x8000_0000_0000_0000 then x else x - 0x1_0000_0000_0000_0000
  }

  function EncodeEntry(offset: nat, data: seq<byte>): (s: seq<byte>)
    ensures |s| == HDR_SIZE + |data|
  {
    Put(offset, 8) + Put(|data|, 4) + data
  }

  /** The offset is read as two's complement. */
  lemma ToInt64Is(x: u64)
    ensures -0x8000_0000_0000_0000 <= ToInt64(x) < 0x8000_0000_0000_0000
    ensures ToInt64(x) % 0x1_0000_0000_0000_0000 == x
  {
  }

  /** An entry: offset in eight bytes, length in four, data. */
  lemma EntryPlace(offset: nat, data: seq<byte>)
    requires Loggable(Entry(offset, data))
    ensures var s := EncodeEntry(offset, data);
            |s| == 12 + |data| && Le64(s, 0) == offset && Le32(s, 8) == |data| && s[12..] == data
  {
    hide Get64, Get32;
    HeaderReads(offset, data, []);
    var s := EncodeEntry(offset, data);
    assert s + [] == s;
    Get64Is(s, 0);
    Get32Is(s, 8);
  }

  /** The entries that lie wholly in the file's bytes. */
  function Pending(data: seq<byte>): seq<Entry> {
    if |data| < HDR_SIZE then []
    else
      var length := Get32(data[8..12]);
      if HDR_SIZE + length > |data| then []
      else [Entry(ToInt64(Get64(data[..8])), data[HDR_SIZE..HDR_SIZE + length])] + Pending(data[HDR_SIZE + length..])
  }

  /** The entries written one after the other. */
  function EncodeAll(entries: seq<Entry>): seq<byte>
    requires AllLoggable(entries)
  {
    if entries == [] then [] else EncodeEntry(entries[0].offset, entries[0].data) + EncodeAll(entries[1..])
  }

  predicate Loggable(e: Entry) {
    0 <= e.offset < 0x8000_0000_0000_0000 && |e.data| < 0x1_0000_0000
  }

  // ----- parsing what was appended -----

  lemma HeaderReads(offset: nat, data: seq<byte>, rest: seq<byte>)
    requires Loggable(Entry(offset, data))
    ensures var s := EncodeEntry(offset, data) + rest;
            Get64(s[..8]) == offset && Get32(s[8..12]) == |data| && s[HDR_SIZE..HDR_SIZE + |data|] == data
            && s[HDR_SIZE + |data|..] == rest
  {
    var s := EncodeEntry(offset, data) + rest;
    assert s[..8] == Put(offset, 8) && s[8..12] == Put(|data|, 4);
    GetPutFixed(offset);
    GetPutFixed(|data|);
  }

  lemma PendingCons(offset: nat, data: seq<byte>, rest: seq<byte>)
    requires Loggable(Entry(offset, data))
    ensures Pending(EncodeEntry(offset, data) + rest) == [Entry(offset, data)] + Pending(rest)
  {
    hide EncodeEntry;
    HeaderReads(offset, data, rest);
  }

  lemma PendingTorn(offset: nat, data: seq<byte>, m: nat)
    requires Loggable(Entry(offset, data)) && m < HDR_SIZE + |data|
    ensures Pending(EncodeEntry(offset, data)[..m]) == []
  {
    hide EncodeEntry;
    var s := EncodeEntry(offset, data) + [];
    HeaderReads(offset, data, []);
    if m >= HDR_SIZE {
      assert EncodeEntry(offset, data)[..m][8..12] == s[8..12];
    }
  }

  ghost predicate AllLoggable(entries: seq<Entry>) {
    forall i | 0 <= i < |entries| :: Loggable(entries[i])
  }

  lemma EncodeAllStep(entries: seq<Entry>, n: nat)
    requires AllLoggable(entries) && 0 < n <= |entries|
    ensures EncodeAll(entries[..n]) == EncodeEntry(entries[0].offset, entries[0].data) + EncodeAll(entries[1..][..n - 1])
  {
    hide EncodeEntry;
    assert entries[..n][1..] == entries[1..][..n - 1] && entries[..n][0] == entries[0];
  }

  /** Cutting a log of consecutive entries anywhere leaves exactly the whole ones pending. */
  lemma {:induction false} PendingOfPrefix(entries: seq<Entry>, m: nat) returns (n: nat)
    requires AllLoggable(entries) && m <= |EncodeAll(entries)|
    ensures n <= |entries| && Pending(EncodeAll(entries)[..m]) == entries[..n]
    ensures |EncodeAll(entries[..n])| <= m
    ensures n < |entries| ==> m < |EncodeAll(entries[..n + 1])|
  {
    hide EncodeEntry, EncodeAll, Pending;
    NoneEncoded();
    if entries == [] {
      return 0;
    }
    var e, rest := entries[0], entries[1..];
    var first, all := EncodeEntry(e.offset, e.data), EncodeAll(entries);
    EncodeAllStep(entries, |entries|);
    assert entries[..|entries|] == entries && rest[..|entries| - 1] == rest;
    if m < |first| {
      assert all[..m] == first[..m];
      PendingTorn(e.offset, e.data, m);
      EncodeAllStep(entries, 1);
      return 0;
    }
    var k := PendingOfPrefix(rest, m - |first|);
    CutBehind(first, EncodeAll(rest), m);
    PendingCons(e.offset, e.data, EncodeAll(rest)[..m - |first|]);
    EncodeAllStep(entries, k + 1);
    if k + 1 < |entries| {
      EncodeAllStep(entries, k + 2);
    }
    assert entries[..k + 1] == [e] + rest[..k];
    n := k + 1;
  }

  lemma CutBehind(first: seq<byte>, rest: seq<byte>, m: nat)
    requires |first| <= m <= |first| + |rest|
    ensures (first + rest)[..m] == first + rest[..m - |first|]
  {
  }

  lemma NoneEncoded()
    ensures EncodeAll([]) == [] && Pending([]) == []
  {
  }

  // ----- holes -----

  lemma {:induction false} GetZeros(n: nat)
    ensures Get(Zeros(n)) == 0
  {
    if n > 0 {
      assert Zeros(n)[1..] == Zeros(n - 1);
      GetZeros(n - 1);
    }
  }

  const EMPTY_ENTRY := Entry(0, [])

  /** Twelve zero bytes parse as an empty entry at offset zero. */
  lemma {:induction false} PendingHole(n: nat, rest: seq<byte>)
    ensures Pending(Zeros(n) + rest) == seq(n / 12, _ => EMPTY_ENTRY) + Pending(Zeros(n % 12) + rest)
  {
    hide Pending;
    if n < 12 {
      assert seq(n / 12, _ => EMPTY_ENTRY) == [];
    } else {
      PendingHole(n - 12, rest);
      PendingZeroHeader(Zeros(n - 12) + rest);
      assert Zeros(n) + rest == Zeros(12) + (Zeros(n - 12) + rest);
      assert n / 12 == 1 + (n - 12) / 12;
      assert seq(n / 12, _ => EMPTY_ENTRY) == [EMPTY_ENTRY] + seq((n - 12) / 12, _ => EMPTY_ENTRY);
    }
  }

  lemma PendingZeroHeader(rest: seq<byte>)
    ensures Pending(Zeros(12) + rest) == [EMPTY_ENTRY] + Pending(rest)
  {
    var s := Zeros(12) + rest;
    assert s[..8] == Zeros(8) && s[8..12] == Zeros(4);
    GetZeros(8);
    GetZeros(4);
    assert s[12..12] == [] && s[12..] == rest;
  }

  // ----- replaying onto the device -----

  /** Writing the entries back in order; None when one lies outside the device. */
  function Replay(dev: seq<byte>, entries: seq<Entry>): Option<seq<byte>>
    decreases |entries|
  {
    if entries == [] then Some(dev)
    else if entries[0].offset < 0 || entries[0].offset + |entries[0].data| > |dev| then None
    else Replay(Overwrite(dev, entries[0].offset, entries[0].data), entries[1..])
  }

  lemma {:induction false} ReplayEmpties(dev: seq<byte>, n: nat, entries: seq<Entry>)
    ensures Replay(dev, seq(n, _ => EMPTY_ENTRY) + entries) == Replay(dev, entries)
    decreases n
  {
    var all := seq(n, _ => EMPTY_ENTRY) + entries;
    if n == 0 {
      assert all == entries;
    } else {
      assert Overwrite(dev, 0, []) == dev;
      assert all[1..] == seq(n - 1, _ => EMPTY_ENTRY) + entries;
      ReplayEmpties(dev, n - 1, entries);
    }
  }

  // ----- crashes -----

  /** File contents after writing s at position pos; a gap reads as zeros. */
  function FileWrite(file: seq<byte>, pos: nat, s: seq<byte>): seq<byte> {
    if s == [] then file
    else
      var padded := if pos > |file| then file + Zeros(pos - |file|) else file;
      padded[..pos] + s + if pos + |s| <= |file| then file[pos + |s|..] else []
  }

  /** The file's bytes after a write at pos: s there, zeros in a gap, what was there elsewhere. */
  lemma FileWriteByte(file: seq<byte>, pos: nat, s: seq<byte>, i: nat)
    requires s != []
    ensures |FileWrite(file, pos, s)| == if pos + |s| > |file| then pos + |s| else |file|
    ensures i < |FileWrite(file, pos, s)| ==>
              FileWrite(file, pos, s)[i] == if pos <= i < pos + |s| then s[i - pos] else if i < |file| then file[i] else 0
  {
  }

  /** removeLastEntry: n bytes are cut off the file's end, as far as it has them. */
  function CutOff(file: seq<byte>, n: nat): seq<byte> {
    file[..if |file| >= n then |file| - n else 0]
  }

  /** The log file once a write's entry was appended at pos and cut off again. */
  function AfterWrite(file: seq<byte>, pos: nat, entry: seq<byte>): seq<byte> {
    CutOff(FileWrite(file, pos, entry), |entry|)
  }

  /** What an open leaves in the log: a file with a whole entry is cleared, any other is kept. */
  function Leftover(file: seq<byte>): (left: seq<byte>)
    ensures Pending(left) == [] && |left| <= |file|
  {
    if Pending(file) == [] then file else []
  }

  /** The log between writes: what the open left, or nothing but zeros, none past the position. */
  ghost predicate Idle(file: seq<byte>, pos: nat) {
    (pos == 0 && Pending(file) == []) || Hole(file, pos)
  }

  ghost predicate Hole(file: seq<byte>, pos: nat) {
    |file| <= pos && file == Zeros(|file|)
  }

  /** The devices agree outside the range being written. */
  ghost predicate TornWrite(dev: seq<byte>, torn: seq<byte>, off: nat, n: nat) {
    |torn| == |dev| && off + n <= |dev| && torn[..off] == dev[..off] && torn[off + n..] == dev[off + n..]
  }

  /** A write of p at off and the device and file a crash during it may leave. */
  ghost predicate Crashed(dev: seq<byte>, file: seq<byte>, pos: nat, off: nat, p: seq<byte>, dev1: seq<byte>, file1: seq<byte>) {
    && off + |p| <= |dev| && p != [] && Loggable(Entry(off, p))
    && var entry := EncodeEntry(off, dev[off..off + |p|]);
       // while appending the entry, the device being untouched
       || (exists m: nat :: m <= |entry| && file1 == FileWrite(file, pos, entry[..m]) && dev1 == dev)
       // after the append, while the device is being written
       || (file1 == FileWrite(file, pos, entry) && TornWrite(dev, dev1, off, |p|))
       // after the entry was cut off again
       || (file1 == AfterWrite(file, pos, entry) && dev1 == Overwrite(dev, off, p))
  }

  /** The next open restores the bytes from before the write or finds it finished. */
  ghost predicate Recovers(dev: seq<byte>, off: nat, p: seq<byte>, dev1: seq<byte>, file1: seq<byte>)
    requires off + |p| <= |dev|
  {
    var r := Replay(dev1, Pending(file1));
    r == Some(dev) || (dev1 == Overwrite(dev, off, p) && r == Some(dev1))
  }

  /** Every crash of every write on this log recovers. */
  ghost predicate SafeAt(file: seq<byte>, pos: nat) {
    forall dev, off: nat, p, dev1, file1 ::
      Crashed(dev, file, pos, off, p, dev1, file1) ==> Recovers(dev, off, p, dev1, file1)
  }

  lemma HoleWrite(file: seq<byte>, pos: nat, s: seq<byte>)
    requires Hole(file, pos) && s != []
    ensures FileWrite(file, pos, s) == Zeros(pos) + s
    ensures AfterWrite(file, pos, s) == Zeros(pos)
  {
    assert file + Zeros(pos - |file|) == Zeros(pos);
  }

  lemma OnlyHole(dev: seq<byte>, n: nat)
    ensures Replay(dev, Pending(Zeros(n))) == Some(dev)
  {
    PendingHole(n, []);
    assert Zeros(n) + [] == Zeros(n);
    assert Pending(Zeros(n % 12) + []) == [];
    ReplayEmpties(dev, n / 12, []);
  }

  /** Behind a hole of whole headers, a torn entry is ignored and a whole one is replayed. */
  lemma AlignedHole(dev: seq<byte>, pos: nat, off: nat, old_: seq<byte>, m: nat)
    requires pos % 12 == 0 && Loggable(Entry(off, old_)) && off + |old_| <= |dev| && m <= HDR_SIZE + |old_|
    ensures Replay(dev, Pending(Zeros(pos) + EncodeEntry(off, old_)[..m])) ==
            if m < HDR_SIZE + |old_| then Some(dev) else Some(Overwrite(dev, off, old_))
  {
    var s := EncodeEntry(off, old_)[..m];
    PendingHole(pos, s);
    assert Zeros(0) + s == s;
    ReplayEmpties(dev, pos / 12, Pending(s));
    if m < HDR_SIZE + |old_| {
      PendingTorn(off, old_, m);
    } else {
      PendingCons(off, old_, []);
      assert s == EncodeEntry(off, old_) + [];
      assert Pending([]) == [];
      assert ([Entry(off, old_)] + [])[1..] == [];
    }
  }

  lemma TornRestored(dev: seq<byte>, torn: seq<byte>, off: nat, n: nat)
    requires TornWrite(dev, torn, off, n)
    ensures Overwrite(torn, off, dev[off..off + n]) == dev
  {
  }

  lemma SafeOnHole(dev: seq<byte>, file: seq<byte>, pos: nat, off: nat, p: seq<byte>, dev1: seq<byte>, file1: seq<byte>)
    requires pos % 12 == 0 && Hole(file, pos) && Crashed(dev, file, pos, off, p, dev1, file1)
    ensures Recovers(dev, off, p, dev1, file1)
  {
    hide Pending, Replay, EncodeEntry, Overwrite, AfterWrite;
    var old_ := dev[off..off + |p|];
    var entry := EncodeEntry(off, old_);
    HoleWrite(file, pos, entry);
    if m: nat :| m <= |entry| && file1 == FileWrite(file, pos, entry[..m]) && dev1 == dev {
      if m == 0 {
        OnlyHole(dev, |file|);
      } else {
        HoleWrite(file, pos, entry[..m]);
        AlignedHole(dev, pos, off, old_, m);
        TornRestored(dev, dev, off, |p|);
      }
    } else if file1 == FileWrite(file, pos, entry) && TornWrite(dev, dev1, off, |p|) {
      assert entry[..|entry|] == entry;
      AlignedHole(dev1, pos, off, old_, |entry|);
      TornRestored(dev, dev1, off, |p|);
    } else {
      OnlyHole(dev1, pos);
    }
  }

  // ----- a leftover under the first write -----

  lemma FirstCut(left: seq<byte>, entry: seq<byte>)
    requires |left| <= 12 < |entry|
    ensures AfterWrite(left, 0, entry) == []
  {
  }

  lemma WriteNothing(left: seq<byte>)
    ensures FileWrite(left, 0, []) == left
  {
  }

  lemma WriteOver(left: seq<byte>, s: seq<byte>)
    requires s != []
    ensures FileWrite(left, 0, s) == if |s| >= |left| then s else s + left[|s|..]
  {
  }

  /** A first write over at most one header of leftover: it is covered, or names no bytes. */
  lemma ShortLeftover(dev: seq<byte>, left: seq<byte>, off: nat, old_: seq<byte>, m: nat)
    requires Pending(left) == [] && |left| <= 12 && Loggable(Entry(off, old_)) && old_ != []
    requires off + |old_| <= |dev| && m <= HDR_SIZE + |old_|
    ensures var entry := EncodeEntry(off, old_);
            && (m < |entry| ==> Replay(dev, Pending(FileWrite(left, 0, entry[..m]))) == Some(dev))
            && (m >= |left| && m > 0 ==> FileWrite(left, 0, entry[..m]) == entry[..m])
            && AfterWrite(left, 0, entry) == []
  {
    hide Pending, Replay, EncodeEntry, FileWrite, AfterWrite;
    var entry := EncodeEntry(off, old_);
    NoEntries(dev);
    FirstCut(left, entry);
    if m == 0 {
      WriteNothing(left);
    } else {
      WriteOver(left, entry[..m]);
      if m >= |left| && m < |entry| {
        PendingTorn(off, old_, m);
      } else if m < |left| {
        MixedHeader(dev, left, off, old_, m);
      }
    }
  }

  /** A header torn over a leftover one names at most an empty entry at the write's own offset. */
  lemma MixedHeader(dev: seq<byte>, left: seq<byte>, off: nat, old_: seq<byte>, m: nat)
    requires Pending(left) == [] && 0 < m < |left| <= 12 && Loggable(Entry(off, old_))
    requires off + |old_| <= |dev|
    ensures Replay(dev, Pending(EncodeEntry(off, old_)[..m] + left[m..])) == Some(dev)
  {
    var entry := EncodeEntry(off, old_);
    var f := entry[..m] + left[m..];
    if |left| == 12 && m <= 8 {
      assert f[8..12] == left[8..12];
    }
    if |left| < 12 || Get32(f[8..12]) != 0 {
      assert Pending(f) == [];
    } else {
      HeaderReads(off, old_, []);
      assert entry + [] == entry && f[..8] == entry[..8];
      assert f[12..12] == [] && f[12..] == [] && Pending([]) == [];
      assert Pending(f) == [Entry(off, [])];
      assert Overwrite(dev, off, []) == dev;
      NoEntries(dev);
    }
  }

  lemma SafeOnLeftover(dev: seq<byte>, left: seq<byte>, off: nat, p: seq<byte>, dev1: seq<byte>, file1: seq<byte>)
    requires Pending(left) == [] && |left| <= 12 && Crashed(dev, left, 0, off, p, dev1, file1)
    ensures Recovers(dev, off, p, dev1, file1)
  {
    hide Pending, Replay, EncodeEntry, Overwrite, AfterWrite, FileWrite;
    var old_ := dev[off..off + |p|];
    var entry := EncodeEntry(off, old_);
    assert entry[..|entry|] == entry;
    assert Zeros(0) + entry == entry;
    ShortLeftover(dev, left, off, old_, |entry|);
    if m: nat :| m <= |entry| && file1 == FileWrite(left, 0, entry[..m]) && dev1 == dev {
      ShortLeftover(dev, left, off, old_, m);
      AlignedHole(dev, 0, off, old_, |entry|);
      TornRestored(dev, dev, off, |p|);
    } else if file1 == FileWrite(left, 0, entry) && TornWrite(dev, dev1, off, |p|) {
      AlignedHole(dev1, 0, off, old_, |entry|);
      TornRestored(dev, dev1, off, |p|);
    } else {
      NoEntries(dev1);
      NoneEncoded();
    }
  }

  lemma Differ(b: byte) returns (c: byte)
    ensures c != b
  {
    c := if b == 0 then 1 else 0;
  }

  /**
   A longer leftover lends its bytes to the first write's header: a crash between the two
   writes of an append puts them on the device.
   */
  lemma UnsafeLeftover(left: seq<byte>)
    requires Pending(left) == [] && |left| > 12
    ensures !SafeAt(left, 0)
  {
    hide EncodeEntry, Pending, Replay, FileWrite, Overwrite, Crashed, Recovers;
    var junk := left[12..];
    LeftoverShort(left);
    var x := Differ(junk[0]);
    var y := Differ(x);
    var dev, p := seq(|junk|, _ => x), seq(|junk|, _ => y);
    var file1 := FileWrite(left, 0, EncodeEntry(0, dev)[..12]);
    HeaderOnly(dev, left, p);
    BorrowedEntry(0, dev, junk);
    NotRecovered(dev, p, junk, file1);
  }

  lemma HeaderOnly(dev: seq<byte>, left: seq<byte>, p: seq<byte>)
    requires |left| > 12 && |p| == |dev| == |left| - 12 && Loggable(Entry(0, p))
    ensures var file1 := FileWrite(left, 0, EncodeEntry(0, dev)[..12]);
            Crashed(dev, left, 0, 0, p, dev, file1) && file1 == EncodeEntry(0, dev)[..12] + left[12..]
  {
    hide EncodeEntry;
    assert dev[0..0 + |p|] == dev;
  }

  lemma NotRecovered(dev: seq<byte>, p: seq<byte>, junk: seq<byte>, file1: seq<byte>)
    requires |dev| == |p| == |junk| > 0 && Pending(file1) == [Entry(0, junk)]
    requires dev[0] != junk[0] && dev[0] != p[0]
    ensures !Recovers(dev, 0, p, dev, file1)
  {
    hide Pending;
    ReplayOne(dev, 0, junk);
    assert Overwrite(dev, 0, junk) == junk;
    assert Overwrite(dev, 0, p) == p;
  }

  lemma LeftoverShort(left: seq<byte>)
    requires Pending(left) == [] && |left| >= 12
    ensures |left| < 12 + 0x1_0000_0000
  {
  }

  lemma ReplayOne(dev: seq<byte>, off: nat, data: seq<byte>)
    requires off + |data| <= |dev|
    ensures Replay(dev, [Entry(off, data)]) == Some(Overwrite(dev, off, data))
  {
    assert [Entry(off, data)][1..] == [];
    NoEntries(Overwrite(dev, off, data));
  }

  /** A header with somebody else's bytes behind it is a whole entry of those bytes. */
  lemma BorrowedEntry(off: nat, old_: seq<byte>, junk: seq<byte>)
    requires Loggable(Entry(off, old_)) && |junk| == |old_|
    ensures Pending(EncodeEntry(off, old_)[..12] + junk) == [Entry(off, junk)]
  {
    hide Pending;
    assert EncodeEntry(off, old_)[..12] + junk == EncodeEntry(off, junk) + [];
    PendingCons(off, junk, []);
    NoneEncoded();
  }

  /**
   Over a leftover at least twice its entry's length a finished write leaves its whole entry in
   the log, and the next open undoes it.
   */
  lemma FinishedWriteUndone(left: seq<byte>, off: nat, old_: seq<byte>)
    requires Loggable(Entry(off, old_)) && |left| >= 2 * (HDR_SIZE + |old_|)
    ensures var file1 := AfterWrite(left, 0, EncodeEntry(off, old_));
            Pending(file1) != [] && Pending(file1)[0] == Entry(off, old_)
  {
    hide EncodeEntry, Pending;
    var entry := EncodeEntry(off, old_);
    var n := |left| - |entry|;
    assert FileWrite(left, 0, entry) == entry + left[|entry|..];
    assert AfterWrite(left, 0, entry) == entry + left[|entry|..n];
    PendingCons(off, old_, left[|entry|..n]);
  }

  // ----- the position decides -----

  lemma Get4(s: seq<byte>)
    requires |s| == 4
    ensures Get32(s) == (s[0] as int) + 0x100 * (s[1] as int) + 0x1_0000 * (s[2] as int) + 0x100_0000 * (s[3] as int)
  {
    assert Get(s) == s[0] + 256 * Get(s[1..]);
    assert Get(s[1..]) == s[1] + 256 * Get(s[2..]) by { assert s[1..][1..] == s[2..]; }
    assert Get(s[2..]) == s[2] + 256 * Get(s[3..]) by { assert s[2..][1..] == s[3..]; }
    assert Get(s[3..]) == s[3] by { assert s[3..][1..] == []; }
  }

  const SAMPLE: seq<byte> := [2, 0, 0, 0, 1, 1]

  lemma SampleEntry()
    ensures EncodeEntry(0, [1, 1]) == Zeros(8) + SAMPLE
  {
    GetZeros(8);
    PutGet(Zeros(8));
    GetZeros(3);
    PutGet(Zeros(3));
    assert Put(2, 4) == [2] + Put(0, 3);
  }

  /** Behind a hole that is not a whole number of headers the entry is never read as such. */
  lemma SampleLost(r: nat)
    requires 0 < r < 12
    ensures Pending(Zeros(r + 8) + SAMPLE) == if r < 4 then [] else [EMPTY_ENTRY]
  {
    var s := Zeros(r + 8) + SAMPLE;
    if r < 4 {
      Get4(s[8..12]);
    } else {
      var t := Zeros(r - 4) + SAMPLE;
      assert s == Zeros(12) + t;
      PendingZeroHeader(t);
      if |t| >= 12 {
        Get4(t[8..12]);
      }
      assert Pending(t) == [];
    }
  }

  lemma UnsafeWhenMisaligned(file: seq<byte>, pos: nat)
    requires Hole(file, pos) && pos % 12 != 0
    ensures !SafeAt(file, pos)
  {
    hide Pending, Replay, EncodeEntry;
    var dev, p, torn: seq<byte> := [1, 1], [2, 2], [2, 1];
    var entry := EncodeEntry(0, [1, 1]);
    var file1 := FileWrite(file, pos, entry);
    var r := pos % 12;
    HoleWrite(file, pos, entry);
    SampleEntry();
    PendingHole(pos, entry);
    assert Zeros(r) + entry == Zeros(r + 8) + SAMPLE;
    SampleLost(r);
    ReplayEmpties(torn, pos / 12, Pending(Zeros(r) + entry));
    ReplayEmpties(torn, if r < 4 then 0 else 1, []);
    assert [] + [] == seq(0, _ => EMPTY_ENTRY) + [];
    assert [EMPTY_ENTRY] == seq(1, _ => EMPTY_ENTRY) + [];
    NoEntries(torn);
    assert dev[0..0 + |p|] == [1, 1];
    assert TornWrite(dev, torn, 0, 2);
    assert Crashed(dev, file, pos, 0, p, torn, file1);
    assert Overwrite(dev, 0, p) == p;
    assert !Recovers(dev, 0, p, torn, file1);
  }

  lemma NoEntries(dev: seq<byte>)
    ensures Replay(dev, []) == Some(dev)
  {
  }

  /**
   A crash at any point of any write is recovered exactly if the log's file position is a whole
   number of 12-byte headers and the file reaches at most one header past it.
   */
  lemma SafeIff(file: seq<byte>, pos: nat)
    requires Idle(file, pos)
    ensures SafeAt(file, pos) <==> pos % 12 == 0 && |file| <= pos + 12
  {
    hide Pending, Replay, EncodeEntry, Recovers;
    if Hole(file, pos) {
      if pos % 12 == 0 {
        forall dev, off: nat, p, dev1, file1 | Crashed(dev, file, pos, off, p, dev1, file1)
          ensures Recovers(dev, off, p, dev1, file1)
        {
          SafeOnHole(dev, file, pos, off, p, dev1, file1);
        }
      } else {
        UnsafeWhenMisaligned(file, pos);
      }
    } else if |file| <= 12 {
      forall dev, off: nat, p, dev1, file1 | Crashed(dev, file, pos, off, p, dev1, file1)
        ensures Recovers(dev, off, p, dev1, file1)
      {
        SafeOnLeftover(dev, file, off, p, dev1, file1);
      }
    } else {
      UnsafeLeftover(file);
    }
  }

  // ----- whole sessions -----

  /** The file position after the writes, from an open. */
  function PosAfter(writes: seq<Entry>): nat {
    if writes == [] then 0
    else PosAfter(writes[..|writes| - 1]) + HDR_SIZE + |writes[|writes| - 1].data|
  }

  /** The log file after the writes, each logging the bytes that were there. */
  function FileAfter(left: seq<byte>, writes: seq<Entry>): seq<byte>
    requires AllLoggable(writes)
  {
    if writes == [] then left
    else
      var n := |writes| - 1;
      AfterWrite(FileAfter(left, writes[..n]), PosAfter(writes[..n]), EncodeEntry(writes[n].offset, writes[n].data))
  }

  /** Behind a first write over a short leftover the log is a hole. */
  lemma {:induction false} SessionHole(left: seq<byte>, writes: seq<Entry>)
    requires Pending(left) == [] && |left| <= 12 && writes != []
    requires AllLoggable(writes) && forall i | 0 <= i < |writes| :: writes[i].data != []
    ensures Hole(FileAfter(left, writes), PosAfter(writes))
  {
    hide Pending, EncodeEntry, FileWrite, CutOff;
    var n := |writes| - 1;
    var e, before := writes[n], writes[..n];
    var entry := EncodeEntry(e.offset, e.data);
    if n == 0 {
      assert before == [];
      FirstCut(left, entry);
    } else {
      SessionHole(left, before);
      HoleWrite(FileAfter(left, before), PosAfter(before), entry);
    }
  }

  /**
   Wherever a session stands before one of its writes, whatever write is made there survives every
   crash, exactly if the open left at most one header in the log and every write but the last has
   a length divisible by 12.
   */
  lemma {:induction false} SessionSafeIff(left: seq<byte>, writes: seq<Entry>)
    requires Pending(left) == [] && writes != []
    requires AllLoggable(writes) && forall i | 0 <= i < |writes| :: writes[i].data != []
    ensures (forall k | 0 <= k < |writes| :: SafeAt(FileAfter(left, writes[..k]), PosAfter(writes[..k])))
       <==> |left| <= 12 && forall k | 0 <= k < |writes| - 1 :: |writes[k].data| % 12 == 0
  {
    hide Pending, EncodeEntry, SafeAt, AfterWrite, Idle, FileAfter;
    assert writes[..0] == [] && PosAfter([]) == 0;
    FreshSafeIff(left);
    NothingWritten(left);
    if |left| <= 12 {
      forall k | 0 <= k < |writes|
        ensures SafeAt(FileAfter(left, writes[..k]), PosAfter(writes[..k])) <==> PosAfter(writes[..k]) % 12 == 0
      {
        if k > 0 {
          SessionHole(left, writes[..k]);
          HoleIsIdle(FileAfter(left, writes[..k]), PosAfter(writes[..k]));
          SafeIff(FileAfter(left, writes[..k]), PosAfter(writes[..k]));
        }
      }
      AlignedPositions(writes, |writes| - 1);
    }
  }

  lemma NothingWritten(left: seq<byte>)
    ensures FileAfter(left, []) == left
  {
  }

  lemma HoleIsIdle(file: seq<byte>, pos: nat)
    requires Hole(file, pos)
    ensures Idle(file, pos) && |file| <= pos + 12
  {
  }

  lemma FreshSafeIff(left: seq<byte>)
    requires Pending(left) == []
    ensures SafeAt(left, 0) <==> |left| <= 12
  {
    hide Pending, SafeAt;
    SafeIff(left, 0);
  }

  /** Positions are whole headers as long as lengths are. */
  lemma {:induction false} AlignedPositions(writes: seq<Entry>, n: nat)
    requires n <= |writes|
    ensures (forall k | 0 <= k <= n :: PosAfter(writes[..k]) % 12 == 0) <==> forall k | 0 <= k < n :: |writes[k].data| % 12 == 0
  {
    hide PosAfter;
    NowhereYet();
    assert writes[..0] == [];
    if n > 0 {
      AlignedPositions(writes, n - 1);
      NextPos(writes, n);
    }
  }

  lemma NowhereYet()
    ensures PosAfter([]) == 0
  {
  }

  lemma NextPos(writes: seq<Entry>, n: nat)
    requires 0 < n <= |writes|
    ensures PosAfter(writes[..n]) == PosAfter(writes[..n - 1]) + HDR_SIZE + |writes[n - 1].data|
  {
    assert writes[..n][..n - 1] == writes[..n - 1];
  }
}
