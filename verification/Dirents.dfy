/** One block of directory entries, tiled by their rec_len (vfs/dirent.go, vfs/directory.go). */
module Dirents {
  import opened Wrappers
  import opened Bytes

  const HEAD := 8

  datatype DirEntry = DirEntry(inode: u32, fileType: byte, name: seq<byte>)

  /** minDirRecLen, for names whose entry fits 16 bits */
  function MinRecLen(nameLen: nat): (r: nat)
    requires nameLen < 0xFFF0
    ensures r % 4 == 0 && HEAD + nameLen <= r < HEAD + nameLen + 4 && r < 0x1_0000
  {
    (HEAD + nameLen + 3) / 4 * 4
  }

  // ----- fields of the entry at off -----

  function InodeAt(buf: seq<byte>, off: nat): u32
    requires off + HEAD <= |buf|
  {
    Get32(buf[off..off + 4])
  }

  function RecLenAt(buf: seq<byte>, off: nat): u16
    requires off + HEAD <= |buf|
  {
    Get16(buf[off + 4..off + 6])
  }

  function NameLenAt(buf: seq<byte>, off: nat): byte
    requires off + HEAD <= |buf|
  {
    buf[off + 6]
  }

  /** An entry with inode 0 or an empty name is no entry. */
  function EntryAt(buf: seq<byte>, off: nat): seq<DirEntry>
    requires off + HEAD <= |buf| && off + HEAD + NameLenAt(buf, off) <= |buf|
  {
    if InodeAt(buf, off) != 0 && NameLenAt(buf, off) > 0
    then [DirEntry(InodeAt(buf, off), buf[off + 7], buf[off + HEAD..off + HEAD + NameLenAt(buf, off)])]
    else []
  }

  /** An entry: inode, length of the record, length of the name, type, name. */
  lemma EntryPlace(buf: seq<byte>, off: nat)
    requires off + 8 <= |buf|
    ensures InodeAt(buf, off) == Le32(buf, off) && RecLenAt(buf, off) == Le16(buf, off + 4) && NameLenAt(buf, off) == buf[off + 6]
    ensures var n := buf[off + 6];
            off + 8 + n <= |buf| ==>
              EntryAt(buf, off) == if Le32(buf, off) == 0 || n == 0 then []
                                   else [DirEntry(Le32(buf, off), buf[off + 7], buf[off + 8..off + 8 + n])]
  {
    hide Get16, Get32;
    Get32Is(buf, off);
    Get16Is(buf, off + 4);
  }

  function EntryBytes(inode: u32, recLen: u16, fileType: byte, name: seq<byte>): (s: seq<byte>)
    ensures |s| == HEAD + |name|
  {
    Put(inode, 4) + Put(recLen, 2) + [|name| % 256, fileType] + name
  }

  // ----- tilings -----

  /** An entry of the proper size stands at off and ends by end. */
  predicate Fits(buf: seq<byte>, off: nat, end: nat) {
    && off + HEAD <= end <= |buf|
    && var r := RecLenAt(buf, off);
       r % 4 == 0 && MinRecLen(NameLenAt(buf, off)) <= r && off + r <= end
  }

  /** Entries tile the bytes from off to end. */
  predicate Chain(buf: seq<byte>, off: nat, end: nat)
    decreases end - off
  {
    off == end <= |buf| || (off < end && Fits(buf, off, end) && Chain(buf, off + RecLenAt(buf, off), end))
  }

  predicate Tiled(buf: seq<byte>) {
    Chain(buf, 0, |buf|)
  }

  /** The entries in a tiled range. */
  function Listed(buf: seq<byte>, off: nat, end: nat): seq<DirEntry>
    requires Chain(buf, off, end)
    decreases end - off
  {
    if off == end then [] else EntryAt(buf, off) + Listed(buf, off + RecLenAt(buf, off), end)
  }

  function Entries(buf: seq<byte>): seq<DirEntry>
    requires Tiled(buf)
  {
    Listed(buf, 0, |buf|)
  }

  /** parseDirBlock, from offset off on. */
  function Parse(buf: seq<byte>, off: nat): Option<seq<DirEntry>>
    decreases |buf| - off
  {
    if off >= |buf| || off + HEAD > |buf| then Some([])
    else if RecLenAt(buf, off) == 0 then None
    else if InodeAt(buf, off) != 0 && NameLenAt(buf, off) > 0 && off + HEAD + NameLenAt(buf, off) > |buf| then None
    else
      match Parse(buf, off + RecLenAt(buf, off))
      case None => None
      case Some(rest) =>
        Some((if off + HEAD + NameLenAt(buf, off) > |buf| then [] else EntryAt(buf, off)) + rest)
  }

  /** On a tiled block the parser finds all entries and no error. */
  lemma {:induction false} ParseTiled(buf: seq<byte>, off: nat)
    requires Chain(buf, off, |buf|)
    ensures Parse(buf, off) == Some(Listed(buf, off, |buf|))
    decreases |buf| - off
  {
    hide EntryAt, InodeAt, RecLenAt, NameLenAt, MinRecLen;
    if off < |buf| {
      ParseTiled(buf, off + RecLenAt(buf, off));
    }
  }

  lemma {:induction false} ChainConcat(buf: seq<byte>, off: nat, mid: nat, end: nat)
    requires Chain(buf, off, mid) && Chain(buf, mid, end) && mid <= end
    ensures Chain(buf, off, end) && Listed(buf, off, end) == Listed(buf, off, mid) + Listed(buf, mid, end)
    decreases mid - off
  {
    hide EntryAt, InodeAt, RecLenAt, NameLenAt, MinRecLen;
    if off < mid {
      ChainConcat(buf, off + RecLenAt(buf, off), mid, end);
    }
  }

  lemma ChainOne(buf: seq<byte>, off: nat)
    requires off + HEAD <= |buf| && Fits(buf, off, off + RecLenAt(buf, off))
    ensures Chain(buf, off, off + RecLenAt(buf, off)) && Listed(buf, off, off + RecLenAt(buf, off)) == EntryAt(buf, off)
  {
    hide EntryAt, InodeAt, RecLenAt, NameLenAt, MinRecLen;
    assert Listed(buf, off + RecLenAt(buf, off), off + RecLenAt(buf, off)) == [];
  }

  /** The fields and the name of an entry lie inside it. */
  lemma SameEntry(b0: seq<byte>, b1: seq<byte>, off: nat, end: nat)
    requires off + HEAD <= end <= |b0| && end <= |b1| && b1[off..end] == b0[off..end]
    ensures InodeAt(b1, off) == InodeAt(b0, off) && RecLenAt(b1, off) == RecLenAt(b0, off) && NameLenAt(b1, off) == NameLenAt(b0, off)
    ensures off + HEAD + NameLenAt(b0, off) <= end ==> EntryAt(b1, off) == EntryAt(b0, off)
  {
    SubSlice(b0, b1, off, end, off, off + 4);
    SubSlice(b0, b1, off, end, off + 4, off + 6);
    assert b1[off + 6] == b1[off..end][6] == b0[off..end][6] && b1[off + 7] == b1[off..end][7] == b0[off..end][7];
    var n := NameLenAt(b0, off);
    if off + HEAD + n <= end {
      SubSlice(b0, b1, off, end, off + HEAD, off + HEAD + n);
    }
  }

  /** A tiled range is what its own bytes say. */
  lemma {:induction false} ChainFrame(b0: seq<byte>, b1: seq<byte>, off: nat, end: nat)
    requires Chain(b0, off, end) && end <= |b1| && b1[off..end] == b0[off..end]
    ensures Chain(b1, off, end) && Listed(b1, off, end) == Listed(b0, off, end)
    decreases end - off
  {
    hide EntryAt, InodeAt, RecLenAt, NameLenAt;
    if off < end {
      SameEntry(b0, b1, off, end);
      var next := off + RecLenAt(b0, off);
      assert b1[next..end] == b1[off..end][next - off..];
      assert b0[next..end] == b0[off..end][next - off..];
      ChainFrame(b0, b1, next, end);
    }
  }

  /** The entry written as EntryBytes at off. */
  lemma WrittenEntry(buf: seq<byte>, off: nat, inode: u32, recLen: u16, fileType: byte, name: seq<byte>)
    requires Holds(buf, off, EntryBytes(inode, recLen, fileType, name))
    ensures InodeAt(buf, off) == inode && RecLenAt(buf, off) == recLen && NameLenAt(buf, off) == |name| % 256
    ensures EntryAt(buf, off) == NewEntry(inode, fileType, name)
  {
    hide Put, Get32, Get16;
    var s := EntryBytes(inode, recLen, fileType, name);
    var n := |name| % 256;
    assert s[0..4] == Put(inode, 4) && s[4..6] == Put(recLen, 2) && s[6] == n && s[7] == fileType && s[HEAD..HEAD + n] == name[..n];
    GetPutFixed(inode);
    GetPutFixed(recLen);
    HeldPart(buf, off, s, 0, 4);
    HeldPart(buf, off, s, 4, 6);
    HeldPart(buf, off, s, HEAD, HEAD + n);
    assert buf[off + 6] == buf[off..off + |s|][6] && buf[off + 7] == buf[off..off + |s|][7];
  }

  /** What a reader sees of a new entry: the length byte keeps the name modulo 256. */
  function NewEntry(inode: u32, fileType: byte, name: seq<byte>): seq<DirEntry> {
    var n := |name| % 256;
    if inode != 0 && n > 0 then [DirEntry(inode, fileType, name[..n])] else []
  }

  /** A new entry is seen as it was given exactly for a real inode and a name of 1 to 255 bytes. */
  lemma NewEntryIs(inode: u32, fileType: byte, name: seq<byte>)
    ensures NewEntry(inode, fileType, name) == [DirEntry(inode, fileType, name)] <==> inode != 0 && 0 < |name| < 256
  {
    var n := |name| % 256;
    if inode != 0 && 0 < |name| < 256 {
      assert name[..n] == name;
    } else if inode != 0 && n > 0 {
      assert |name[..n]| < |name|;
    }
  }

  // ----- adding -----

  /** The edit of AddDirEntry: the entry at off keeps its minimum, the rest becomes a new entry. */
  function AddAt(buf: seq<byte>, off: nat, inode: u32, fileType: byte, name: seq<byte>): (b: seq<byte>)
    requires HasSlack(buf, off, |buf|, |name|)
    ensures |b| == |buf|
  {
    var thisMin := MinRecLen(NameLenAt(buf, off));
    var rest := RecLenAt(buf, off) - thisMin;
    Overwrite(Overwrite(buf, off + 4, Put(thisMin, 2)), off + thisMin, EntryBytes(inode, rest, fileType, name))
  }

  /** The bytes of the edit: the old record cut to its least length, the new one with all the rest behind it. */
  lemma AddAtBytes(buf: seq<byte>, off: nat, inode: u32, fileType: byte, name: seq<byte>)
    requires HasSlack(buf, off, |buf|, |name|)
    ensures var b, least := AddAt(buf, off, inode, fileType, name), MinRecLen(buf[off + 6]);
            var at := off + least;
            && Le16(b, off + 4) == least && at + 8 + |name| <= |b|
            && Le32(b, at) == inode && Le16(b, at + 4) == Le16(buf, off + 4) - least
            && b[at + 6] == |name| % 256 && b[at + 7] == fileType && b[at + 8..at + 8 + |name|] == name
            && forall i | 0 <= i < |b| && !(off + 4 <= i < off + 6) && !(at <= i < at + 8 + |name|) :: b[i] == buf[i]
  {
    hide Put, Get16, Get32, AddAt, EntryBytes, MinRecLen;
    EntryPlace(buf, off);
    var least := MinRecLen(NameLenAt(buf, off));
    var at, rest, b := off + least, RecLenAt(buf, off) - least, AddAt(buf, off, inode, fileType, name);
    var e := EntryBytes(inode, rest, fileType, name);
    forall i | 0 <= i < |b|
      ensures b[i] == if at <= i < at + |e| then e[i - at] else if off + 4 <= i < off + 6 then Put(least, 2)[i - off - 4] else buf[i]
    {
      AddAtByte(buf, off, inode, fileType, name, i);
    }
    assert b[off + 4..off + 6] == Put(least, 2);
    GetPutFixed(least);
    Get16Is(b, off + 4);
    EntryFields(b, at, e, inode, rest, fileType, name);
  }

  lemma AddAtByte(buf: seq<byte>, off: nat, inode: u32, fileType: byte, name: seq<byte>, i: nat)
    requires HasSlack(buf, off, |buf|, |name|) && i < |buf|
    ensures var least := MinRecLen(NameLenAt(buf, off));
            var at, e := off + least, EntryBytes(inode, RecLenAt(buf, off) - least, fileType, name);
            && off + 8 <= at && at + |e| <= |buf|
            && AddAt(buf, off, inode, fileType, name)[i] ==
               if at <= i < at + |e| then e[i - at] else if off + 4 <= i < off + 6 then Put(least, 2)[i - off - 4] else buf[i]
  {
    hide Put, Overwrite, EntryBytes, RecLenAt, NameLenAt;
    var least := MinRecLen(NameLenAt(buf, off));
    var at, e := off + least, EntryBytes(inode, RecLenAt(buf, off) - least, fileType, name);
    OverwriteByte(Overwrite(buf, off + 4, Put(least, 2)), at, e, i);
    OverwriteByte(buf, off + 4, Put(least, 2), i);
  }

  lemma EntryFields(b: seq<byte>, at: nat, e: seq<byte>, inode: u32, recLen: u16, fileType: byte, name: seq<byte>)
    requires e == EntryBytes(inode, recLen, fileType, name) && at + |e| <= |b| && forall i | 0 <= i < |e| :: b[at + i] == e[i]
    ensures Le32(b, at) == inode && Le16(b, at + 4) == recLen
    ensures b[at + 6] == |name| % 256 && b[at + 7] == fileType && b[at + 8..at + 8 + |name|] == name
  {
    hide Put, Get16, Get32;
    assert b[at..at + 4] == e[..4] == Put(inode, 4);
    assert b[at + 4..at + 6] == e[4..6] == Put(recLen, 2);
    assert e[6] == |name| % 256 && e[7] == fileType && e[8..] == name;
    assert b[at + 8..at + 8 + |name|] == e[8..];
    GetPutFixed(inode);
    GetPutFixed(recLen);
    Get32Is(b, at);
    Get16Is(b, at + 4);
  }

  /** The entry at off has room for another one with a name of this length. */
  predicate HasSlack(buf: seq<byte>, off: nat, end: nat, nameLen: nat) {
    && Fits(buf, off, end) && nameLen < 0xFFF0
    && RecLenAt(buf, off) - MinRecLen(NameLenAt(buf, off)) >= MinRecLen(nameLen)
  }

  /** What AddAt leaves: the head of the old entry, its name, and the new entry behind it. */
  lemma AddedFields(buf: seq<byte>, off: nat, inode: u32, fileType: byte, name: seq<byte>)
    requires HasSlack(buf, off, |buf|, |name|)
    ensures var b, thisMin := AddAt(buf, off, inode, fileType, name), MinRecLen(NameLenAt(buf, off));
            var rest := RecLenAt(buf, off) - thisMin;
            && b[0..off] == buf[0..off] && b[off + RecLenAt(buf, off)..|b|] == buf[off + RecLenAt(buf, off)..|b|]
            && b[off..off + 4] == buf[off..off + 4] && b[off + 4..off + 6] == Put(thisMin, 2)
            && b[off + 6..off + thisMin] == buf[off + 6..off + thisMin]
            && Holds(b, off + thisMin, EntryBytes(inode, rest, fileType, name))
  {
    hide Put, EntryBytes, RecLenAt, NameLenAt, MinRecLen;
    var thisMin := MinRecLen(NameLenAt(buf, off));
    TwoPuts(buf, off, off + thisMin, off + RecLenAt(buf, off), Put(thisMin, 2),
            EntryBytes(inode, RecLenAt(buf, off) - thisMin, fileType, name));
  }

  lemma TwoPuts(buf: seq<byte>, off: nat, mid: nat, end: nat, s: seq<byte>, e: seq<byte>)
    requires off + HEAD <= mid && mid + |e| <= end <= |buf| && |s| == 2
    ensures var b := Overwrite(Overwrite(buf, off + 4, s), mid, e);
            && |b| == |buf| && b[0..off] == buf[0..off] && b[end..|b|] == buf[end..|b|]
            && b[off..off + 4] == buf[off..off + 4] && b[off + 4..off + 6] == s && b[off + 6..mid] == buf[off + 6..mid]
            && Holds(b, mid, e)
  {
    var b0 := Overwrite(buf, off + 4, s);
    var b := Overwrite(b0, mid, e);
    forall k | 0 <= k < |buf| ensures b[k] == if mid <= k < mid + |e| then e[k - mid] else if off + 4 <= k < off + 6 then s[k - off - 4] else buf[k] {
      OverwriteByte(buf, off + 4, s, k);
      OverwriteByte(b0, mid, e, k);
    }
  }

  /** A tiled block cut around the entry at off. */
  lemma Around(buf: seq<byte>, off: nat)
    requires Chain(buf, 0, off) && off < |buf| && Chain(buf, off, |buf|)
    ensures Fits(buf, off, |buf|) && Chain(buf, off + RecLenAt(buf, off), |buf|) && Tiled(buf)
    ensures Entries(buf) == Listed(buf, 0, off) + EntryAt(buf, off) + Listed(buf, off + RecLenAt(buf, off), |buf|)
  {
    hide EntryAt, InodeAt, RecLenAt, NameLenAt, MinRecLen;
    ChainConcat(buf, 0, off, |buf|);
    var next := off + RecLenAt(buf, off);
    assert Listed(buf, off, |buf|) == EntryAt(buf, off) + Listed(buf, next, |buf|);
  }

  /** The entry that gave up its slack reads as before. */
  lemma HeadKept(buf: seq<byte>, b: seq<byte>, off: nat, thisMin: nat)
    requires off + HEAD <= |buf| && |b| == |buf| && thisMin < 0x1_0000 && off + thisMin <= |buf| && HEAD + NameLenAt(buf, off) <= thisMin
    requires b[off..off + 4] == buf[off..off + 4] && b[off + 4..off + 6] == Put(thisMin, 2)
    requires b[off + 6..off + thisMin] == buf[off + 6..off + thisMin]
    ensures RecLenAt(b, off) == thisMin && NameLenAt(b, off) == NameLenAt(buf, off) && EntryAt(b, off) == EntryAt(buf, off)
  {
    hide Put, Get32;
    GetPutFixed(thisMin);
    assert b[off + 6] == b[off + 6..off + thisMin][0] == buf[off + 6..off + thisMin][0] == buf[off + 6];
    assert b[off + 7] == b[off + 6..off + thisMin][1] == buf[off + 6..off + thisMin][1] == buf[off + 7];
    SubSlice(buf, b, off + 6, off + thisMin, off + HEAD, off + HEAD + NameLenAt(buf, off));
  }

  /** After AddAt the block is still tiled and lists one more entry, just behind the one that made room. */
  lemma AddKeeps(buf: seq<byte>, off: nat, inode: u32, fileType: byte, name: seq<byte>)
    requires Chain(buf, 0, off) && off < |buf| && Chain(buf, off, |buf|) && HasSlack(buf, off, |buf|, |name|)
    ensures var b := AddAt(buf, off, inode, fileType, name);
            Chain(buf, off + RecLenAt(buf, off), |buf|) && Tiled(b)
            && Entries(b) == Listed(buf, 0, off) + EntryAt(buf, off) + NewEntry(inode, fileType, name)
                             + Listed(buf, off + RecLenAt(buf, off), |buf|)
  {
    hide EntryAt, InodeAt, RecLenAt, NameLenAt, AddAt, Put, EntryBytes, Holds, Fits, Chain, Listed, HasSlack, NewEntry, Entries;
    Around(buf, off);
    FitsInside(buf, off, |buf|);
    var b, thisMin, end := AddAt(buf, off, inode, fileType, name), MinRecLen(NameLenAt(buf, off)), off + RecLenAt(buf, off);
    TwoEntries(buf, off, inode, fileType, name);
    AddedFields(buf, off, inode, fileType, name);
    ChainFrame(buf, b, 0, off);
    ChainFrame(buf, b, end, |buf|);
    ChainConcat(b, 0, off, off + thisMin);
    ChainConcat(b, 0, off + thisMin, end);
    ChainConcat(b, 0, end, |b|);
    Whole(b);
  }

  lemma Whole(b: seq<byte>)
    requires Chain(b, 0, |b|)
    ensures Tiled(b) && Entries(b) == Listed(b, 0, |b|)
  {
  }

  predicate ListsAs(buf: seq<byte>, off: nat, end: nat, list: seq<DirEntry>) {
    Chain(buf, off, end) && Listed(buf, off, end) == list
  }

  /** The space of the entry that gave way, tiled by it and the new one. */
  lemma TwoEntries(buf: seq<byte>, off: nat, inode: u32, fileType: byte, name: seq<byte>)
    requires HasSlack(buf, off, |buf|, |name|)
    ensures off + HEAD <= |buf| && off + HEAD + NameLenAt(buf, off) <= |buf|
    ensures var b, mid, end := AddAt(buf, off, inode, fileType, name), off + MinRecLen(NameLenAt(buf, off)), off + RecLenAt(buf, off);
            off < mid < end <= |b| && ListsAs(b, off, mid, EntryAt(buf, off)) && ListsAs(b, mid, end, NewEntry(inode, fileType, name))
  {
    hide EntryAt, InodeAt, RecLenAt, NameLenAt, AddAt, Put, EntryBytes, Holds, Chain, Listed, NewEntry;
    var b, thisMin := AddAt(buf, off, inode, fileType, name), MinRecLen(NameLenAt(buf, off));
    var rest := RecLenAt(buf, off) - thisMin;
    AddedFields(buf, off, inode, fileType, name);
    HeadKept(buf, b, off, thisMin);
    WrittenEntry(b, off + thisMin, inode, rest, fileType, name);
    ShorterName(|name|);
    FitsNow(b, off, thisMin);
    FitsNow(b, off + thisMin, rest);
    ChainOne(b, off);
    ChainOne(b, off + thisMin);
  }

  lemma FitsNow(b: seq<byte>, off: nat, recLen: u16)
    requires off + HEAD <= off + recLen <= |b| && RecLenAt(b, off) == recLen && recLen % 4 == 0 && MinRecLen(NameLenAt(b, off)) <= recLen
    ensures Fits(b, off, off + recLen)
  {
  }

  lemma ShorterName(n: nat)
    requires n < 0xFFF0
    ensures MinRecLen(n % 256) <= MinRecLen(n)
  {
  }

  // ----- removing -----

  /** The edit of RemoveDirEntry: inode zero, and the entry before takes the space if it is not the first. */
  function RemoveAt(buf: seq<byte>, off: nat, prevOff: nat): (b: seq<byte>)
    requires off + HEAD <= |buf| && prevOff <= off && off + RecLenAt(buf, off) - prevOff < 0x1_0000
    ensures |b| == |buf|
  {
    var b := Overwrite(buf, off, Put(0, 4));
    if prevOff > 0 then Overwrite(b, prevOff + 4, Put(off + RecLenAt(buf, off) - prevOff, 2)) else b
  }

  lemma ZeroInode(buf: seq<byte>, off: nat)
    requires off + HEAD <= |buf|
    ensures var b := Overwrite(buf, off, Put(0, 4));
            && off + HEAD <= |b| && InodeAt(b, off) == 0 && RecLenAt(b, off) == RecLenAt(buf, off) && NameLenAt(b, off) == NameLenAt(buf, off)
            && b[0..off] == buf[0..off] && b[off + 4..|b|] == buf[off + 4..|b|]
            && (off + HEAD + NameLenAt(buf, off) <= |b| ==> EntryAt(b, off) == [])
  {
    hide Put, Get32, Get16, Overwrite;
    GetPutFixed(0);
    OverwriteParts(buf, off, Put(0, 4));
    OverwriteByte(buf, off, Put(0, 4), off + 6);
    SubSlice(buf, Overwrite(buf, off, Put(0, 4)), off + 4, |buf|, off + 4, off + 6);
  }

  /** Without a merge the dead entry keeps its space. */
  lemma RemoveFirstKeeps(buf: seq<byte>, off: nat)
    requires Chain(buf, 0, off) && off < |buf| && Chain(buf, off, |buf|)
    ensures Fits(buf, off, |buf|) && Chain(buf, off + RecLenAt(buf, off), |buf|)
    ensures var b := Overwrite(buf, off, Put(0, 4));
            Tiled(b) && Entries(b) == Listed(buf, 0, off) + Listed(buf, off + RecLenAt(buf, off), |buf|)
  {
    hide RecLenAt, NameLenAt, InodeAt, EntryAt, Put, Overwrite, Fits;
    Around(buf, off);
    FitsInside(buf, off, |buf|);
    var b, end := Overwrite(buf, off, Put(0, 4)), off + RecLenAt(buf, off);
    ZeroInode(buf, off);
    FitsAgain(buf, b, off, |buf|);
    ChainOne(b, off);
    SubSlice(buf, b, off + 4, |buf|, end, |buf|);
    ChainFrame(buf, b, 0, off);
    ChainFrame(buf, b, end, |buf|);
    ChainConcat(b, 0, off, end);
    ChainConcat(b, 0, end, |b|);
  }

  lemma FitsInside(buf: seq<byte>, off: nat, end: nat)
    requires Fits(buf, off, end)
    ensures off + HEAD <= |buf| && off + HEAD + NameLenAt(buf, off) <= off + RecLenAt(buf, off) <= end
    ensures Fits(buf, off, off + RecLenAt(buf, off))
  {
  }

  /** The same edit in another buffer with the same length fields still fits. */
  lemma FitsAgain(buf: seq<byte>, b: seq<byte>, off: nat, end: nat)
    requires Fits(buf, off, end) && |b| == |buf| && RecLenAt(b, off) == RecLenAt(buf, off) && NameLenAt(b, off) == NameLenAt(buf, off)
    ensures Fits(b, off, off + RecLenAt(b, off))
  {
  }

  /** A longer entry at off, everything behind its old space being unreadable now. */
  lemma Lengthened(buf: seq<byte>, off: nat, recLen: u16, end: nat)
    requires Fits(buf, off, end) && end <= |buf| && end == off + recLen && recLen % 4 == 0
    ensures var b := Overwrite(buf, off + 4, Put(recLen, 2));
            && Fits(b, off, end) && RecLenAt(b, off) == recLen && EntryAt(b, off) == EntryAt(buf, off)
            && b[0..off] == buf[0..off] && b[end..|b|] == buf[end..|buf|]
  {
    hide Put, Get32, MinRecLen;
    FitsInside(buf, off, end);
    var b := Overwrite(buf, off + 4, Put(recLen, 2));
    GetPutFixed(recLen);
    assert b[off + 4..off + 6] == Put(recLen, 2) && b[off..off + 4] == buf[off..off + 4] && b[off + 6] == buf[off + 6] && b[off + 7] == buf[off + 7];
    var n := NameLenAt(buf, off);
    assert b[off + HEAD..off + HEAD + n] == buf[off + HEAD..off + HEAD + n];
  }

  /** With a merge the entry in front covers the dead one. */
  lemma RemoveMergedKeeps(buf: seq<byte>, off: nat, prevOff: nat)
    requires 0 < prevOff < off < |buf| < 0x1_0000 && Chain(buf, 0, prevOff) && Chain(buf, off, |buf|)
    requires Fits(buf, prevOff, off) && prevOff + RecLenAt(buf, prevOff) == off
    ensures Chain(buf, 0, off) && Fits(buf, off, |buf|) && Chain(buf, off + RecLenAt(buf, off), |buf|)
    ensures var b := RemoveAt(buf, off, prevOff);
            Tiled(b) && Entries(b) == Listed(buf, 0, off) + Listed(buf, off + RecLenAt(buf, off), |buf|)
  {
    hide RecLenAt, NameLenAt, InodeAt, EntryAt, Put, Overwrite, Fits;
    FitsInside(buf, prevOff, off);
    ChainOne(buf, prevOff);
    ChainConcat(buf, 0, prevOff, off);
    Around(buf, off);
    FitsInside(buf, off, |buf|);
    var end := off + RecLenAt(buf, off);
    var b0 := Overwrite(buf, off, Put(0, 4));
    ZeroInode(buf, off);
    SubSlice(buf, b0, 0, off, prevOff, off);
    SubSlice(buf, b0, 0, off, 0, prevOff);
    SubSlice(buf, b0, off + 4, |buf|, end, |buf|);
    SameEntry(buf, b0, prevOff, off);
    FitsWider(buf, b0, prevOff, off, end);
    Lengthened(b0, prevOff, end - prevOff, end);
    var b := RemoveAt(buf, off, prevOff);
    ChainOne(b, prevOff);
    ChainFrame(buf, b, 0, prevOff);
    ChainFrame(buf, b, end, |buf|);
    ChainConcat(b, 0, prevOff, end);
    ChainConcat(b, 0, end, |b|);
  }

  lemma FitsWider(buf: seq<byte>, b: seq<byte>, off: nat, mid: nat, end: nat)
    requires Fits(buf, off, mid) && off + RecLenAt(buf, off) == mid < end <= |buf| && |b| == |buf|
    requires Fits(buf, mid, |buf|) && end == mid + RecLenAt(buf, mid)
    requires RecLenAt(b, off) == RecLenAt(buf, off) && NameLenAt(b, off) == NameLenAt(buf, off)
    ensures Fits(b, off, end) && (end - off) % 4 == 0
  {
    hide RecLenAt, NameLenAt, MinRecLen;
  }

  // ----- the loops over one block -----

  /** None of the entries from off to end has slack for such a name. */
  ghost predicate NoSlack(buf: seq<byte>, off: nat, end: nat, nameLen: nat)
    requires Chain(buf, off, end)
    decreases end - off
  {
    off < end ==> !HasSlack(buf, off, |buf|, nameLen) && NoSlack(buf, off + RecLenAt(buf, off), end, nameLen)
  }

  /** The entry at off is the first that has. */
  ghost predicate FirstSlack(buf: seq<byte>, off: nat, nameLen: nat) {
    Chain(buf, 0, off) && NoSlack(buf, 0, off, nameLen) && HasSlack(buf, off, |buf|, nameLen)
  }

  lemma {:induction false} NoSlackNext(buf: seq<byte>, off: nat, last: nat, nameLen: nat)
    requires Chain(buf, off, last) && NoSlack(buf, off, last, nameLen)
    requires last + HEAD <= |buf| && Fits(buf, last, last + RecLenAt(buf, last)) && !HasSlack(buf, last, |buf|, nameLen)
    ensures Chain(buf, off, last + RecLenAt(buf, last)) && NoSlack(buf, off, last + RecLenAt(buf, last), nameLen)
    decreases last - off
  {
    hide EntryAt, InodeAt, RecLenAt, NameLenAt, MinRecLen, HasSlack;
    var next := last + RecLenAt(buf, last);
    ChainOne(buf, last);
    ChainConcat(buf, off, last, next);
    if off < last {
      NoSlackNext(buf, off + RecLenAt(buf, off), last, nameLen);
    } else {
      assert NoSlack(buf, next, next, nameLen);
    }
  }

  /** Some entry from off on has room for a name of this length. */
  predicate SlackFrom(buf: seq<byte>, off: nat, nameLen: nat)
    requires Chain(buf, off, |buf|)
    decreases |buf| - off
  {
    off < |buf| && (HasSlack(buf, off, |buf|, nameLen) || SlackFrom(buf, off + RecLenAt(buf, off), nameLen))
  }

  /** list1 is list with these entries inserted at position at. */
  ghost predicate Inserted(list1: seq<DirEntry>, list: seq<DirEntry>, at: nat, new_: seq<DirEntry>) {
    at <= |list| && list1 == list[..at] + new_ + list[at..]
  }

  lemma AddInserts(buf: seq<byte>, off: nat, inode: u32, fileType: byte, name: seq<byte>) returns (at: nat)
    requires Chain(buf, 0, off) && off < |buf| && Chain(buf, off, |buf|) && HasSlack(buf, off, |buf|, |name|)
    ensures var b := AddAt(buf, off, inode, fileType, name);
            Tiled(buf) && Tiled(b) && Inserted(Entries(b), Entries(buf), at, NewEntry(inode, fileType, name))
  {
    hide EntryAt, InodeAt, RecLenAt, NameLenAt, AddAt, Listed, Entries, Chain, HasSlack;
    Around(buf, off);
    AddKeeps(buf, off, inode, fileType, name);
    at := |Listed(buf, 0, off) + EntryAt(buf, off)|;
  }

  /** AddDirEntry in one block: the first entry with room gives up its slack. */
  method AddToBlock(buf: array<byte>, inode: u32, fileType: byte, name: seq<byte>)
    returns (found: bool, ghost at: nat, ghost off: nat)
    requires Tiled(buf[..]) && buf.Length < 0x1_0000 && |name| < 0xFFF0
    modifies buf
    ensures found <==> old(SlackFrom(buf[..], 0, |name|))
    ensures !found ==> buf[..] == old(buf[..])
    ensures found ==> Tiled(buf[..]) && Inserted(Entries(buf[..]), old(Entries(buf[..])), at, NewEntry(inode, fileType, name))
    ensures found ==> FirstSlack(old(buf[..]), off, |name|) && buf[..] == AddAt(old(buf[..]), off, inode, fileType, name)
  {
    hide EntryAt, InodeAt, RecLenAt, NameLenAt, Listed, Entries, AddAt, Inserted, EntryBytes, Put, Holds, Overwrite;
    ghost var was := buf[..];
    var needed := MinRecLen(|name|);
    var offset := 0;
    at, off := 0, 0;
    while offset < buf.Length
      invariant offset <= buf.Length && buf[..] == was
      invariant Chain(was, 0, offset) && Chain(was, offset, |was|) && NoSlack(was, 0, offset, |name|)
      invariant SlackFrom(was, 0, |name|) <==> SlackFrom(was, offset, |name|)
    {
      var recLen := RecLenAt(buf[..], offset);
      var thisMin := MinRecLen(NameLenAt(buf[..], offset));
      var slack := recLen - thisMin;
      if slack >= needed {
        at := AddInserts(was, offset, inode, fileType, name);
        WriteNew(buf, offset, inode, fileType, name);
        return true, at, offset;
      }
      ChainOne(was, offset);
      ChainConcat(was, 0, offset, offset + recLen);
      NoSlackNext(was, 0, offset, |name|);
      offset := offset + recLen;
    }
    found := false;
  }

  method WriteNew(buf: array<byte>, off: nat, inode: u32, fileType: byte, name: seq<byte>)
    requires HasSlack(buf[..], off, buf.Length, |name|)
    modifies buf
    ensures buf[..] == AddAt(old(buf[..]), off, inode, fileType, name)
  {
    hide EntryAt, InodeAt, RecLenAt, NameLenAt, EntryBytes, Put, Holds, Overwrite;
    ghost var was := buf[..];
    var recLen, thisMin := RecLenAt(buf[..], off), MinRecLen(NameLenAt(buf[..], off));
    PutBytes(buf, off + 4, Put(thisMin, 2));
    IsOverwrite(was, buf[..], off + 4, Put(thisMin, 2));
    ghost var mid := buf[..];
    PutBytes(buf, off + thisMin, EntryBytes(inode, recLen - thisMin, fileType, name));
    IsOverwrite(mid, buf[..], off + thisMin, EntryBytes(inode, recLen - thisMin, fileType, name));
  }

  ghost predicate Names(list: seq<DirEntry>, name: seq<byte>) {
    exists i :: 0 <= i < |list| && list[i].name == name
  }

  /** list1 is list without its first entry of this name, at position at. */
  ghost predicate RemovedFrom(list1: seq<DirEntry>, list: seq<DirEntry>, at: nat, name: seq<byte>) {
    && at < |list| && list[at].name == name && (forall i | 0 <= i < at :: list[i].name != name)
    && list1 == list[..at] + list[at + 1..]
  }

  lemma NamesConcat(a: seq<DirEntry>, b: seq<DirEntry>, name: seq<byte>)
    ensures Names(a + b, name) <==> Names(a, name) || Names(b, name)
  {
    if i :| 0 <= i < |a| && a[i].name == name {
      assert (a + b)[i].name == name;
    }
    if i :| 0 <= i < |b| && b[i].name == name {
      assert (a + b)[|a| + i].name == name;
    }
  }

  /**
   Compared with was the entry at off has inode 0, the one before it, unless that is the block's
   first, has taken its space, and no other byte differs.
   */
  ghost predicate Erased(b: seq<byte>, was: seq<byte>, off: nat, prevOff: nat) {
    && |b| == |was| && prevOff <= off && off + 8 <= |b|
    && Le32(b, off) == 0
    && (prevOff > 0 ==> prevOff + 8 <= off && Le16(b, prevOff + 4) == off + Le16(was, off + 4) - prevOff)
    && forall i | 0 <= i < |b| && !(off <= i < off + 4) && !(prevOff > 0 && prevOff + 4 <= i < prevOff + 6) :: b[i] == was[i]
  }

  lemma RemoveErases(buf: seq<byte>, off: nat, prevOff: nat)
    requires Before(buf, off, prevOff) && off + 8 <= |buf| && prevOff <= off && off + RecLenAt(buf, off) - prevOff < 0x1_0000
    ensures Erased(RemoveAt(buf, off, prevOff), buf, off, prevOff)
  {
    hide Put, Get16, Get32, Overwrite, Chain, MinRecLen;
    var z, m := Put(0, 4), Overwrite(buf, off, Put(0, 4));
    var b, len := RemoveAt(buf, off, prevOff), off + RecLenAt(buf, off) - prevOff;
    EntryPlace(buf, off);
    OverwriteParts(buf, off, z);
    GetPutFixed(0);
    if prevOff > 0 {
      OverwriteParts(m, prevOff + 4, Put(len, 2));
      GetPutFixed(len);
      Get16Is(b, prevOff + 4);
    }
    forall i | 0 <= i < |b| ensures b[i] == if prevOff > 0 && prevOff + 4 <= i < prevOff + 6 then Put(len, 2)[i - prevOff - 4]
                                            else if off <= i < off + 4 then z[i - off] else buf[i] {
      OverwriteByte(buf, off, z, i);
      if prevOff > 0 {
        OverwriteByte(m, prevOff + 4, Put(len, 2), i);
      }
    }
    assert b[off..off + 4] == z;
    Get32Is(b, off);
  }

  /** The entry before off in the loop of RemoveDirEntry. */
  ghost predicate Before(buf: seq<byte>, off: nat, prevOff: nat) {
    if off == 0 then prevOff == 0
    else prevOff < off <= |buf| && Chain(buf, 0, prevOff) && Fits(buf, prevOff, off) && prevOff + RecLenAt(buf, prevOff) == off
  }

  lemma RemoveRemoves(buf: seq<byte>, off: nat, prevOff: nat, name: seq<byte>) returns (at: nat)
    requires Chain(buf, 0, off) && off < |buf| < 0x1_0000 && Chain(buf, off, |buf|) && Before(buf, off, prevOff)
    requires !Names(Listed(buf, 0, off), name) && Fits(buf, off, |buf|) && |EntryAt(buf, off)| == 1 && EntryAt(buf, off)[0].name == name
    ensures prevOff <= off && off + RecLenAt(buf, off) - prevOff < 0x1_0000
    ensures var b := RemoveAt(buf, off, prevOff);
            Tiled(buf) && Tiled(b) && RemovedFrom(Entries(b), Entries(buf), at, name)
  {
    hide EntryAt, InodeAt, RecLenAt, NameLenAt, Listed, Put, Overwrite, MinRecLen;
    Around(buf, off);
    FitsInside(buf, off, |buf|);
    at := |Listed(buf, 0, off)|;
    if prevOff > 0 {
      RemoveMergedKeeps(buf, off, prevOff);
    } else {
      RemoveFirstKeeps(buf, off);
    }
    Drops(Listed(buf, 0, off), EntryAt(buf, off), Listed(buf, off + RecLenAt(buf, off), |buf|), name);
  }

  lemma Drops(a: seq<DirEntry>, e: seq<DirEntry>, c: seq<DirEntry>, name: seq<byte>)
    requires !Names(a, name) && |e| == 1 && e[0].name == name
    ensures RemovedFrom(a + c, a + e + c, |a|, name)
  {
    var list := a + e + c;
    assert list[|a|] == e[0] && list[..|a|] == a && list[|a| + 1..] == c;
    forall i | 0 <= i < |a| ensures list[i].name != name {
      assert list[i] == a[i];
    }
  }

  /** RemoveDirEntry in one block. */
  method RemoveFromBlock(buf: array<byte>, name: seq<byte>) returns (found: bool, ghost at: nat, ghost off: nat, ghost prevOff: nat)
    requires Tiled(buf[..]) && buf.Length < 0x1_0000
    modifies buf
    ensures found <==> Names(old(Entries(buf[..])), name)
    ensures !found ==> buf[..] == old(buf[..])
    ensures found ==> Tiled(buf[..]) && RemovedFrom(Entries(buf[..]), old(Entries(buf[..])), at, name)
    ensures found ==> Before(old(buf[..]), off, prevOff) && off + 8 <= buf.Length && Erased(buf[..], old(buf[..]), off, prevOff)
  {
    hide EntryAt, InodeAt, RecLenAt, NameLenAt, Listed, RemoveAt, RemovedFrom, Put, Holds, Overwrite, MinRecLen, Names, Before, Fits;
    ghost var was := buf[..];
    NothingListed(was, name);
    StartsBefore(was);
    at, off, prevOff := 0, 0, 0;
    var offset, prev: nat := 0, 0;
    while offset < buf.Length
      invariant offset <= buf.Length && buf[..] == was
      invariant Chain(was, 0, offset) && Chain(was, offset, |was|)
      invariant !Names(Listed(was, 0, offset), name) && Before(was, offset, prev)
    {
      Around(was, offset);
      FitsInside(was, offset, |was|);
      SameBytes(was, offset, name);
      var inode, recLen, nameLen := InodeAt(buf[..], offset), RecLenAt(buf[..], offset), NameLenAt(buf[..], offset);
      if inode != 0 && nameLen > 0 && buf[offset + HEAD..offset + HEAD + nameLen] == name {
        at := RemoveRemoves(was, offset, prev, name);
        NamesFound(was, name, at, RemoveAt(was, offset, prev));
        EraseEntry(buf, offset, prev);
        RemoveErases(was, offset, prev);
        return true, at, offset, prev;
      }
      ChainOne(was, offset);
      ChainConcat(was, 0, offset, offset + recLen);
      NamesConcat(Listed(was, 0, offset), EntryAt(was, offset), name);
      NextBefore(was, offset);
      prev := offset;
      offset := offset + recLen;
    }
    found := false;
  }

  lemma NothingListed(buf: seq<byte>, name: seq<byte>)
    ensures Chain(buf, 0, 0) && !Names(Listed(buf, 0, 0), name)
  {
  }

  lemma StartsBefore(buf: seq<byte>)
    ensures Before(buf, 0, 0)
  {
  }

  lemma NextBefore(buf: seq<byte>, off: nat)
    requires Chain(buf, 0, off) && off + HEAD <= |buf| && Fits(buf, off, off + RecLenAt(buf, off))
    ensures Before(buf, off + RecLenAt(buf, off), off)
  {
    hide RecLenAt, NameLenAt;
    assert RecLenAt(buf, off) >= HEAD;
  }

  lemma NamesFound(buf: seq<byte>, name: seq<byte>, at: nat, b: seq<byte>)
    requires Tiled(buf) && Tiled(b) && RemovedFrom(Entries(b), Entries(buf), at, name)
    ensures Names(Entries(buf), name)
  {
    hide Entries;
  }

  /** The comparison in the loop is the comparison with the entry's name. */
  lemma SameBytes(buf: seq<byte>, off: nat, name: seq<byte>)
    requires off + HEAD <= |buf| && off + HEAD + NameLenAt(buf, off) <= |buf|
    ensures Names(EntryAt(buf, off), name) <==>
            InodeAt(buf, off) != 0 && NameLenAt(buf, off) > 0 && buf[off + HEAD..off + HEAD + NameLenAt(buf, off)] == name
    ensures Names(EntryAt(buf, off), name) ==> |EntryAt(buf, off)| == 1 && EntryAt(buf, off)[0].name == name
  {
    hide InodeAt, NameLenAt;
    if InodeAt(buf, off) != 0 && NameLenAt(buf, off) > 0 {
      assert EntryAt(buf, off)[0].name == buf[off + HEAD..off + HEAD + NameLenAt(buf, off)];
    }
  }

  method EraseEntry(buf: array<byte>, off: nat, prevOff: nat)
    requires off + HEAD <= buf.Length && prevOff <= off && off + RecLenAt(buf[..], off) - prevOff < 0x1_0000
    modifies buf
    ensures buf[..] == RemoveAt(old(buf[..]), off, prevOff)
  {
    hide InodeAt, RecLenAt, NameLenAt, Put, Holds, Overwrite;
    ghost var was := buf[..];
    var recLen := RecLenAt(buf[..], off);
    PutBytes(buf, off, Put(0, 4));
    IsOverwrite(was, buf[..], off, Put(0, 4));
    if prevOff > 0 {
      ghost var mid := buf[..];
      var newPrevRecLen := off + recLen - prevOff;
      PutBytes(buf, prevOff + 4, Put(newPrevRecLen, 2));
      IsOverwrite(mid, buf[..], prevOff + 4, Put(newPrevRecLen, 2));
    }
  }

  // ----- parseDirBlock and writeDirBlock -----

  function Behind(entries: seq<DirEntry>, r: Option<seq<DirEntry>>): Option<seq<DirEntry>> {
    match r
    case None => None
    case Some(rest) => Some(entries + rest)
  }

  method ParseDirBlock(buf: seq<byte>) returns (r: Option<seq<DirEntry>>)
    ensures r == Parse(buf, 0)
  {
    hide EntryAt, InodeAt, RecLenAt, NameLenAt, Parse, Behind;
    var entries := [];
    var offset := 0;
    BehindNothing(Parse(buf, 0));
    while offset < |buf|
      invariant Parse(buf, 0) == Behind(entries, Parse(buf, offset))
      decreases |buf| - offset
    {
      if offset + HEAD > |buf| {
        break;
      }
      ParseStep(buf, offset, entries);
      var inode, recLen, nameLen := InodeAt(buf, offset), RecLenAt(buf, offset), NameLenAt(buf, offset);
      if recLen == 0 {
        return None;
      }
      if inode != 0 && nameLen > 0 {
        if offset + HEAD + nameLen > |buf| {
          return None;
        }
        OneEntry(buf, offset);
        entries := entries + [DirEntry(inode, buf[offset + 7], buf[offset + HEAD..offset + HEAD + nameLen])];
      }
      offset := offset + recLen;
    }
    ParseEnd(buf, offset, entries);
    r := Some(entries);
  }

  lemma BehindNothing(r: Option<seq<DirEntry>>)
    ensures Behind([], r) == r
  {
    if r.Some? {
      assert [] + r.value == r.value;
    }
  }

  lemma ParseEnd(buf: seq<byte>, off: nat, entries: seq<DirEntry>)
    requires off >= |buf| || off + HEAD > |buf|
    ensures Behind(entries, Parse(buf, off)) == Some(entries)
  {
    assert entries + [] == entries;
  }

  lemma ParseStep(buf: seq<byte>, off: nat, entries: seq<DirEntry>)
    requires off + HEAD <= |buf|
    ensures RecLenAt(buf, off) == 0 ==> Behind(entries, Parse(buf, off)) == None
    ensures RecLenAt(buf, off) != 0 && InodeAt(buf, off) != 0 && NameLenAt(buf, off) > 0 ==>
              if off + HEAD + NameLenAt(buf, off) > |buf| then Behind(entries, Parse(buf, off)) == None
              else Behind(entries, Parse(buf, off)) == Behind(entries + EntryAt(buf, off), Parse(buf, off + RecLenAt(buf, off)))
    ensures RecLenAt(buf, off) != 0 && !(InodeAt(buf, off) != 0 && NameLenAt(buf, off) > 0) ==>
              Behind(entries, Parse(buf, off)) == Behind(entries, Parse(buf, off + RecLenAt(buf, off)))
  {
    hide InodeAt, RecLenAt, NameLenAt;
    if !(InodeAt(buf, off) != 0 && NameLenAt(buf, off) > 0) {
      NoEntry(buf, off);
    }
    var next := Parse(buf, off + RecLenAt(buf, off));
    if off + HEAD + NameLenAt(buf, off) <= |buf| {
      ThenBehind(entries, EntryAt(buf, off), next);
    }
    ThenBehind(entries, [], next);
  }

  lemma ThenBehind(a: seq<DirEntry>, b: seq<DirEntry>, r: Option<seq<DirEntry>>)
    ensures Behind(a, Behind(b, r)) == Behind(a + b, r)
    ensures a + [] == a
  {
    if r.Some? {
      assert a + (b + r.value) == (a + b) + r.value;
    }
  }

  lemma OneEntry(buf: seq<byte>, off: nat)
    requires off + HEAD <= |buf| && off + HEAD + NameLenAt(buf, off) <= |buf| && InodeAt(buf, off) != 0 && NameLenAt(buf, off) > 0
    ensures EntryAt(buf, off) == [DirEntry(InodeAt(buf, off), buf[off + 7], buf[off + HEAD..off + HEAD + NameLenAt(buf, off)])]
  {
  }

  lemma NoEntry(buf: seq<byte>, off: nat)
    requires off + HEAD <= |buf| && !(InodeAt(buf, off) != 0 && NameLenAt(buf, off) > 0)
    ensures off + HEAD + NameLenAt(buf, off) <= |buf| ==> EntryAt(buf, off) == []
  {
  }

  /** Bytes the entries need at least. */
  function Need(entries: seq<DirEntry>): nat
    requires forall i | 0 <= i < |entries| :: |entries[i].name| < 0xFFF0
  {
    if entries == [] then 0 else Need(entries[..|entries| - 1]) + MinRecLen(|entries[|entries| - 1].name|)
  }

  /** What a reader sees of them. */
  function Visible(entries: seq<DirEntry>): seq<DirEntry> {
    if entries == [] then []
    else
      var e := entries[|entries| - 1];
      Visible(entries[..|entries| - 1]) + NewEntry(e.inode, e.fileType, e.name)
  }

  /** Entries with an inode and a name of 1 to 255 bytes are seen as they are. */
  lemma {:induction false} VisibleAll(entries: seq<DirEntry>)
    requires forall i | 0 <= i < |entries| :: entries[i].inode != 0 && 0 < |entries[i].name| < 256
    ensures Visible(entries) == entries
  {
    hide NewEntry;
    if entries != [] {
      var first, e := entries[..|entries| - 1], entries[|entries| - 1];
      VisibleAll(first);
      NewEntryIs(e.inode, e.fileType, e.name);
      assert entries == first + [e];
    }
  }

  lemma {:induction false} NeedPrefix(entries: seq<DirEntry>, i: nat)
    requires i <= |entries| && forall j | 0 <= j < |entries| :: |entries[j].name| < 0xFFF0
    ensures Need(entries[..i]) <= Need(entries) && Need(entries[..i]) % 4 == 0
    ensures i < |entries| ==> Need(entries[..i + 1]) == Need(entries[..i]) + MinRecLen(|entries[i].name|) <= Need(entries)
    ensures i < |entries| ==> Visible(entries[..i + 1]) == Visible(entries[..i]) + NewEntry(entries[i].inode, entries[i].fileType, entries[i].name)
    decreases |entries|, |entries| - i
  {
    hide NewEntry, MinRecLen;
    if i < |entries| {
      assert entries[..i + 1][..i] == entries[..i];
      NeedPrefix(entries, i + 1);
      NeedAligned(entries[..i]);
    } else {
      assert entries[..i] == entries;
      NeedAligned(entries);
    }
  }

  lemma {:induction false} NeedAligned(entries: seq<DirEntry>)
    requires forall j | 0 <= j < |entries| :: |entries[j].name| < 0xFFF0
    ensures Need(entries) % 4 == 0
  {
    hide MinRecLen;
    if entries != [] {
      NeedAligned(entries[..|entries| - 1]);
    }
  }

  /** One more entry behind a tiled front. */
  lemma Extended(b0: seq<byte>, b: seq<byte>, off: nat, inode: u32, recLen: u16, fileType: byte, name: seq<byte>)
    requires Chain(b0, 0, off) && |name| < 0xFFF0 && off + HEAD + |name| <= |b0|
    requires b == Overwrite(b0, off, EntryBytes(inode, recLen, fileType, name))
    requires off + recLen <= |b0| && recLen % 4 == 0 && MinRecLen(|name|) <= recLen
    ensures Chain(b, 0, off + recLen) && Listed(b, 0, off + recLen) == Listed(b0, 0, off) + NewEntry(inode, fileType, name)
  {
    hide EntryAt, InodeAt, RecLenAt, NameLenAt, EntryBytes, NewEntry;
    assert b[0..off] == b0[0..off];
    ChainFrame(b0, b, 0, off);
    assert Holds(b, off, EntryBytes(inode, recLen, fileType, name));
    WrittenEntry(b, off, inode, recLen, fileType, name);
    ShorterName(|name|);
    ChainOne(b, off);
    ChainConcat(b, 0, off, off + recLen);
  }

  /** writeDirBlock: the entries one after another, the last one taking the rest of the block. */
  method WriteDirBlock(entries: seq<DirEntry>, blockSize: nat) returns (b: seq<byte>)
    requires forall i | 0 <= i < |entries| :: |entries[i].name| < 0xFFF0
    requires Need(entries) <= blockSize < 0x1_0000 && blockSize % 4 == 0 && entries != []
    ensures |b| == blockSize && Tiled(b) && Entries(b) == Visible(entries)
  {
    hide Listed, EntryBytes, Put, Holds, Overwrite, MinRecLen, NewEntry, Need, Visible, Chain;
    var buf := new byte[blockSize](_ => 0);
    var offset := 0;
    NoneVisible(buf[..], entries);
    for i := 0 to |entries|
      invariant offset == if i == |entries| then blockSize else Need(entries[..i])
      invariant offset <= blockSize && Chain(buf[..], 0, offset) && Listed(buf[..], 0, offset) == Visible(entries[..i])
    {
      var e := entries[i];
      NeedPrefix(entries, i);
      var recLen := MinRecLen(|e.name|);
      if i == |entries| - 1 {
        recLen := blockSize - offset;
      }
      ghost var was := buf[..];
      PutBytes(buf, offset, EntryBytes(e.inode, recLen, e.fileType, e.name));
      IsOverwrite(was, buf[..], offset, EntryBytes(e.inode, recLen, e.fileType, e.name));
      Extended(was, buf[..], offset, e.inode, recLen, e.fileType, e.name);
      offset := offset + recLen;
    }
    assert entries[..|entries|] == entries;
    b := buf[..];
    Whole(b);
  }

  lemma NoneVisible(buf: seq<byte>, entries: seq<DirEntry>)
    ensures Chain(buf, 0, 0) && Listed(buf, 0, 0) == Visible(entries[..0]) && Need(entries[..0]) == 0
  {
  }
}
