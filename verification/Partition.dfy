/**
 A partition seen through sector alignment (block/device.go, block/aligned.go): byte-wise reads
 and writes of a flat array, made of whole-sector accesses to the disk.
 */
module Partition {
  import opened Bytes
  import opened Arith

  /**
   A raw disk: it takes whole sectors only, which its callers must see to. Reads are cut short at the
   end, writes behind it fail.
   */
  class RawDisk {
    const sectorSize: nat
    var bytes: seq<byte>

    ghost predicate Valid()
      reads this
    {
      sectorSize > 0 && |bytes| % sectorSize == 0
    }

    /** Reads into the first len bytes of buf. */
    method ReadAt(buf: array<byte>, len: nat, off: nat) returns (n: nat, eof: bool)
      requires Valid() && len <= buf.Length && off % sectorSize == 0 && len % sectorSize == 0
      modifies buf
      ensures n == Readable(bytes, off, len)
      ensures buf[..n] == Slice(bytes, off, n) && (eof <==> n < len)
      ensures forall i | n <= i < buf.Length :: buf[i] == old(buf[i])
    {
      n := if off >= |bytes| then 0 else Min(len, |bytes| - off);
      if n > 0 {
        PutBytes(buf, 0, bytes[off..off + n]);
        assert buf[..][0..0 + n] == buf[..n];
      }
      eof := n < len;
    }

    method WriteAt(buf: seq<byte>, off: nat) returns (ok: bool)
      requires Valid() && off % sectorSize == 0 && |buf| % sectorSize == 0
      modifies this`bytes
      ensures Valid() && |bytes| == old(|bytes|)
      ensures ok <==> off + |buf| <= |bytes|
      ensures bytes == if ok then Overwrite(old(bytes), off, buf) else old(bytes)
    {
      ok := off + |buf| <= |bytes|;
      if ok {
        bytes := Overwrite(bytes, off, buf);
      }
    }
  }

  /** How many of len bytes there are from off on. */
  function Readable(s: seq<byte>, off: nat, len: nat): (n: nat)
    ensures n <= len && (n == 0 || off + n <= |s|)
  {
    if off >= |s| then 0 else Min(len, |s| - off)
  }

  function Slice(s: seq<byte>, off: nat, n: nat): (r: seq<byte>)
    ensures |r| == n || off + n > |s|
  {
    if off + n <= |s| then s[off..off + n] else []
  }

  // ----- alignment -----

  /** The sectors around [off, off + len). */
  lemma Sectors(off: nat, len: nat, ss: nat)
    requires ss > 0 && len > 0
    ensures var start, end := AlignDown(off, ss), AlignUp(off + len, ss);
            && start <= off && off + len <= end && (end - start) % ss == 0
  {
    var start, end := AlignDown(off, ss), AlignUp(off + len, ss);
    DivMod(start, ss);
    DivMod(end, ss);
    assert (end / ss - start / ss) * ss == end - start;
    MultipleMod(end / ss - start / ss, ss);
  }

  /** Sectors around a range inside the disk are inside the disk. */
  lemma SectorsInside(off: nat, len: nat, ss: nat, size: nat)
    requires ss > 0 && size % ss == 0
    ensures off + len <= size <==> AlignUp(off + len, ss) <= size
  {
    if off + len <= size {
      AlignUpLeast(off + len, ss, size);
    }
  }

  class AlignedReaderAt {
    const inner: RawDisk
    const sectorSize: nat

    constructor (inner: RawDisk)
      ensures this.inner == inner && sectorSize == inner.sectorSize
    {
      this.inner, this.sectorSize := inner, inner.sectorSize;
    }

    ghost predicate Valid()
      reads this, inner
    {
      inner.Valid() && sectorSize == inner.sectorSize
    }

    /** The bytes of the disk, as many as there are. */
    method ReadAt(buf: array<byte>, len: nat, off: nat) returns (n: nat, eof: bool)
      requires Valid() && len <= buf.Length
      modifies buf
      ensures n == Readable(inner.bytes, off, len)
      ensures buf[..n] == Slice(inner.bytes, off, n) && (eof <==> n < len)
      ensures forall i | n <= i < buf.Length :: buf[i] == old(buf[i])
    {
      hide Holds, AlignUp, AlignDown;
      if len == 0 {
        return 0, false;
      }
      var ss := sectorSize;
      Sectors(off, len, ss);
      var end := off + len;
      var alignedStart, alignedEnd := AlignDown(off, ss), AlignUp(end, ss);
      if alignedStart == off && alignedEnd == end {
        n, eof := inner.ReadAt(buf, len, off);
        return;
      }
      n, eof := ReadAround(buf, len, off, alignedStart, alignedEnd);
    }

    /** Reading the sectors around a range that does not fill them. */
    method ReadAround(buf: array<byte>, len: nat, off: nat, alignedStart: nat, alignedEnd: nat) returns (n: nat, eof: bool)
      requires Valid() && len <= buf.Length && alignedStart <= off && off + len <= alignedEnd
      requires alignedStart % sectorSize == 0 && (alignedEnd - alignedStart) % sectorSize == 0
      modifies buf
      ensures n == Readable(inner.bytes, off, len)
      ensures buf[..n] == Slice(inner.bytes, off, n) && (eof <==> n < len)
      ensures forall i | n <= i < buf.Length :: buf[i] == old(buf[i])
    {
      hide Holds;
      var alignedLen := alignedEnd - alignedStart;
      var tmp := new byte[alignedLen](_ => 0);
      var got, _ := inner.ReadAt(tmp, alignedLen, alignedStart);
      var skip := off - alignedStart;
      var usable := got - skip;
      if usable < 0 {
        usable := 0;
      }
      if usable > len {
        usable := len;
      }
      ghost var part := tmp[..got];
      if usable > 0 {
        ShiftedSlice(inner.bytes, alignedStart, got, part, skip, usable);
        OfPrefix(tmp[..], got, skip, skip + usable);
      }
      CopyPart(buf, tmp, skip, usable);
      n, eof := usable, usable < len;
    }

    /** All of buf or nothing reaches the disk, and no byte around it. */
    method WriteAt(buf: seq<byte>, off: nat) returns (n: nat, ok: bool)
      requires Valid()
      modifies inner
      ensures Valid() && |inner.bytes| == old(|inner.bytes|)
      ensures ok <==> buf == [] || off + |buf| <= |inner.bytes|
      ensures n == if ok then |buf| else 0
      ensures inner.bytes == if ok && buf != [] then Overwrite(old(inner.bytes), off, buf) else old(inner.bytes)
    {
      hide Overwrite, Holds, AlignUp, AlignDown;
      if |buf| == 0 {
        return 0, true;
      }
      var ss := sectorSize;
      Sectors(off, |buf|, ss);
      SectorsInside(off, |buf|, ss, |inner.bytes|);
      var end := off + |buf|;
      var alignedStart, alignedEnd := AlignDown(off, ss), AlignUp(end, ss);
      if alignedStart == off && alignedEnd == end {
        ok := inner.WriteAt(buf, off);
        n := if ok then |buf| else 0;
        return;
      }
      n, ok := WriteAround(buf, off, alignedStart, alignedEnd);
    }

    /** Read, modify, write for a range that does not fill its sectors. */
    method WriteAround(buf: seq<byte>, off: nat, alignedStart: nat, alignedEnd: nat) returns (n: nat, ok: bool)
      requires Valid() && alignedStart <= off && off + |buf| <= alignedEnd
      requires alignedStart % sectorSize == 0 && (alignedEnd - alignedStart) % sectorSize == 0
      modifies inner
      ensures Valid() && |inner.bytes| == old(|inner.bytes|)
      ensures ok <==> alignedEnd <= |inner.bytes|
      ensures n == if ok then |buf| else 0
      ensures inner.bytes == if ok then Overwrite(old(inner.bytes), off, buf) else old(inner.bytes)
    {
      hide Overwrite, Holds;
      var tmp := new byte[alignedEnd - alignedStart](_ => 0);
      ghost var disk := inner.bytes;
      var got, _ := inner.ReadAt(tmp, alignedEnd - alignedStart, alignedStart);
      ghost var was := tmp[..];
      var skip := off - alignedStart;
      PutBytes(tmp, skip, buf);
      ok := inner.WriteAt(tmp[..], alignedStart);
      n := if ok then |buf| else 0;
      if ok {
        assert was == disk[alignedStart..alignedEnd];
        ReadModifyWrite(disk, alignedStart, was, tmp[..], skip, buf);
      }
    }
  }

  /** copy(buf[:n], tmp[skip:skip+n]) */
  method CopyPart(buf: array<byte>, tmp: array<byte>, skip: nat, n: nat)
    requires n <= buf.Length && (n == 0 || skip + n <= tmp.Length) && buf != tmp
    modifies buf
    ensures n > 0 ==> buf[..n] == tmp[skip..skip + n]
    ensures forall i | n <= i < buf.Length :: buf[i] == old(buf[i])
  {
    if n > 0 {
      PutBytes(buf, 0, tmp[skip..skip + n]);
      assert buf[..][0..0 + n] == buf[..n];
    }
  }

  lemma ShiftedSlice(s: seq<byte>, start: nat, got: nat, t: seq<byte>, skip: nat, n: nat)
    requires t == Slice(s, start, got) && |t| == got && start + got <= |s| && skip + n <= got
    ensures t[skip..skip + n] == Slice(s, start + skip, n)
  {
    var a, b := t[skip..skip + n], s[start + skip..start + skip + n];
    forall i | 0 <= i < n ensures a[i] == b[i] {
      assert a[i] == t[skip + i] == s[start..start + got][skip + i];
    }
  }

  /** Writing back a range with buf laid over part of it writes buf alone. */
  lemma ReadModifyWrite(disk: seq<byte>, start: nat, was: seq<byte>, tmp: seq<byte>, skip: nat, buf: seq<byte>)
    requires start + |was| <= |disk| && was == disk[start..start + |was|] && |tmp| == |was| && skip + |buf| <= |was|
    requires Holds(tmp, skip, buf) && forall i | 0 <= i < |was| && !(skip <= i < skip + |buf|) :: tmp[i] == was[i]
    ensures Overwrite(disk, start, tmp) == Overwrite(disk, start + skip, buf)
  {
    hide Overwrite;
    var a, b := Overwrite(disk, start, tmp), Overwrite(disk, start + skip, buf);
    forall i | 0 <= i < |disk| ensures a[i] == b[i] {
      OverwriteByte(disk, start, tmp, i);
      OverwriteByte(disk, start + skip, buf, i);
      if start <= i < start + |was| {
        assert was[i - start] == disk[i];
        if skip <= i - start < skip + |buf| {
          assert tmp[skip..skip + |buf|][i - start - skip] == tmp[i - start];
        }
      }
    }
  }

  // ----- the partition -----

  const DEFAULT_SECTOR_SIZE := 512

  datatype Part = Part(startLBA: nat, endLBA: nat, sectorSize: nat) {
    function StartOffset(): nat {
      startLBA * sectorSize
    }

    function ByteSize(): int {
      (endLBA - startLBA + 1) * sectorSize
    }

    /** Sector lba lies between the partition's first byte and the byte behind its last. */
    ghost predicate Covers(lba: nat) {
      StartOffset() <= lba * sectorSize && lba * sectorSize + sectorSize <= StartOffset() + ByteSize()
    }

    /** The partition reaches from the first byte of its first sector to the last byte of its last. */
    lemma SectorInside(lba: nat)
      requires startLBA <= lba <= endLBA
      ensures StartOffset() + ByteSize() == (endLBA + 1) * sectorSize
      ensures Covers(lba)
    {
      MulMono(startLBA, lba, sectorSize);
      MulMono(lba + 1, endLBA + 1, sectorSize);
      assert (lba + 1) * sectorSize == lba * sectorSize + sectorSize;
      assert (endLBA - startLBA + 1) * sectorSize == (endLBA + 1) * sectorSize - startLBA * sectorSize;
    }

    function Alignment(): (ss: nat)
      ensures ss > 0
    {
      if sectorSize == 0 then DEFAULT_SECTOR_SIZE else sectorSize
    }
  }

  class PartitionReader {
    const disk: AlignedReaderAt
    const startOffset: nat
    const size: int

    /** NewPartitionReader, for a sector size the alignment layer takes. */
    constructor (raw: RawDisk, p: Part)
      requires raw.sectorSize == p.Alignment()
      ensures fresh(disk) && disk.inner == raw && disk.sectorSize == raw.sectorSize
      ensures startOffset == p.StartOffset() && size == p.ByteSize()
      ensures p.startLBA <= p.endLBA ==> startOffset == p.startLBA * p.sectorSize && startOffset + size == (p.endLBA + 1) * p.sectorSize
      ensures forall lba | p.startLBA <= lba <= p.endLBA ::
                startOffset <= lba * p.sectorSize && lba * p.sectorSize + p.sectorSize <= startOffset + size
      ensures p.sectorSize == 0 ==> disk.sectorSize == 512
      ensures p.sectorSize != 0 ==> disk.sectorSize == p.sectorSize
    {
      hide Part.ByteSize;
      disk := new AlignedReaderAt(raw);
      startOffset, size := p.StartOffset(), p.ByteSize();
      forall lba | p.startLBA <= lba <= p.endLBA
        ensures p.StartOffset() <= lba * p.sectorSize && lba * p.sectorSize + p.sectorSize <= p.StartOffset() + p.ByteSize()
      {
        p.SectorInside(lba);
      }
      if p.startLBA <= p.endLBA {
        p.SectorInside(p.endLBA);
      }
    }

    ghost predicate Valid()
      reads this, disk, disk.inner
    {
      disk.Valid() && size >= 0 && startOffset + size <= |disk.inner.bytes|
    }

    /** The partition as a flat array. */
    ghost function View(): (v: seq<byte>)
      requires Valid()
      reads this, disk, disk.inner
      ensures |v| == size
    {
      disk.inner.bytes[startOffset..startOffset + size]
    }

    /** Reads are those of the flat array, cut short at its end; an offset outside is an error. */
    method ReadAt(buf: array<byte>, off: int) returns (n: nat, ok: bool)
      requires Valid()
      modifies buf
      ensures ok <==> 0 <= off < size
      ensures n == if ok then Min(buf.Length, size - off) else 0
      ensures ok ==> buf[..n] == View()[off..off + n]
      ensures forall i | n <= i < buf.Length :: buf[i] == old(buf[i])
    {
      if off < 0 || off >= size {
        return 0, false;
      }
      var maxRead := size - off;
      var len := if buf.Length > maxRead then maxRead else buf.Length;
      var eof;
      n, eof := disk.ReadAt(buf, len, startOffset + off);
      ReadInside(disk.inner.bytes, startOffset, size, off, n);
      ok := true;
    }

    /** Writes are those of the flat array, cut short at its end; no other byte of the disk changes. */
    method WriteAt(buf: seq<byte>, off: int) returns (n: nat, ok: bool)
      requires Valid()
      modifies disk.inner
      ensures Valid()
      ensures ok <==> 0 <= off < size
      ensures n == if ok then Min(|buf|, size - off) else 0
      ensures View() == if ok then Overwrite(old(View()), off, buf[..n]) else old(View())
      ensures disk.inner.bytes[..startOffset] == old(disk.inner.bytes[..startOffset])
      ensures disk.inner.bytes[startOffset + size..] == old(disk.inner.bytes[startOffset + size..])
    {
      if off < 0 || off >= size {
        return 0, false;
      }
      var maxWrite := size - off;
      var cut := if |buf| > maxWrite then buf[..maxWrite] else buf;
      ghost var bytes := disk.inner.bytes;
      hide Overwrite, Min, RawDisk.Valid, AlignedReaderAt.Valid;
      CutIs(buf, maxWrite, cut);
      n, ok := disk.WriteAt(cut, startOffset + off);
      WriteInside(bytes, disk.inner.bytes, startOffset, size, off, cut);
    }
  }

  lemma OfPrefix(s: seq<byte>, n: nat, i: nat, j: nat)
    requires i <= j <= n <= |s|
    ensures s[..n][i..j] == s[i..j]
  {
  }

  lemma ReadInside(disk: seq<byte>, start: nat, size: nat, off: nat, n: nat)
    requires start + size <= |disk| && off + n <= size
    ensures Slice(disk, start + off, n) == disk[start..start + size][off..off + n]
  {
    var s := disk[start..start + size];
    forall i | off <= i < off + n ensures s[i] == disk[start + i] {
    }
  }

  lemma CutIs(buf: seq<byte>, most: nat, cut: seq<byte>)
    requires cut == if |buf| > most then buf[..most] else buf
    ensures |cut| == Min(|buf|, most) && buf[..|cut|] == cut
  {
  }

  /** A write inside [start, start + size) is a write to that slice and nothing else. */
  lemma WriteInside(disk: seq<byte>, d: seq<byte>, start: nat, size: nat, off: nat, buf: seq<byte>)
    requires start + size <= |disk| && off + |buf| <= size
    requires d == if buf != [] then Overwrite(disk, start + off, buf) else disk
    ensures |d| == |disk| && d[..start] == disk[..start] && d[start + size..] == disk[start + size..]
    ensures d[start..start + size] == Overwrite(disk[start..start + size], off, buf)
  {
    hide Overwrite;
    var v := disk[start..start + size];
    forall i | 0 <= i < |disk| ensures d[i] == if start + off <= i < start + off + |buf| then buf[i - start - off] else disk[i] {
      if buf != [] { OverwriteByte(disk, start + off, buf, i); }
    }
    var w := Overwrite(v, off, buf);
    forall i | 0 <= i < size ensures d[start + i] == w[i] {
      OverwriteByte(v, off, buf, i);
    }
    assert d[start..start + size] == w;
  }
}
