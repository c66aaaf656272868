/** Bytes and the little-endian integers of encoding/binary. */
module Bytes {

  type byte = x: int | 0 <= x < 256
  type u16 = x: int | 0 <= x < 0x1_0000
  type u32 = x: int | 0 <= x < 0x1_0000_0000
  type u64 = x: int | 0 <= x < 0x1_0000_0000_0000_0000

  /** The n low-order bytes of x, least significant first. */
  function Put(x: nat, n: nat): (s: seq<byte>)
    ensures |s| == n
  {
    if n == 0 then [] else [x % 256] + Put(x / 256, n - 1)
  }

  function Get(s: seq<byte>): nat {
    if s == [] then 0 else s[0] + 256 * Get(s[1..])
  }

  function Pow256(n: nat): (p: nat)
    ensures p > 0
  {
    if n == 0 then 1 else 256 * Pow256(n - 1)
  }

  lemma Pow256Values()
    ensures Pow256(2) == 0x1_0000
    ensures Pow256(4) == 0x1_0000_0000
    ensures Pow256(8) == 0x1_0000_0000_0000_0000
  {
    assert Pow256(1) == 256;
    assert Pow256(3) == 256 * Pow256(2);
    assert Pow256(5) == 256 * Pow256(4);
    assert Pow256(6) == 256 * Pow256(5);
    assert Pow256(7) == 256 * Pow256(6);
  }

  /** Reading back a stored integer gives it modulo the field's width. */
  lemma {:induction false} GetPut(x: nat, n: nat)
    requires x < Pow256(n)
    ensures Get(Put(x, n)) == x
  {
    if n > 0 {
      GetPut(x / 256, n - 1);
      assert Put(x, n)[1..] == Put(x / 256, n - 1);
    }
  }

  lemma {:induction false} GetBound(s: seq<byte>)
    ensures Get(s) < Pow256(|s|)
  {
    if s != [] {
      GetBound(s[1..]);
    }
  }

  lemma {:induction false} PutGet(s: seq<byte>)
    ensures Put(Get(s), |s|) == s
  {
    if s != [] {
      PutGet(s[1..]);
    }
  }

  function Get16(s: seq<byte>): (r: u16)
    requires |s| == 2
  {
    GetBound(s); Pow256Values();
    Get(s)
  }

  function Get32(s: seq<byte>): (r: u32)
    requires |s| == 4
  {
    GetBound(s); Pow256Values();
    Get(s)
  }

  function Get64(s: seq<byte>): (r: u64)
    requires |s| == 8
  {
    GetBound(s); Pow256Values();
    Get(s)
  }

  lemma GetPutFixed(x: nat)
    ensures x < 0x1_0000 ==> Get16(Put(x, 2)) == x
    ensures x < 0x1_0000_0000 ==> Get32(Put(x, 4)) == x
    ensures x < 0x1_0000_0000_0000_0000 ==> Get64(Put(x, 8)) == x
  {
    Pow256Values();
    if x < Pow256(2) { GetPut(x, 2); }
    if x < Pow256(4) { GetPut(x, 4); }
    if x < Pow256(8) { GetPut(x, 8); }
  }

  // ----- integers by the weight of their bytes -----

  function Le16(s: seq<byte>, at: nat): int
    requires at + 2 <= |s|
  {
    var high: int := s[at + 1];
    s[at] + 0x100 * high
  }

  function Le32(s: seq<byte>, at: nat): int
    requires at + 4 <= |s|
  {
    Le16(s, at) + 0x1_0000 * Le16(s, at + 2)
  }

  function Le64(s: seq<byte>, at: nat): int
    requires at + 8 <= |s|
  {
    Le32(s, at) + 0x1_0000_0000 * Le32(s, at + 4)
  }

  lemma {:induction false} GetCons(s: seq<byte>)
    requires s != []
    ensures Get(s) == s[0] + 256 * Get(s[1..])
  {
  }

  /** The low byte of an integer comes first. */
  lemma Get16Is(s: seq<byte>, at: nat)
    requires at + 2 <= |s|
    ensures Get16(s[at..at + 2]) == Le16(s, at)
  {
    var t := s[at..at + 2];
    assert t[1..][1..] == [];
    GetCons(t);
    GetCons(t[1..]);
  }

  lemma Get32Is(s: seq<byte>, at: nat)
    requires at + 4 <= |s|
    ensures Get32(s[at..at + 4]) == Le32(s, at)
  {
    hide Get;
    var t := s[at..at + 4];
    assert t[1..][1..] == s[at + 2..at + 4];
    GetCons(t);
    GetCons(t[1..]);
    Get16Is(s, at + 2);
  }

  lemma Get64Is(s: seq<byte>, at: nat)
    requires at + 8 <= |s|
    ensures Get64(s[at..at + 8]) == Le64(s, at)
  {
    hide Get;
    var t := s[at..at + 8];
    assert t[1..][1..][1..][1..] == s[at + 4..at + 8];
    GetCons(t);
    GetCons(t[1..]);
    GetCons(t[1..][1..]);
    GetCons(t[1..][1..][1..]);
    Get32Is(s, at + 4);
  }

  // ----- buffers filled in place -----

  /** The bytes at off are s. */
  ghost predicate Holds(buf: seq<byte>, off: nat, s: seq<byte>) {
    off + |s| <= |buf| && buf[off..off + |s|] == s
  }

  /** copy(dst[off:], s) */
  method PutBytes(dst: array<byte>, off: nat, s: seq<byte>)
    requires off + |s| <= dst.Length
    modifies dst
    ensures Holds(dst[..], off, s)
    ensures forall i | 0 <= i < dst.Length && !(off <= i < off + |s|) :: dst[i] == old(dst[i])
  {
    for i := 0 to |s|
      invariant forall j | 0 <= j < i :: dst[off + j] == s[j]
      invariant forall j | 0 <= j < dst.Length && !(off <= j < off + i) :: dst[j] == old(dst[j])
    {
      dst[off + i] := s[i];
    }
    assert dst[..][off..off + |s|] == s;
  }

  /** Bytes elsewhere in the buffer survive a PutBytes. */
  lemma StillHolds(b0: seq<byte>, b1: seq<byte>, off: nat, len: nat, at: nat, s: seq<byte>)
    requires |b0| == |b1| && Holds(b0, at, s)
    requires forall i | 0 <= i < |b0| && !(off <= i < off + len) :: b1[i] == b0[i]
    requires at + |s| <= off || off + len <= at
    ensures Holds(b1, at, s)
  {
    assert b1[at..at + |s|] == b0[at..at + |s|];
  }

  /** dst with s written over its bytes from off on. */
  function Overwrite(dst: seq<byte>, off: nat, s: seq<byte>): (d: seq<byte>)
    requires off + |s| <= |dst|
    ensures |d| == |dst|
  {
    dst[..off] + s + dst[off + |s|..]
  }

  function Zeros(n: nat): (s: seq<byte>)
    ensures |s| == n && forall i | 0 <= i < n :: s[i] == 0
  {
    seq(n, _ => 0)
  }

  lemma OverwriteByte(dst: seq<byte>, off: nat, s: seq<byte>, k: nat)
    requires off + |s| <= |dst| && k < |dst|
    ensures Overwrite(dst, off, s)[k] == if off <= k < off + |s| then s[k - off] else dst[k]
  {
  }

  /** The bytes before, under and behind an overwrite. */
  lemma OverwriteParts(dst: seq<byte>, off: nat, s: seq<byte>)
    requires off + |s| <= |dst|
    ensures var d := Overwrite(dst, off, s);
            d[0..off] == dst[0..off] && d[off..off + |s|] == s && d[off + |s|..|d|] == dst[off + |s|..|dst|]
  {
  }

  /** A piece of a range on which two buffers agree. */
  lemma SubSlice(b0: seq<byte>, b1: seq<byte>, off: nat, end: nat, i: nat, j: nat)
    requires off <= i <= j <= end <= |b0| && end <= |b1| && b1[off..end] == b0[off..end]
    ensures b1[i..j] == b0[i..j]
  {
    forall k | i <= k < j ensures b0[k] == b1[k] {
      assert b0[off..end][k - off] == b0[k];
      assert b1[off..end][k - off] == b1[k];
    }
  }

  /** A piece of something a buffer holds. */
  lemma HeldPart(buf: seq<byte>, off: nat, s: seq<byte>, i: nat, j: nat)
    requires Holds(buf, off, s) && i <= j <= |s|
    ensures buf[off + i..off + j] == s[i..j]
  {
    forall k | i <= k < j ensures buf[off + k] == s[k] {
      assert buf[off..off + |s|][k] == buf[off + k];
    }
  }

  /** A buffer that took s at off and kept the rest is an overwrite. */
  lemma IsOverwrite(b0: seq<byte>, b1: seq<byte>, off: nat, s: seq<byte>)
    requires |b1| == |b0| && Holds(b1, off, s)
    requires forall i | 0 <= i < |b0| && !(off <= i < off + |s|) :: b1[i] == b0[i]
    ensures b1 == Overwrite(b0, off, s)
  {
    assert b1[off..off + |s|] == s;
    assert b1[..off] == b0[..off] && b1[off + |s|..] == b0[off + |s|..];
    assert b1 == b1[..off] + b1[off..off + |s|] + b1[off + |s|..];
  }
}
