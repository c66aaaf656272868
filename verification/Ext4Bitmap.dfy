/** Bits of an allocation bitmap, byte by byte, and how many are clear. */
module Ext4Bitmap {
  import opened Bytes

  // ----- bits of one number, low bit first -----

  /** b & (1 << bit) != 0 */
  predicate HasBit(b: nat, bit: nat) {
    if bit == 0 then b % 2 == 1 else HasBit(b / 2, bit - 1)
  }

  function Weight(b: nat, bit: nat): nat {
    if HasBit(b, bit) then 1 else 0
  }

  lemma Peel(b: nat)
    ensures b == Weight(b, 0) + 2 * (b / 2) && forall n: nat | n > 0 :: Weight(b, n) == Weight(b / 2, n - 1)
  {
  }

  /** Bits count from the lowest up. */
  lemma BitsWeigh(b: byte)
    ensures b == Weight(b, 0) + 2 * Weight(b, 1) + 4 * Weight(b, 2) + 8 * Weight(b, 3)
                 + 16 * Weight(b, 4) + 32 * Weight(b, 5) + 64 * Weight(b, 6) + 128 * Weight(b, 7)
  {
    hide Weight;
    var c := b / 2;
    var d := c / 2;
    var e := d / 2;
    var f := e / 2;
    var g := f / 2;
    var h := g / 2;
    var i := h / 2;
    Peel(b); Peel(c); Peel(d); Peel(e); Peel(f); Peel(g); Peel(h); Peel(i);
  }

  /** b | 1 << bit */
  function SetBit(b: nat, bit: nat): nat {
    if bit == 0 then b - b % 2 + 1 else b % 2 + 2 * SetBit(b / 2, bit - 1)
  }

  /** b &^ (1 << bit) */
  function ClearBit(b: nat, bit: nat): nat {
    if bit == 0 then b - b % 2 else b % 2 + 2 * ClearBit(b / 2, bit - 1)
  }

  /** Clear bits among the lowest n. */
  function ClearIn(b: nat, n: nat): (c: nat)
    ensures c <= n
  {
    if n == 0 then 0 else (1 - b % 2) + ClearIn(b / 2, n - 1)
  }

  function Pow2(n: nat): (p: nat)
    ensures p > 0
  {
    if n == 0 then 1 else 2 * Pow2(n - 1)
  }

  lemma Pow2Of8()
    ensures Pow2(8) == 256
  {
    assert Pow2(2) == 4 && Pow2(4) == 4 * Pow2(2) && Pow2(6) == 4 * Pow2(4) && Pow2(8) == 4 * Pow2(6);
  }

  lemma {:induction false} SetMeans(b: nat, i: nat, j: nat)
    ensures HasBit(SetBit(b, i), j) <==> i == j || HasBit(b, j)
  {
    if i > 0 && j > 0 {
      SetMeans(b / 2, i - 1, j - 1);
    }
  }

  lemma {:induction false} ClearMeans(b: nat, i: nat, j: nat)
    ensures HasBit(ClearBit(b, i), j) <==> i != j && HasBit(b, j)
  {
    if i > 0 && j > 0 {
      ClearMeans(b / 2, i - 1, j - 1);
    }
  }

  lemma {:induction false} StaysInRange(b: nat, i: nat, n: nat)
    requires b < Pow2(n) && i < n
    ensures SetBit(b, i) < Pow2(n) && ClearBit(b, i) < Pow2(n)
  {
    if i > 0 {
      StaysInRange(b / 2, i - 1, n - 1);
    }
  }

  lemma {:induction false} SetCounts(b: nat, i: nat, n: nat)
    requires i < n && !HasBit(b, i)
    ensures ClearIn(SetBit(b, i), n) == ClearIn(b, n) - 1
  {
    if i > 0 {
      SetCounts(b / 2, i - 1, n - 1);
    }
  }

  lemma {:induction false} ClearCounts(b: nat, i: nat, n: nat)
    requires i < n && HasBit(b, i)
    ensures ClearIn(ClearBit(b, i), n) == ClearIn(b, n) + 1
  {
    if i > 0 {
      ClearCounts(b / 2, i - 1, n - 1);
    }
  }

  lemma {:induction false} SetWhenNoneClear(b: nat, n: nat, i: nat)
    requires ClearIn(b, n) == 0 && i < n
    ensures HasBit(b, i)
  {
    if i > 0 {
      SetWhenNoneClear(b / 2, n - 1, i - 1);
    }
  }

  lemma {:induction false} NoneClearWhenSet(b: nat, n: nat)
    requires forall i | 0 <= i < n :: HasBit(b, i)
    ensures ClearIn(b, n) == 0
  {
    if n > 0 {
      assert HasBit(b, 0);
      forall i | 0 <= i < n - 1 ensures HasBit(b / 2, i) {
        assert HasBit(b, i + 1);
      }
      NoneClearWhenSet(b / 2, n - 1);
    }
  }

  lemma {:induction false} FullIs(b: nat, n: nat)
    requires b == Pow2(n) - 1
    ensures ClearIn(b, n) == 0
  {
    if n > 0 {
      FullIs(b / 2, n - 1);
    }
  }

  // ----- bytes of a bitmap -----

  function SetByte(b: byte, bit: nat): (c: byte)
    requires bit < 8
  {
    Pow2Of8();
    StaysInRange(b, bit, 8);
    SetBit(b, bit)
  }

  function ClearByte(b: byte, bit: nat): (c: byte)
    requires bit < 8
  {
    Pow2Of8();
    StaysInRange(b, bit, 8);
    ClearBit(b, bit)
  }

  /** Bit n of a bitmap, eight to a byte. */
  predicate Taken(bitmap: seq<byte>, n: nat)
    requires n < 8 * |bitmap|
  {
    HasBit(bitmap[n / 8], n % 8)
  }

  function ClearCount(bitmap: seq<byte>): (c: nat)
    ensures c <= 8 * |bitmap|
  {
    if bitmap == [] then 0 else ClearIn(bitmap[0], 8) + ClearCount(bitmap[1..])
  }

  lemma {:induction false} CountUpdate(bitmap: seq<byte>, i: nat, c: byte)
    requires i < |bitmap|
    ensures ClearCount(bitmap[i := c]) == ClearCount(bitmap) - ClearIn(bitmap[i], 8) + ClearIn(c, 8)
  {
    if i == 0 {
      assert bitmap[i := c][1..] == bitmap[1..];
    } else {
      assert bitmap[i := c][1..] == bitmap[1..][i - 1 := c];
      CountUpdate(bitmap[1..], i - 1, c);
    }
  }

  lemma {:induction false} CountZero(bitmap: seq<byte>)
    ensures ClearCount(bitmap) == 0 <==> forall i | 0 <= i < |bitmap| :: ClearIn(bitmap[i], 8) == 0
  {
    if bitmap != [] {
      CountZero(bitmap[1..]);
      assert forall i | 0 < i < |bitmap| :: bitmap[i] == bitmap[1..][i - 1];
      if forall i | 0 <= i < |bitmap| :: ClearIn(bitmap[i], 8) == 0 {
        assert forall i | 0 <= i < |bitmap[1..]| :: bitmap[1..][i] == bitmap[i + 1];
      }
    }
  }

  lemma AllTaken(bitmap: seq<byte>)
    requires forall i | 0 <= i < |bitmap| :: ClearIn(bitmap[i], 8) == 0
    ensures forall n | 0 <= n < 8 * |bitmap| :: Taken(bitmap, n)
  {
    forall n | 0 <= n < 8 * |bitmap| ensures Taken(bitmap, n) {
      SetWhenNoneClear(bitmap[n / 8], 8, n % 8);
    }
  }

  lemma TakenBytes(bitmap: seq<byte>, i: nat)
    requires i < |bitmap| && forall n | 0 <= n < 8 * |bitmap| :: Taken(bitmap, n)
    ensures ClearIn(bitmap[i], 8) == 0
  {
    forall k | 0 <= k < 8 ensures HasBit(bitmap[i], k) {
      assert Taken(bitmap, 8 * i + k);
    }
    NoneClearWhenSet(bitmap[i], 8);
  }

  /** A bitmap counts no clear bit exactly if every bit is taken. */
  lemma FullMeans(bitmap: seq<byte>)
    ensures ClearCount(bitmap) == 0 <==> forall n | 0 <= n < 8 * |bitmap| :: Taken(bitmap, n)
  {
    hide Taken, ClearIn, ClearCount;
    CountZero(bitmap);
    if forall i | 0 <= i < |bitmap| :: ClearIn(bitmap[i], 8) == 0 {
      AllTaken(bitmap);
    }
    if forall n | 0 <= n < 8 * |bitmap| :: Taken(bitmap, n) {
      forall i | 0 <= i < |bitmap| ensures ClearIn(bitmap[i], 8) == 0 {
        TakenBytes(bitmap, i);
      }
    }
  }

  /** Marking one clear bit taken changes that bit alone and the count by one. */
  lemma TakeBit(bitmap: seq<byte>, n: nat)
    requires n < 8 * |bitmap| && !Taken(bitmap, n)
    ensures var b1 := bitmap[n / 8 := SetByte(bitmap[n / 8], n % 8)];
            ClearCount(b1) == ClearCount(bitmap) - 1
            && forall m | 0 <= m < 8 * |bitmap| :: Taken(b1, m) <==> m == n || Taken(bitmap, m)
  {
    var b1 := bitmap[n / 8 := SetByte(bitmap[n / 8], n % 8)];
    SetCounts(bitmap[n / 8], n % 8, 8);
    CountUpdate(bitmap, n / 8, SetByte(bitmap[n / 8], n % 8));
    forall m | 0 <= m < 8 * |bitmap| ensures Taken(b1, m) <==> m == n || Taken(bitmap, m) {
      SetMeans(bitmap[n / 8], n % 8, m % 8);
    }
  }

  lemma ReleaseBit(bitmap: seq<byte>, n: nat)
    requires n < 8 * |bitmap| && Taken(bitmap, n)
    ensures var b1 := bitmap[n / 8 := ClearByte(bitmap[n / 8], n % 8)];
            ClearCount(b1) == ClearCount(bitmap) + 1
            && forall m | 0 <= m < 8 * |bitmap| :: Taken(b1, m) <==> m != n && Taken(bitmap, m)
  {
    var b1 := bitmap[n / 8 := ClearByte(bitmap[n / 8], n % 8)];
    ClearCounts(bitmap[n / 8], n % 8, 8);
    CountUpdate(bitmap, n / 8, ClearByte(bitmap[n / 8], n % 8));
    forall m | 0 <= m < 8 * |bitmap| ensures Taken(b1, m) <==> m != n && Taken(bitmap, m) {
      ClearMeans(bitmap[n / 8], n % 8, m % 8);
    }
  }

  /** The scan of AllocateBlock over a bitmap's bytes and bits: the lowest clear bit. */
  method FirstClear(bitmap: seq<byte>) returns (r: int)
    ensures r == -1 ==> forall n | 0 <= n < 8 * |bitmap| :: Taken(bitmap, n)
    ensures r != -1 ==> 0 <= r < 8 * |bitmap| && !Taken(bitmap, r) && forall n | 0 <= n < r :: Taken(bitmap, n)
  {
    for byteIdx := 0 to |bitmap|
      invariant forall n | 0 <= n < 8 * byteIdx :: Taken(bitmap, n)
    {
      if bitmap[byteIdx] == 0xFF {
        Pow2Of8();
        FullIs(0xFF, 8);
        forall n | 8 * byteIdx <= n < 8 * byteIdx + 8 ensures Taken(bitmap, n) {
          SetWhenNoneClear(0xFF, 8, n % 8);
        }
        continue;
      }
      for bit := 0 to 8
        invariant forall n | 0 <= n < 8 * byteIdx + bit :: Taken(bitmap, n)
      {
        if !HasBit(bitmap[byteIdx], bit) {
          return 8 * byteIdx + bit;
        }
      }
    }
    r := -1;
  }
}
