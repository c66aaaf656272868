/**
 Node bytes: how the walker reads a node (btrfs/types.go, btrfs/tree.go) and how the writer
 packs one, item headers growing up from the node header and item data down from the end.
 */
module BtrfsFormat {
  import opened Wrappers
  import opened Bytes
  import opened BtrfsTypes

  // ----- reading -----

  function DecodeKey(s: seq<byte>): Key
    requires |s| >= 17
  {
    Key(Get64(s[..8]), s[8], Get64(s[9..17]))
  }

  function DecodeItem(buf: seq<byte>, i: nat): Option<Item> {
    var off := NODE_HEADER_SIZE + i * ITEM_HEADER_SIZE;
    if off + ITEM_HEADER_SIZE > |buf| then None
    else
      var s := buf[off..off + ITEM_HEADER_SIZE];
      var start := NODE_HEADER_SIZE + Get32(s[17..21]);
      var size := Get32(s[21..25]);
      if start + size > |buf| then None else Some(Item(DecodeKey(s), buf[start..start + size]))
  }

  function DecodeItems(buf: seq<byte>, n: nat): Option<seq<Item>> {
    if n == 0 then Some([])
    else
      match (DecodeItems(buf, n - 1), DecodeItem(buf, n - 1))
      case (Some(items), Some(it)) => Some(items + [it])
      case _ => None
  }

  function DecodePtr(buf: seq<byte>, i: nat): Option<Ptr> {
    var off := NODE_HEADER_SIZE + i * KEY_PTR_SIZE;
    if off + KEY_PTR_SIZE > |buf| then None
    else Some(Ptr(DecodeKey(buf[off..off + 17]), Get64(buf[off + 17..off + 25])))
  }

  function DecodePtrs(buf: seq<byte>, n: nat): Option<seq<Ptr>> {
    if n == 0 then Some([])
    else
      match (DecodePtrs(buf, n - 1), DecodePtr(buf, n - 1))
      case (Some(ptrs), Some(p)) => Some(ptrs + [p])
      case _ => None
  }

  function NrItems(buf: seq<byte>): u32
    requires |buf| >= NODE_HEADER_SIZE
  {
    Get32(buf[96..100])
  }

  function Level(buf: seq<byte>): byte
    requires |buf| >= NODE_HEADER_SIZE
  {
    buf[100]
  }

  /** The node the walker sees in a buffer. */
  function DecodeNode(buf: seq<byte>): Node
    requires |buf| >= NODE_HEADER_SIZE
  {
    if Level(buf) == 0 then
      match DecodeItems(buf, NrItems(buf))
      case Some(items) => Leaf(items)
      case None => Broken
    else
      match DecodePtrs(buf, NrItems(buf))
      case Some(ptrs) => Index(Level(buf), ptrs)
      case None => Broken
  }

  lemma NodeLevel(buf: seq<byte>)
    requires |buf| >= NODE_HEADER_SIZE
    ensures DecodeNode(buf).Index? ==> Level(buf) == DecodeNode(buf).level != 0
    ensures DecodeNode(buf).Index? ==> DecodePtrs(buf, NrItems(buf)) == Some(DecodeNode(buf).ptrs)
    ensures DecodeNode(buf).Leaf? ==> Level(buf) == 0
    ensures DecodeNode(buf).Leaf? ==> DecodeItems(buf, NrItems(buf)) == Some(DecodeNode(buf).items)
    ensures Level(buf) != 0 ==> !DecodeNode(buf).Leaf?
  {
  }

  // ----- where the fields are -----

  /** A key's 17 bytes: object id, type, offset. */
  ghost predicate KeyAt(buf: seq<byte>, at: nat, k: Key) {
    at + 17 <= |buf| && k == Key(Le64(buf, at), buf[at + 8], Le64(buf, at + 9))
  }

  lemma KeyPlace(buf: seq<byte>, at: nat, n: nat)
    requires 17 <= n && at + n <= |buf|
    ensures KeyAt(buf, at, DecodeKey(buf[at..at + n]))
  {
    var s := buf[at..at + n];
    Get64Is(s, 0);
    Get64Is(s, 9);
  }

  /** Item i: 25 bytes of header behind the node's 101, data where the header says. */
  lemma ItemPlace(buf: seq<byte>, i: nat)
    requires DecodeItem(buf, i).Some?
    ensures var at := 101 + 25 * i;
            && KeyAt(buf, at, DecodeItem(buf, i).value.k) && at + 25 <= |buf|
            && var start, size := 101 + Le32(buf, at + 17), Le32(buf, at + 21);
               start + size <= |buf| && DecodeItem(buf, i).value.data == buf[start..start + size]
  {
    hide DecodeKey, Get32;
    var at := 101 + 25 * i;
    var s := buf[at..at + 25];
    KeyPlace(buf, at, 25);
    Get32Is(s, 17);
    Get32Is(s, 21);
  }

  /** Pointer i: 33 bytes, of which the last eight are a generation. */
  lemma PtrPlace(buf: seq<byte>, i: nat)
    requires DecodePtr(buf, i).Some?
    ensures var at := 101 + 33 * i;
            at + 33 <= |buf| && KeyAt(buf, at, DecodePtr(buf, i).value.k) && DecodePtr(buf, i).value.addr == Le64(buf, at + 17)
  {
    hide DecodeKey, Get64;
    var at := 101 + 33 * i;
    KeyPlace(buf, at, 17);
    Get64Is(buf, at + 17);
  }

  /** The node's level byte tells leaves from index nodes, and the count before it says how many entries there are. */
  lemma NodePlace(buf: seq<byte>)
    requires |buf| >= 101
    ensures DecodeNode(buf).Leaf? ==> buf[100] == 0 && |DecodeNode(buf).items| == Le32(buf, 96)
    ensures DecodeNode(buf).Index? ==> buf[100] == DecodeNode(buf).level != 0 && |DecodeNode(buf).ptrs| == Le32(buf, 96)
  {
    hide DecodeItems, DecodePtrs, Get32;
    NodeLevel(buf);
    Get32Is(buf, 96);
    if DecodeNode(buf).Leaf? {
      ItemCount(buf, NrItems(buf));
    } else if DecodeNode(buf).Index? {
      PtrCount(buf, NrItems(buf));
    }
  }

  // ----- writing -----

  function EncodeKey(k: Key): (s: seq<byte>)
    ensures |s| == 17
  {
    Put(k.objectid, 8) + [k.typ] + Put(k.offset, 8)
  }

  function EncodeItemHeader(k: Key, start: nat, size: nat): (s: seq<byte>)
    ensures |s| == ITEM_HEADER_SIZE
  {
    EncodeKey(k) + Put(start, 4) + Put(size, 4)
  }

  function EncodePtr(p: Ptr, generation: u64): (s: seq<byte>)
    ensures |s| == KEY_PTR_SIZE
  {
    EncodeKey(p.k) + Put(p.addr, 8) + Put(generation, 8)
  }

  /** Behind key and address a pointer carries the generation. */
  lemma PtrGeneration(p: Ptr, generation: u64)
    ensures Le64(EncodePtr(p, generation), 25) == generation
  {
    hide Put, Get64, EncodeKey;
    var s := EncodePtr(p, generation);
    assert s[25..33] == Put(generation, 8);
    GetPutFixed(generation);
    Get64Is(s, 25);
  }

  lemma KeyRoundTrip(k: Key, rest: seq<byte>)
    ensures DecodeKey(EncodeKey(k) + rest) == k
  {
    var s := EncodeKey(k) + rest;
    assert s[..8] == Put(k.objectid, 8) && s[8] == k.typ && s[9..17] == Put(k.offset, 8);
    GetPutFixed(k.objectid);
    GetPutFixed(k.offset);
  }

  lemma ItemRoundTrip(buf: seq<byte>, i: nat, it: Item, start: nat)
    requires NODE_HEADER_SIZE <= start && start + |it.data| <= |buf| < 0x1_0000_0000
    requires Holds(buf, NODE_HEADER_SIZE + i * ITEM_HEADER_SIZE, EncodeItemHeader(it.k, start - NODE_HEADER_SIZE, |it.data|))
    requires Holds(buf, start, it.data)
    ensures DecodeItem(buf, i) == Some(it)
  {
    hide Put, EncodeKey, DecodeKey;
    var off := NODE_HEADER_SIZE + i * ITEM_HEADER_SIZE;
    var s := buf[off..off + ITEM_HEADER_SIZE];
    var rel := start - NODE_HEADER_SIZE;
    KeyRoundTrip(it.k, Put(rel, 4) + Put(|it.data|, 4));
    assert s == EncodeKey(it.k) + (Put(rel, 4) + Put(|it.data|, 4));
    assert s[17..21] == Put(rel, 4) && s[21..25] == Put(|it.data|, 4);
    GetPutFixed(rel);
    GetPutFixed(|it.data|);
  }

  lemma PtrRoundTrip(buf: seq<byte>, i: nat, p: Ptr, generation: u64)
    requires Holds(buf, NODE_HEADER_SIZE + i * KEY_PTR_SIZE, EncodePtr(p, generation))
    ensures DecodePtr(buf, i) == Some(p)
  {
    hide Put, EncodeKey, DecodeKey;
    var off, s := NODE_HEADER_SIZE + i * KEY_PTR_SIZE, EncodePtr(p, generation);
    KeyRoundTrip(p.k, []);
    assert s[0..17] == EncodeKey(p.k) + [] && s[17..25] == Put(p.addr, 8);
    HeldPart(buf, off, s, 0, 17);
    HeldPart(buf, off, s, 17, 25);
    GetPutFixed(p.addr);
  }

  lemma {:induction false} ItemsFromEach(buf: seq<byte>, items: seq<Item>, n: nat)
    requires n <= |items| && forall i | 0 <= i < n :: DecodeItem(buf, i) == Some(items[i])
    ensures DecodeItems(buf, n) == Some(items[..n])
  {
    if n > 0 {
      ItemsFromEach(buf, items, n - 1);
      assert items[..n] == items[..n - 1] + [items[n - 1]];
    }
  }

  lemma {:induction false} PtrsFromEach(buf: seq<byte>, ptrs: seq<Ptr>, n: nat)
    requires n <= |ptrs| && forall i | 0 <= i < n :: DecodePtr(buf, i) == Some(ptrs[i])
    ensures DecodePtrs(buf, n) == Some(ptrs[..n])
  {
    if n > 0 {
      PtrsFromEach(buf, ptrs, n - 1);
      assert ptrs[..n] == ptrs[..n - 1] + [ptrs[n - 1]];
    }
  }

  lemma {:induction false} ItemAt(buf: seq<byte>, n: nat, i: nat)
    requires DecodeItems(buf, n).Some? && i < n
    ensures |DecodeItems(buf, n).value| == n && DecodeItem(buf, i) == Some(DecodeItems(buf, n).value[i])
  {
    ItemCount(buf, n);
    if i < n - 1 {
      ItemAt(buf, n - 1, i);
    } else {
      ItemCount(buf, n - 1);
    }
  }

  lemma {:induction false} ItemCount(buf: seq<byte>, n: nat)
    requires DecodeItems(buf, n).Some?
    ensures |DecodeItems(buf, n).value| == n
  {
    if n > 0 {
      ItemCount(buf, n - 1);
    }
  }

  lemma {:induction false} PtrAt(buf: seq<byte>, n: nat, i: nat)
    requires DecodePtrs(buf, n).Some? && i < n
    ensures |DecodePtrs(buf, n).value| == n && DecodePtr(buf, i) == Some(DecodePtrs(buf, n).value[i])
  {
    PtrCount(buf, n);
    if i < n - 1 {
      PtrAt(buf, n - 1, i);
    } else {
      PtrCount(buf, n - 1);
    }
  }

  lemma {:induction false} PtrCount(buf: seq<byte>, n: nat)
    requires DecodePtrs(buf, n).Some?
    ensures |DecodePtrs(buf, n).value| == n
  {
    if n > 0 {
      PtrCount(buf, n - 1);
    }
  }

  /** Where the data of item i starts when data is packed against the end of the node. */
  function DataAt(items: seq<Item>, size: nat, i: nat): int
    requires i <= |items|
  {
    size - DataSize(items[i..])
  }

  lemma {:induction false} DataAtSteps(items: seq<Item>, size: nat, i: nat)
    requires i < |items|
    ensures DataAt(items, size, i) + |items[i].data| == DataAt(items, size, i + 1)
  {
    assert items[i..][0] == items[i] && items[i..][1..] == items[i + 1..];
  }

  lemma {:induction false} DataAtRises(items: seq<Item>, size: nat, i: nat, j: nat)
    requires i <= j <= |items|
    ensures DataAt(items, size, i) <= DataAt(items, size, j) <= size
    decreases j - i
  {
    if i < j {
      DataAtSteps(items, size, i);
      DataAtRises(items, size, i + 1, j);
    }
  }
}
