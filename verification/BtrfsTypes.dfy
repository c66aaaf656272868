/** Keys, items and node views of a btrfs tree (btrfs/types.go). */
module BtrfsTypes {
  import opened Bytes

  const NODE_HEADER_SIZE := 101
  const ITEM_HEADER_SIZE := 25
  const KEY_PTR_SIZE := 33

  datatype Key = Key(objectid: u64, typ: byte, offset: u64)

  /** The order of a tree: object id, then type, then offset. */
  predicate Less(a: Key, b: Key) {
    if a.objectid != b.objectid then a.objectid < b.objectid
    else if a.typ != b.typ then a.typ < b.typ
    else a.offset < b.offset
  }

  lemma LessIsStrictTotalOrder(a: Key, b: Key, c: Key)
    ensures !Less(a, a)
    ensures Less(a, b) || a == b || Less(b, a)
    ensures Less(a, b) ==> !Less(b, a)
    ensures Less(a, b) && Less(b, c) ==> Less(a, c)
  {
  }

  /** Keys are compared by object id, then by type, and by offset last. */
  lemma LessByField(a: Key, b: Key)
    ensures a.objectid < b.objectid ==> Less(a, b)
    ensures a.objectid == b.objectid && a.typ < b.typ ==> Less(a, b)
    ensures a.objectid == b.objectid && a.typ == b.typ && a.offset < b.offset ==> Less(a, b)
  {
  }

  /** The key as one number of 136 bits. */
  function Rank(k: Key): nat {
    k.objectid * 0x100_0000_0000_0000_0000 + k.typ * 0x1_0000_0000_0000_0000 + k.offset
  }

  lemma LessIsRank(a: Key, b: Key)
    ensures Less(a, b) <==> Rank(a) < Rank(b)
  {
  }

  datatype Item = Item(k: Key, data: seq<byte>)

  datatype Ptr = Ptr(k: Key, addr: u64)

  /** What a node's bytes mean; Broken when an entry leaves the node. */
  datatype Node = Leaf(items: seq<Item>) | Index(level: byte, ptrs: seq<Ptr>) | Broken

  function DataSize(items: seq<Item>): nat {
    if items == [] then 0 else |items[0].data| + DataSize(items[1..])
  }

  /** Bytes a leaf holding the items needs. */
  function LeafSize(items: seq<Item>): nat {
    NODE_HEADER_SIZE + ITEM_HEADER_SIZE * |items| + DataSize(items)
  }

  function IndexSize(count: nat): nat {
    NODE_HEADER_SIZE + KEY_PTR_SIZE * count
  }

  /** What items and pointers take up behind a node's 101 bytes of header. */
  lemma {:induction false} NodeSizes(items: seq<Item>, it: Item, count: nat)
    ensures LeafSize([]) == 101 && LeafSize(items + [it]) == LeafSize(items) + 25 + |it.data|
    ensures IndexSize(0) == 101 && IndexSize(count + 1) == IndexSize(count) + 33
    decreases |items|
  {
    if items == [] {
      assert items + [it] == [it] && [it][1..] == [];
    } else {
      assert (items + [it])[1..] == items[1..] + [it];
      NodeSizes(items[1..], it, count);
    }
  }

  predicate Sorted(items: seq<Item>) {
    forall i, j | 0 <= i < j < |items| :: Less(items[i].k, items[j].k)
  }

  predicate SortedPtrs(ptrs: seq<Ptr>) {
    forall i, j | 0 <= i < j < |ptrs| :: Less(ptrs[i].k, ptrs[j].k)
  }

  /** First position whose key is not below k: where the writer inserts. */
  function InsertPos(items: seq<Item>, k: Key): (pos: nat)
    ensures pos <= |items|
    ensures forall i | 0 <= i < pos :: Less(items[i].k, k)
    ensures pos < |items| ==> !Less(items[pos].k, k)
  {
    if items == [] || !Less(items[0].k, k) then 0 else 1 + InsertPos(items[1..], k)
  }

  function InsertItem(items: seq<Item>, it: Item): seq<Item> {
    var pos := InsertPos(items, it.k);
    items[..pos] + [it] + items[pos..]
  }

  predicate HasKey(items: seq<Item>, k: Key) {
    exists i | 0 <= i < |items| :: items[i].k == k
  }
}
