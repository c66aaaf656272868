/** When cutting an overflowing leaf in the middle of its item list leaves halves that fit. */
module BtrfsSplit {
  import opened Arith
  import opened Bytes
  import opened BtrfsTypes

  /** Bytes the items take, headers included. */
  function Load(items: seq<Item>): nat {
    ITEM_HEADER_SIZE * |items| + DataSize(items)
  }

  lemma {:induction false} LoadConcat(a: seq<Item>, b: seq<Item>)
    ensures Load(a + b) == Load(a) + Load(b)
  {
    if a == [] {
      assert a + b == b;
    } else {
      assert (a + b)[1..] == a[1..] + b;
      LoadConcat(a[1..], b);
    }
  }

  ghost predicate AtMost(items: seq<Item>, most: nat) {
    forall i | 0 <= i < |items| :: ITEM_HEADER_SIZE + |items[i].data| <= most
  }

  lemma {:induction false} LoadBounds(items: seq<Item>, most: nat)
    requires AtMost(items, most)
    ensures ITEM_HEADER_SIZE * |items| <= Load(items) <= most * |items|
  {
    if items != [] {
      LoadBounds(items[1..], most);
      assert Load(items) == ITEM_HEADER_SIZE + |items[0].data| + Load(items[1..]);
      assert most * |items| == most + most * |items[1..]|;
    }
  }

  /** The two halves of a list cut by item count, both non-empty, fit a node. */
  ghost predicate HalvesFit(all: seq<Item>, nodeSize: nat) {
    |all| >= 2 && LeafSize(all[..|all| / 2]) <= nodeSize && LeafSize(all[|all| / 2..]) <= nodeSize
  }

  /** A leaf of items of at most `most` bytes, headers included, that one more such item overflows. */
  ghost predicate Bursts(items: seq<Item>, it: Item, nodeSize: nat, most: nat) {
    AtMost(items, most) && AtMost([it], most) && LeafSize(items) <= nodeSize < LeafSize(InsertItem(items, it))
  }

  /** No leaf of such items in order bursts into halves that do not fit. */
  ghost predicate AlwaysFit(nodeSize: nat, most: nat) {
    forall items: seq<Item>, it: Item | Sorted(items) && !HasKey(items, it.k) && Bursts(items, it, nodeSize, most) ::
      HalvesFit(InsertItem(items, it), nodeSize)
  }

  /** As many bytes as the headers of as many items as there are largest ones in a leaf. */
  predicate SmallEnough(nodeSize: nat, most: nat)
    requires nodeSize >= NODE_HEADER_SIZE && most > 0
  {
    most <= 25 * ((nodeSize - NODE_HEADER_SIZE) / most)
  }

  lemma SmallFits(items: seq<Item>, it: Item, nodeSize: nat, most: nat)
    requires nodeSize >= NODE_HEADER_SIZE && most > 0 && Bursts(items, it, nodeSize, most)
    requires SmallEnough(nodeSize, most)
    ensures HalvesFit(InsertItem(items, it), nodeSize)
  {
    hide Less, InsertPos, InsertItem, AtMost;
    var all, cap := InsertItem(items, it), nodeSize - NODE_HEADER_SIZE;
    var l, r := all[..|all| / 2], all[|all| / 2..];
    InsertLoad(items, it, most);
    assert all == l + r;
    LoadConcat(l, r);
    PartAtMost(all, l, r, most);
    LoadBounds(l, most);
    LoadBounds(r, most);
    LoadBounds(all, most);
    HalfBound(Load(l), |l|, Load(r), |r|, cap, most);
    HalfBound(Load(r), |r|, Load(l), |l|, cap, most);
    OneFits(cap, most);
  }

  lemma PartAtMost(all: seq<Item>, l: seq<Item>, r: seq<Item>, most: nat)
    requires AtMost(all, most) && all == l + r
    ensures AtMost(l, most) && AtMost(r, most)
  {
    forall i | 0 <= i < |l| ensures ITEM_HEADER_SIZE + |l[i].data| <= most {
      assert l[i] == all[i];
    }
    forall i | 0 <= i < |r| ensures ITEM_HEADER_SIZE + |r[i].data| <= most {
      assert r[i] == all[|l| + i];
    }
  }

  lemma LoadOne(it: Item)
    ensures Load([it]) == ITEM_HEADER_SIZE + |it.data|
  {
    assert [it][1..] == [];
    assert DataSize([it]) == |[it][0].data| + DataSize([it][1..]);
  }

  lemma InsertLoad(items: seq<Item>, it: Item, most: nat)
    requires AtMost(items, most) && AtMost([it], most)
    ensures Load(InsertItem(items, it)) == Load(items) + ITEM_HEADER_SIZE + |it.data|
    ensures AtMost(InsertItem(items, it), most) && |it.data| + ITEM_HEADER_SIZE <= most
  {
    hide Less;
    var p, q := items[..InsertPos(items, it.k)], items[InsertPos(items, it.k)..];
    assert items == p + q && [it][0] == it && [it][1..] == [];
    LoadConcat(p, q);
    LoadConcat(p + [it], q);
    LoadConcat(p, [it]);
    assert InsertItem(items, it) == p + [it] + q;
    LoadOne(it);
  }

  /** The arithmetic of one half: counts differ by at most one, loads add up to at most cap + most. */
  lemma HalfBound(load: nat, n: nat, other: nat, m: nat, cap: nat, most: nat)
    requires most > 0 && load + other <= cap + most && n <= m + 1
    requires load <= most * n && 25 * m <= other
    requires most <= 25 * (cap / most)
    ensures load <= cap
  {
    var q := cap / most;
    DivMod(cap, most);
    MulMono(n, q, most);
    assert most * n == n * most;
    assert load > cap ==> 25 * m < most;
  }

  lemma OneFits(cap: nat, most: nat)
    requires most > 0 && most <= 25 * (cap / most)
    ensures most <= cap
  {
    DivMod(cap, most);
    MulMono(1, cap / most, most);
  }

  // ----- the bound is exact -----

  /** All data bytes are zero. */
  ghost predicate Blank(it: Item) {
    forall i | 0 <= i < |it.data| :: it.data[i] == 0
  }

  function Filler(id: u64, size: nat): (it: Item)
    requires size >= 25
    ensures Blank(it)
  {
    Item(Key(id, 108, 0), seq(size - 25, _ => 0))
  }

  /** n items that take total bytes together, each at most `most`; large ones first. */
  function Spread(id: u64, n: nat, total: nat, most: nat): (items: seq<Item>)
    requires 25 * n <= total && (n > 0 ==> most >= 25) && id + n < 0x1_0000_0000_0000_0000
    requires Room(n, total, most)
    ensures |items| == n && AtMost(items, most)
    ensures forall i | 0 <= i < n :: items[i].k == Key(id + i, 108, 0) && Blank(items[i])
    decreases n
  {
    if n == 0 then []
    else
      var size := Min(most, total - 25 * (n - 1));
      RoomLeft(n, total, most);
      [Filler(id, size)] + Spread(id + 1, n - 1, total - size, most)
  }

  ghost predicate Room(n: nat, total: nat, most: nat) {
    total <= n * most
  }

  lemma RoomLeft(n: nat, total: nat, most: nat)
    requires n > 0 && Room(n, total, most) && 25 * n <= total && most >= 25
    ensures var size := Min(most, total - 25 * (n - 1));
            25 <= size && 25 * (n - 1) <= total - size && Room(n - 1, total - size, most)
  {
    assert n * most == (n - 1) * most + most;
    Times(n - 1, 25, most);
  }

  lemma {:induction false} SpreadLoad(id: u64, n: nat, total: nat, most: nat)
    requires 25 * n <= total && (n > 0 ==> most >= 25) && id + n < 0x1_0000_0000_0000_0000
    requires Room(n, total, most)
    ensures Load(Spread(id, n, total, most)) == total
    decreases n
  {
    hide Load, Room, Min;
    if n > 0 {
      var size := Min(most, total - 25 * (n - 1));
      RoomLeft(n, total, most);
      SpreadLoad(id + 1, n - 1, total - size, most);
      LoadConcat([Filler(id, size)], Spread(id + 1, n - 1, total - size, most));
      LoadOne(Filler(id, size));
    } else {
      NoLoad(total, most);
    }
  }

  lemma NoLoad(total: nat, most: nat)
    requires Room(0, total, most)
    ensures Load([]) == 0 == total
  {
  }

  lemma Times(a: nat, x: int, y: int)
    ensures x <= y ==> a * x <= a * y
  {
    if x <= y {
      assert a * (y - x) >= 0;
    }
  }

  /** The new item's size in a failing leaf; the items behind the cut share what is left. */
  function OverfullSize(cap: nat, most: nat): int
    requires most > 0
  {
    Min(most, cap + 1 - 25 * (cap / most))
  }

  lemma OverfullSizes(cap: nat, most: nat)
    requires cap >= 50 && most >= 25 && most > 25 * (cap / most)
    ensures var q, size := cap / most, OverfullSize(cap, most);
            && q <= cap && 25 * q < size <= most && 25 <= size <= cap + 1
            && 25 * q <= cap + 1 - size && Room(q, cap + 1 - size, most) && Room(q, 25 * q, most)
  {
    var q := cap / most;
    DivMod(cap, most);
    Times(q, 25, most);
    Times(q, 50, most);
    assert 1 * most == most && 0 * most == 0;
    SizeWith(cap, most, q, q * most);
  }

  lemma SizeWith(cap: nat, most: nat, q: nat, product: nat)
    requires cap >= 50 && most >= 25 && most > 25 * q && product <= cap < product + most
    requires 25 * q <= product && (q <= 1 ==> product == if q == 0 then 0 else most) && (q >= 2 ==> 50 * q <= product)
    ensures var size := Min(most, cap + 1 - 25 * q);
            25 * q < size <= most && 25 <= size <= cap + 1 && 25 * q <= cap + 1 - size <= product
  {
  }

  /** A leaf of small items with large ones behind them, and one more large item. */
  function Overfull(nodeSize: nat, most: nat): (seq<Item>, Item)
    requires NODE_HEADER_SIZE + 50 <= nodeSize < 0x1_0000_0000 && most >= 25 && !SmallEnough(nodeSize, most)
  {
    var cap := nodeSize - NODE_HEADER_SIZE;
    var q, size := cap / most, OverfullSize(cap, most);
    OverfullSizes(cap, most);
    (Spread(1, q, 25 * q, most) + Spread(q + 1, q, cap + 1 - size, most), Filler(2 * q + 1, size))
  }

  /** It bursts, and the half behind the cut is one byte too long. */
  lemma OverfullHalf(nodeSize: nat, most: nat)
    requires NODE_HEADER_SIZE + 50 <= nodeSize < 0x1_0000_0000 && most >= 25 && !SmallEnough(nodeSize, most)
    ensures var (items, it) := Overfull(nodeSize, most);
            && Sorted(items) && !HasKey(items, it.k) && Bursts(items, it, nodeSize, most)
            && (forall i | 0 <= i < |items| :: Blank(items[i]) && items[i].k.objectid > 0) && it.k.objectid > 0
            && var all := InsertItem(items, it);
               LeafSize(all[|all| / 2..]) == nodeSize + 1 && all[|all| / 2..] != []
  {
    hide Spread, Load, Sorted, HasKey, Bursts, Room, InsertItem, Less, LeafSize, Blank, OverfullSize;
    var cap := nodeSize - NODE_HEADER_SIZE;
    OverfullSizes(cap, most);
    OverfullWith(nodeSize, most, cap / most, OverfullSize(cap, most));
  }

  lemma OverfullWith(nodeSize: nat, most: nat, q: nat, size: nat)
    requires NODE_HEADER_SIZE + 50 <= nodeSize < 0x1_0000_0000 && q <= nodeSize - NODE_HEADER_SIZE
    requires 25 * q < size <= most && 25 <= size <= nodeSize - NODE_HEADER_SIZE + 1
    requires 25 * q <= nodeSize - NODE_HEADER_SIZE + 1 - size
    requires Room(q, nodeSize - NODE_HEADER_SIZE + 1 - size, most) && Room(q, 25 * q, most)
    ensures var rest := nodeSize - NODE_HEADER_SIZE + 1 - size;
            var items, it := Spread(1, q, 25 * q, most) + Spread(q + 1, q, rest, most), Filler(2 * q + 1, size);
            && Sorted(items) && !HasKey(items, it.k) && Bursts(items, it, nodeSize, most)
            && (forall i | 0 <= i < |items| :: Blank(items[i]) && items[i].k.objectid > 0) && it.k.objectid > 0
            && var all := InsertItem(items, it);
               LeafSize(all[|all| / 2..]) == nodeSize + 1 && all[|all| / 2..] != []
  {
    hide Spread, Load, Sorted, HasKey, Bursts, Room, InsertItem, Less, LeafSize, Blank;
    var rest := nodeSize - NODE_HEADER_SIZE + 1 - size;
    var small, large, it := Spread(1, q, 25 * q, most), Spread(q + 1, q, rest, most), Filler(2 * q + 1, size);
    SpreadLoad(1, q, 25 * q, most);
    SpreadLoad(q + 1, q, rest, most);
    InKeyOrder(small, large, it);
    InsertAtEnd(small + large, it);
    Loads(small, large, it);
    AssembleBursts(small, large, it, nodeSize, most);
  }

  /** Keys numbered from 1 on are in order and leave the new one out. */
  lemma InKeyOrder(small: seq<Item>, large: seq<Item>, it: Item)
    requires |small| == |large| < 0x1_0000_0000 && it.k == Key(|small| + |large| + 1, 108, 0)
    requires forall i | 0 <= i < |small| :: small[i].k == Key(1 + i, 108, 0)
    requires forall i | 0 <= i < |large| :: large[i].k == Key(|small| + 1 + i, 108, 0)
    ensures Sorted(small + large) && !HasKey(small + large, it.k)
    ensures forall i | 0 <= i < |small + large| :: Less((small + large)[i].k, it.k)
  {
    var items := small + large;
    assert forall i | 0 <= i < |items| :: items[i].k == Key(1 + i, 108, 0);
  }

  lemma Loads(small: seq<Item>, large: seq<Item>, it: Item)
    ensures Load(small + large) == Load(small) + Load(large)
    ensures Load(large + [it]) == Load(large) + ITEM_HEADER_SIZE + |it.data|
    ensures Load(small + large + [it]) == Load(small) + Load(large) + ITEM_HEADER_SIZE + |it.data|
  {
    hide Load;
    LoadConcat(small, large);
    LoadConcat(large, [it]);
    LoadConcat(small + large, [it]);
    LoadOne(it);
  }

  lemma AssembleBursts(small: seq<Item>, large: seq<Item>, it: Item, nodeSize: nat, most: nat)
    requires |small| == |large| && InsertItem(small + large, it) == small + large + [it]
    requires AtMost(small, most) && AtMost(large, most) && ITEM_HEADER_SIZE + |it.data| <= most
    requires Load(small + large) <= nodeSize - NODE_HEADER_SIZE < Load(small + large + [it])
    requires Load(large + [it]) == nodeSize - NODE_HEADER_SIZE + 1
    ensures Bursts(small + large, it, nodeSize, most)
    ensures var all := InsertItem(small + large, it);
            all[|all| / 2..] == large + [it] && LeafSize(all[|all| / 2..]) == nodeSize + 1
  {
    hide Load, InsertItem, LeafSize;
    var all := small + large + [it];
    assert |all| / 2 == |small| && all[|small|..] == large + [it];
    LeafLoad(small + large);
    LeafLoad(all);
    LeafLoad(large + [it]);
  }

  lemma LeafLoad(items: seq<Item>)
    ensures LeafSize(items) == NODE_HEADER_SIZE + Load(items)
  {
  }

  lemma InsertAtEnd(items: seq<Item>, it: Item)
    requires forall i | 0 <= i < |items| :: Less(items[i].k, it.k)
    ensures InsertItem(items, it) == items + [it]
  {
    assert items[..|items|] == items;
  }

  /**
   Cutting by item count never overfills a half of a leaf of items of at most `most` bytes,
   headers included, if and only if most <= 25 * (cap / most), cap being the bytes a node has
   behind its header.
   */
  lemma AlwaysFitIff(nodeSize: nat, most: nat)
    requires NODE_HEADER_SIZE + 50 <= nodeSize < 0x1_0000_0000 && most >= 25
    ensures AlwaysFit(nodeSize, most) <==> SmallEnough(nodeSize, most)
  {
    hide Bursts, HalvesFit, SmallEnough, InsertItem, Overfull;
    if SmallEnough(nodeSize, most) {
      forall items: seq<Item>, it: Item | Sorted(items) && !HasKey(items, it.k) && Bursts(items, it, nodeSize, most)
        ensures HalvesFit(InsertItem(items, it), nodeSize)
      {
        SmallFits(items, it, nodeSize, most);
      }
    } else {
      OverfullHalf(nodeSize, most);
      var (items, it) := Overfull(nodeSize, most);
      TooLong(InsertItem(items, it), nodeSize);
    }
  }

  lemma TooLong(all: seq<Item>, nodeSize: nat)
    requires LeafSize(all[|all| / 2..]) > nodeSize
    ensures !HalvesFit(all, nodeSize)
  {
  }

  /** A bound without a division that is nearly as good: 625 bytes in a node of 16384. */
  lemma SquareBound(nodeSize: nat, most: nat)
    requires nodeSize >= NODE_HEADER_SIZE && most > 0
    requires most * most <= 25 * (nodeSize - NODE_HEADER_SIZE - most)
    ensures SmallEnough(nodeSize, most)
  {
    var cap := nodeSize - NODE_HEADER_SIZE;
    var q := cap / most;
    DivMod(cap, most);
    Times(most, 25 * q + 1, most);
    assert most * (25 * q + 1) == 25 * (q * most) + most;
  }
}
