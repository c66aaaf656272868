/**
 Root-to-leaf paths (findLeafWithPath) and the tree seen from such a path: everything
 around the leaf stays put while the leaf's items change.
 */
module BtrfsPath {
  import opened Wrappers
  import opened Bytes
  import opened BtrfsTypes
  import opened BtrfsTree

  datatype PathElement = PathElement(logical: u64, phys: nat, level: byte, index: int)

  /** The slot a descent for k takes: the last separator not above k, or the first slot. */
  ghost predicate Chosen(ptrs: seq<Ptr>, k: Key, i: int) {
    && 0 <= i < |ptrs|
    && (i == 0 || !Less(k, ptrs[i].k))
    && forall j | i < j < |ptrs| :: Less(k, ptrs[j].k)
  }

  /** path leads from a node of height lvl through index nodes to a leaf. */
  ghost predicate PathOk(h: Heap, path: seq<PathElement>, lvl: nat, k: Key) {
    && |path| == lvl + 1
    && (forall j | 0 <= j <= lvl :: path[j].level == lvl - j)
    && (forall j | 0 <= j < lvl :: StepOk(h, path, j, k))
    && path[lvl].logical in h && h[path[lvl].logical].Leaf?
  }

  ghost predicate StepOk(h: Heap, path: seq<PathElement>, j: nat, k: Key)
    requires j + 1 < |path|
  {
    && path[j].logical in h && h[path[j].logical].Index?
    && Chosen(h[path[j].logical].ptrs, k, path[j].index)
    && path[j + 1].logical == h[path[j].logical].ptrs[path[j].index].addr
  }

  ghost predicate AllBelow(items: seq<Item>, k: Key) {
    forall i | 0 <= i < |items| :: Less(items[i].k, k)
  }

  ghost predicate AllAbove(items: seq<Item>, k: Key) {
    forall i | 0 <= i < |items| :: Less(k, items[i].k)
  }

  /** A valid tree together with a path for k through it. */
  datatype Descent = Descent(ns: nat, h: Heap, path: seq<PathElement>, lvl: nat, k: Key, lo: Key, left: bool) {

    ghost predicate Ok() {
      && PathOk(h, path, lvl, k)
      && Valid(ns, h, path[0].logical, lvl, lo, None, left)
      && Distinct(Foot(h, path[0].logical, lvl))
      && (left || !Less(k, lo))
    }

    ghost function Addr(j: nat): u64
      requires j < |path|
    {
      path[j].logical
    }

    ghost function Ptrs(j: nat): seq<Ptr>
      requires PathOk(h, path, lvl, k) && j < lvl
    {
      assert StepOk(h, path, j, k);
      h[path[j].logical].ptrs
    }

    ghost function Slot(j: nat): (i: nat)
      requires PathOk(h, path, lvl, k) && j < lvl
      ensures i < |Ptrs(j)| && Ptrs(j)[i].addr == Addr(j + 1) && Chosen(Ptrs(j), k, i)
    {
      assert StepOk(h, path, j, k);
      path[j].index
    }

    ghost function Before(j: nat): seq<Ptr>
      requires PathOk(h, path, lvl, k) && j < lvl
    {
      Ptrs(j)[..Slot(j)]
    }

    ghost function After(j: nat): seq<Ptr>
      requires PathOk(h, path, lvl, k) && j < lvl
    {
      Ptrs(j)[Slot(j) + 1..]
    }

    ghost function Child(j: nat): (p: Ptr)
      requires PathOk(h, path, lvl, k) && j < lvl
      ensures Ptrs(j) == Before(j) + [p] + After(j)
    {
      Ptrs(j)[Slot(j)]
    }

    // Bounds of the subtree at depth j.

    ghost function Lo(j: nat): Key
      requires PathOk(h, path, lvl, k) && j <= lvl
    {
      if j == 0 then lo else Child(j - 1).k
    }

    ghost function Hi(j: nat): Option<Key>
      requires PathOk(h, path, lvl, k) && j <= lvl
    {
      if j == 0 then None else FirstOr(After(j - 1), Hi(j - 1))
    }

    ghost predicate Left(j: nat)
      requires PathOk(h, path, lvl, k) && j <= lvl
    {
      if j == 0 then left else Left(j - 1) && Before(j - 1) == []
    }

    ghost function LeafItems(): seq<Item>
      requires PathOk(h, path, lvl, k)
    {
      h[path[lvl].logical].items
    }

    /** The walk of the subtree at depth j were its path leaf to hold items. */
    ghost function Inner(j: nat, items: seq<Item>): seq<Item>
      requires PathOk(h, path, lvl, k) && j <= lvl
      decreases lvl - j
    {
      if j == lvl then items
      else WalkAll(h, Before(j), lvl - j - 1) + Inner(j + 1, items) + WalkAll(h, After(j), lvl - j - 1)
    }

    /** What the node at depth j says of its children. */
    lemma Children(j: nat)
      requires PathOk(h, path, lvl, k) && j < lvl
      requires Valid(ns, h, Addr(j), lvl - j, Lo(j), Hi(j), Left(j))
      ensures SortedPtrs(Ptrs(j)) && IndexSize(|Ptrs(j)|) <= ns && Ptrs(j)[0].k == Lo(j) && Addr(j) != 0
      ensures forall i | 0 <= i < |Ptrs(j)| :: BelowHi(Ptrs(j)[i].k, Hi(j))
      ensures h[Addr(j)] == Index(lvl - j, Ptrs(j))
      ensures ValidAll(ns, h, Before(j) + [Child(j)] + After(j), lvl - j - 1, Hi(j), Left(j))
    {
      assert StepOk(h, path, j, k);
    }

    lemma FootOfNode(j: nat)
      requires PathOk(h, path, lvl, k) && j < lvl
      ensures Foot(h, Addr(j), lvl - j)
           == multiset{Addr(j)} + FootAll(h, Before(j), lvl - j - 1) + Foot(h, Addr(j + 1), lvl - j - 1)
              + FootAll(h, After(j), lvl - j - 1)
    {
      hide Walk, WalkAll, Foot, FootAll, Chosen;
      assert StepOk(h, path, j, k);
      IndexMeans(h, Addr(j), lvl - j, Before(j) + [Child(j)] + After(j));
      WalkAround(h, Before(j), Child(j), After(j), lvl - j - 1);
    }

    lemma WalkOfNode(j: nat)
      requires PathOk(h, path, lvl, k) && j < lvl
      ensures Walk(h, Addr(j), lvl - j)
           == WalkAll(h, Before(j), lvl - j - 1) + Walk(h, Addr(j + 1), lvl - j - 1) + WalkAll(h, After(j), lvl - j - 1)
    {
      hide Walk, WalkAll, Foot, FootAll, Chosen;
      assert StepOk(h, path, j, k);
      IndexMeans(h, Addr(j), lvl - j, Before(j) + [Child(j)] + After(j));
      WalkAround(h, Before(j), Child(j), After(j), lvl - j - 1);
    }

    lemma {:induction false} ValidAt(j: nat)
      requires Ok() && j <= lvl
      ensures Valid(ns, h, Addr(j), lvl - j, Lo(j), Hi(j), Left(j))
    {
      hide Walk, WalkAll, Foot, FootAll, Valid, ValidAll, StepOk, Chosen;
      if j > 0 {
        ValidAt(j - 1);
        Children(j - 1);
        ValidAround(ns, h, Before(j - 1), Child(j - 1), After(j - 1), lvl - j, Hi(j - 1), Left(j - 1));
      }
    }

    lemma {:induction false} DistinctAt(j: nat)
      requires Ok() && j <= lvl
      ensures Distinct(Foot(h, Addr(j), lvl - j))
    {
      hide Walk, WalkAll, Foot, FootAll, Valid, ValidAll, Chosen, StepOk;
      if j > 0 {
        DistinctAt(j - 1);
        FootOfNode(j - 1);
        DistinctParts(multiset{Addr(j - 1)}, FootAll(h, Before(j - 1), lvl - j), Foot(h, Addr(j), lvl - j),
                      FootAll(h, After(j - 1), lvl - j));
      }
    }

    lemma {:induction false} KeyAt(j: nat)
      requires Ok() && j <= lvl
      ensures Left(j) || !Less(k, Lo(j))
      ensures BelowHi(k, Hi(j))
    {
      if j > 0 {
        KeyAt(j - 1);
        ValidAt(j - 1);
        Children(j - 1);
        assert Chosen(Ptrs(j - 1), k, Slot(j - 1));
        assert After(j - 1) != [] ==> After(j - 1)[0] == Ptrs(j - 1)[Slot(j - 1) + 1];
      }
    }

    lemma {:induction false} WalkIsInner(j: nat)
      requires PathOk(h, path, lvl, k) && j <= lvl
      ensures Walk(h, Addr(j), lvl - j) == Inner(j, LeafItems())
      decreases lvl - j
    {
      if j < lvl {
        WalkIsInner(j + 1);
        WalkOfNode(j);
      }
    }

    /** Around the leaf the walk keeps a fixed prefix of smaller and suffix of larger keys. */
    lemma {:induction false} Context(j: nat) returns (pre: seq<Item>, post: seq<Item>)
      requires Ok() && j <= lvl
      ensures forall items :: Inner(j, items) == pre + items + post
      ensures AllBelow(pre, k) && AllAbove(post, k)
      decreases lvl - j
    {
      hide Walk, WalkAll, Foot, FootAll, Valid, ValidAll, StepOk, Chosen;
      if j == lvl {
        pre, post := [], [];
      } else {
        var p, q := Context(j + 1);
        pre, post := WalkAll(h, Before(j), lvl - j - 1) + p, q + WalkAll(h, After(j), lvl - j - 1);
        forall items ensures Inner(j, items) == pre + items + post {
          assert Inner(j + 1, items) == p + items + q;
        }
        BeforeKeys(j);
        AfterKeys(j);
      }
    }

    /** Both sibling lists of the path are ordered inside their bounds. */
    lemma Siblings(j: nat)
      requires Ok() && j < lvl
      ensures ValidAll(ns, h, Before(j), lvl - j - 1, Some(Child(j).k), Left(j))
      ensures ValidAll(ns, h, After(j), lvl - j - 1, Hi(j), false)
    {
      hide Walk, WalkAll, Foot, FootAll, Valid, ValidAll, StepOk, Chosen;
      ValidAt(j);
      Children(j);
      ValidAround(ns, h, Before(j), Child(j), After(j), lvl - j - 1, Hi(j), Left(j));
    }

    lemma BeforeKeys(j: nat)
      requires Ok() && j < lvl
      ensures AllBelow(WalkAll(h, Before(j), lvl - j - 1), k)
    {
      hide Walk, Foot, FootAll, Valid, ValidAll, StepOk;
      Siblings(j);
      ValidAt(j);
      Children(j);
      if Before(j) != [] {
        var b, c := Before(j), Child(j).k;
        assert SortedPtrs(b) && forall i | 0 <= i < |b| :: BelowHi(b[i].k, Some(c));
        WalkAllOrdered(ns, h, b, lvl - j - 1, Some(c), Left(j));
        assert Chosen(Ptrs(j), k, Slot(j)) && !Less(k, c);
        ChainBelow(WalkAll(h, b, lvl - j - 1), c, k);
      }
    }

    lemma AfterKeys(j: nat)
      requires Ok() && j < lvl
      ensures AllAbove(WalkAll(h, After(j), lvl - j - 1), k)
    {
      hide Walk, Foot, FootAll, Valid, ValidAll, StepOk;
      Siblings(j);
      ValidAt(j);
      Children(j);
      if After(j) != [] {
        var b := After(j);
        assert b[0] == Ptrs(j)[Slot(j) + 1];
        assert SortedPtrs(b) && forall i | 0 <= i < |b| :: BelowHi(b[i].k, Hi(j));
        WalkAllOrdered(ns, h, b, lvl - j - 1, Hi(j), false);
        assert Less(k, b[0].k);
        ChainAbove(WalkAll(h, b, lvl - j - 1), b[0].k, k);
      }
    }
  }

  lemma DistinctParts(a: multiset<nat>, b: multiset<nat>, c: multiset<nat>, d: multiset<nat>)
    requires Distinct(a + b + c + d)
    ensures Distinct(c)
    ensures forall x | x in c :: x !in a && x !in b && x !in d
    ensures forall x | x in a :: x !in b && x !in d
  {
    forall x ensures a[x] + b[x] + c[x] + d[x] <= 1 {
      assert (a + b + c + d)[x] <= 1;
    }
  }

  lemma ChainBelow(items: seq<Item>, c: Key, k: Key)
    requires AllBelow(items, c) && !Less(k, c)
    ensures AllBelow(items, k)
  {
  }

  lemma ChainAbove(items: seq<Item>, c: Key, k: Key)
    requires (forall i | 0 <= i < |items| :: !Less(items[i].k, c)) && Less(k, c)
    ensures AllAbove(items, k)
  {
  }

  lemma {:induction false} FootInHeap(ns: nat, h: Heap, a: nat, l: nat, lo: Key, hi: Option<Key>, left: bool)
    requires Valid(ns, h, a, l, lo, hi, left)
    ensures forall x | x in Foot(h, a, l) :: x in h && x != 0
    decreases l, 0
  {
    if h[a].Index? {
      FootAllInHeap(ns, h, h[a].ptrs, l - 1, hi, left);
    }
  }

  lemma {:induction false} FootAllInHeap(ns: nat, h: Heap, ptrs: seq<Ptr>, l: nat, hi: Option<Key>, left: bool)
    requires ValidAll(ns, h, ptrs, l, hi, left)
    ensures forall x | x in FootAll(h, ptrs, l) :: x in h && x != 0
    decreases l, |ptrs|
  {
    if ptrs != [] {
      FootInHeap(ns, h, ptrs[0].addr, l, ptrs[0].k, FirstOr(ptrs[1..], hi), left);
      FootAllInHeap(ns, h, ptrs[1..], l, hi, false);
    }
  }

  /** The leaves of a valid tree are of legal size. */
  lemma {:induction false} LeavesFit(ns: nat, h: Heap, a: nat, l: nat, lo: Key, hi: Option<Key>, left: bool)
    requires Valid(ns, h, a, l, lo, hi, left)
    ensures forall x | x in Foot(h, a, l) && x in h && h[x].Leaf? :: LeafSize(h[x].items) <= ns
    decreases l, 0
  {
    hide LeafSize, LeafOrder;
    if h[a].Index? {
      AllLeavesFit(ns, h, h[a].ptrs, l - 1, hi, left);
    }
  }

  lemma {:induction false} AllLeavesFit(ns: nat, h: Heap, ptrs: seq<Ptr>, l: nat, hi: Option<Key>, left: bool)
    requires ValidAll(ns, h, ptrs, l, hi, left)
    ensures forall x | x in FootAll(h, ptrs, l) && x in h && h[x].Leaf? :: LeafSize(h[x].items) <= ns
    decreases l, |ptrs|
  {
    hide LeafSize, LeafOrder;
    if ptrs != [] {
      LeavesFit(ns, h, ptrs[0].addr, l, ptrs[0].k, FirstOr(ptrs[1..], hi), left);
      AllLeavesFit(ns, h, ptrs[1..], l, hi, false);
    }
  }

  /** What stands in a leaf of the tree is seen by its walk. */
  lemma {:induction false} LeafInWalk(ns: nat, h: Heap, a: nat, l: nat, lo: Key, hi: Option<Key>, left: bool, x: nat, k: Key)
    requires Valid(ns, h, a, l, lo, hi, left) && x in Foot(h, a, l) && x in h && h[x].Leaf? && HasKey(h[x].items, k)
    ensures HasKey(Walk(h, a, l), k)
    decreases l, 0
  {
    hide LeafSize, LeafOrder, HasKey;
    if h[a].Index? {
      LeafInWalkAll(ns, h, h[a].ptrs, l - 1, hi, left, x, k);
    }
  }

  lemma {:induction false} LeafInWalkAll(ns: nat, h: Heap, ptrs: seq<Ptr>, l: nat, hi: Option<Key>, left: bool, x: nat, k: Key)
    requires ValidAll(ns, h, ptrs, l, hi, left) && x in FootAll(h, ptrs, l) && x in h && h[x].Leaf? && HasKey(h[x].items, k)
    ensures HasKey(WalkAll(h, ptrs, l), k)
    decreases l, |ptrs|
  {
    hide LeafSize, LeafOrder, HasKey;
    if ptrs != [] {
      var a, b := Walk(h, ptrs[0].addr, l), WalkAll(h, ptrs[1..], l);
      if x in Foot(h, ptrs[0].addr, l) {
        LeafInWalk(ns, h, ptrs[0].addr, l, ptrs[0].k, FirstOr(ptrs[1..], hi), left, x, k);
      } else {
        LeafInWalkAll(ns, h, ptrs[1..], l, hi, false, x, k);
      }
      HasKeyConcat(a, b, k);
    }
  }

  lemma HasKeyConcat(a: seq<Item>, b: seq<Item>, k: Key)
    ensures HasKey(a + b, k) <==> HasKey(a, k) || HasKey(b, k)
  {
    var c := a + b;
    if i :| 0 <= i < |a| && a[i].k == k { assert c[i].k == k; }
    if i :| 0 <= i < |b| && b[i].k == k { assert c[|a| + i].k == k; }
    if i :| 0 <= i < |c| && c[i].k == k {
      if i < |a| { assert a[i].k == k; } else { assert b[i - |a|].k == k; }
    }
  }

  // ----- the leaf for a key -----

  /** The slot findLeaf takes. */
  ghost function SlotFor(ptrs: seq<Ptr>, k: Key): (i: nat)
    requires ptrs != []
    ensures Chosen(ptrs, k, i)
  {
    var n := |ptrs| - 1;
    if n == 0 || !Less(k, ptrs[n].k) then n else SlotFor(ptrs[..n], k)
  }

  lemma {:induction false} SlotUnique(ptrs: seq<Ptr>, k: Key, i: nat)
    requires Chosen(ptrs, k, i)
    ensures i == SlotFor(ptrs, k)
  {
    var j := SlotFor(ptrs, k);
    assert Chosen(ptrs, k, j);
  }

  ghost function LeafFor(h: Heap, a: nat, l: nat, k: Key): nat
    decreases l
  {
    if l == 0 || a !in h || !h[a].Index? || h[a].ptrs == [] then a
    else LeafFor(h, h[a].ptrs[SlotFor(h[a].ptrs, k)].addr, l - 1, k)
  }

  /** The child in slot i of a valid index node is a valid tree one level lower. */
  lemma ChildValid(ns: nat, h: Heap, a: nat, l: nat, lo: Key, hi: Option<Key>, left: bool, i: nat)
    requires l > 0 && Valid(ns, h, a, l, lo, hi, left) && i < |h[a].ptrs|
    ensures Valid(ns, h, h[a].ptrs[i].addr, l - 1, h[a].ptrs[i].k, FirstOr(h[a].ptrs[i + 1..], hi), left && i == 0)
  {
    hide Walk, WalkAll, Foot, FootAll, ValidAll;
    var ptrs := h[a].ptrs;
    assert ptrs == ptrs[..i] + [ptrs[i]] + ptrs[i + 1..];
    ValidAround(ns, h, ptrs[..i], ptrs[i], ptrs[i + 1..], l - 1, hi, left);
  }

  ghost function PathTo(h: Heap, a: u64, l: byte, k: Key): seq<PathElement>
    decreases l
  {
    if l == 0 || a !in h || !h[a].Index? || h[a].ptrs == [] then [PathElement(a, 0, l, -1)]
    else
      var i := SlotFor(h[a].ptrs, k);
      [PathElement(a, 0, l, i)] + PathTo(h, h[a].ptrs[i].addr, l - 1, k)
  }

  /** A valid tree has a path for every key, and it ends at the key's leaf. */
  lemma {:induction false} PathToOk(ns: nat, h: Heap, a: u64, l: byte, lo: Key, hi: Option<Key>, left: bool, k: Key)
    requires Valid(ns, h, a, l, lo, hi, left)
    ensures PathOk(h, PathTo(h, a, l, k), l, k) && PathTo(h, a, l, k)[0].logical == a
    ensures PathTo(h, a, l, k)[l].logical == LeafFor(h, a, l, k)
    decreases l
  {
    hide ValidAll;
    if l > 0 {
      var ptrs := h[a].ptrs;
      var i := SlotFor(ptrs, k);
      ChildValid(ns, h, a, l, lo, hi, left, i);
      PathToOk(ns, h, ptrs[i].addr, l - 1, ptrs[i].k, FirstOr(ptrs[i + 1..], hi), left && i == 0, k);
      PathCons(h, PathElement(a, 0, l, i), PathTo(h, ptrs[i].addr, l - 1, k), l - 1, k);
    }
  }

  lemma LeafIsLeaf(ns: nat, h: Heap, a: nat, lo: Key, hi: Option<Key>, left: bool)
    requires Valid(ns, h, a, 0, lo, hi, left)
    ensures a in h && h[a].Leaf?
  {
  }

  /** path leads from root, at height lvl, to the node curr. */
  ghost predicate PathUpTo(h: Heap, path: seq<PathElement>, root: u64, lvl: nat, curr: u64, k: Key) {
    && (if path == [] then curr == root else path[0].logical == root)
    && (forall j | 0 <= j < |path| :: path[j].level == lvl - j)
    && forall j | 0 <= j < |path| :: StepOk(h, path + [PathElement(curr, 0, 0, -1)], j, k)
  }

  lemma PathStarts(h: Heap, root: u64, lvl: nat, k: Key)
    ensures PathUpTo(h, [], root, lvl, root, k)
  {
  }

  lemma PathExtend(h: Heap, path: seq<PathElement>, root: u64, lvl: nat, e: PathElement, next: u64, k: Key)
    requires PathUpTo(h, path, root, lvl, e.logical, k) && e.level == lvl - |path|
    requires e.logical in h && h[e.logical].Index? && Chosen(h[e.logical].ptrs, k, e.index)
    requires next == h[e.logical].ptrs[e.index].addr
    ensures PathUpTo(h, path + [e], root, lvl, next, k)
  {
    hide Chosen;
    var p0, p1 := path + [PathElement(e.logical, 0, 0, -1)], path + [e] + [PathElement(next, 0, 0, -1)];
    forall j | 0 <= j < |path| + 1 ensures StepOk(h, p1, j, k) {
      if j < |path| {
        assert StepOk(h, p0, j, k);
      }
    }
  }

  lemma PathEnds(h: Heap, path: seq<PathElement>, root: u64, leaf: PathElement, lvl: nat, k: Key)
    requires PathUpTo(h, path, root, lvl, leaf.logical, k) && |path| == lvl && leaf.level == 0
    requires leaf.logical in h && h[leaf.logical].Leaf?
    ensures PathOk(h, path + [leaf], lvl, k) && (path + [leaf])[0].logical == root
  {
    hide Chosen;
    var p0, p1 := path + [PathElement(leaf.logical, 0, 0, -1)], path + [leaf];
    forall j | 0 <= j < lvl ensures StepOk(h, p1, j, k) {
      assert StepOk(h, p0, j, k);
    }
  }

  lemma PathCons(h: Heap, e: PathElement, rest: seq<PathElement>, l: nat, k: Key)
    requires PathOk(h, rest, l, k) && e.level == l + 1
    requires e.logical in h && h[e.logical].Index? && Chosen(h[e.logical].ptrs, k, e.index)
    requires rest[0].logical == h[e.logical].ptrs[e.index].addr
    ensures PathOk(h, [e] + rest, l + 1, k)
  {
    hide Chosen;
    var p := [e] + rest;
    forall j | 0 <= j < l + 1 ensures StepOk(h, p, j, k) {
      if j > 0 {
        assert StepOk(h, rest, j - 1, k);
        assert p[j] == rest[j - 1] && p[j + 1] == rest[j];
      }
    }
  }

  /** Each node of a path is where the search for the key stands after that many steps. */
  lemma {:induction false} PathPasses(h: Heap, path: seq<PathElement>, n: nat, k: Key)
    requires n < |path| && forall j | 0 <= j < n :: StepOk(h, path, j, k)
    ensures path[n].logical == LeafFor(h, path[0].logical, n, k)
    decreases n
  {
    if n > 0 {
      assert StepOk(h, path, 0, k);
      SlotUnique(h[path[0].logical].ptrs, k, path[0].index);
      var rest := path[1..];
      forall j | 0 <= j < n - 1 ensures StepOk(h, rest, j, k) {
        assert StepOk(h, path, j + 1, k);
      }
      PathPasses(h, rest, n - 1, k);
    }
  }
}
