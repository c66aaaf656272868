/** Whole-tree results of an edit of one leaf: the steps of BtrfsInsert along a descent. */
module BtrfsClimb {
  import opened Wrappers
  import opened Bytes
  import opened BtrfsTypes
  import opened BtrfsTree
  import opened BtrfsPath
  import opened BtrfsInsert
  import opened BtrfsMeaning

  /**
   The leaf of descent d is to hold items. flip says that the leaf's split puts the new
   pointer in front of the old one; good that the tree's order is to be kept.
   */
  datatype Edit = Edit(d: Descent, items: seq<Item>, flip: bool, good: bool) {

    ghost predicate Ok() {
      d.Ok() && (good ==> !flip) && (flip ==> d.lvl > 0)
    }

    ghost predicate Flips(j: nat) {
      flip && j == d.lvl
    }

    ghost function Sub(j: nat): Subtree
      requires Ok() && j <= d.lvl
    {
      Subtree(d.ns, d.h, d.Addr(j), d.lvl - j, d.Lo(j), d.Hi(j), d.Left(j))
    }

    ghost function At(j: nat): Spot
      requires Ok() && j < d.lvl
    {
      Spot(d.ns, d.h, d.Addr(j), d.lvl - j, d.Before(j), d.Child(j), d.After(j), d.Lo(j), d.Hi(j), d.Left(j))
    }

    ghost predicate Pending(j: nat, r: Option<Ptr>)
      requires Ok() && j <= d.lvl
    {
      && (r.Some? ==> BelowHi(r.value.k, d.Hi(j)))
      && (j > 0 ==> At(j - 1).Fits(r, Flips(j)))
    }

    /** In heap h1 the edit is done below depth j, r being split off and extra the new nodes. */
    ghost predicate Done(j: nat, h1: Heap, r: Option<Ptr>, extra: multiset<nat>) {
      && Ok() && j <= d.lvl
      && Sub(j).Walks(h1, r, d.Inner(j, items), Flips(j))
      && Sub(j).Covers(h1, r, extra)
      && Grown(d.h, h1, Sub(j).F(), extra)
      && (good ==> Sub(j).Keeps(h1, r))
      && Pending(j, r)
    }

    lemma SpotNode(j: nat)
      requires Ok() && j < d.lvl
      ensures At(j).KeysOk()
      ensures d.lvl - j < 256 && d.Addr(j) in d.h && d.Addr(j) != 0 && d.h[d.Addr(j)] == Index(d.lvl - j, At(j).Ptrs())
    {
      hide Walk, WalkAll, Foot, FootAll, ValidAll, Valid, Less, BelowHi, Chosen;
      d.ValidAt(j);
      d.Children(j);
      assert StepOk(d.h, d.path, j, d.k);
      assert d.path[j].level == d.lvl - j;
    }

    lemma SpotApart(j: nat)
      requires Ok() && j < d.lvl
      ensures var b, c, f := FootAll(d.h, d.Before(j), d.lvl - j - 1), Foot(d.h, d.Addr(j + 1), d.lvl - j - 1),
                             FootAll(d.h, d.After(j), d.lvl - j - 1);
              && d.Addr(j) !in b && d.Addr(j) !in c && d.Addr(j) !in f && b !! c && f !! c
              && forall x | x in c :: x in d.h
    {
      hide Walk, WalkAll, Foot, FootAll, ValidAll, Valid, Less, BelowHi, Chosen, StepOk;
      d.ValidAt(j + 1);
      d.DistinctAt(j);
      d.FootOfNode(j);
      DistinctParts(multiset{d.Addr(j)}, FootAll(d.h, d.Before(j), d.lvl - j - 1),
                    Foot(d.h, d.Addr(j + 1), d.lvl - j - 1), FootAll(d.h, d.After(j), d.lvl - j - 1));
      FootInHeap(d.ns, d.h, d.Addr(j + 1), d.lvl - j - 1, d.Lo(j + 1), d.Hi(j + 1), d.Left(j + 1));
    }

    lemma SpotOk(j: nat)
      requires Ok() && j < d.lvl
      ensures At(j).Ok() && At(j).KeysOk()
      ensures At(j).Up() == Sub(j) && At(j).Down() == Sub(j + 1)
      ensures At(j).Around(d.Inner(j + 1, items)) == d.Inner(j, items)
      ensures d.lvl - j < 256
    {
      hide Walk, WalkAll, Foot, FootAll, ValidAll, Valid, Less, BelowHi, Chosen, PathOk, StepOk;
      SpotNode(j);
      SpotApart(j);
      d.Siblings(j);
    }

    // ----- the steps at the node of depth j -----

    /** The child has nothing pending: the node is right as it is. */
    lemma Lift(j: nat, h1: Heap, extra: multiset<nat>)
      requires j < d.lvl && Done(j + 1, h1, None, extra)
      ensures Done(j, h1, None, extra)
    {
      hide Walk, WalkAll, Foot, FootAll, ValidAll, Valid, Less, BelowHi, Chosen, PathOk, StepOk;
      SpotOk(j);
      var s := At(j);
      s.SiblingsKept(h1, extra);
      assert s.Linked(None, Flips(j + 1)) == s.Ptrs();
      assert h1 == h1[s.a := Index(s.l, s.Ptrs())];
      s.Widened(h1, None, d.Inner(j + 1, items), Flips(j + 1), extra, h1);
      if good {
        s.WidenedKeeps(h1, None, d.Inner(j + 1, items), extra, h1);
      }
    }

    /** What the writer finds when it reads the parent of a split child. */
    lemma ParentRead(j: nat, h1: Heap, r: Ptr, extra: multiset<nat>, pos: nat)
      requires j < d.lvl && Done(j + 1, h1, Some(r), extra)
      ensures d.Addr(j) in h1 && h1[d.Addr(j)] == Index(d.lvl - j, At(j).Ptrs())
      ensures IndexSize(|At(j).Ptrs()|) <= d.ns && d.lvl - j < 256
      ensures |At(j).Linked(Some(r), Flips(j + 1))| == |At(j).Ptrs()| + 1
      ensures && pos <= |At(j).Ptrs()| && (forall i | 0 <= i < pos :: Less(At(j).Ptrs()[i].k, r.k))
              && (pos < |At(j).Ptrs()| ==> !Less(At(j).Ptrs()[pos].k, r.k))
         ==> PtrsWith(At(j).Ptrs(), pos, r) == At(j).Linked(Some(r), Flips(j + 1))
    {
      hide Walk, WalkAll, Foot, FootAll, ValidAll, Valid, Less, BelowHi, Chosen, PathOk, StepOk;
      SpotOk(j);
      SpotNode(j);
      At(j).SiblingsKept(h1, extra);
      if pos <= |At(j).Ptrs()| && (forall i | 0 <= i < pos :: Less(At(j).Ptrs()[i].k, r.k))
         && (pos < |At(j).Ptrs()| ==> !Less(At(j).Ptrs()[pos].k, r.k)) {
        At(j).ScanFindsSlot(Some(r), Flips(j + 1), pos);
      }
    }

    lemma {:induction false} LiftAll(j: nat, h1: Heap, extra: multiset<nat>)
      requires Done(j, h1, None, extra)
      ensures Done(0, h1, None, extra)
    {
      if j > 0 {
        Lift(j - 1, h1, extra);
        LiftAll(j - 1, h1, extra);
      }
    }

    /** The node takes the pending pointer. */
    lemma Widen(j: nat, h1: Heap, r: Option<Ptr>, extra: multiset<nat>, h2: Heap)
      requires j < d.lvl && Done(j + 1, h1, r, extra)
      requires IndexSize(|At(j).Linked(r, Flips(j + 1))|) <= d.ns
      requires d.lvl - j < 256 && h2 == h1[d.Addr(j) := Index(d.lvl - j, At(j).Linked(r, Flips(j + 1)))]
      ensures Done(j, h2, None, extra)
    {
      hide Walk, WalkAll, Foot, FootAll, ValidAll, Valid, Less, BelowHi, Chosen, PathOk, StepOk;
      SpotOk(j);
      At(j).Widened(h1, r, d.Inner(j + 1, items), Flips(j + 1), extra, h2);
      if good {
        At(j).WidenedKeeps(h1, r, d.Inner(j + 1, items), extra, h2);
      }
    }

    /** The node overflows: its right half becomes node b, whose separator is pending. */
    lemma Halve(j: nat, h1: Heap, r: Option<Ptr>, extra: multiset<nat>, mid: nat, b: u64, h2: Heap)
      requires j < d.lvl && r.Some? && Done(j + 1, h1, r, extra)
      requires d.lvl - j < 256 && 2 <= mid < |At(j).Linked(r, Flips(j + 1))| && b !in h1 && b != 0
      requires var np := At(j).Linked(r, Flips(j + 1));
               h2 == h1[d.Addr(j) := Index(d.lvl - j, np[..mid])][b := Index(d.lvl - j, np[mid..])]
      ensures Done(j, h2, Some(Ptr(At(j).Linked(r, Flips(j + 1))[mid].k, b)), extra + multiset{b})
    {
      hide Walk, WalkAll, Foot, FootAll, ValidAll, Valid, Less, BelowHi, Chosen, PathOk, StepOk;
      SpotOk(j);
      At(j).Halved(h1, r, d.Inner(j + 1, items), Flips(j + 1), extra, h2, mid, b);
      At(j).SplitKey(r, Flips(j + 1), mid);
      if good {
        At(j).HalvedKeeps(h1, r, d.Inner(j + 1, items), extra, h2, mid, b);
      }
      SplitPending(j, Ptr(At(j).Linked(r, Flips(j + 1))[mid].k, b));
    }

    lemma SplitPending(j: nat, r: Ptr)
      requires Ok() && j < d.lvl && Less(d.Lo(j), r.k) && BelowHi(r.k, d.Hi(j))
      ensures Pending(j, Some(r))
    {
      hide Walk, WalkAll, Foot, FootAll, ValidAll, Valid, Chosen, PathOk, StepOk;
      if j > 0 {
        SpotNode(j - 1);
        var s := At(j - 1);
        if s.before != [] {
          assert s.Ptrs()[|s.before| - 1] == s.before[|s.before| - 1] && s.Ptrs()[|s.before|] == s.child;
        }
      }
    }

    /** The root itself was split: a new root n over both halves. */
    lemma Grow(h1: Heap, r: Ptr, extra: multiset<nat>, n: u64, fk: Key, h2: Heap)
      requires Done(0, h1, Some(r), extra) && !Flips(0)
      requires d.lvl < 255 && n !in h1 && n != 0 && d.ns >= IndexSize(2)
      requires h2 == h1[n := Index(d.lvl + 1, [Ptr(fk, d.Addr(0)), r])]
      ensures Walk(h2, n, d.lvl + 1) == d.Inner(0, items)
      ensures Foot(h2, n, d.lvl + 1) == Foot(d.h, d.Addr(0), d.lvl) + (extra + multiset{n})
    {
      hide Walk, WalkAll, Foot, FootAll, ValidAll, Valid, Less, BelowHi, Chosen, StepOk;
      var np := [Ptr(fk, d.Addr(0)), r];
      TwoPtrs(h1, np, d.lvl);
      FootInHeap(d.ns, d.h, d.Addr(0), d.lvl, d.lo, None, d.left);
      assert n !in FootAll(h1, np, d.lvl);
      PutIndex(h1, h2, n, d.lvl + 1, np);
    }

    lemma GrowKeeps(h1: Heap, r: Ptr, extra: multiset<nat>, n: u64, fk: Key, h2: Heap)
      requires Done(0, h1, Some(r), extra) && !Flips(0) && good
      requires d.lvl < 255 && n !in h1 && n != 0 && d.ns >= IndexSize(2)
      requires h2 == h1[n := Index(d.lvl + 1, [Ptr(fk, d.Addr(0)), r])]
      requires d.Addr(0) in h1
      requires h1[d.Addr(0)].Index? ==> |h1[d.Addr(0)].ptrs| > 0 && fk == h1[d.Addr(0)].ptrs[0].k
      requires h1[d.Addr(0)].Leaf? ==> |h1[d.Addr(0)].items| > 0 && fk == h1[d.Addr(0)].items[0].k
      ensures Valid(d.ns, h2, n, d.lvl + 1, fk, None, d.left && d.lvl > 0)
    {
      hide Walk, WalkAll, Foot, FootAll, ValidAll, Chosen, StepOk;
      var a, np := d.Addr(0), [Ptr(fk, d.Addr(0)), r];
      var lft := d.left && d.lvl > 0;
      assert Less(fk, r.k) && Valid(d.ns, h1, a, d.lvl, fk, Some(r.k), lft);
      assert [np[0]][1..] == [] && [np[1]][1..] == [] && np == [np[0]] + [np[1]];
      Singles(h1, np, lft);
      ValidConcat(d.ns, h1, [np[0]], [np[1]], d.lvl, None, lft);
      TwoPtrs(h1, np, d.lvl);
      FootInHeap(d.ns, d.h, a, d.lvl, d.lo, None, d.left);
      assert n !in FootAll(h1, np, d.lvl);
      AgreeAfterPut(h1, h2, n, FootAll(h1, np, d.lvl));
      FrameValidAll(d.ns, h1, h2, np, d.lvl, None, lft);
    }

    lemma Singles(h1: Heap, np: seq<Ptr>, lft: bool)
      requires |np| == 2
      requires Valid(d.ns, h1, np[0].addr, d.lvl, np[0].k, Some(np[1].k), lft)
      requires Valid(d.ns, h1, np[1].addr, d.lvl, np[1].k, None, false)
      ensures ValidAll(d.ns, h1, [np[0]], d.lvl, Some(np[1].k), lft)
      ensures ValidAll(d.ns, h1, [np[1]], d.lvl, None, false)
    {
      hide Walk, WalkAll, Foot, FootAll, Valid;
      assert [np[0]][1..] == [] && [np[1]][1..] == [];
    }

    lemma TwoPtrs(h1: Heap, np: seq<Ptr>, l: nat)
      requires |np| == 2
      ensures WalkAll(h1, np, l) == Walk(h1, np[0].addr, l) + Walk(h1, np[1].addr, l)
      ensures FootAll(h1, np, l) == Foot(h1, np[0].addr, l) + Foot(h1, np[1].addr, l)
    {
      hide Walk, Foot;
      assert np == [np[0]] + [np[1]] && [np[0]][1..] == [] && [np[1]][1..] == [];
      WalkConcat(h1, [np[0]], [np[1]], l);
    }

    // ----- the tree in the middle of the climb -----

    /** The edited part below depth j and the part split off it read back, with every node on its level. */
    ghost predicate Whole(j: nat, h1: Heap, r: Ptr)
      requires Ok() && j <= d.lvl
    {
      Shaped(h1, d.Addr(j), d.lvl - j) && Shaped(h1, r.addr, d.lvl - j)
    }

    lemma {:induction false} FootShrinks(i: nat, j: nat)
      requires Ok() && i <= j <= d.lvl
      ensures Sub(j).F() <= Sub(i).F()
      decreases j - i
    {
      hide Walk, WalkAll, Foot, FootAll, ValidAll, Valid, Less, BelowHi, Chosen, StepOk;
      if i < j {
        FootShrinks(i + 1, j);
        d.FootOfNode(i);
      }
    }

    /** The nodes above the edited part still lead to a tree that reads back, without the part split off. */
    lemma {:induction false} WholeAbove(i: nat, j: nat, h1: Heap, extra: multiset<nat>)
      requires Ok() && i <= j <= d.lvl && Grown(d.h, h1, Sub(j).F(), extra) && Shaped(h1, d.Addr(j), d.lvl - j)
      ensures Shaped(h1, d.Addr(i), d.lvl - i)
      decreases j - i
    {
      hide Walk, WalkAll, Foot, FootAll, ValidAll, Valid, Less, BelowHi, Chosen, PathOk, StepOk, Shaped, Spot.Ok, Spot.KeysOk;
      if i < j {
        WholeAbove(i + 1, j, h1, extra);
        FootShrinks(i + 1, j);
        SpotOk(i);
        GrownWider(d.h, h1, Sub(j).F(), Sub(i + 1).F(), extra);
        At(i).StillShaped(h1, extra);
      }
    }

    lemma HalveWhole(j: nat, h1: Heap, r: Ptr, extra: multiset<nat>, mid: nat, b: u64, h2: Heap)
      requires j < d.lvl && Done(j + 1, h1, Some(r), extra)
      requires d.lvl - j < 256 && mid < |At(j).Linked(Some(r), Flips(j + 1))| && b !in h1 && b != 0
      requires var np := At(j).Linked(Some(r), Flips(j + 1));
               h2 == h1[d.Addr(j) := Index(d.lvl - j, np[..mid])][b := Index(d.lvl - j, np[mid..])]
      ensures Whole(j + 1, h1, r) ==> Whole(j, h2, Ptr(At(j).Linked(Some(r), Flips(j + 1))[mid].k, b))
    {
      hide Walk, WalkAll, Foot, FootAll, ValidAll, Valid, Less, BelowHi, Chosen, PathOk, StepOk, Shaped, ShapedAll;
      SpotOk(j);
      if Whole(j + 1, h1, r) {
        At(j).HalvedShaped(h1, Some(r), d.Inner(j + 1, items), Flips(j + 1), extra, h2, mid, b);
      }
    }

    /** Whether a split at key s puts the new leaf's pointer in front of the old leaf's. */
    ghost predicate FlipsAt(s: Key)
      requires d.Ok()
    {
      d.lvl > 0 && !Less(d.Child(d.lvl - 1).k, s)
    }

    /** Separators on the leftmost path equal the root's first; elsewhere they are above it. */
    lemma {:induction false} LoAlong(j: nat)
      requires Ok() && j <= d.lvl
      ensures !Less(d.Lo(j), d.lo)
      ensures d.left && d.Left(j) ==> d.Lo(j) == d.lo
    {
      hide Walk, WalkAll, Foot, FootAll, ValidAll, Valid, Chosen, PathOk, StepOk;
      if j > 0 {
        LoAlong(j - 1);
        SpotNode(j - 1);
        var p := At(j - 1);
        assert p.Ptrs()[|p.before|] == p.child;
      }
    }

    /**
     For an absent key the split pointer goes wrong exactly if the split key does not exceed
     the root's first separator, which can only happen below separators (left).
     */
    lemma FlipIff(all: seq<Item>, mid: nat)
      requires Ok() && d.lvl > 0 && 0 < mid < |all| && Sorted(all)
      requires !d.Left(d.lvl) ==> !Less(all[0].k, d.Lo(d.lvl))
      ensures FlipsAt(all[mid].k) <==> !Less(d.lo, all[mid].k)
      ensures FlipsAt(all[mid].k) ==> d.left
    {
      hide Walk, WalkAll, Foot, FootAll, ValidAll, Valid, Chosen, PathOk, StepOk;
      LoAlong(d.lvl);
      assert Less(all[0].k, all[mid].k);
      LeftOnly(d.lvl);
    }

    lemma {:induction false} LeftOnly(j: nat)
      requires Ok() && j <= d.lvl
      ensures d.Left(j) ==> d.left
    {
      hide Walk, WalkAll, Foot, FootAll, ValidAll, Valid, Chosen, PathOk, StepOk;
      if j > 0 {
        LeftOnly(j - 1);
      }
    }

    // ----- the leaf -----

    lemma LeafPending(s: Key, b: u64)
      requires Ok() && flip == FlipsAt(s) && BelowHi(s, d.Hi(d.lvl))
      requires d.Left(d.lvl) || !Less(s, d.Lo(d.lvl))
      ensures Pending(d.lvl, Some(Ptr(s, b)))
    {
      hide Walk, WalkAll, Foot, FootAll, ValidAll, Valid, Chosen, PathOk, StepOk;
      if d.lvl > 0 {
        SpotNode(d.lvl - 1);
        var p := At(d.lvl - 1);
        if p.before != [] {
          assert p.Ptrs()[|p.before| - 1] == p.before[|p.before| - 1] && p.Ptrs()[|p.before|] == p.child;
        }
      }
    }

    lemma LeafBounds()
      requires Ok()
      ensures LeafOrder(d.LeafItems(), d.Lo(d.lvl), d.Hi(d.lvl), d.Left(d.lvl))
      ensures BelowHi(d.k, d.Hi(d.lvl)) && (d.Left(d.lvl) || !Less(d.k, d.Lo(d.lvl)))
    {
      hide Less, BelowHi, LeafOrder, Chosen, StepOk, ValidAll;
      d.ValidAt(d.lvl);
      d.KeyAt(d.lvl);
    }

    lemma RootNode()
      requires Ok()
      ensures d.Addr(0) in d.h && (d.lvl > 0 ==> d.h[d.Addr(0)].Index?)
    {
      if d.lvl > 0 {
        assert StepOk(d.h, d.path, 0, d.k);
      }
    }

    /** The leaf's items with the new one among them stay in the leaf's range. */
    lemma InsertReady(it: Item)
      requires Ok() && it.k == d.k
      ensures var all := InsertItem(d.LeafItems(), it);
              && (forall i | 0 <= i < |all| :: BelowHi(all[i].k, d.Hi(d.lvl)))
              && (!d.Left(d.lvl) ==> forall i | 0 <= i < |all| :: !Less(all[i].k, d.Lo(d.lvl)))
              && (Sorted(all) <==> !HasKey(d.LeafItems(), it.k))
              && (Sorted(all) ==> LeafOrder(all, d.Lo(d.lvl), d.Hi(d.lvl), d.Left(d.lvl)))
    {
      hide Less, BelowHi, InsertItem, Sorted, HasKey, Chosen, StepOk, PathOk, ValidAll, Valid;
      LeafBounds();
      InsertInOrder(d.LeafItems(), it, d.Lo(d.lvl), d.Hi(d.lvl), d.Left(d.lvl));
      InsertSorted(d.LeafItems(), it);
    }

    /** A split of those items at mid is ready to be written. */
    lemma SplitReady(it: Item, mid: nat, b: u64)
      requires Ok() && it.k == d.k && mid < |InsertItem(d.LeafItems(), it)|
      requires flip == FlipsAt(InsertItem(d.LeafItems(), it)[mid].k)
      ensures var all := InsertItem(d.LeafItems(), it);
              && Pending(d.lvl, Some(Ptr(all[mid].k, b)))
              && (!HasKey(d.LeafItems(), it.k) && mid > 0 ==>
                    && LeafOrder(all[..mid], d.Lo(d.lvl), Some(all[mid].k), d.Left(d.lvl))
                    && LeafOrder(all[mid..], all[mid].k, d.Hi(d.lvl), false))
              && (!HasKey(d.LeafItems(), it.k) && d.lvl > 0 && mid > 0 ==>
                    && (flip <==> !Less(d.lo, all[mid].k))
                    && (flip ==> d.left))
    {
      hide Less, InsertItem, Chosen, StepOk, PathOk, ValidAll, Valid, LeafOrder, Sorted, HasKey;
      var all := InsertItem(d.LeafItems(), it);
      InsertReady(it);
      LeafPending(all[mid].k, b);
      if Sorted(all) && mid > 0 {
        HalvesInOrder(all, mid, d.Lo(d.lvl), d.Hi(d.lvl), d.Left(d.lvl));
        if d.lvl > 0 {
          FlipIff(all, mid);
        }
      }
    }

    /** All items fit in the leaf. */
    lemma LeafKept(h1: Heap)
      requires Ok() && !flip && h1 == d.h[d.Addr(d.lvl) := Leaf(items)]
      requires good ==> LeafSize(items) <= d.ns && LeafOrder(items, d.Lo(d.lvl), d.Hi(d.lvl), d.Left(d.lvl))
      ensures Done(d.lvl, h1, None, multiset{})
    {
      hide Less, BelowHi, Chosen, StepOk;
      d.ValidAt(d.lvl);
    }

    /**
     One half was written over the leaf and the other to node b; they read back as the nodes x
     and y. Their items count only as far as they read back as leaves.
     */
    lemma LeafHalved(h1: Heap, x: Node, b: u64, y: Node, k: Key)
      requires Ok() && b !in d.h && b != 0
      requires h1 == d.h[d.Addr(d.lvl) := x][b := y] && items == ShownNodes(x, y, flip)
      requires good ==> x.Leaf? && y.Leaf? && LeafSize(x.items) <= d.ns && LeafSize(y.items) <= d.ns
      requires good ==> LeafOrder(x.items, d.Lo(d.lvl), Some(k), d.Left(d.lvl)) && LeafOrder(y.items, k, d.Hi(d.lvl), false)
      requires Pending(d.lvl, Some(Ptr(k, b)))
      ensures Done(d.lvl, h1, Some(Ptr(k, b)), multiset{b})
    {
      hide Walk, Foot, Less, BelowHi, LeafOrder, LeafSize, Chosen, PathOk, StepOk;
      d.ValidAt(d.lvl);
      LeafNode();
      TwoLeaves(d.h, h1, d.Addr(d.lvl), b, x, y);
      SoleFoot(d.h, d.Addr(d.lvl));
    }

    lemma LeafNode()
      requires Ok()
      ensures |d.path| == d.lvl + 1 && d.Addr(d.lvl) in d.h && d.Addr(d.lvl) != 0 && d.h[d.Addr(d.lvl)].Leaf?
    {
      hide Less, BelowHi, LeafOrder, Chosen, StepOk;
      d.ValidAt(d.lvl);
    }
  }

  lemma GrownWider(h: Heap, h1: Heap, f: multiset<nat>, g: multiset<nat>, extra: multiset<nat>)
    requires Grown(h, h1, f, extra) && f <= g
    ensures Grown(h, h1, g, extra)
  {
  }

  lemma SoleFoot(h: Heap, a: nat)
    ensures Foot(h, a, 0) == multiset{a}
  {
  }

  lemma TwoLeaves(h: Heap, h1: Heap, a: nat, b: nat, x: Node, y: Node)
    requires a in h && b !in h && b != 0 && h1 == h[a := x][b := y]
    ensures Walk(h1, a, 0) == NodeItems(x) && Walk(h1, b, 0) == NodeItems(y)
    ensures Foot(h1, a, 0) == multiset{a} && Foot(h1, b, 0) == multiset{b}
    ensures Grown(h, h1, multiset{a}, multiset{b})
  {
  }

  // ----- the leaf's own order -----

  lemma InsertInOrder(items: seq<Item>, it: Item, lo: Key, hi: Option<Key>, left: bool)
    requires LeafOrder(items, lo, hi, left) && BelowHi(it.k, hi) && (left || !Less(it.k, lo))
    ensures forall i | 0 <= i < |InsertItem(items, it)| :: BelowHi(InsertItem(items, it)[i].k, hi)
    ensures !left ==> forall i | 0 <= i < |InsertItem(items, it)| :: !Less(InsertItem(items, it)[i].k, lo)
  {
    var p, r := InsertPos(items, it.k), InsertItem(items, it);
    assert forall i | 0 <= i < |r| :: r[i] == if i < p then items[i] else if i == p then it else items[i - 1];
  }

  lemma HalvesInOrder(all: seq<Item>, mid: nat, lo: Key, hi: Option<Key>, left: bool)
    requires 0 < mid < |all| && LeafOrder(all, lo, hi, left)
    ensures LeafOrder(all[..mid], lo, Some(all[mid].k), left)
    ensures LeafOrder(all[mid..], all[mid].k, hi, false)
  {
    LessIsStrictTotalOrder(all[mid].k, all[mid].k, all[mid].k);
    var q := all[mid..];
    assert forall i | 0 <= i < |q| :: q[i] == all[mid + i];
  }
}
