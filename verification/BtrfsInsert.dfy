/**
 How one changed leaf climbs a path: after a subtree's walk became another (perhaps split
 over two nodes), its parent is left alone, gets one pointer more, or is split in turn.
 */
module BtrfsInsert {
  import opened Wrappers
  import opened Bytes
  import opened BtrfsTypes
  import opened BtrfsTree
  import opened BtrfsPath

  ghost function WalkOpt(h: Heap, r: Option<Ptr>, l: nat): seq<Item> {
    if r.None? then [] else Walk(h, r.value.addr, l)
  }

  ghost function FootOpt(h: Heap, r: Option<Ptr>, l: nat): multiset<nat> {
    if r.None? then multiset{} else Foot(h, r.value.addr, l)
  }

  /** The heap grew by the nodes in extra and changed only inside foot. */
  ghost predicate Grown(h0: Heap, h1: Heap, foot: multiset<nat>, extra: multiset<nat>) {
    && (forall x | x in h0 :: x in h1)
    && (forall x | x in h0 && x !in foot :: h1[x] == h0[x])
    && (forall x | x in extra :: x in h1 && x !in h0 && x != 0)
    && Distinct(extra)
  }

  /** A subtree of heap h with the key range it covers. */
  datatype Subtree = Subtree(ns: nat, h: Heap, a: u64, l: nat, lo: Key, hi: Option<Key>, left: bool) {

    ghost predicate Ok() {
      Valid(ns, h, a, l, lo, hi, left) && Distinct(Foot(h, a, l))
    }

    ghost function F(): multiset<nat> {
      Foot(h, a, l)
    }

    /**
     In heap h1 the subtree together with the split-off node r walks as w; flip says the
     split-off part comes first.
     */
    ghost predicate Walks(h1: Heap, r: Option<Ptr>, w: seq<Item>, flip: bool) {
      w == if flip then WalkOpt(h1, r, l) + Walk(h1, a, l) else Walk(h1, a, l) + WalkOpt(h1, r, l)
    }

    ghost predicate Covers(h1: Heap, r: Option<Ptr>, extra: multiset<nat>) {
      Foot(h1, a, l) + FootOpt(h1, r, l) == F() + extra
    }

    ghost predicate Keeps(h1: Heap, r: Option<Ptr>) {
      && Valid(ns, h1, a, l, lo, if r.Some? then Some(r.value.k) else hi, left)
      && (r.Some? ==> Valid(ns, h1, r.value.addr, l, r.value.k, hi, false))
    }
  }

  /** An index node of heap h seen from one of its slots. */
  datatype Spot = Spot(ns: nat, h: Heap, a: u64, l: nat, before: seq<Ptr>, child: Ptr, after: seq<Ptr>,
                       lo: Key, hi: Option<Key>, left: bool) {

    ghost function Ptrs(): seq<Ptr> {
      before + [child] + after
    }

    ghost predicate Ok() {
      && l > 0 && a in h && a != 0 && h[a].Index? && h[a].level == l && h[a].ptrs == Ptrs()
      && ValidAll(ns, h, before, l - 1, Some(child.k), left)
      && ValidAll(ns, h, after, l - 1, hi, false)
      && a !in FootAll(h, before, l - 1) && a !in Foot(h, child.addr, l - 1) && a !in FootAll(h, after, l - 1)
      && FootAll(h, before, l - 1) !! Foot(h, child.addr, l - 1)
      && FootAll(h, after, l - 1) !! Foot(h, child.addr, l - 1)
      && forall x | x in Foot(h, child.addr, l - 1) :: x in h
    }

    ghost predicate KeysOk() {
      && Ptrs()[0].k == lo && SortedPtrs(Ptrs()) && IndexSize(|Ptrs()|) <= ns
      && forall i | 0 <= i < |Ptrs()| :: BelowHi(Ptrs()[i].k, hi)
    }

    ghost function Up(): Subtree {
      Subtree(ns, h, a, l, lo, hi, left)
    }

    ghost function Down(): Subtree
      requires l > 0
    {
      Subtree(ns, h, child.addr, l - 1, child.k, FirstOr(after, hi), left && before == [])
    }

    ghost function Pair(r: Option<Ptr>, flip: bool): seq<Ptr> {
      if r.None? then [child] else if flip then [r.value, child] else [child, r.value]
    }

    /** The node's pointers with r put beside the child. */
    ghost function Linked(r: Option<Ptr>, flip: bool): seq<Ptr> {
      before + Pair(r, flip) + after
    }

    ghost function Around(w: seq<Item>): seq<Item>
      requires l > 0
    {
      WalkAll(h, before, l - 1) + w + WalkAll(h, after, l - 1)
    }

    lemma FootIs()
      requires Ok()
      ensures Up().F()
           == multiset{a} + FootAll(h, before, l - 1) + Foot(h, child.addr, l - 1) + FootAll(h, after, l - 1)
    {
      hide Walk, WalkAll, Foot, FootAll, Valid, ValidAll;
      IndexMeans(h, a, l, Ptrs());
      WalkAround(h, before, child, after, l - 1);
    }

    /** Nothing beside the child changed. */
    lemma SiblingsKept(h1: Heap, extra: multiset<nat>)
      requires Ok() && Grown(h, h1, Down().F(), extra)
      ensures AgreeOn(h, h1, FootAll(h, before, l - 1))
      ensures AgreeOn(h, h1, FootAll(h, after, l - 1))
      ensures h1[a] == h[a]
    {
      hide Walk, WalkAll, Foot, FootAll, Valid, ValidAll;
      FootAllInHeap(ns, h, before, l - 1, Some(child.k), left);
      FootAllInHeap(ns, h, after, l - 1, hi, false);
    }

    lemma PairMeans(h1: Heap, r: Option<Ptr>, w: seq<Item>, flip: bool, extra: multiset<nat>)
      requires l > 0 && Down().Walks(h1, r, w, flip) && Down().Covers(h1, r, extra)
      ensures WalkAll(h1, Pair(r, flip), l - 1) == w
      ensures FootAll(h1, Pair(r, flip), l - 1) == Down().F() + extra
    {
      hide Walk, WalkAll, Foot, FootAll, Valid, ValidAll;
      var p := Pair(r, flip);
      if r.Some? {
        assert p == [p[0]] + [p[1]];
        WalkConcat(h1, [p[0]], [p[1]], l - 1);
        One(h1, p[1]);
      }
      One(h1, p[0]);
    }

    lemma One(h1: Heap, p: Ptr)
      requires l > 0
      ensures WalkAll(h1, [p], l - 1) == Walk(h1, p.addr, l - 1)
      ensures FootAll(h1, [p], l - 1) == Foot(h1, p.addr, l - 1)
    {
      assert [p][1..] == [];
      assert WalkAll(h1, [p], l - 1) == Walk(h1, p.addr, l - 1) + WalkAll(h1, [], l - 1);
      assert FootAll(h1, [p], l - 1) == Foot(h1, p.addr, l - 1) + FootAll(h1, [], l - 1);
    }

    lemma SiblingsMean(h1: Heap, extra: multiset<nat>)
      requires Ok() && Grown(h, h1, Down().F(), extra)
      ensures WalkAll(h1, before, l - 1) == WalkAll(h, before, l - 1)
      ensures FootAll(h1, before, l - 1) == FootAll(h, before, l - 1)
      ensures WalkAll(h1, after, l - 1) == WalkAll(h, after, l - 1)
      ensures FootAll(h1, after, l - 1) == FootAll(h, after, l - 1)
    {
      hide Walk, WalkAll, Foot, FootAll, Valid, ValidAll;
      SiblingsKept(h1, extra);
      FrameAll(h, h1, before, l - 1);
      FrameAll(h, h1, after, l - 1);
    }

    lemma LinkedWalk(h1: Heap, r: Option<Ptr>, w: seq<Item>, flip: bool, extra: multiset<nat>)
      requires Ok() && Down().Walks(h1, r, w, flip) && Down().Covers(h1, r, extra)
      requires Grown(h, h1, Down().F(), extra)
      ensures WalkAll(h1, Linked(r, flip), l - 1) == Around(w)
    {
      hide Walk, WalkAll, Foot, FootAll, Valid, ValidAll;
      SiblingsMean(h1, extra);
      PairMeans(h1, r, w, flip, extra);
      ThreeWay(h1, before, Pair(r, flip), after, l - 1);
    }

    lemma LinkedFoot(h1: Heap, r: Option<Ptr>, w: seq<Item>, flip: bool, extra: multiset<nat>)
      requires Ok() && Down().Walks(h1, r, w, flip) && Down().Covers(h1, r, extra)
      requires Grown(h, h1, Down().F(), extra)
      ensures multiset{a} + FootAll(h1, Linked(r, flip), l - 1) == Up().F() + extra
    {
      hide Walk, WalkAll, Foot, FootAll, Valid, ValidAll;
      SiblingsMean(h1, extra);
      PairMeans(h1, r, w, flip, extra);
      ThreeWay(h1, before, Pair(r, flip), after, l - 1);
      FootIs();
    }

    /** The relinked children leave the parent's own address alone and stay in the heap. */
    lemma KidsApart(h1: Heap, extra: multiset<nat>, kids: multiset<nat>)
      requires Ok() && Grown(h, h1, Down().F(), extra)
      requires multiset{a} + kids == Up().F() + extra
      ensures a !in kids
      ensures forall x | x in kids :: x in h1
    {
      hide Walk, WalkAll, Foot, FootAll, Valid, ValidAll;
      FootIs();
      FootAllInHeap(ns, h, before, l - 1, Some(child.k), left);
      FootAllInHeap(ns, h, after, l - 1, hi, false);
      assert (multiset{a} + kids)[a] == Up().F()[a] + extra[a];
      assert a in h && a !in extra;
      forall x | x in kids ensures x in h1 {
        assert (Up().F() + extra)[x] > 0;
      }
    }

    /** The parent had room: it takes the pointer and nothing is pending any more. */
    lemma Widened(h1: Heap, r: Option<Ptr>, w: seq<Item>, flip: bool, extra: multiset<nat>, h2: Heap)
      requires Ok() && Down().Walks(h1, r, w, flip) && Down().Covers(h1, r, extra)
      requires Grown(h, h1, Down().F(), extra)
      requires l < 256 && h2 == h1[a := Index(l, Linked(r, flip))]
      ensures Up().Walks(h2, None, Around(w), false)
      ensures Up().Covers(h2, None, extra)
      ensures Grown(h, h2, Up().F(), extra)
    {
      hide Walk, WalkAll, Foot, FootAll, Valid, ValidAll;
      var np := Linked(r, flip);
      LinkedWalk(h1, r, w, flip, extra);
      LinkedFoot(h1, r, w, flip, extra);
      KidsApart(h1, extra, FootAll(h1, np, l - 1));
      PutIndex(h1, h2, a, l, np);
      GrownUp(h1, h2, extra, multiset{});
    }

    lemma GrownUp(h1: Heap, h2: Heap, extra: multiset<nat>, more: multiset<nat>)
      requires Ok() && Grown(h, h1, Down().F(), extra)
      requires forall x | x in h1 :: x in h2
      requires forall x | x in h1 && x != a :: h2[x] == h1[x]
      requires Distinct(more) && forall x | x in more :: x !in h1 && x in h2 && x != 0
      ensures Grown(h, h2, Up().F(), extra + more)
    {
      hide Walk, WalkAll, Foot, FootAll, Valid, ValidAll;
      FootIs();
      forall x | x in h && x !in Up().F() ensures h2[x] == h[x] {
        assert x != a && x !in Down().F();
      }
      forall x ensures (extra + more)[x] <= 1 {
        assert extra[x] <= 1 && more[x] <= 1;
        assert x in extra ==> x in h1;
      }
    }

    /** The parent overflowed: its right half moves to the new node b. */
    lemma Halved(h1: Heap, r: Option<Ptr>, w: seq<Item>, flip: bool, extra: multiset<nat>, h2: Heap, mid: nat, b: u64)
      requires Ok() && Down().Walks(h1, r, w, flip) && Down().Covers(h1, r, extra)
      requires Grown(h, h1, Down().F(), extra)
      requires l < 256 && mid < |Linked(r, flip)| && b !in h1 && b != 0
      requires h2 == h1[a := Index(l, Linked(r, flip)[..mid])][b := Index(l, Linked(r, flip)[mid..])]
      ensures Up().Walks(h2, Some(Ptr(Linked(r, flip)[mid].k, b)), Around(w), false)
      ensures Up().Covers(h2, Some(Ptr(Linked(r, flip)[mid].k, b)), extra + multiset{b})
      ensures Grown(h, h2, Up().F(), extra + multiset{b})
    {
      hide Walk, WalkAll, Foot, FootAll, Valid, ValidAll;
      var np := Linked(r, flip);
      LinkedWalk(h1, r, w, flip, extra);
      LinkedFoot(h1, r, w, flip, extra);
      KidsApart(h1, extra, FootAll(h1, np, l - 1));
      PutHalves(h1, h2, a, b, l, np, mid);
      Regroup(Foot(h2, a, l) + Foot(h2, b, l), multiset{a}, multiset{b}, FootAll(h1, np, l - 1), Up().F(), extra);
      GrownUp(h1, h2, extra, multiset{b});
    }

    /** All children read back, the ones beside the edited child being as they were. */
    lemma LinkedShaped(h1: Heap, r: Option<Ptr>, flip: bool, extra: multiset<nat>)
      requires Ok() && Grown(h, h1, Down().F(), extra)
      requires Shaped(h1, child.addr, l - 1) && (r.Some? ==> Shaped(h1, r.value.addr, l - 1))
      ensures ShapedAll(h1, Linked(r, flip), l - 1)
    {
      hide Walk, WalkAll, Foot, FootAll, Valid, ValidAll, Shaped;
      SiblingsKept(h1, extra);
      ValidShapedAll(ns, h, before, l - 1, Some(child.k), left);
      ValidShapedAll(ns, h, after, l - 1, hi, false);
      FrameShapedAll(h, h1, before, l - 1);
      FrameShapedAll(h, h1, after, l - 1);
      PairShaped(h1, r, flip);
      ShapedConcat(h1, before, Pair(r, flip), l - 1);
      ShapedConcat(h1, before + Pair(r, flip), after, l - 1);
    }

    lemma PairShaped(h1: Heap, r: Option<Ptr>, flip: bool)
      requires l > 0 && Shaped(h1, child.addr, l - 1) && (r.Some? ==> Shaped(h1, r.value.addr, l - 1))
      ensures ShapedAll(h1, Pair(r, flip), l - 1)
    {
      hide Shaped;
      var p := Pair(r, flip);
      if r.Some? {
        assert p[1..] == [p[1]] && [p[1]][1..] == [];
        assert ShapedAll(h1, p[1..], l - 1);
      } else {
        assert p[1..] == [];
      }
    }

    /** A node not itself changed reads back if the edited child does. */
    lemma StillShaped(h1: Heap, extra: multiset<nat>)
      requires Ok() && l < 256 && Grown(h, h1, Down().F(), extra) && Shaped(h1, child.addr, l - 1)
      ensures Shaped(h1, a, l)
    {
      hide Walk, WalkAll, Foot, FootAll, Valid, ValidAll, ShapedAll;
      SiblingsKept(h1, extra);
      LinkedShaped(h1, None, false, extra);
      assert Linked(None, false) == Ptrs();
    }

    /** The halves of an overflowing node read back if all its children do. */
    lemma HalvedShaped(h1: Heap, r: Option<Ptr>, w: seq<Item>, flip: bool, extra: multiset<nat>, h2: Heap, mid: nat, b: u64)
      requires Ok() && Down().Walks(h1, r, w, flip) && Down().Covers(h1, r, extra)
      requires Grown(h, h1, Down().F(), extra)
      requires l < 256 && mid < |Linked(r, flip)| && b !in h1 && b != 0
      requires h2 == h1[a := Index(l, Linked(r, flip)[..mid])][b := Index(l, Linked(r, flip)[mid..])]
      requires Shaped(h1, child.addr, l - 1) && (r.Some? ==> Shaped(h1, r.value.addr, l - 1))
      ensures Shaped(h2, a, l) && Shaped(h2, b, l)
    {
      hide Walk, WalkAll, Foot, FootAll, Valid, ValidAll, Shaped, ShapedAll;
      var np := Linked(r, flip);
      LinkedShaped(h1, r, flip, extra);
      LinkedFoot(h1, r, w, flip, extra);
      KidsApart(h1, extra, FootAll(h1, np, l - 1));
      ShapedHalves(h1, h2, a, b, l, np, mid);
    }

    /** Where the pending pointer r belongs among the node's keys. */
    ghost predicate Fits(r: Option<Ptr>, flip: bool) {
      r.Some? ==>
        && (Less(child.k, r.value.k) <==> !flip)
        && (before != [] ==> Less(before[|before| - 1].k, r.value.k))
        && BelowHi(r.value.k, FirstOr(after, hi))
    }

    /** The pending pointer's slot in the node's own list, and the order around it. */
    lemma LinkedIsInsert(r: Option<Ptr>, flip: bool) returns (pos: nat)
      requires r.Some? && KeysOk() && Fits(r, flip)
      ensures pos == if flip then |before| else |before| + 1
      ensures Linked(r, flip) == PtrsWith(Ptrs(), pos, r.value)
      ensures forall i | 0 <= i < pos :: Less(Ptrs()[i].k, r.value.k)
      ensures !flip ==> forall i | pos <= i < |Ptrs()| :: Less(r.value.k, Ptrs()[i].k)
      ensures BelowHi(r.value.k, hi)
    {
      var old_, n := Ptrs(), |before|;
      pos := if flip then n else n + 1;
      assert old_[n] == child;
      assert after != [] ==> old_[n + 1] == after[0];
      if pos > 0 {
        assert pos - 1 < n ==> old_[pos - 1] == before[n - 1];
        AllUpTo(old_, pos - 1, r.value.k);
      }
      if after != [] {
        AllFrom(old_, n + 1, r.value.k);
      }
    }

    /** The writer's scan for the insert position finds that slot. */
    lemma ScanFindsSlot(r: Option<Ptr>, flip: bool, pos: nat)
      requires r.Some? && KeysOk() && Fits(r, flip) && pos <= |Ptrs()|
      requires forall i | 0 <= i < pos :: Less(Ptrs()[i].k, r.value.k)
      requires pos < |Ptrs()| ==> !Less(Ptrs()[pos].k, r.value.k)
      ensures PtrsWith(Ptrs(), pos, r.value) == Linked(r, flip)
    {
      var slot := LinkedIsInsert(r, flip);
      assert Ptrs()[|before|] == child;
      if slot < |Ptrs()| && !flip {
        LessIsStrictTotalOrder(r.value.k, Ptrs()[slot].k, r.value.k);
      }
      assert slot == pos;
    }

    lemma LinkedKeys(r: Option<Ptr>)
      requires KeysOk() && Fits(r, false)
      ensures SortedPtrs(Linked(r, false)) && Linked(r, false)[0].k == lo
      ensures forall i | 0 <= i < |Linked(r, false)| :: BelowHi(Linked(r, false)[i].k, hi)
    {
      if r.Some? {
        var pos := LinkedIsInsert(r, false);
        SortedInsert(Ptrs(), pos, r.value, hi);
      } else {
        assert Linked(r, false) == Ptrs();
      }
    }

    lemma LinkedValid(h1: Heap, r: Option<Ptr>, extra: multiset<nat>)
      requires Ok() && Grown(h, h1, Down().F(), extra) && Down().Keeps(h1, r)
      ensures ValidAll(ns, h1, Linked(r, false), l - 1, hi, left)
    {
      hide Walk, WalkAll, Foot, FootAll, Valid, ValidAll;
      var p, e := Pair(r, false), FirstOr(after, hi);
      SiblingsKept(h1, extra);
      FrameValidAll(ns, h, h1, before, l - 1, Some(child.k), left);
      FrameValidAll(ns, h, h1, after, l - 1, hi, false);
      PairValid(h1, r);
      ValidConcat(ns, h1, before, p, l - 1, e, left);
      ValidConcat(ns, h1, before + p, after, l - 1, hi, left);
    }

    lemma PairValid(h1: Heap, r: Option<Ptr>)
      requires l > 0 && Down().Keeps(h1, r)
      ensures ValidAll(ns, h1, Pair(r, false), l - 1, FirstOr(after, hi), left && before == [])
    {
      hide Walk, WalkAll, Foot, FootAll, Valid;
      var e := FirstOr(after, hi);
      assert [child][1..] == [];
      if r.Some? {
        assert [r.value][1..] == [];
        ValidConcat(ns, h1, [child], [r.value], l - 1, e, left && before == []);
      }
    }

    lemma WidenedKeeps(h1: Heap, r: Option<Ptr>, w: seq<Item>, extra: multiset<nat>, h2: Heap)
      requires Ok() && Down().Walks(h1, r, w, false) && Down().Covers(h1, r, extra)
      requires Grown(h, h1, Down().F(), extra) && Down().Keeps(h1, r)
      requires KeysOk() && Fits(r, false) && IndexSize(|Linked(r, false)|) <= ns
      requires l < 256 && h2 == h1[a := Index(l, Linked(r, false))]
      ensures Up().Keeps(h2, None)
    {
      hide Walk, WalkAll, Foot, FootAll, ValidAll, Valid, SortedPtrs, BelowHi;
      var np := Linked(r, false);
      LinkedKeys(r);
      LinkedValid(h1, r, extra);
      LinkedFoot(h1, r, w, false, extra);
      KidsApart(h1, extra, FootAll(h1, np, l - 1));
      AgreeAfterPut(h1, h2, a, FootAll(h1, np, l - 1));
      FrameValidAll(ns, h1, h2, np, l - 1, hi, left);
      OkRoot();
      IndexValid(ns, h2, a, l, np, lo, hi, left);
    }

    lemma OkRoot()
      requires Ok()
      ensures a != 0 && a in h
    {
    }

    lemma HalvedKeeps(h1: Heap, r: Option<Ptr>, w: seq<Item>, extra: multiset<nat>, h2: Heap, mid: nat, b: u64)
      requires Ok() && Down().Walks(h1, r, w, false) && Down().Covers(h1, r, extra)
      requires Grown(h, h1, Down().F(), extra) && Down().Keeps(h1, r)
      requires KeysOk() && Fits(r, false)
      requires l < 256 && 0 < mid < |Linked(r, false)| && b !in h1 && b != 0
      requires h2 == h1[a := Index(l, Linked(r, false)[..mid])][b := Index(l, Linked(r, false)[mid..])]
      ensures Up().Keeps(h2, Some(Ptr(Linked(r, false)[mid].k, b)))
    {
      hide Walk, WalkAll, Foot, FootAll, Valid, ValidAll;
      var np := Linked(r, false);
      var m := h1[a := Index(l, np[..mid])];
      LinkedKeys(r);
      LinkedValid(h1, r, extra);
      LinkedFoot(h1, r, w, false, extra);
      KidsApart(h1, extra, FootAll(h1, np, l - 1));
      AgreeAfterPut(h1, m, a, FootAll(h1, np, l - 1));
      AgreeAfterPut(m, h2, b, FootAll(h1, np, l - 1));
      FrameValidAll(ns, h1, h2, np, l - 1, hi, left);
      ValidHalves(ns, h2, a, b, l, np, mid, lo, hi, left);
    }

    /** A separator moved up by a split lies strictly inside the node's range. */
    lemma SplitKey(r: Option<Ptr>, flip: bool, mid: nat)
      requires r.Some? && KeysOk() && Fits(r, flip)
      requires 2 <= mid < |Linked(r, flip)|
      ensures Less(lo, Linked(r, flip)[mid].k) && BelowHi(Linked(r, flip)[mid].k, hi)
    {
      var pos := LinkedIsInsert(r, flip);
      MidKey(Ptrs(), pos, r.value, mid);
      assert Linked(r, flip)[mid] == r.value || exists i | 0 <= i < |Ptrs()| :: Linked(r, flip)[mid] == Ptrs()[i];
    }
  }

  /** What makes an index node valid, its children being so. */
  lemma IndexValid(ns: nat, h: Heap, a: u64, l: nat, np: seq<Ptr>, lo: Key, hi: Option<Key>, left: bool)
    requires 0 < l < 256 && a != 0 && a in h && h[a] == Index(l, np) && np != [] && IndexSize(|np|) <= ns
    requires np[0].k == lo && SortedPtrs(np) && (forall i | 0 <= i < |np| :: BelowHi(np[i].k, hi))
    requires ValidAll(ns, h, np, l - 1, hi, left)
    ensures Valid(ns, h, a, l, lo, hi, left)
  {
    hide ValidAll, SortedPtrs, BelowHi;
  }

  function PtrsWith(ptrs: seq<Ptr>, pos: nat, x: Ptr): seq<Ptr>
    requires pos <= |ptrs|
  {
    ptrs[..pos] + [x] + ptrs[pos..]
  }

  lemma AllUpTo(ptrs: seq<Ptr>, n: nat, k: Key)
    requires SortedPtrs(ptrs) && n < |ptrs| && Less(ptrs[n].k, k)
    ensures forall i | 0 <= i <= n :: Less(ptrs[i].k, k)
  {
  }

  lemma AllFrom(ptrs: seq<Ptr>, n: nat, k: Key)
    requires SortedPtrs(ptrs) && n < |ptrs| && Less(k, ptrs[n].k)
    ensures forall i | n <= i < |ptrs| :: Less(k, ptrs[i].k)
  {
  }

  lemma SortedInsert(ptrs: seq<Ptr>, pos: nat, x: Ptr, hi: Option<Key>)
    requires SortedPtrs(ptrs) && 0 < pos <= |ptrs|
    requires forall i | 0 <= i < pos :: Less(ptrs[i].k, x.k)
    requires forall i | pos <= i < |ptrs| :: Less(x.k, ptrs[i].k)
    requires BelowHi(x.k, hi) && forall i | 0 <= i < |ptrs| :: BelowHi(ptrs[i].k, hi)
    ensures SortedPtrs(PtrsWith(ptrs, pos, x)) && PtrsWith(ptrs, pos, x)[0] == ptrs[0]
    ensures forall i | 0 <= i <= |ptrs| :: BelowHi(PtrsWith(ptrs, pos, x)[i].k, hi)
  {
    hide Less;
    var np := PtrsWith(ptrs, pos, x);
    forall i | 0 <= i < |np|
      ensures np[i] == if i < pos then ptrs[i] else if i == pos then x else ptrs[i - 1]
    {
    }
  }

  lemma MidKey(ptrs: seq<Ptr>, pos: nat, x: Ptr, mid: nat)
    requires SortedPtrs(ptrs) && pos <= |ptrs| && 2 <= mid <= |ptrs|
    requires forall i | 0 <= i < pos :: Less(ptrs[i].k, x.k)
    ensures Less(ptrs[0].k, PtrsWith(ptrs, pos, x)[mid].k)
    ensures PtrsWith(ptrs, pos, x)[mid] == x || PtrsWith(ptrs, pos, x)[mid] in ptrs
  {
    var np := PtrsWith(ptrs, pos, x);
    assert np[mid] == if mid < pos then ptrs[mid] else if mid == pos then x else ptrs[mid - 1];
  }

  lemma ValidHalves(ns: nat, h: Heap, a: nat, b: nat, l: nat, np: seq<Ptr>, mid: nat, lo: Key, hi: Option<Key>, left: bool)
    requires 0 < l < 256 && 0 < mid < |np| && a != 0 && b != 0
    requires a in h && h[a] == Index(l, np[..mid]) && b in h && h[b] == Index(l, np[mid..])
    requires SortedPtrs(np) && np[0].k == lo && forall i | 0 <= i < |np| :: BelowHi(np[i].k, hi)
    requires IndexSize(|np| - 1) <= ns && ValidAll(ns, h, np, l - 1, hi, left)
    ensures Valid(ns, h, a, l, lo, Some(np[mid].k), left)
    ensures Valid(ns, h, b, l, np[mid].k, hi, false)
  {
    hide Walk, WalkAll, Foot, FootAll, ValidAll, Less;
    var p, q := np[..mid], np[mid..];
    assert np == p + q && q[0] == np[mid];
    ValidConcat(ns, h, p, q, l - 1, hi, left);
    assert SortedPtrs(p) && SortedPtrs(q);
    assert forall i | 0 <= i < |p| :: BelowHi(p[i].k, Some(np[mid].k));
    assert forall i | 0 <= i < |q| :: BelowHi(q[i].k, hi);
  }

  lemma Regroup(f: multiset<nat>, a: multiset<nat>, b: multiset<nat>, kids: multiset<nat>, up: multiset<nat>, extra: multiset<nat>)
    requires f == a + b + kids && a + kids == up + extra
    ensures f == up + (extra + b)
  {
    assert f == (a + kids) + b;
  }

  /** Writing an index node over children that do not contain it. */
  lemma PutIndex(h1: Heap, h2: Heap, a: nat, l: nat, np: seq<Ptr>)
    requires 0 < l < 256 && h2 == h1[a := Index(l, np)]
    requires a !in FootAll(h1, np, l - 1)
    ensures Walk(h2, a, l) == WalkAll(h1, np, l - 1)
    ensures Foot(h2, a, l) == multiset{a} + FootAll(h1, np, l - 1)
  {
    hide Walk, WalkAll, Foot, FootAll, Valid, ValidAll;
    AgreeAfterPut(h1, h2, a, FootAll(h1, np, l - 1));
    FrameAll(h1, h2, np, l - 1);
    IndexMeans(h2, a, l, np);
  }

  lemma PutHalves(h1: Heap, h2: Heap, a: nat, b: nat, l: nat, np: seq<Ptr>, mid: nat)
    requires 0 < l < 256 && mid <= |np| && a != b
    requires h2 == h1[a := Index(l, np[..mid])][b := Index(l, np[mid..])]
    requires a !in FootAll(h1, np, l - 1) && b !in FootAll(h1, np, l - 1)
    ensures Walk(h2, a, l) + Walk(h2, b, l) == WalkAll(h1, np, l - 1)
    ensures Foot(h2, a, l) + Foot(h2, b, l) == multiset{a} + multiset{b} + FootAll(h1, np, l - 1)
  {
    hide Walk, WalkAll, Foot, FootAll;
    var f := FootAll(h1, np, l - 1);
    var m := h1[a := Index(l, np[..mid])];
    AgreeAfterPut(h1, m, a, f);
    AgreeAfterPut(m, h2, b, f);
    assert AgreeOn(h1, h2, f);
    FrameAll(h1, h2, np, l - 1);
    assert np == np[..mid] + np[mid..];
    WalkConcat(h2, np[..mid], np[mid..], l - 1);
    IndexMeans(h2, a, l, np[..mid]);
    IndexMeans(h2, b, l, np[mid..]);
  }

  lemma ShapedHalves(h1: Heap, h2: Heap, a: nat, b: nat, l: nat, np: seq<Ptr>, mid: nat)
    requires 0 < l < 256 && mid <= |np| && a != b && ShapedAll(h1, np, l - 1)
    requires h2 == h1[a := Index(l, np[..mid])][b := Index(l, np[mid..])]
    requires a !in FootAll(h1, np, l - 1) && b !in FootAll(h1, np, l - 1)
    ensures Shaped(h2, a, l) && Shaped(h2, b, l)
  {
    hide Walk, WalkAll, Foot, FootAll, ShapedAll;
    FrameShapedAll(h1, h2, np, l - 1);
    assert np == np[..mid] + np[mid..];
    ShapedConcat(h2, np[..mid], np[mid..], l - 1);
  }

  lemma ThreeWay(h: Heap, p: seq<Ptr>, m: seq<Ptr>, q: seq<Ptr>, l: nat)
    ensures WalkAll(h, p + m + q, l) == WalkAll(h, p, l) + WalkAll(h, m, l) + WalkAll(h, q, l)
    ensures FootAll(h, p + m + q, l) == FootAll(h, p, l) + FootAll(h, m, l) + FootAll(h, q, l)
  {
    WalkConcat(h, p + m, q, l);
    WalkConcat(h, p, m, l);
  }
}
