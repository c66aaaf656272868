/**
 The meaning of a tree of nodes held in a heap keyed by logical address:
 its in-order walk, its footprint, and what makes it a valid search tree.
 */
module BtrfsTree {
  import opened Wrappers
  import opened BtrfsTypes

  type Heap = map<nat, Node>

  // ----- definitions -----

  /** The items a walk from node a visits, in order; l bounds the descent. */
  ghost function Walk(h: Heap, a: nat, l: nat): seq<Item>
    decreases l, 0
  {
    if a !in h then []
    else
      match h[a]
      case Leaf(items) => items
      case Index(_, ptrs) => if l == 0 then [] else WalkAll(h, ptrs, l - 1)
      case Broken => []
  }

  ghost function WalkAll(h: Heap, ptrs: seq<Ptr>, l: nat): seq<Item>
    decreases l, |ptrs|
  {
    if ptrs == [] then [] else Walk(h, ptrs[0].addr, l) + WalkAll(h, ptrs[1..], l)
  }

  /** The nodes a walk reads, with multiplicity. */
  ghost function Foot(h: Heap, a: nat, l: nat): multiset<nat>
    decreases l, 0
  {
    multiset{a} +
    if a in h && h[a].Index? && l > 0 then FootAll(h, h[a].ptrs, l - 1) else multiset{}
  }

  ghost function FootAll(h: Heap, ptrs: seq<Ptr>, l: nat): multiset<nat>
    decreases l, |ptrs|
  {
    if ptrs == [] then multiset{} else Foot(h, ptrs[0].addr, l) + FootAll(h, ptrs[1..], l)
  }

  ghost predicate Distinct(f: multiset<nat>) {
    forall x :: f[x] <= 1
  }

  ghost predicate BelowHi(k: Key, hi: Option<Key>) {
    hi.Some? ==> Less(k, hi.value)
  }

  /** The first key of a pointer list, or the bound that follows it. */
  ghost function FirstOr(ptrs: seq<Ptr>, hi: Option<Key>): Option<Key> {
    if ptrs == [] then hi else Some(ptrs[0].k)
  }

  ghost predicate LeafOrder(items: seq<Item>, lo: Key, hi: Option<Key>, left: bool) {
    && Sorted(items)
    && (forall i | 0 <= i < |items| :: BelowHi(items[i].k, hi))
    && (!left ==> forall i | 0 <= i < |items| :: !Less(items[i].k, lo))
  }

  /**
   Node a is a search tree of height l over [lo, hi). A separator equals the first
   separator of the index node below it. With left set, the leftmost leaf may hold keys
   below its separator.
   */
  ghost predicate Valid(ns: nat, h: Heap, a: nat, l: nat, lo: Key, hi: Option<Key>, left: bool)
    decreases l, 0
  {
    && a in h && a != 0
    && match h[a]
       case Leaf(items) => l == 0 && LeafSize(items) <= ns && LeafOrder(items, lo, hi, left)
       case Index(level, ptrs) =>
         && l > 0 && level == l
         && |ptrs| >= 1 && IndexSize(|ptrs|) <= ns
         && ptrs[0].k == lo && SortedPtrs(ptrs)
         && (forall i | 0 <= i < |ptrs| :: BelowHi(ptrs[i].k, hi))
         && ValidAll(ns, h, ptrs, l - 1, hi, left)
       case Broken => false
  }

  ghost predicate ValidAll(ns: nat, h: Heap, ptrs: seq<Ptr>, l: nat, hi: Option<Key>, left: bool)
    decreases l, |ptrs|
  {
    ptrs == [] ||
    (&& Valid(ns, h, ptrs[0].addr, l, ptrs[0].k, FirstOr(ptrs[1..], hi), left)
     && ValidAll(ns, h, ptrs[1..], l, hi, false))
  }

  /** Node a and all below it read back, each on the level its parent gives it. Keys and sizes may be anything. */
  ghost predicate Shaped(h: Heap, a: nat, l: nat)
    decreases l, 0
  {
    && a in h
    && if l == 0 then h[a].Leaf? else h[a].Index? && h[a].level == l && ShapedAll(h, h[a].ptrs, l - 1)
  }

  ghost predicate ShapedAll(h: Heap, ptrs: seq<Ptr>, l: nat)
    decreases l, |ptrs|
  {
    ptrs == [] || (Shaped(h, ptrs[0].addr, l) && ShapedAll(h, ptrs[1..], l))
  }

  /** The heaps hold the same node, or none, at x. */
  ghost predicate Agree(h0: Heap, h1: Heap, x: nat) {
    (x in h0 <==> x in h1) && (x in h0 ==> h0[x] == h1[x])
  }

  ghost predicate AgreeOn(h0: Heap, h1: Heap, f: multiset<nat>) {
    forall x | x in f :: Agree(h0, h1, x)
  }

  // ----- a tree depends on its footprint only -----

  lemma AgreeChildren(h0: Heap, h1: Heap, a: nat, l: nat)
    requires AgreeOn(h0, h1, Foot(h0, a, l))
    ensures Agree(h0, h1, a)
    ensures a in h0 && h0[a].Index? && l > 0 ==> AgreeOn(h0, h1, FootAll(h0, h0[a].ptrs, l - 1))
  {
    assert a in Foot(h0, a, l);
    assert a in h0 && h0[a].Index? && l > 0 ==> FootAll(h0, h0[a].ptrs, l - 1) <= Foot(h0, a, l);
  }

  lemma AgreeSplit(h0: Heap, h1: Heap, ptrs: seq<Ptr>, l: nat)
    requires ptrs != [] && AgreeOn(h0, h1, FootAll(h0, ptrs, l))
    ensures AgreeOn(h0, h1, Foot(h0, ptrs[0].addr, l))
    ensures AgreeOn(h0, h1, FootAll(h0, ptrs[1..], l))
  {
    assert Foot(h0, ptrs[0].addr, l) <= FootAll(h0, ptrs, l);
    assert FootAll(h0, ptrs[1..], l) <= FootAll(h0, ptrs, l);
  }

  lemma {:induction false} Frame(h0: Heap, h1: Heap, a: nat, l: nat)
    requires AgreeOn(h0, h1, Foot(h0, a, l))
    ensures Walk(h0, a, l) == Walk(h1, a, l)
    ensures Foot(h0, a, l) == Foot(h1, a, l)
    decreases l, 0
  {
    AgreeChildren(h0, h1, a, l);
    if a in h0 && h0[a].Index? && l > 0 {
      FrameAll(h0, h1, h0[a].ptrs, l - 1);
    }
  }

  lemma {:induction false} FrameAll(h0: Heap, h1: Heap, ptrs: seq<Ptr>, l: nat)
    requires AgreeOn(h0, h1, FootAll(h0, ptrs, l))
    ensures WalkAll(h0, ptrs, l) == WalkAll(h1, ptrs, l)
    ensures FootAll(h0, ptrs, l) == FootAll(h1, ptrs, l)
    decreases l, |ptrs|
  {
    if ptrs != [] {
      AgreeSplit(h0, h1, ptrs, l);
      Frame(h0, h1, ptrs[0].addr, l);
      FrameAll(h0, h1, ptrs[1..], l);
    }
  }

  lemma {:induction false} FrameValid(ns: nat, h0: Heap, h1: Heap, a: nat, l: nat, lo: Key, hi: Option<Key>, left: bool)
    requires AgreeOn(h0, h1, Foot(h0, a, l))
    requires Valid(ns, h0, a, l, lo, hi, left)
    ensures Valid(ns, h1, a, l, lo, hi, left)
    decreases l, 0
  {
    AgreeChildren(h0, h1, a, l);
    match h0[a] {
      case Leaf(_) =>
      case Index(_, ptrs) => FrameValidAll(ns, h0, h1, ptrs, l - 1, hi, left);
    }
  }

  lemma {:induction false} FrameValidAll(ns: nat, h0: Heap, h1: Heap, ptrs: seq<Ptr>, l: nat, hi: Option<Key>, left: bool)
    requires AgreeOn(h0, h1, FootAll(h0, ptrs, l))
    requires ValidAll(ns, h0, ptrs, l, hi, left)
    ensures ValidAll(ns, h1, ptrs, l, hi, left)
    decreases l, |ptrs|
  {
    if ptrs != [] {
      AgreeSplit(h0, h1, ptrs, l);
      FrameValid(ns, h0, h1, ptrs[0].addr, l, ptrs[0].k, FirstOr(ptrs[1..], hi), left);
      FrameValidAll(ns, h0, h1, ptrs[1..], l, hi, false);
    }
  }

  lemma {:induction false} FrameShaped(h0: Heap, h1: Heap, a: nat, l: nat)
    requires AgreeOn(h0, h1, Foot(h0, a, l)) && Shaped(h0, a, l)
    ensures Shaped(h1, a, l)
    decreases l, 0
  {
    AgreeChildren(h0, h1, a, l);
    if l > 0 {
      FrameShapedAll(h0, h1, h0[a].ptrs, l - 1);
    }
  }

  lemma {:induction false} FrameShapedAll(h0: Heap, h1: Heap, ptrs: seq<Ptr>, l: nat)
    requires AgreeOn(h0, h1, FootAll(h0, ptrs, l)) && ShapedAll(h0, ptrs, l)
    ensures ShapedAll(h1, ptrs, l)
    decreases l, |ptrs|
  {
    if ptrs != [] {
      AgreeSplit(h0, h1, ptrs, l);
      FrameShaped(h0, h1, ptrs[0].addr, l);
      FrameShapedAll(h0, h1, ptrs[1..], l);
    }
  }

  lemma AgreeAfterPut(h1: Heap, h2: Heap, a: nat, f: multiset<nat>)
    requires a !in f && a in h2 && h2 == h1[a := h2[a]]
    ensures AgreeOn(h1, h2, f)
  {
  }

  lemma IndexMeans(h: Heap, a: nat, l: nat, ptrs: seq<Ptr>)
    requires a in h && h[a].Index? && h[a].ptrs == ptrs && l > 0
    ensures Walk(h, a, l) == WalkAll(h, ptrs, l - 1)
    ensures Foot(h, a, l) == multiset{a} + FootAll(h, ptrs, l - 1)
  {
  }

  // ----- pointer lists split anywhere -----

  lemma {:induction false} WalkConcat(h: Heap, p: seq<Ptr>, q: seq<Ptr>, l: nat)
    ensures WalkAll(h, p + q, l) == WalkAll(h, p, l) + WalkAll(h, q, l)
    ensures FootAll(h, p + q, l) == FootAll(h, p, l) + FootAll(h, q, l)
    decreases |p|
  {
    hide Walk, Foot;
    if p == [] {
      assert p + q == q;
    } else {
      assert (p + q)[1..] == p[1..] + q;
      WalkConcat(h, p[1..], q, l);
    }
  }

  lemma {:induction false} ValidConcat(ns: nat, h: Heap, p: seq<Ptr>, q: seq<Ptr>, l: nat, hi: Option<Key>, left: bool)
    ensures ValidAll(ns, h, p + q, l, hi, left)
       <==> ValidAll(ns, h, p, l, FirstOr(q, hi), left) && ValidAll(ns, h, q, l, hi, left && p == [])
    decreases |p|
  {
    if p == [] {
      assert p + q == q;
    } else {
      assert (p + q)[1..] == p[1..] + q;
      ValidConcat(ns, h, p[1..], q, l, hi, false);
      assert FirstOr((p + q)[1..], hi) == FirstOr(p[1..], FirstOr(q, hi));
    }
  }

  lemma {:induction false} ShapedConcat(h: Heap, p: seq<Ptr>, q: seq<Ptr>, l: nat)
    ensures ShapedAll(h, p + q, l) <==> ShapedAll(h, p, l) && ShapedAll(h, q, l)
    decreases |p|
  {
    hide Shaped;
    if p == [] {
      assert p + q == q;
    } else {
      assert (p + q)[1..] == p[1..] + q;
      ShapedConcat(h, p[1..], q, l);
    }
  }

  /** A valid tree reads back whole. */
  lemma {:induction false} ValidShaped(ns: nat, h: Heap, a: nat, l: nat, lo: Key, hi: Option<Key>, left: bool)
    requires Valid(ns, h, a, l, lo, hi, left)
    ensures Shaped(h, a, l)
    decreases l, 0
  {
    if l > 0 {
      ValidShapedAll(ns, h, h[a].ptrs, l - 1, hi, left);
    }
  }

  lemma {:induction false} ValidShapedAll(ns: nat, h: Heap, ptrs: seq<Ptr>, l: nat, hi: Option<Key>, left: bool)
    requires ValidAll(ns, h, ptrs, l, hi, left)
    ensures ShapedAll(h, ptrs, l)
    decreases l, |ptrs|
  {
    if ptrs != [] {
      ValidShaped(ns, h, ptrs[0].addr, l, ptrs[0].k, FirstOr(ptrs[1..], hi), left);
      ValidShapedAll(ns, h, ptrs[1..], l, hi, false);
    }
  }

  /** A list seen as left siblings, one pointer, right siblings. */
  lemma {:induction false} WalkAround(h: Heap, before: seq<Ptr>, p: Ptr, after: seq<Ptr>, l: nat)
    ensures WalkAll(h, before + [p] + after, l) == WalkAll(h, before, l) + Walk(h, p.addr, l) + WalkAll(h, after, l)
    ensures FootAll(h, before + [p] + after, l) == FootAll(h, before, l) + Foot(h, p.addr, l) + FootAll(h, after, l)
  {
    hide Walk, Foot;
    var rest := [p] + after;
    assert before + [p] + after == before + rest;
    WalkConcat(h, before, rest, l);
    assert rest[1..] == after;
  }

  lemma {:induction false} ValidAround(ns: nat, h: Heap, before: seq<Ptr>, p: Ptr, after: seq<Ptr>, l: nat, hi: Option<Key>, left: bool)
    ensures ValidAll(ns, h, before + [p] + after, l, hi, left)
       <==> (&& ValidAll(ns, h, before, l, Some(p.k), left)
             && Valid(ns, h, p.addr, l, p.k, FirstOr(after, hi), left && before == [])
             && ValidAll(ns, h, after, l, hi, false))
  {
    var rest := [p] + after;
    assert before + [p] + after == before + rest;
    ValidConcat(ns, h, before, rest, l, hi, left);
    assert rest[1..] == after;
  }

  lemma {:induction false} Looser(ns: nat, h: Heap, a: nat, l: nat, lo: Key, hi: Option<Key>)
    requires Valid(ns, h, a, l, lo, hi, false)
    ensures Valid(ns, h, a, l, lo, hi, true)
    decreases l, 0
  {
    if h[a].Index? {
      LooserAll(ns, h, h[a].ptrs, l - 1, hi);
    }
  }

  lemma {:induction false} LooserAll(ns: nat, h: Heap, ptrs: seq<Ptr>, l: nat, hi: Option<Key>)
    requires ValidAll(ns, h, ptrs, l, hi, false)
    ensures ValidAll(ns, h, ptrs, l, hi, true)
    decreases l, |ptrs|
  {
    if ptrs != [] {
      Looser(ns, h, ptrs[0].addr, l, ptrs[0].k, FirstOr(ptrs[1..], hi));
    }
  }

  // ----- order of the walk -----

  lemma {:induction false} WalkOrdered(ns: nat, h: Heap, a: nat, l: nat, lo: Key, hi: Option<Key>, left: bool)
    requires Valid(ns, h, a, l, lo, hi, left)
    ensures LeafOrder(Walk(h, a, l), lo, hi, left)
    decreases l, 0
  {
    match h[a] {
      case Leaf(_) =>
      case Index(_, ptrs) => WalkAllOrdered(ns, h, ptrs, l - 1, hi, left);
    }
  }

  lemma {:induction false} WalkAllOrdered(ns: nat, h: Heap, ptrs: seq<Ptr>, l: nat, hi: Option<Key>, left: bool)
    requires ptrs != [] && SortedPtrs(ptrs)
    requires forall i | 0 <= i < |ptrs| :: BelowHi(ptrs[i].k, hi)
    requires ValidAll(ns, h, ptrs, l, hi, left)
    ensures LeafOrder(WalkAll(h, ptrs, l), ptrs[0].k, hi, left)
    decreases l, |ptrs|
  {
    WalkOrdered(ns, h, ptrs[0].addr, l, ptrs[0].k, FirstOr(ptrs[1..], hi), left);
    if ptrs[1..] != [] {
      WalkAllOrdered(ns, h, ptrs[1..], l, hi, false);
      OrderedConcat(Walk(h, ptrs[0].addr, l), WalkAll(h, ptrs[1..], l), ptrs[0].k, ptrs[1].k, hi, left);
    } else {
      assert WalkAll(h, ptrs, l) == Walk(h, ptrs[0].addr, l);
    }
  }

  lemma OrderedConcat(a: seq<Item>, b: seq<Item>, lo: Key, mid: Key, hi: Option<Key>, left: bool)
    requires Less(lo, mid) && BelowHi(mid, hi)
    requires LeafOrder(a, lo, Some(mid), left)
    requires LeafOrder(b, mid, hi, false)
    ensures LeafOrder(a + b, lo, hi, left)
  {
    var c := a + b;
    forall i | 0 <= i < |c| ensures BelowHi(c[i].k, hi) && (!left ==> !Less(c[i].k, lo)) {
      if i < |a| { assert c[i] == a[i]; } else { assert c[i] == b[i - |a|]; }
    }
    forall i, j | 0 <= i < j < |c| ensures Less(c[i].k, c[j].k) {
      if j < |a| { assert c[i] == a[i] && c[j] == a[j]; }
      else if i < |a| { assert c[i] == a[i] && c[j] == b[j - |a|]; }
      else { assert c[i] == b[i - |a|] && c[j] == b[j - |a|]; }
    }
  }
}
