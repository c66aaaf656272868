/** What inserting, deleting and updating in one leaf means for the walk of the whole tree. */
module BtrfsMeaning {
  import opened Wrappers
  import opened Bytes
  import opened BtrfsTypes
  import opened BtrfsTree
  import opened BtrfsPath

  /** The items whose key is not k. */
  function Without(items: seq<Item>, k: Key): seq<Item> {
    if items == [] then []
    else (if items[0].k == k then [] else [items[0]]) + Without(items[1..], k)
  }

  /** The items with data in place of what key k held. */
  function Replaced(items: seq<Item>, k: Key, data: seq<byte>): (r: seq<Item>)
    ensures |r| == |items|
    ensures forall i | 0 <= i < |r| :: r[i] == if items[i].k == k then Item(k, data) else items[i]
  {
    if items == [] then []
    else [if items[0].k == k then Item(k, data) else items[0]] + Replaced(items[1..], k, data)
  }

  // ----- insertion -----

  lemma InsertPosUnique(items: seq<Item>, k: Key, pos: nat)
    requires pos <= |items|
    requires forall i | 0 <= i < pos :: Less(items[i].k, k)
    requires pos < |items| ==> !Less(items[pos].k, k)
    ensures InsertPos(items, k) == pos
  {
  }

  lemma PosAround(pre: seq<Item>, old_: seq<Item>, post: seq<Item>, it: Item)
    requires AllBelow(pre, it.k) && AllAbove(post, it.k)
    ensures InsertPos(pre + old_ + post, it.k) == |pre| + InsertPos(old_, it.k)
  {
    hide Less;
    var p := InsertPos(old_, it.k);
    var w := pre + old_ + post;
    forall i | 0 <= i < |pre| + p ensures Less(w[i].k, it.k) {
      if i < |pre| { assert w[i] == pre[i]; } else { assert w[i] == old_[i - |pre|]; }
    }
    if |pre| + p < |w| {
      if p < |old_| { assert w[|pre| + p] == old_[p]; }
      else { assert w[|pre| + p] == post[0]; LessIsStrictTotalOrder(it.k, post[0].k, it.k); }
    }
    InsertPosUnique(w, it.k, |pre| + p);
  }

  lemma InsertAround(pre: seq<Item>, old_: seq<Item>, post: seq<Item>, it: Item)
    requires AllBelow(pre, it.k) && AllAbove(post, it.k)
    ensures InsertItem(pre + old_ + post, it) == pre + InsertItem(old_, it) + post
  {
    hide InsertPos, AllBelow, AllAbove;
    PosAround(pre, old_, post, it);
    var p := InsertPos(old_, it.k);
    var w := pre + old_ + post;
    assert w[..|pre| + p] == pre + old_[..p];
    assert w[|pre| + p..] == old_[p..] + post;
  }

  /** Inserting keeps strict order exactly when the key was absent. */
  lemma InsertSorted(items: seq<Item>, it: Item)
    requires Sorted(items)
    ensures Sorted(InsertItem(items, it)) <==> !HasKey(items, it.k)
  {
    var p, r := InsertPos(items, it.k), InsertItem(items, it);
    assert forall i | 0 <= i < |r| :: r[i] == if i < p then items[i] else if i == p then it else items[i - 1];
    if HasKey(items, it.k) {
      var i :| 0 <= i < |items| && items[i].k == it.k;
      assert p <= i;
      assert r[p].k == r[i + 1].k;
    } else if p < |items| {
      assert items[p].k != it.k && Less(it.k, items[p].k);
    }
  }

  lemma KeyOnlyInLeaf(pre: seq<Item>, old_: seq<Item>, post: seq<Item>, k: Key)
    requires AllBelow(pre, k) && AllAbove(post, k)
    ensures HasKey(pre + old_ + post, k) <==> HasKey(old_, k)
  {
    var w := pre + old_ + post;
    if HasKey(old_, k) {
      var i :| 0 <= i < |old_| && old_[i].k == k;
      assert w[|pre| + i] == old_[i];
    }
    if HasKey(w, k) {
      var i :| 0 <= i < |w| && w[i].k == k;
      assert |pre| <= i < |pre| + |old_|;
      assert w[i] == old_[i - |pre|];
    }
  }

  /** What the walk shows after a leaf split. */
  ghost function Shown(left: seq<Item>, right: seq<Item>, flip: bool, kept: bool): seq<Item> {
    var r := if kept then right else [];
    if flip then r + left else left + r
  }

  /**
   A split insertion gives the sorted insertion exactly when the key was absent, the right
   half was linked behind the left one, and its node reads back as a leaf.
   */
  lemma SplitExact(pre: seq<Item>, old_: seq<Item>, post: seq<Item>, it: Item, left: seq<Item>, right: seq<Item>,
                   flip: bool, kept: bool)
    requires Sorted(pre + old_ + post) && AllBelow(pre, it.k) && AllAbove(post, it.k)
    requires left != [] && right != [] && left + right == InsertItem(old_, it)
    ensures var w1 := pre + Shown(left, right, flip, kept) + post;
            Sorted(w1) && w1 == InsertItem(pre + old_ + post, it)
            <==> !HasKey(pre + old_ + post, it.k) && !flip && kept
  {
    var w0, w1 := pre + old_ + post, pre + Shown(left, right, flip, kept) + post;
    InsertAround(pre, old_, post, it);
    InsertSorted(w0, it);
    var w := pre + (left + right) + post;
    if kept && flip {
      assert w[|pre|] == left[0] && w[|pre| + |left|] == right[0];
      assert w1[|pre|] == right[0] && w1[|pre| + |right|] == left[0];
    }
  }

  /** What a walk sees in a node where it expects a leaf. */
  function NodeItems(node: Node): seq<Item> {
    if node.Leaf? then node.items else []
  }

  /** The items of two nodes in the order their pointers are linked. */
  function ShownNodes(x: Node, y: Node, flip: bool): seq<Item> {
    if flip then NodeItems(y) + NodeItems(x) else NodeItems(x) + NodeItems(y)
  }

  /** How a half written to a node reads back: exactly, as no leaf, or, too long, as anything of its length. */
  ghost predicate HalfWritten(node: Node, items: seq<Item>, ns: nat, kept: bool) {
    if LeafSize(items) <= ns then (if kept then node == Leaf(items) else !node.Leaf?)
    else node.Leaf? ==> |node.items| == |items|
  }

  /** Halves that fit show as they were cut, the right one if its node reads back as a leaf. */
  lemma FittingShown(left: seq<Item>, right: seq<Item>, x: Node, y: Node, flip: bool, kept: bool, ns: nat)
    requires LeafSize(left) <= ns && LeafSize(right) <= ns && HalfWritten(x, left, ns, true) && HalfWritten(y, right, ns, kept)
    ensures ShownNodes(x, y, flip) == Shown(left, right, flip, kept)
  {
  }

  /** When one half is too long for its node, no leaves of legal size show the whole list. */
  lemma OverfullNotShown(left: seq<Item>, right: seq<Item>, x: Node, y: Node, flip: bool, kept: bool, ns: nat)
    requires Sorted(left + right) && right != [] && LeafSize([]) <= ns
    requires LeafSize(left) <= ns <==> LeafSize(right) > ns
    requires HalfWritten(x, left, ns, true) && HalfWritten(y, right, ns, kept)
    requires x.Leaf? ==> LeafSize(x.items) <= ns
    requires y.Leaf? ==> LeafSize(y.items) <= ns
    ensures ShownNodes(x, y, flip) != left + right
  {
    hide LeafSize, Less;
    var all, z := left + right, ShownNodes(x, y, flip);
    if z == all {
      if LeafSize(left) <= ns {
        RightTooLong(left, right, NodeItems(y), flip);
      } else {
        LeftTooLong(left, right, x, y, flip);
      }
    }
  }

  lemma RightTooLong(left: seq<Item>, right: seq<Item>, y: seq<Item>, flip: bool)
    requires Sorted(left + right) && right != [] && (y == [] || |y| == |right|)
    requires left + right == if flip then y + left else left + y
    ensures y == right
  {
    var all := left + right;
    if !flip {
      assert all[|left|..] == right && (left + y)[|left|..] == y;
    } else if left != [] {
      assert |y| == |right|;
      assert (y + left)[|y|] == left[0] == all[0];
      LessIsStrictTotalOrder(all[0].k, all[0].k, all[0].k);
    } else {
      assert y + left == y && left + right == right;
    }
  }

  /** In order, a list that starts with its second part does not start with its first. */
  lemma FirstTwice(all: seq<Item>, right: seq<Item>, u: seq<Item>, left: seq<Item>)
    requires Sorted(all) && right != [] && left != []
    ensures !(all == left + right == right + u)
  {
    if all == left + right == right + u {
      SameKey(all, right, u, left);
      LessIsStrictTotalOrder(all[0].k, all[0].k, all[0].k);
    }
  }

  lemma SameKey(all: seq<Item>, right: seq<Item>, u: seq<Item>, left: seq<Item>)
    requires all == left + right == right + u && right != [] && left != []
    ensures |left| < |all| && all[0] == all[|left|]
  {
    assert (right + u)[0] == right[0] == (left + right)[|left|];
  }

  lemma LeftTooLong(left: seq<Item>, right: seq<Item>, x: Node, y: Node, flip: bool)
    requires Sorted(left + right) && right != [] && left != []
    requires x.Leaf? ==> |x.items| == |left|
    requires y == Leaf(right) || !y.Leaf?
    requires ShownNodes(x, y, flip) == left + right
    ensures x == Leaf(left)
  {
    var all := left + right;
    var u, v := NodeItems(x), NodeItems(y);
    assert |u| + |v| == |left| + |right|;
    assert x.Leaf? && y == Leaf(right);
    if flip {
      FirstTwice(all, right, u, left);
    } else {
      assert (u + right)[..|u|] == u && all[..|left|] == left;
    }
  }

  /** A leaf beside the path does not hold the key. */
  lemma {:induction false} NotBeside(d: Descent, j: nat, x: nat)
    requires d.Ok() && j <= d.lvl && x in Foot(d.h, d.Addr(j), d.lvl - j) && x != d.Addr(d.lvl)
    requires x in d.h && d.h[x].Leaf?
    ensures !HasKey(d.h[x].items, d.k)
    decreases d.lvl - j
  {
    hide Walk, WalkAll, FootAll, ValidAll, Valid, Less, Chosen, HasKey;
    if j < d.lvl {
      hide Foot;
      d.FootOfNode(j);
      d.Siblings(j);
      d.BeforeKeys(j);
      d.AfterKeys(j);
      assert StepOk(d.h, d.path, j, d.k);
      var l := d.lvl - j - 1;
      if x in Foot(d.h, d.Addr(j + 1), l) {
        NotBeside(d, j + 1, x);
      } else if HasKey(d.h[x].items, d.k) {
        if x in FootAll(d.h, d.Before(j), l) {
          LeafInWalkAll(d.ns, d.h, d.Before(j), l, Some(d.Child(j).k), d.Left(j), x, d.k);
        } else {
          LeafInWalkAll(d.ns, d.h, d.After(j), l, d.Hi(j), false, x, d.k);
        }
        NotOnEitherSide(WalkAll(d.h, d.Before(j), l), WalkAll(d.h, d.After(j), l), d.k);
      }
    }
  }

  lemma NotOnEitherSide(pre: seq<Item>, post: seq<Item>, k: Key)
    requires AllBelow(pre, k) && AllAbove(post, k)
    ensures !HasKey(pre, k) && !HasKey(post, k)
  {
    LessIsStrictTotalOrder(k, k, k);
  }

  /** A key of a valid tree is in the leaf a descent for it reaches and in no other leaf of the tree. */
  lemma OnlyLeafForKey(d: Descent)
    requires d.Ok()
    ensures HasKey(Walk(d.h, d.Addr(0), d.lvl), d.k) <==> HasKey(d.LeafItems(), d.k)
    ensures forall x | x in Foot(d.h, d.Addr(0), d.lvl) && x in d.h && d.h[x].Leaf? && HasKey(d.h[x].items, d.k) :: x == d.Addr(d.lvl)
  {
    forall x | x in Foot(d.h, d.Addr(0), d.lvl) && x in d.h && d.h[x].Leaf? && HasKey(d.h[x].items, d.k) ensures x == d.Addr(d.lvl) {
      if x != d.Addr(d.lvl) {
        NotBeside(d, 0, x);
      }
    }
    hide Walk, WalkAll, Foot, FootAll, ValidAll, Valid, Less, Chosen, StepOk;
    var pre, post := d.Context(0);
    d.WalkIsInner(0);
    KeyOnlyInLeaf(pre, d.LeafItems(), post, d.k);
  }

  /** The walk of a valid tree is ordered, and a descent splits it around one leaf. */
  lemma WalkAround(d: Descent) returns (pre: seq<Item>, post: seq<Item>)
    requires d.Ok()
    ensures Walk(d.h, d.path[0].logical, d.lvl) == pre + d.LeafItems() + post
    ensures Sorted(Walk(d.h, d.path[0].logical, d.lvl))
    ensures AllBelow(pre, d.k) && AllAbove(post, d.k)
    ensures forall items :: d.Inner(0, items) == pre + items + post
  {
    hide Walk, WalkAll, Foot, FootAll, ValidAll, Valid, Less, Chosen, StepOk;
    pre, post := d.Context(0);
    d.WalkIsInner(0);
    WalkOrdered(d.ns, d.h, d.path[0].logical, d.lvl, d.lo, None, d.left);
  }

  /** An insertion that fits the leaf is the sorted insertion. */
  lemma PlainMeans(d: Descent, it: Item)
    requires d.Ok() && it.k == d.k
    ensures var w0, w1 := Walk(d.h, d.path[0].logical, d.lvl), d.Inner(0, InsertItem(d.LeafItems(), it));
            w1 == InsertItem(w0, it) && (Sorted(w1) <==> !HasKey(w0, it.k))
  {
    hide Walk, Valid, Less, PathOk, Sorted, HasKey, InsertItem, AllBelow, AllAbove;
    var pre, post := WalkAround(d);
    InsertAround(pre, d.LeafItems(), post, it);
    InsertSorted(pre + d.LeafItems() + post, it);
  }

  /** A split insertion is the sorted insertion under exactly these conditions. */
  lemma SplitMeans(d: Descent, it: Item, mid: nat, flip: bool, kept: bool)
    requires d.Ok() && it.k == d.k && 0 < mid < |InsertItem(d.LeafItems(), it)|
    ensures var all := InsertItem(d.LeafItems(), it);
            var w0, w1 := Walk(d.h, d.path[0].logical, d.lvl), d.Inner(0, Shown(all[..mid], all[mid..], flip, kept));
            Sorted(w1) && w1 == InsertItem(w0, it) <==> !HasKey(w0, it.k) && !flip && kept
  {
    hide Walk, Valid, Less, PathOk, Sorted, HasKey, AllBelow, AllAbove, Shown;
    var all := InsertItem(d.LeafItems(), it);
    var pre, post := WalkAround(d);
    assert all == all[..mid] + all[mid..];
    SplitExact(pre, d.LeafItems(), post, it, all[..mid], all[mid..], flip, kept);
  }

  /** A split with a half that does not fit never shows the sorted insertion in leaves of legal size. */
  lemma OverfullMeans(d: Descent, it: Item, mid: nat, flip: bool, kept: bool, x: Node, y: Node)
    requires d.Ok() && it.k == d.k && mid < |InsertItem(d.LeafItems(), it)| && LeafSize([]) <= d.ns
    requires var all := InsertItem(d.LeafItems(), it);
             && (LeafSize(all[..mid]) <= d.ns <==> LeafSize(all[mid..]) > d.ns)
             && HalfWritten(x, all[..mid], d.ns, true) && HalfWritten(y, all[mid..], d.ns, kept)
    requires x.Leaf? ==> LeafSize(x.items) <= d.ns
    requires y.Leaf? ==> LeafSize(y.items) <= d.ns
    ensures var w0, w1 := Walk(d.h, d.path[0].logical, d.lvl), d.Inner(0, ShownNodes(x, y, flip));
            !(Sorted(w1) && w1 == InsertItem(w0, it))
  {
    hide Walk, Valid, Less, PathOk, HasKey, AllBelow, AllAbove, ShownNodes, HalfWritten, LeafSize, InsertItem, Sorted;
    var all, z := InsertItem(d.LeafItems(), it), ShownNodes(x, y, flip);
    var pre, post := WalkAround(d);
    InsertAround(pre, d.LeafItems(), post, it);
    var w1 := pre + z + post;
    if Sorted(w1) && w1 == pre + all + post {
      MiddleIs(pre, z, all, post);
      MiddleSorted(pre, all, post);
      assert all == all[..mid] + all[mid..];
      OverfullNotShown(all[..mid], all[mid..], x, y, flip, kept, d.ns);
      assert false;
    }
  }

  lemma MiddleIs(pre: seq<Item>, a: seq<Item>, b: seq<Item>, post: seq<Item>)
    requires pre + a + post == pre + b + post
    ensures a == b
  {
    var s, t := pre + a + post, pre + b + post;
    assert |a| == |b|;
    assert s[|pre|..|pre| + |a|] == a && t[|pre|..|pre| + |b|] == b;
  }

  lemma MiddleSorted(pre: seq<Item>, a: seq<Item>, post: seq<Item>)
    requires Sorted(pre + a + post)
    ensures Sorted(a)
  {
    hide Less;
    var s := pre + a + post;
    forall i, j | 0 <= i < j < |a| ensures Less(a[i].k, a[j].k) {
      assert s[|pre| + i] == a[i] && s[|pre| + j] == a[j];
    }
  }

  /** Only the half with the new item can be too long. */
  lemma OneTooLong(items: seq<Item>, it: Item, mid: nat, ns: nat)
    requires LeafSize(items) <= ns && mid <= |InsertItem(items, it)|
    ensures var all := InsertItem(items, it); LeafSize(all[..mid]) <= ns || LeafSize(all[mid..]) <= ns
  {
    hide Less;
    var all, p := InsertItem(items, it), InsertPos(items, it.k);
    if p < mid {
      assert all[mid..] == items[mid - 1..];
      DataParts(items, mid - 1);
    } else {
      assert all[..mid] == items[..mid];
      DataParts(items, mid);
    }
  }

  lemma {:induction false} DataParts(items: seq<Item>, n: nat)
    requires n <= |items|
    ensures DataSize(items[..n]) + DataSize(items[n..]) == DataSize(items)
  {
    if n > 0 {
      DataParts(items[1..], n - 1);
      assert items[1..][..n - 1] == items[..n][1..] && items[1..][n - 1..] == items[n..];
    } else {
      assert items[..0] == [] && items[0..] == items;
    }
  }

  // ----- deletion and update -----

  lemma {:induction false} WithoutConcat(a: seq<Item>, b: seq<Item>, k: Key)
    ensures Without(a + b, k) == Without(a, k) + Without(b, k)
  {
    if a == [] {
      assert a + b == b;
    } else {
      assert (a + b)[1..] == a[1..] + b;
      WithoutConcat(a[1..], b, k);
    }
  }

  lemma {:induction false} WithoutNone(a: seq<Item>, k: Key)
    requires !HasKey(a, k)
    ensures Without(a, k) == a
  {
    if a != [] {
      assert a[0].k != k;
      assert forall i | 0 <= i < |a[1..]| :: a[1..][i] == a[i + 1];
      WithoutNone(a[1..], k);
    }
  }

  /** Removing the one position that holds k removes the key. */
  lemma {:induction false} WithoutAt(a: seq<Item>, i: nat)
    requires Sorted(a) && i < |a|
    ensures Without(a, a[i].k) == a[..i] + a[i + 1..]
  {
    LessIsStrictTotalOrder(a[i].k, a[i].k, a[i].k);
    if i == 0 {
      WithoutNone(a[1..], a[0].k);
    } else {
      assert Less(a[0].k, a[i].k);
      WithoutAt(a[1..], i - 1);
      assert a[1..][..i - 1] == a[1..i] && a[1..][i - 1 + 1..] == a[i + 1..];
      assert a[..i] == [a[0]] + a[1..i];
    }
  }

  lemma WithoutAround(pre: seq<Item>, old_: seq<Item>, post: seq<Item>, k: Key)
    requires AllBelow(pre, k) && AllAbove(post, k)
    ensures Without(pre + old_ + post, k) == pre + Without(old_, k) + post
  {
    WithoutConcat(pre + old_, post, k);
    WithoutConcat(pre, old_, k);
    WithoutNone(pre, k);
    WithoutNone(post, k);
  }

  lemma ReplacedAround(pre: seq<Item>, old_: seq<Item>, post: seq<Item>, k: Key, data: seq<byte>)
    requires AllBelow(pre, k) && AllAbove(post, k)
    ensures Replaced(pre + old_ + post, k, data) == pre + Replaced(old_, k, data) + post
  {
    var w := pre + old_ + post;
    var r, s := Replaced(w, k, data), pre + Replaced(old_, k, data) + post;
    forall i | 0 <= i < |w| ensures r[i] == s[i] {
      if i < |pre| { assert w[i] == pre[i] == s[i]; }
      else if i < |pre| + |old_| { assert w[i] == old_[i - |pre|]; }
      else { assert w[i] == post[i - |pre| - |old_|] == s[i]; }
    }
  }
}
