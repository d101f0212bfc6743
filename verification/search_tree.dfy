/**
 * The node shape shared by the binary-search-tree variants: a key, a
 * repeat count (how many copies of the key are stored), the size of the
 * subtree counting repeats, one variant-specific field and two children.
 * A tree is an immutable value here; a variant's class holds the root.
 *
 * The module also holds what every variant uses unchanged: the in-order
 * listing of a tree and its invariants, the minimum / maximum walks, and
 * the four query walks (rank, select, predecessor, successor) that the
 * AVL, size-balanced, rotating-treap and red-black trees share line for
 * line.
 */
module SearchTree {
  import opened OrderedMultiset

  datatype Tree<B> =
    | Nil
    | Node(left: Tree<B>, data: int, repeat: int, size: int, info: B, right: Tree<B>)

  /** The size a parent reads from a child: an absent child counts 0. */
  function Size<B>(t: Tree<B>): int {
    if t.Nil? then 0 else t.size
  }

  /** `n` copies of `x` (none when `n` is not positive). */
  function Repeat(x: int, n: int): (s: seq<int>)
    ensures |s| == if n < 0 then 0 else n
    ensures forall i :: 0 <= i < |s| ==> s[i] == x
    decreases n
  {
    if n <= 0 then [] else [x] + Repeat(x, n - 1)
  }

  /** In-order listing: every key as often as its repeat count says. */
  function Flatten<B>(t: Tree<B>): seq<int> {
    match t
    case Nil => []
    case Node(l, x, n, _, _, r) => Flatten(l) + Repeat(x, n) + Flatten(r)
  }

  /** The multiset of values a tree stores. */
  ghost function Elems<B>(t: Tree<B>): multiset<int> {
    multiset(Flatten(t))
  }

  /** The keys of all nodes, including nodes whose repeat count is 0. */
  ghost function Keys<B>(t: Tree<B>): set<int> {
    match t
    case Nil => {}
    case Node(l, x, _, _, _, r) => Keys(l) + {x} + Keys(r)
  }

  /** Binary-search-tree order: smaller keys to the left, larger to the right, no key twice. */
  ghost predicate Ordered<B>(t: Tree<B>) {
    match t
    case Nil => true
    case Node(l, x, _, _, _, r) =>
      Ordered(l) && Ordered(r) &&
      (forall k :: k in Keys(l) ==> k < x) &&
      (forall k :: k in Keys(r) ==> x < k)
  }

  /** Every stored size is the repeat count plus the sizes of the children. */
  ghost predicate SizesOk<B>(t: Tree<B>) {
    match t
    case Nil => true
    case Node(l, _, n, s, _, r) => SizesOk(l) && SizesOk(r) && s == Size(l) + n + Size(r)
  }

  ghost predicate RepeatsNonNegative<B>(t: Tree<B>) {
    match t
    case Nil => true
    case Node(l, _, n, _, _, r) => RepeatsNonNegative(l) && 0 <= n && RepeatsNonNegative(r)
  }

  /** No node with a zero repeat count is left in the tree. */
  ghost predicate RepeatsPositive<B>(t: Tree<B>) {
    match t
    case Nil => true
    case Node(l, _, n, _, _, r) => RepeatsPositive(l) && 1 <= n && RepeatsPositive(r)
  }

  /** The invariant of every variant without tombstones. */
  ghost predicate IsSearchTree<B>(t: Tree<B>) {
    Ordered(t) && SizesOk(t) && RepeatsPositive(t)
  }

  /** Recomputes the size field from the children (the size-only pushUp). */
  function PushUp<B>(t: Tree<B>): (r: Tree<B>)
    ensures t.Node? ==> r.Node? && r.size == Size(t.left) + t.repeat + Size(t.right)
    ensures t.Node? ==> r == t.(size := r.size)
  {
    if t.Nil? then Nil else t.(size := Size(t.left) + t.repeat + Size(t.right))
  }

  /** Number of nodes, zero-repeat nodes included. */
  function NodeCount<B>(t: Tree<B>): nat {
    if t.Nil? then 0 else NodeCount(t.left) + 1 + NodeCount(t.right)
  }

  /** `replace.repeat = 1` on the leftmost node, before the successor is
      deleted from the right subtree; no size is touched. */
  function MinRepeatOne<B>(t: Tree<B>): (r: Tree<B>)
    requires t.Node?
    ensures r.Node? && NodeCount(r) == NodeCount(t) && r.data == t.data && r.info == t.info
    ensures MinNode(r).repeat == 1
  {
    if t.left.Nil? then t.(repeat := 1) else t.(left := MinRepeatOne(t.left))
  }

  /** A left rotation turns `t` = (a, x, (b, y, c)) into `u` = ((a, x, b), y, c)
      and a right rotation turns `u` back into `t`; sizes and the
      variant-specific fields are recomputed separately. */
  ghost predicate RotationOf<B>(t: Tree<B>, u: Tree<B>) {
    t.Node? && t.right.Node? && u.Node? && u.left.Node? &&
    u.left.left == t.left && u.left.data == t.data && u.left.repeat == t.repeat &&
    u.left.right == t.right.left &&
    u.data == t.right.data && u.repeat == t.right.repeat && u.right == t.right.right
  }

  // ---------------------------------------------------------------------
  // Facts about the listing

  lemma {:induction false} PositiveIsNonNegative<B>(t: Tree<B>)
    requires RepeatsPositive(t)
    ensures RepeatsNonNegative(t)
  {
    if t.Node? {
      PositiveIsNonNegative(t.left);
      PositiveIsNonNegative(t.right);
    }
  }

  lemma {:induction false} FlattenLength<B>(t: Tree<B>)
    requires SizesOk(t) && RepeatsNonNegative(t)
    ensures |Flatten(t)| == Size(t)
  {
    if t.Node? {
      FlattenLength(t.left);
      FlattenLength(t.right);
    }
  }

  lemma {:induction false} NonNegativeSizes<B>(t: Tree<B>)
    requires SizesOk(t) && RepeatsNonNegative(t)
    ensures Size(t) >= 0
  {
    if t.Node? {
      NonNegativeSizes(t.left);
      NonNegativeSizes(t.right);
    }
  }

  /** Every listed value is the key of some node. */
  lemma {:induction false} FlattenInKeys<B>(t: Tree<B>)
    ensures forall y :: y in Flatten(t) ==> y in Keys(t)
  {
    if t.Node? {
      FlattenInKeys(t.left);
      FlattenInKeys(t.right);
      forall y | y in Flatten(t) ensures y in Keys(t) {
        assert y in Flatten(t.left) + Repeat(t.data, t.repeat) || y in Flatten(t.right);
      }
    }
  }

  lemma ElemsOfNode<B>(t: Tree<B>)
    requires t.Node?
    ensures Elems(t) == Elems(t.left) + multiset(Repeat(t.data, t.repeat)) + Elems(t.right)
  {
    assert Flatten(t) == Flatten(t.left) + Repeat(t.data, t.repeat) + Flatten(t.right);
  }

  /** Removing one copy of `v` from one part of a three-part union removes
      it from the union when the other parts do not hold `v`. */
  lemma MinusOutside(a: multiset<int>, m: multiset<int>, b: multiset<int>, v: int)
    requires v !in m && v !in b
    ensures (a - multiset{v}) + m + b == (a + m + b) - multiset{v}
  {
    assert forall x :: ((a - multiset{v}) + m + b)[x] == ((a + m + b) - multiset{v})[x];
  }

  lemma MinusOutsideRight(a: multiset<int>, m: multiset<int>, b: multiset<int>, v: int)
    requires v !in a && v !in m
    ensures a + m + (b - multiset{v}) == (a + m + b) - multiset{v}
  {
    assert forall x :: (a + m + (b - multiset{v}))[x] == ((a + m + b) - multiset{v})[x];
  }

  /** Taking back the one copy of `x` that was added between `a` and `b`. */
  lemma DropMiddle(a: multiset<int>, x: int, b: multiset<int>)
    ensures (a + multiset{x} + b) - multiset{x} == a + b
  {
    assert forall y :: ((a + multiset{x} + b) - multiset{x})[y] == (a + b)[y];
  }

  /** A node whose left child lost one copy of `v` (with `v` below the
      node's key) lost exactly that copy. */
  lemma LeftReplacedElems<B>(t: Tree<B>, u: Tree<B>, v: int)
    requires t.Node? && u.Node? && u.data == t.data && u.repeat == t.repeat && u.right == t.right
    requires Ordered(t) && v < t.data
    requires Elems(u.left) == Elems(t.left) - multiset{v}
    ensures Elems(u) == Elems(t) - multiset{v}
  {
    ElemsOfNode(u);
    ElemsOfNode(t);
    assert v !in Keys(t.right);
    FlattenInKeys(t.right);
    assert v !in Flatten(t.right) && v !in Repeat(t.data, t.repeat);
    MinusOutside(Elems(t.left), multiset(Repeat(t.data, t.repeat)), Elems(t.right), v);
  }

  /** The mirror image: the right child lost one copy of `v` above the key. */
  lemma RightReplacedElems<B>(t: Tree<B>, u: Tree<B>, v: int)
    requires t.Node? && u.Node? && u.data == t.data && u.repeat == t.repeat && u.left == t.left
    requires Ordered(t) && v > t.data
    requires Elems(u.right) == Elems(t.right) - multiset{v}
    ensures Elems(u) == Elems(t) - multiset{v}
  {
    ElemsOfNode(u);
    ElemsOfNode(t);
    assert v !in Keys(t.left);
    FlattenInKeys(t.left);
    assert v !in Flatten(t.left) && v !in Repeat(t.data, t.repeat);
    MinusOutsideRight(Elems(t.left), multiset(Repeat(t.data, t.repeat)), Elems(t.right), v);
  }

  /** Replacing a child of an ordered node by an ordered tree over fewer
      keys leaves the node ordered, over fewer keys. */
  lemma ChildShrunk<B>(t: Tree<B>, u: Tree<B>)
    requires t.Node? && u.Node? && u.data == t.data && Ordered(t)
    requires (u.right == t.right && Ordered(u.left) && Keys(u.left) <= Keys(t.left))
          || (u.left == t.left && Ordered(u.right) && Keys(u.right) <= Keys(t.right))
    ensures Ordered(u) && Keys(u) <= Keys(t)
  {
  }

  /** Without zero repeat counts, every key is listed. */
  lemma {:induction false} KeysInFlatten<B>(t: Tree<B>)
    requires RepeatsPositive(t)
    ensures forall y :: y in Keys(t) ==> y in Flatten(t)
  {
    if t.Node? {
      KeysInFlatten(t.left);
      KeysInFlatten(t.right);
      var rep := Repeat(t.data, t.repeat);
      assert rep[0] == t.data;
      forall y | y in Keys(t) ensures y in Flatten(t) {
        if y in Keys(t.left) {
          assert y in Flatten(t.left);
        } else if y == t.data {
          assert y in rep;
        } else {
          assert y in Flatten(t.right);
        }
      }
    }
  }

  lemma SortedJoin(a: seq<int>, x: int, n: int, b: seq<int>)
    requires Sorted(a) && Sorted(b)
    requires forall y :: y in a ==> y < x
    requires forall y :: y in b ==> x < y
    ensures Sorted(a + Repeat(x, n) + b)
  {
    var m := Repeat(x, n);
    var s := a + m + b;
    forall i, j | 0 <= i < j < |s| ensures s[i] <= s[j] {
      if j < |a| {
        assert s[i] == a[i] && s[j] == a[j];
      } else if i >= |a| + |m| {
        assert s[i] == b[i - |a| - |m|] && s[j] == b[j - |a| - |m|];
      } else {
        if i < |a| {
          assert s[i] == a[i] && a[i] in a;
        } else {
          assert s[i] == m[i - |a|];
        }
        if j < |a| + |m| {
          assert s[j] == m[j - |a|];
        } else {
          assert s[j] == b[j - |a| - |m|] && b[j - |a| - |m|] in b;
        }
      }
    }
  }

  /** An ordered tree lists its values in ascending order. */
  lemma {:induction false} FlattenSorted<B>(t: Tree<B>)
    requires Ordered(t)
    ensures Sorted(Flatten(t))
  {
    if t.Node? {
      FlattenSorted(t.left);
      FlattenSorted(t.right);
      FlattenInKeys(t.left);
      FlattenInKeys(t.right);
      SortedJoin(Flatten(t.left), t.data, t.repeat, Flatten(t.right));
    }
  }

  /** The listing of an ordered tree is the sorted listing of its multiset. */
  lemma ListingIsFlatten<B>(t: Tree<B>)
    requires Ordered(t)
    ensures Listing(Elems(t)) == Flatten(t)
  {
    FlattenSorted(t);
    ListingOfSorted(Flatten(t));
  }

  /** A rotation keeps the listing, the keys, the order and the repeat counts. */
  lemma RotationShape<B>(t: Tree<B>, u: Tree<B>)
    requires RotationOf(t, u)
    ensures Flatten(u) == Flatten(t) && Keys(u) == Keys(t)
    ensures Ordered(t) <==> Ordered(u)
    ensures RepeatsPositive(t) <==> RepeatsPositive(u)
    ensures RepeatsNonNegative(t) <==> RepeatsNonNegative(u)
  {
    RotationListing(t, u);
    RotationOrder(t, u);
    RotationRepeats(t, u);
  }

  lemma RotationListing<B>(t: Tree<B>, u: Tree<B>)
    requires RotationOf(t, u)
    ensures Flatten(u) == Flatten(t) && Keys(u) == Keys(t)
  {
    var a, b, c := Flatten(t.left), Flatten(t.right.left), Flatten(t.right.right);
    var x, y := Repeat(t.data, t.repeat), Repeat(u.data, u.repeat);
    assert Flatten(t.right) == b + y + c;
    assert Flatten(u.left) == a + x + b;
    assert Flatten(t) == a + x + Flatten(t.right);
    assert Flatten(u) == Flatten(u.left) + y + c;
    Regroup(a, x, b, y, c);
    RotationKeys(t, u);
  }

  lemma Regroup(a: seq<int>, x: seq<int>, b: seq<int>, y: seq<int>, c: seq<int>)
    ensures a + x + (b + y + c) == (a + x + b) + y + c
  {
  }

  lemma RotationKeys<B>(t: Tree<B>, u: Tree<B>)
    requires RotationOf(t, u)
    ensures Keys(u) == Keys(t)
  {
    assert Keys(t.right) == Keys(t.right.left) + {u.data} + Keys(t.right.right);
    assert Keys(u.left) == Keys(t.left) + {t.data} + Keys(t.right.left);
  }

  lemma RotationRepeats<B>(t: Tree<B>, u: Tree<B>)
    requires RotationOf(t, u)
    ensures RepeatsPositive(t) <==> RepeatsPositive(u)
    ensures RepeatsNonNegative(t) <==> RepeatsNonNegative(u)
  {
    assert RepeatsPositive(u.left) <==> RepeatsPositive(t.left) && 1 <= t.repeat && RepeatsPositive(t.right.left);
    assert RepeatsNonNegative(u.left) <==> RepeatsNonNegative(t.left) && 0 <= t.repeat && RepeatsNonNegative(t.right.left);
  }

  lemma RotationOrder<B>(t: Tree<B>, u: Tree<B>)
    requires RotationOf(t, u)
    ensures Ordered(t) <==> Ordered(u)
  {
    var ka, kb, kc := Keys(t.left), Keys(t.right.left), Keys(t.right.right);
    var x, y := t.data, u.data;
    assert Keys(u.left) == ka + {x} + kb;
    assert Keys(t.right) == kb + {y} + kc;
    if Ordered(t) {
      assert Ordered(t.right) && x < y;
      assert Ordered(u.left);
    }
    if Ordered(u) {
      assert Ordered(u.left) && x < y;
      assert Ordered(t.right);
    }
  }

  /** leftRotate with the size-only pushUp (requires a right child, as the source dereferences it). */
  function LeftRotate<B>(t: Tree<B>): (r: Tree<B>)
    requires t.Nil? || t.right.Node?
    ensures t.Node? ==> r.Node? && NodeCount(r) == NodeCount(t) && NodeCount(r.left) < NodeCount(t)
  {
    if t.Nil? then Nil
    else
      var node := t.right;
      PushUp(node.(left := PushUp(t.(right := node.left))))
  }

  /** rightRotate with the size-only pushUp (requires a left child). */
  function RightRotate<B>(t: Tree<B>): (r: Tree<B>)
    requires t.Nil? || t.left.Node?
    ensures t.Node? ==> r.Node? && NodeCount(r) == NodeCount(t) && NodeCount(r.right) < NodeCount(t)
  {
    if t.Nil? then Nil
    else
      var node := t.left;
      PushUp(node.(right := PushUp(t.(left := node.right))))
  }

  /** Both rotations keep the listing, the keys, the order and the repeat
      counts, keep every variant-specific field where it was, and leave
      correct sizes when the rotated subtrees had them. */
  lemma RotationsKeep<B>(t: Tree<B>)
    requires t.Node?
    ensures t.right.Node? ==>
              && RotationOf(t, LeftRotate(t))
              && LeftRotate(t).info == t.right.info && LeftRotate(t).left.info == t.info
              && (SizesOk(t.left) && SizesOk(t.right) ==> SizesOk(LeftRotate(t)))
    ensures t.left.Node? ==>
              && RotationOf(RightRotate(t), t)
              && RightRotate(t).info == t.left.info && RightRotate(t).right.info == t.info
              && (SizesOk(t.left) && SizesOk(t.right) ==> SizesOk(RightRotate(t)))
  {
  }

  /** What rotations and every maintain keep: the listing, the keys, the
      order, positive repeat counts, and correct sizes with the same total. */
  ghost predicate Rearranged<B>(t: Tree<B>, u: Tree<B>) {
    && Flatten(u) == Flatten(t) && Keys(u) == Keys(t)
    && (Ordered(t) ==> Ordered(u))
    && (RepeatsPositive(t) ==> RepeatsPositive(u))
    && (SizesOk(t) ==> SizesOk(u) && Size(u) == Size(t))
  }

  lemma RearrangedTrans<B>(t: Tree<B>, u: Tree<B>, w: Tree<B>)
    requires Rearranged(t, u) && Rearranged(u, w)
    ensures Rearranged(t, w)
  {
  }

  lemma RearrangedChain<B>(t: Tree<B>, a: Tree<B>, b: Tree<B>, c: Tree<B>)
    requires Rearranged(t, a) && Rearranged(a, b) && Rearranged(b, c)
    ensures Rearranged(t, c)
  {
  }

  /** The size-only pushUp changes nothing but the size, and makes it right. */
  lemma PushUpKeeps<B>(t: Tree<B>)
    ensures Flatten(PushUp(t)) == Flatten(t) && Keys(PushUp(t)) == Keys(t)
    ensures Ordered(PushUp(t)) == Ordered(t) && RepeatsPositive(PushUp(t)) == RepeatsPositive(t)
    ensures t.Node? && SizesOk(t.left) && SizesOk(t.right) ==> SizesOk(PushUp(t))
  {
  }

  /** Rearranging both children of a node rearranges the node. */
  lemma ChildrenRearranged<B>(t: Tree<B>, l: Tree<B>, r: Tree<B>)
    requires t.Node? && Rearranged(t.left, l) && Rearranged(t.right, r)
    ensures Rearranged(t, t.(left := l, right := r))
  {
    var u := t.(left := l, right := r);
    assert Flatten(u) == Flatten(l) + Repeat(t.data, t.repeat) + Flatten(r);
    if Ordered(t) {
      assert Ordered(u);
    }
  }

  lemma LeftRotateRearranges<B>(t: Tree<B>)
    requires t.Node? && t.right.Node?
    ensures Rearranged(t, LeftRotate(t))
  {
    var u := LeftRotate(t);
    RotationsKeep(t);
    RotationShape(t, u);
    if SizesOk(t) {
      assert SizesOk(t.left) && SizesOk(t.right.left) && SizesOk(t.right.right);
      assert SizesOk(t.right);
      assert t.right.size == Size(t.right.left) + t.right.repeat + Size(t.right.right);
      assert t.size == Size(t.left) + t.repeat + Size(t.right.left) + t.right.repeat + Size(t.right.right);
      assert u.size == Size(u.left) + u.repeat + Size(u.right);
      assert Size(u) == Size(t);
    }
  }

  lemma RightRotateRearranges<B>(t: Tree<B>)
    requires t.Node? && t.left.Node?
    ensures Rearranged(t, RightRotate(t))
  {
    var u := RightRotate(t);
    RotationsKeep(t);
    RotationShape(u, t);
    if SizesOk(t) {
      assert SizesOk(t.right) && SizesOk(t.left.left) && SizesOk(t.left.right);
      assert SizesOk(t.left);
      assert t.left.size == Size(t.left.left) + t.left.repeat + Size(t.left.right);
      assert t.size == Size(t.left.left) + t.left.repeat + Size(t.left.right) + t.repeat + Size(t.right);
      assert u.size == Size(u.left) + u.repeat + Size(u.right);
      assert Size(u) == Size(t);
    }
  }

  // ---------------------------------------------------------------------
  // Counting at one node

  lemma {:induction false} CountAll(s: seq<int>, v: int)
    ensures (forall y :: y in s ==> y < v) ==> CountBelow(s, v) == |s| && CountAtMost(s, v) == |s|
    ensures (forall y :: y in s ==> v < y) ==> CountBelow(s, v) == 0 && CountAtMost(s, v) == 0
    ensures (forall y :: y in s ==> y == v) ==> CountBelow(s, v) == 0 && CountAtMost(s, v) == |s|
  {
    if s != [] {
      CountAll(s[1..], v);
      assert forall y :: y in s[1..] ==> y in s;
      assert s[0] in s;
    }
  }

  /** How the two counts of a node's listing split over its left child, its
      own copies and its right child. */
  lemma CountAtNode<B>(t: Tree<B>, v: int)
    requires t.Node? && Ordered(t) && SizesOk(t) && RepeatsNonNegative(t)
    ensures CountBelow(Flatten(t), v) ==
              if v < t.data then CountBelow(Flatten(t.left), v)
              else if v == t.data then Size(t.left)
              else Size(t.left) + t.repeat + CountBelow(Flatten(t.right), v)
    ensures CountAtMost(Flatten(t), v) ==
              if v < t.data then CountAtMost(Flatten(t.left), v)
              else if v == t.data then Size(t.left) + t.repeat
              else Size(t.left) + t.repeat + CountAtMost(Flatten(t.right), v)
  {
    var a, m, b := Flatten(t.left), Repeat(t.data, t.repeat), Flatten(t.right);
    FlattenLength(t.left);
    FlattenLength(t.right);
    FlattenInKeys(t.left);
    FlattenInKeys(t.right);
    CountBelowAppend(a + m, b, v);
    CountBelowAppend(a, m, v);
    CountAll(m, v);
    if v < t.data {
      CountAll(b, v);
    } else if v == t.data {
      CountAll(a, v);
      CountAll(b, v);
    } else {
      CountAll(a, v);
    }
  }

  /** Where the k-th smallest value of a node's listing lies. */
  lemma SelectAtNode<B>(t: Tree<B>, k: int)
    requires t.Node? && SizesOk(t) && RepeatsNonNegative(t)
    ensures SelectIn(Flatten(t), k) ==
              if Size(t.left) + 1 <= k <= Size(t.left) + t.repeat then Ok(t.data)
              else if k < Size(t.left) + 1 then SelectIn(Flatten(t.left), k)
              else SelectIn(Flatten(t.right), k - Size(t.left) - t.repeat)
  {
    var a, m, b := Flatten(t.left), Repeat(t.data, t.repeat), Flatten(t.right);
    FlattenLength(t.left);
    FlattenLength(t.right);
    var s := a + m + b;
    if 1 <= k <= |a| {
      assert s[k - 1] == a[k - 1];
    } else if |a| + 1 <= k <= |a| + |m| {
      assert s[k - 1] == m[k - 1 - |a|];
    } else if |a| + |m| < k <= |s| {
      assert s[k - 1] == b[k - 1 - |a| - |m|];
    }
  }

  // ---------------------------------------------------------------------
  // Minimum and maximum (getMinNode / getMaxNode)

  /** The leftmost node. */
  function MinNode<B>(t: Tree<B>): (r: Tree<B>)
    requires t.Node?
    ensures r.Node? && r.left.Nil?
  {
    if t.left.Nil? then t else MinNode(t.left)
  }

  /** The rightmost node. */
  function MaxNode<B>(t: Tree<B>): (r: Tree<B>)
    requires t.Node?
    ensures r.Node? && r.right.Nil?
  {
    if t.right.Nil? then t else MaxNode(t.right)
  }

  /** The leftmost node holds the least key and the rightmost the greatest. */
  lemma {:induction false} ExtremeNodes<B>(t: Tree<B>)
    requires t.Node? && Ordered(t)
    ensures MinNode(t).data in Keys(t) && forall k :: k in Keys(t) ==> MinNode(t).data <= k
    ensures MaxNode(t).data in Keys(t) && forall k :: k in Keys(t) ==> k <= MaxNode(t).data
  {
    if t.left.Node? {
      ExtremeNodes(t.left);
    }
    if t.right.Node? {
      ExtremeNodes(t.right);
    }
  }

  /** Without empty nodes, the listing starts with the leftmost key ... */
  lemma {:induction false} FirstIsMin<B>(t: Tree<B>)
    requires t.Node? && RepeatsPositive(t)
    ensures |Flatten(t)| > 0 && Flatten(t)[0] == MinNode(t).data
  {
    if t.left.Node? {
      FirstIsMin(t.left);
    }
  }

  /** ... and ends with the rightmost key. */
  lemma {:induction false} LastIsMax<B>(t: Tree<B>)
    requires t.Node? && RepeatsPositive(t)
    ensures |Flatten(t)| > 0 && Flatten(t)[|Flatten(t)| - 1] == MaxNode(t).data
  {
    if t.right.Node? {
      LastIsMax(t.right);
    }
  }

  method GetMinNode<B>(t: Tree<B>) returns (r: Result<Tree<B>>)
    ensures t.Nil? <==> r == NoSuchElement
    ensures t.Node? ==> r == Ok(MinNode(t))
  {
    if t.Nil? {
      return NoSuchElement;
    }
    var now := t;
    while now.left.Node?
      invariant now.Node? && MinNode(now) == MinNode(t)
      decreases now
    {
      now := now.left;
    }
    return Ok(now);
  }

  method GetMaxNode<B>(t: Tree<B>) returns (r: Result<Tree<B>>)
    ensures t.Nil? <==> r == NoSuchElement
    ensures t.Node? ==> r == Ok(MaxNode(t))
  {
    if t.Nil? {
      return NoSuchElement;
    }
    var now := t;
    while now.right.Node?
      invariant now.Node? && MaxNode(now) == MaxNode(t)
      decreases now
    {
      now := now.right;
    }
    return Ok(now);
  }

  // ---------------------------------------------------------------------
  // The shared query walks

  /** rank: 1 + the number of stored values strictly below `v`. */
  method RankOf<B>(root: Tree<B>, v: int) returns (rank: int)
    requires Ordered(root) && SizesOk(root) && RepeatsNonNegative(root)
    ensures rank == 1 + CountBelow(Flatten(root), v)
  {
    rank := 1;
    var current := root;
    while current.Node?
      invariant Ordered(current) && SizesOk(current) && RepeatsNonNegative(current)
      invariant rank + CountBelow(Flatten(current), v) == 1 + CountBelow(Flatten(root), v)
      decreases current
    {
      CountAtNode(current, v);
      if v == current.data {
        rank := rank + Size(current.left);
        break;
      } else if v < current.data {
        current := current.left;
      } else {
        rank := rank + Size(current.left) + current.repeat;
        current := current.right;
      }
    }
  }

  /** select: the k-th smallest stored value, or NoSuchElement when k is out of 1..size. */
  method SelectAt<B>(root: Tree<B>, k: int) returns (r: Result<int>)
    requires SizesOk(root) && RepeatsNonNegative(root)
    ensures r == SelectIn(Flatten(root), k)
  {
    var value := k;
    var current := root;
    while current.Node?
      invariant SizesOk(current) && RepeatsNonNegative(current)
      invariant SelectIn(Flatten(current), value) == SelectIn(Flatten(root), k)
      decreases current
    {
      SelectAtNode(current, value);
      if Size(current.left) + 1 <= value <= Size(current.left) + current.repeat {
        return Ok(current.data);
      } else if value < Size(current.left) + 1 {
        current := current.left;
      } else {
        value := value - (Size(current.left) + current.repeat);
        current := current.right;
      }
    }
    return NoSuchElement;
  }

  /** predecessor: the largest stored value strictly below `v`. */
  method PredecessorOf<B>(root: Tree<B>, v: int) returns (r: Result<int>)
    requires Ordered(root) && RepeatsPositive(root)
    ensures r == PredecessorIn(Flatten(root), v)
  {
    FlattenSorted(root);
    FlattenInKeys(root);
    KeysInFlatten(root);
    var least := GetMinNode(root);
    if least.NoSuchElement? {
      return NoSuchElement;
    }
    var node := least.value;
    ExtremeNodes(root);
    if v <= node.data {
      PredecessorInSorted(Flatten(root), v, node.data);
      return NoSuchElement;
    }
    var current := root;
    while current.Node?
      invariant node.Node? && node.data < v && node.data in Keys(root)
      invariant Ordered(current) && Keys(current) <= Keys(root)
      invariant forall y :: y in Keys(root) && node.data < y < v ==> y in Keys(current)
      decreases current
    {
      if v > current.data {
        if node.data < current.data {
          node := current;
        }
        current := current.right;
      } else {
        current := current.left;
      }
    }
    PredecessorInSorted(Flatten(root), v, node.data);
    return Ok(node.data);
  }

  /** successor: the smallest stored value strictly above `v`. */
  method SuccessorOf<B>(root: Tree<B>, v: int) returns (r: Result<int>)
    requires Ordered(root) && RepeatsPositive(root)
    ensures r == SuccessorIn(Flatten(root), v)
  {
    FlattenSorted(root);
    FlattenInKeys(root);
    KeysInFlatten(root);
    var greatest := GetMaxNode(root);
    if greatest.NoSuchElement? {
      return NoSuchElement;
    }
    var node := greatest.value;
    ExtremeNodes(root);
    if v >= node.data {
      SuccessorInSorted(Flatten(root), v, node.data);
      return NoSuchElement;
    }
    var current := root;
    while current.Node?
      invariant node.Node? && v < node.data && node.data in Keys(root)
      invariant Ordered(current) && Keys(current) <= Keys(root)
      invariant forall y :: y in Keys(root) && v < y < node.data ==> y in Keys(current)
      decreases current
    {
      if v < current.data {
        if node.data > current.data {
          node := current;
        }
        current := current.left;
      } else {
        current := current.right;
      }
    }
    SuccessorInSorted(Flatten(root), v, node.data);
    return Ok(node.data);
  }
}
