/**
 * Split/merge ("FHQ") treap: a search tree on the values and a min-heap on
 * a priority (`index`) fixed when a node is created. There are no
 * rotations: every operation splits the tree into parts by key or by
 * size, works on a part and merges the parts back, the part whose root
 * has the smaller priority going on top.
 */
module FHQ {
  import opened OrderedMultiset
  import opened SearchTree

  /** An FHQ-treap node's own field is its priority. */
  type FHQNode = Tree<int>

  /** Every priority in `t` is at least `b`. */
  ghost predicate AtLeast(t: FHQNode, b: int) {
    match t
    case Nil => true
    case Node(l, _, _, _, p, r) => b <= p && AtLeast(l, b) && AtLeast(r, b)
  }

  /** Min-heap order on priorities: no node lies below a node of larger priority. */
  ghost predicate HeapOrdered(t: FHQNode) {
    match t
    case Nil => true
    case Node(l, _, _, _, p, r) => HeapOrdered(l) && HeapOrdered(r) && AtLeast(l, p) && AtLeast(r, p)
  }

  /** The invariant of the split/merge treap. */
  ghost predicate IsTreap(t: FHQNode) {
    IsSearchTree(t) && HeapOrdered(t)
  }

  /** Every key of `a` is below every key of `b`. */
  ghost predicate Separated(a: FHQNode, b: FHQNode) {
    forall x, y :: x in Keys(a) && y in Keys(b) ==> x < y
  }

  /** Whether key `k` lands in the left part of splitByKey(_, v, close). */
  predicate GoesLeft(k: int, v: int, close: bool) {
    if close then k <= v else k < v
  }

  /** splitByKey(current, data, close): a node whose key does not go left
      keeps its right subtree and takes the right part of its left
      subtree, and symmetrically. */
  function SplitByKey(t: FHQNode, v: int, close: bool): (p: (FHQNode, FHQNode))
    ensures NodeCount(p.0) + NodeCount(p.1) == NodeCount(t)
  {
    if t.Nil? then (Nil, Nil)
    else if (!close && v <= t.data) || (close && v < t.data) then
      var p := SplitByKey(t.left, v, close);
      (p.0, PushUp(t.(left := p.1)))
    else
      var p := SplitByKey(t.right, v, close);
      (PushUp(t.(right := p.0)), p.1)
  }

  /** splitBySize(current, size): the left part takes the first `k`
      positions of the listing, rounded up to whole nodes. */
  function SplitBySize(t: FHQNode, k: int): (p: (FHQNode, FHQNode))
    ensures NodeCount(p.0) + NodeCount(p.1) == NodeCount(t)
  {
    if t.Nil? then (Nil, Nil)
    else if k <= 0 then (Nil, t)
    else if k >= t.size then (t, Nil)
    else if k <= Size(t.left) then
      var p := SplitBySize(t.left, k);
      (p.0, PushUp(t.(left := p.1)))
    else
      var p := SplitBySize(t.right, k - Size(t.left) - t.repeat);
      (PushUp(t.(right := p.0)), p.1)
  }

  /** merge(leftRoot, rightRoot): the root of smaller priority stays on
      top (the right root on a tie) and the other tree is merged into its
      inner subtree. */
  function Merge(a: FHQNode, b: FHQNode): (r: FHQNode)
    ensures NodeCount(r) == NodeCount(a) + NodeCount(b)
    decreases NodeCount(a) + NodeCount(b)
  {
    if a.Nil? then b
    else if b.Nil? then a
    else if a.info < b.info then PushUp(a.(right := Merge(a.right, b)))
    else PushUp(b.(left := Merge(a, b.left)))
  }

  /** The two splits insert and delete begin with: the values below `v`,
      the part holding `v`, the values above `v`. */
  function Carve(t: FHQNode, v: int): (FHQNode, FHQNode, FHQNode) {
    var below := SplitByKey(t, v, false);
    var rest := SplitByKey(below.1, v, true);
    (below.0, rest.0, rest.1)
  }

  /** Node.enlarge: one more copy of the node's key. */
  function Enlarge(c: FHQNode): FHQNode
    requires c.Node?
  {
    c.(size := c.size + 1, repeat := c.repeat + 1)
  }

  /** Node.reduce: one copy fewer. */
  function Reduce(c: FHQNode): FHQNode
    requires c.Node?
  {
    c.(size := c.size - 1, repeat := c.repeat - 1)
  }

  /** insert(data): the equal part, when present, counts one more copy;
      otherwise a new node with priority `index` is merged in. */
  function InsertInto(t: FHQNode, v: int, index: int): FHQNode {
    var p := Carve(t, v);
    if p.1.Node? then Merge(p.0, Merge(Enlarge(p.1), p.2))
    else Merge(p.0, Merge(Node(Nil, v, 1, 1, index, Nil), p.2))
  }

  /** delete(data): the equal part loses one copy, or is dropped when it
      holds only one (or is absent). */
  function DeleteFrom(t: FHQNode, v: int): FHQNode {
    var p := Carve(t, v);
    if p.1.Node? && p.1.repeat > 1 then Merge(p.0, Merge(Reduce(p.1), p.2))
    else Merge(p.0, p.2)
  }

  // ---------------------------------------------------------------------
  // Priorities

  lemma {:induction false} AtLeastMono(t: FHQNode, a: int, b: int)
    requires AtLeast(t, b) && a <= b
    ensures AtLeast(t, a)
  {
    if t.Node? {
      AtLeastMono(t.left, a, b);
      AtLeastMono(t.right, a, b);
    }
  }

  /** In a heap the root carries the smallest priority. */
  lemma {:induction false} HeapRootIsLeast(t: FHQNode)
    requires t.Node? && HeapOrdered(t)
    ensures AtLeast(t, t.info)
  {
    if t.left.Node? {
      HeapRootIsLeast(t.left);
    }
    if t.right.Node? {
      HeapRootIsLeast(t.right);
    }
  }

  // ---------------------------------------------------------------------
  // splitByKey

  /** The two parts list the tree's values in order, first part first. */
  lemma {:induction false} SplitByKeyFlatten(t: FHQNode, v: int, close: bool)
    ensures Flatten(SplitByKey(t, v, close).0) + Flatten(SplitByKey(t, v, close).1) == Flatten(t)
    ensures Keys(SplitByKey(t, v, close).0) + Keys(SplitByKey(t, v, close).1) == Keys(t)
  {
    if t.Node? {
      if (!close && v <= t.data) || (close && v < t.data) {
        var p := SplitByKey(t.left, v, close);
        SplitByKeyFlatten(t.left, v, close);
        assert SplitByKey(t, v, close) == (p.0, PushUp(t.(left := p.1)));
        LeftReplaced(t, p.0, p.1);
      } else {
        var p := SplitByKey(t.right, v, close);
        SplitByKeyFlatten(t.right, v, close);
        assert SplitByKey(t, v, close) == (PushUp(t.(right := p.0)), p.1);
        RightReplaced(t, p.0, p.1);
      }
    }
  }

  /** The left child split into `a` and `l`: `a` followed by the node with
      `l` as its left child lists the node. */
  lemma LeftReplaced(t: FHQNode, a: FHQNode, l: FHQNode)
    requires t.Node? && Flatten(a) + Flatten(l) == Flatten(t.left) && Keys(a) + Keys(l) == Keys(t.left)
    ensures Flatten(a) + Flatten(PushUp(t.(left := l))) == Flatten(t)
    ensures Keys(a) + Keys(PushUp(t.(left := l))) == Keys(t)
  {
    var u := PushUp(t.(left := l));
    assert Flatten(u) == Flatten(l) + Repeat(t.data, t.repeat) + Flatten(t.right);
    assert Keys(u) == Keys(l) + {t.data} + Keys(t.right);
  }

  /** The right child split into `r` and `b`: the node with `r` as its right
      child followed by `b` lists the node. */
  lemma RightReplaced(t: FHQNode, r: FHQNode, b: FHQNode)
    requires t.Node? && Flatten(r) + Flatten(b) == Flatten(t.right) && Keys(r) + Keys(b) == Keys(t.right)
    ensures Flatten(PushUp(t.(right := r))) + Flatten(b) == Flatten(t)
    ensures Keys(PushUp(t.(right := r))) + Keys(b) == Keys(t)
  {
    var u := PushUp(t.(right := r));
    assert Flatten(u) == Flatten(t.left) + Repeat(t.data, t.repeat) + Flatten(r);
    assert Keys(u) == Keys(t.left) + {t.data} + Keys(r);
  }

  /** The left part holds exactly the keys that go left, both parts are ordered. */
  lemma {:induction false} SplitByKeySides(t: FHQNode, v: int, close: bool)
    requires Ordered(t)
    ensures Ordered(SplitByKey(t, v, close).0) && Ordered(SplitByKey(t, v, close).1)
    ensures forall k :: k in Keys(SplitByKey(t, v, close).0) ==> GoesLeft(k, v, close)
    ensures forall k :: k in Keys(SplitByKey(t, v, close).1) ==> !GoesLeft(k, v, close)
  {
    if t.Node? {
      if (!close && v <= t.data) || (close && v < t.data) {
        SplitByKeySides(t.left, v, close);
        SplitByKeyFlatten(t.left, v, close);
      } else {
        SplitByKeySides(t.right, v, close);
        SplitByKeyFlatten(t.right, v, close);
      }
    }
  }

  /** Sizes stay consistent and no empty node appears. */
  lemma {:induction false} SplitByKeyShape(t: FHQNode, v: int, close: bool)
    ensures SizesOk(t) ==> SizesOk(SplitByKey(t, v, close).0) && SizesOk(SplitByKey(t, v, close).1)
    ensures RepeatsPositive(t) ==>
      RepeatsPositive(SplitByKey(t, v, close).0) && RepeatsPositive(SplitByKey(t, v, close).1)
  {
    if t.Node? {
      if (!close && v <= t.data) || (close && v < t.data) {
        SplitByKeyShape(t.left, v, close);
      } else {
        SplitByKeyShape(t.right, v, close);
      }
    }
  }

  /** Both parts are heaps, and a bound on the tree's priorities bounds both. */
  lemma {:induction false} SplitByKeyHeap(t: FHQNode, v: int, close: bool, b: int)
    requires HeapOrdered(t)
    ensures HeapOrdered(SplitByKey(t, v, close).0) && HeapOrdered(SplitByKey(t, v, close).1)
    ensures AtLeast(t, b) ==> AtLeast(SplitByKey(t, v, close).0, b) && AtLeast(SplitByKey(t, v, close).1, b)
  {
    if t.Node? {
      if (!close && v <= t.data) || (close && v < t.data) {
        SplitByKeyHeap(t.left, v, close, t.info);
        if AtLeast(t, b) {
          SplitByKeyHeap(t.left, v, close, b);
        }
      } else {
        SplitByKeyHeap(t.right, v, close, t.info);
        if AtLeast(t, b) {
          SplitByKeyHeap(t.right, v, close, b);
        }
      }
    }
  }

  // ---------------------------------------------------------------------
  // splitBySize

  lemma {:induction false} SplitBySizeFlatten(t: FHQNode, k: int)
    ensures Flatten(SplitBySize(t, k).0) + Flatten(SplitBySize(t, k).1) == Flatten(t)
  {
    if t.Node? && 0 < k < t.size {
      if k <= Size(t.left) {
        SplitBySizeFlatten(t.left, k);
      } else {
        SplitBySizeFlatten(t.right, k - Size(t.left) - t.repeat);
      }
    }
  }

  lemma {:induction false} SplitBySizeKeys(t: FHQNode, k: int)
    ensures Keys(SplitBySize(t, k).0) + Keys(SplitBySize(t, k).1) == Keys(t)
  {
    if t.Node? && 0 < k < t.size {
      if k <= Size(t.left) {
        SplitBySizeKeys(t.left, k);
      } else {
        SplitBySizeKeys(t.right, k - Size(t.left) - t.repeat);
      }
    }
  }

  /** Both parts are ordered and every key of the first is below every key of the second. */
  lemma {:induction false} SplitBySizeSides(t: FHQNode, k: int)
    requires Ordered(t)
    ensures Ordered(SplitBySize(t, k).0) && Ordered(SplitBySize(t, k).1)
    ensures Separated(SplitBySize(t, k).0, SplitBySize(t, k).1)
  {
    if t.Node? && 0 < k < t.size {
      if k <= Size(t.left) {
        SplitBySizeSides(t.left, k);
        SplitBySizeKeys(t.left, k);
        LeftPartOrdered(t, SplitBySize(t.left, k).0, SplitBySize(t.left, k).1);
      } else {
        var j := k - Size(t.left) - t.repeat;
        SplitBySizeSides(t.right, j);
        SplitBySizeKeys(t.right, j);
        RightPartOrdered(t, SplitBySize(t.right, j).0, SplitBySize(t.right, j).1);
      }
    }
  }

  /** A node that keeps its right subtree and takes the upper part of a
      split of its left subtree stays ordered and above the lower part. */
  lemma LeftPartOrdered(t: FHQNode, a: FHQNode, b: FHQNode)
    requires t.Node? && Ordered(t) && Ordered(a) && Ordered(b) && Separated(a, b)
    requires Keys(a) + Keys(b) == Keys(t.left)
    ensures Ordered(PushUp(t.(left := b))) && Separated(a, PushUp(t.(left := b)))
  {
  }

  lemma RightPartOrdered(t: FHQNode, a: FHQNode, b: FHQNode)
    requires t.Node? && Ordered(t) && Ordered(a) && Ordered(b) && Separated(a, b)
    requires Keys(a) + Keys(b) == Keys(t.right)
    ensures Ordered(PushUp(t.(right := a))) && Separated(PushUp(t.(right := a)), b)
  {
  }

  lemma {:induction false} SplitBySizeShape(t: FHQNode, k: int)
    ensures SizesOk(t) ==> SizesOk(SplitBySize(t, k).0) && SizesOk(SplitBySize(t, k).1)
    ensures RepeatsPositive(t) ==> RepeatsPositive(SplitBySize(t, k).0) && RepeatsPositive(SplitBySize(t, k).1)
  {
    if t.Node? && 0 < k < t.size {
      if k <= Size(t.left) {
        SplitBySizeShape(t.left, k);
      } else {
        SplitBySizeShape(t.right, k - Size(t.left) - t.repeat);
      }
    }
  }

  lemma {:induction false} SplitBySizeHeap(t: FHQNode, k: int, b: int)
    requires HeapOrdered(t)
    ensures HeapOrdered(SplitBySize(t, k).0) && HeapOrdered(SplitBySize(t, k).1)
    ensures AtLeast(t, b) ==> AtLeast(SplitBySize(t, k).0, b) && AtLeast(SplitBySize(t, k).1, b)
  {
    if t.Node? && 0 < k < t.size {
      var j := if k <= Size(t.left) then k else k - Size(t.left) - t.repeat;
      var child := if k <= Size(t.left) then t.left else t.right;
      SplitBySizeHeap(child, j, t.info);
      if AtLeast(t, b) {
        SplitBySizeHeap(child, j, b);
      }
    }
  }

  /** The largest key of the left part is the entry at position `k` of the
      listing, or the last entry when `k` passes the end; the left part is
      empty exactly when `k` is not positive or the tree is empty. */
  lemma {:induction false} SplitBySizeSelect(t: FHQNode, k: int)
    requires SizesOk(t) && RepeatsPositive(t)
    ensures var a := SplitBySize(t, k).0;
      (if a.Nil? then NoSuchElement else Ok(MaxNode(a).data))
        == SelectIn(Flatten(t), if k < |Flatten(t)| then k else |Flatten(t)|)
    decreases NodeCount(t), 1
  {
    PositiveIsNonNegative(t);
    FlattenLength(t);
    if t.Node? && k > 0 {
      if k >= t.size {
        LastIsMax(t);
      } else if k <= Size(t.left) {
        SelectLeftStep(t, k);
      } else {
        SelectRightStep(t, k);
      }
    }
  }

  lemma SelectLeftStep(t: FHQNode, k: int)
    requires t.Node? && SizesOk(t) && RepeatsPositive(t) && RepeatsNonNegative(t)
    requires |Flatten(t)| == t.size && 0 < k < t.size && k <= Size(t.left)
    ensures var a := SplitBySize(t, k).0;
      (if a.Nil? then NoSuchElement else Ok(MaxNode(a).data)) == SelectIn(Flatten(t), k)
    decreases NodeCount(t), 0
  {
    SplitBySizeSelect(t.left, k);
    FlattenLength(t.left);
    assert Flatten(t) == Flatten(t.left) + (Repeat(t.data, t.repeat) + Flatten(t.right));
  }

  lemma SelectRightStep(t: FHQNode, k: int)
    requires t.Node? && SizesOk(t) && RepeatsPositive(t) && RepeatsNonNegative(t)
    requires |Flatten(t)| == t.size && 0 < k < t.size && Size(t.left) < k
    ensures var a := SplitBySize(t, k).0;
      (if a.Nil? then NoSuchElement else Ok(MaxNode(a).data)) == SelectIn(Flatten(t), k)
    decreases NodeCount(t), 0
  {
    var j := k - Size(t.left) - t.repeat;
    SplitBySizeSelect(t.right, j);
    FlattenLength(t.left);
    FlattenLength(t.right);
    var front := Flatten(t.left) + Repeat(t.data, t.repeat);
    assert Flatten(t) == front + Flatten(t.right);
    if j > 0 {
      assert Flatten(t)[k - 1] == Flatten(t.right)[j - 1];
    } else {
      assert Flatten(t)[k - 1] == front[k - 1] == t.data;
    }
  }

  // ---------------------------------------------------------------------
  // merge

  /** The merged tree lists the first tree's values, then the second's. */
  lemma {:induction false} MergeFlatten(a: FHQNode, b: FHQNode)
    ensures Flatten(Merge(a, b)) == Flatten(a) + Flatten(b)
    ensures Keys(Merge(a, b)) == Keys(a) + Keys(b)
    decreases NodeCount(a) + NodeCount(b)
  {
    if a.Node? && b.Node? {
      if a.info < b.info {
        MergeFlatten(a.right, b);
        assert Merge(a, b) == PushUp(a.(right := Merge(a.right, b)));
        RightJoined(a, Merge(a.right, b), b);
      } else {
        MergeFlatten(a, b.left);
        assert Merge(a, b) == PushUp(b.(left := Merge(a, b.left)));
        LeftJoined(b, Merge(a, b.left), a);
      }
    }
  }

  /** A node whose right child now lists its old right child followed by `b`
      lists itself followed by `b`. */
  lemma RightJoined(t: FHQNode, m: FHQNode, b: FHQNode)
    requires t.Node? && Flatten(m) == Flatten(t.right) + Flatten(b) && Keys(m) == Keys(t.right) + Keys(b)
    ensures Flatten(PushUp(t.(right := m))) == Flatten(t) + Flatten(b)
    ensures Keys(PushUp(t.(right := m))) == Keys(t) + Keys(b)
  {
    var u := PushUp(t.(right := m));
    assert Flatten(u) == Flatten(t.left) + Repeat(t.data, t.repeat) + Flatten(m);
    assert Keys(u) == Keys(t.left) + {t.data} + Keys(m);
  }

  /** A node whose left child now lists `a` followed by its old left child
      lists `a` followed by itself. */
  lemma LeftJoined(t: FHQNode, m: FHQNode, a: FHQNode)
    requires t.Node? && Flatten(m) == Flatten(a) + Flatten(t.left) && Keys(m) == Keys(a) + Keys(t.left)
    ensures Flatten(PushUp(t.(left := m))) == Flatten(a) + Flatten(t)
    ensures Keys(PushUp(t.(left := m))) == Keys(a) + Keys(t)
  {
    var u := PushUp(t.(left := m));
    assert Flatten(u) == Flatten(m) + Repeat(t.data, t.repeat) + Flatten(t.right);
    assert Keys(u) == Keys(m) + {t.data} + Keys(t.right);
  }

  /** Merging two ordered trees whose keys do not interleave gives an ordered tree. */
  lemma {:induction false} MergeOrdered(a: FHQNode, b: FHQNode)
    requires Ordered(a) && Ordered(b) && Separated(a, b)
    ensures Ordered(Merge(a, b))
    decreases NodeCount(a) + NodeCount(b)
  {
    if a.Node? && b.Node? {
      if a.info < b.info {
        forall x, y | x in Keys(a.right) && y in Keys(b) ensures x < y {
          assert x in Keys(a);
        }
        forall y | y in Keys(b) ensures a.data < y {
          assert a.data in Keys(a);
        }
        MergeOrdered(a.right, b);
        MergeFlatten(a.right, b);
      } else {
        forall x, y | x in Keys(a) && y in Keys(b.left) ensures x < y {
          assert y in Keys(b);
        }
        forall x | x in Keys(a) ensures x < b.data {
          assert b.data in Keys(b);
        }
        MergeOrdered(a, b.left);
        MergeFlatten(a, b.left);
      }
    }
  }

  lemma {:induction false} MergeShape(a: FHQNode, b: FHQNode)
    ensures SizesOk(a) && SizesOk(b) ==> SizesOk(Merge(a, b))
    ensures RepeatsPositive(a) && RepeatsPositive(b) ==> RepeatsPositive(Merge(a, b))
    decreases NodeCount(a) + NodeCount(b)
  {
    if a.Node? && b.Node? {
      if a.info < b.info {
        MergeShape(a.right, b);
      } else {
        MergeShape(a, b.left);
      }
    }
  }

  /** Merging two heaps gives a heap, within any bound both respect. */
  lemma {:induction false} MergeHeap(a: FHQNode, b: FHQNode, c: int)
    requires HeapOrdered(a) && HeapOrdered(b)
    ensures HeapOrdered(Merge(a, b))
    ensures AtLeast(a, c) && AtLeast(b, c) ==> AtLeast(Merge(a, b), c)
    decreases NodeCount(a) + NodeCount(b)
  {
    if a.Node? && b.Node? {
      if a.info < b.info {
        HeapRootIsLeast(b);
        AtLeastMono(b, a.info, b.info);
        MergeHeap(a.right, b, a.info);
        if AtLeast(a, c) && AtLeast(b, c) {
          MergeHeap(a.right, b, c);
        }
      } else {
        HeapRootIsLeast(a);
        AtLeastMono(a, b.info, a.info);
        MergeHeap(a, b.left, b.info);
        if AtLeast(a, c) && AtLeast(b, c) {
          MergeHeap(a, b.left, c);
        }
      }
    }
  }

  /** Merging two treaps whose keys do not interleave gives a treap
      listing the first one's values, then the second one's. */
  lemma MergeValid(a: FHQNode, b: FHQNode)
    requires IsTreap(a) && IsTreap(b) && Separated(a, b)
    ensures IsTreap(Merge(a, b))
    ensures Flatten(Merge(a, b)) == Flatten(a) + Flatten(b) && Keys(Merge(a, b)) == Keys(a) + Keys(b)
  {
    MergeOrdered(a, b);
    MergeShape(a, b);
    MergeHeap(a, b, 0);
    MergeFlatten(a, b);
  }

  /** Splitting a treap by key gives two treaps, the first holding exactly
      the keys that go left. */
  lemma SplitByKeyParts(t: FHQNode, v: int, close: bool) returns (a: FHQNode, b: FHQNode)
    requires IsTreap(t)
    ensures (a, b) == SplitByKey(t, v, close)
    ensures IsTreap(a) && IsTreap(b) && Separated(a, b)
    ensures Flatten(a) + Flatten(b) == Flatten(t) && Keys(a) + Keys(b) == Keys(t)
    ensures forall k :: k in Keys(a) ==> GoesLeft(k, v, close)
    ensures forall k :: k in Keys(b) ==> !GoesLeft(k, v, close)
  {
    a, b := SplitByKey(t, v, close).0, SplitByKey(t, v, close).1;
    SplitByKeySides(t, v, close);
    SplitByKeyShape(t, v, close);
    SplitByKeyHeap(t, v, close, 0);
    SplitByKeyFlatten(t, v, close);
  }

  /** Splitting a treap by size gives two treaps whose keys do not interleave. */
  lemma SplitBySizeParts(t: FHQNode, k: int) returns (a: FHQNode, b: FHQNode)
    requires IsTreap(t)
    ensures (a, b) == SplitBySize(t, k)
    ensures IsTreap(a) && IsTreap(b) && Separated(a, b)
    ensures Flatten(a) + Flatten(b) == Flatten(t)
  {
    a, b := SplitBySize(t, k).0, SplitBySize(t, k).1;
    SplitBySizeSides(t, k);
    SplitBySizeShape(t, k);
    SplitBySizeHeap(t, k, 0);
    SplitBySizeFlatten(t, k);
  }

  /** Every read re-merges the parts of its split: the tree stays a treap
      and lists the same values. */
  lemma RemergeByKey(t: FHQNode, v: int, close: bool)
    requires IsTreap(t)
    ensures IsTreap(Merge(SplitByKey(t, v, close).0, SplitByKey(t, v, close).1))
    ensures Flatten(Merge(SplitByKey(t, v, close).0, SplitByKey(t, v, close).1)) == Flatten(t)
  {
    var a, b := SplitByKeyParts(t, v, close);
    MergeValid(a, b);
  }

  lemma RemergeBySize(t: FHQNode, k: int)
    requires IsTreap(t)
    ensures IsTreap(Merge(SplitBySize(t, k).0, SplitBySize(t, k).1))
    ensures Flatten(Merge(SplitBySize(t, k).0, SplitBySize(t, k).1)) == Flatten(t)
  {
    var a, b := SplitBySizeParts(t, k);
    MergeValid(a, b);
  }

  // ---------------------------------------------------------------------
  // The reads: rank, select, predecessor, successor

  /** A list whose every entry goes left is counted whole ... */
  lemma {:induction false} CountWhole(s: seq<int>, v: int, close: bool)
    requires forall y :: y in s ==> GoesLeft(y, v, close)
    ensures (if close then CountAtMost(s, v) else CountBelow(s, v)) == |s|
  {
    if s != [] {
      assert s[0] in s;
      assert forall y :: y in s[1..] ==> y in s;
      CountWhole(s[1..], v, close);
    }
  }

  /** ... and one whose every entry goes right is not counted at all. */
  lemma {:induction false} CountNone(s: seq<int>, v: int, close: bool)
    requires forall y :: y in s ==> !GoesLeft(y, v, close)
    ensures (if close then CountAtMost(s, v) else CountBelow(s, v)) == 0
  {
    if s != [] {
      assert s[0] in s;
      assert forall y :: y in s[1..] ==> y in s;
      CountNone(s[1..], v, close);
    }
  }

  /** When the first part holds exactly the keys that go left, it is as
      long as the count of values below `v` (at most `v` when `close`). */
  lemma PartCounts(t: FHQNode, a: FHQNode, b: FHQNode, v: int, close: bool)
    requires Flatten(a) + Flatten(b) == Flatten(t)
    requires forall k :: k in Keys(a) ==> GoesLeft(k, v, close)
    requires forall k :: k in Keys(b) ==> !GoesLeft(k, v, close)
    ensures |Flatten(a)| == (if close then CountAtMost(Flatten(t), v) else CountBelow(Flatten(t), v))
  {
    FlattenInKeys(a);
    FlattenInKeys(b);
    CountWhole(Flatten(a), v, close);
    CountNone(Flatten(b), v, close);
    CountBelowAppend(Flatten(a), Flatten(b), v);
  }

  /** rank(v) is one more than the size of the part below `v`. */
  lemma RankBySplit(t: FHQNode, v: int)
    requires IsTreap(t)
    ensures var a := SplitByKey(t, v, false).0;
      (if a.Nil? then 1 else a.size + 1) == Rank(Elems(t), v)
  {
    var a, b := SplitByKeyParts(t, v, false);
    PartCounts(t, a, b, v, false);
    PositiveIsNonNegative(a);
    FlattenLength(a);
    ListingIsFlatten(t);
  }

  /** The largest key of the first part is the last of its values, which
      is the entry of the whole listing just before the second part. */
  lemma LastOfFirstPart(t: FHQNode, a: FHQNode, b: FHQNode, c: int)
    requires RepeatsPositive(a) && Flatten(a) + Flatten(b) == Flatten(t) && c == |Flatten(a)|
    ensures a.Nil? <==> c == 0
    ensures a.Node? ==> 0 < c <= |Flatten(t)| && Flatten(t)[c - 1] == MaxNode(a).data
  {
    if a.Node? {
      LastIsMax(a);
      assert Flatten(t)[c - 1] == Flatten(a)[c - 1];
    }
  }

  /** The smallest key of the second part is the first of its values,
      which is the entry of the whole listing just after the first part. */
  lemma FirstOfSecondPart(t: FHQNode, a: FHQNode, b: FHQNode, c: int)
    requires RepeatsPositive(b) && Flatten(a) + Flatten(b) == Flatten(t) && c == |Flatten(a)|
    ensures b.Nil? <==> c == |Flatten(t)|
    ensures b.Node? ==> 0 <= c < |Flatten(t)| && Flatten(t)[c] == MinNode(b).data
  {
    if b.Node? {
      FirstIsMin(b);
      assert Flatten(t)[c] == Flatten(b)[0];
    }
  }

  /** predecessor(v) is the largest key of the part below `v`, and fails
      when that part is empty. */
  lemma PredecessorBySplit(t: FHQNode, v: int)
    requires IsTreap(t)
    ensures var a := SplitByKey(t, v, false).0;
      (if a.Nil? then NoSuchElement else Ok(MaxNode(a).data)) == Predecessor(Elems(t), v)
  {
    var a, b := SplitByKeyParts(t, v, false);
    PartCounts(t, a, b, v, false);
    LastOfFirstPart(t, a, b, |Flatten(a)|);
    ListingIsFlatten(t);
  }

  /** successor(v) is the smallest key of the part above `v`, and fails
      when that part is empty. */
  lemma SuccessorBySplit(t: FHQNode, v: int)
    requires IsTreap(t)
    ensures var b := SplitByKey(t, v, true).1;
      (if b.Nil? then NoSuchElement else Ok(MinNode(b).data)) == Successor(Elems(t), v)
  {
    var a, b := SplitByKeyParts(t, v, true);
    PartCounts(t, a, b, v, true);
    FirstOfSecondPart(t, a, b, |Flatten(a)|);
    ListingIsFlatten(t);
  }

  /** As written, select(k) answers the k-th smallest value, but the
      largest one when `k` passes the number of values stored. */
  lemma SelectBySize(t: FHQNode, k: int)
    requires IsSearchTree(t)
    ensures var a := SplitBySize(t, k).0;
      (if a.Nil? then NoSuchElement else Ok(MaxNode(a).data))
        == Select(Elems(t), if k < |Elems(t)| then k else |Elems(t)|)
  {
    SplitBySizeSelect(t, k);
    ListingIsFlatten(t);
    assert |Elems(t)| == |Flatten(t)|;
  }

  /** With one value stored, select(2) answers that value, where the
      shared interface fails. */
  lemma SelectPastEnd()
    ensures var t: FHQNode := Node(Nil, 5, 1, 1, 0, Nil);
      SplitBySize(t, 2).0 == t && MaxNode(t).data == 5 && Select(Elems(t), 2) == NoSuchElement
  {
    var t: FHQNode := Node(Nil, 5, 1, 1, 0, Nil);
    ListingIsFlatten(t);
    assert |Flatten(t)| == 1;
  }

  /** Corrected select: the same split, failing also when `k` passes the
      number of values stored, answers exactly the k-th smallest value. */
  lemma SelectCheckedBySize(t: FHQNode, k: int)
    requires IsSearchTree(t)
    ensures var a := SplitBySize(t, k).0;
      (if a.Nil? || k > Size(t) then NoSuchElement else Ok(MaxNode(a).data)) == Select(Elems(t), k)
  {
    PositiveIsNonNegative(t);
    FlattenLength(t);
    ListingIsFlatten(t);
    assert |Elems(t)| == Size(t);
    if k > Size(t) {
      assert Select(Elems(t), k) == NoSuchElement;
    } else {
      SelectBySize(t, k);
    }
  }

  // ---------------------------------------------------------------------
  // insert and delete

  /** An ordered tree whose keys all equal `v` is a single node. */
  lemma SingleKey(c: FHQNode, v: int)
    requires c.Node? && Ordered(c) && forall k :: k in Keys(c) ==> k == v
    ensures c.left.Nil? && c.right.Nil? && c.data == v
  {
    assert c.data in Keys(c);
    assert Keys(c.left) <= Keys(c) && Keys(c.right) <= Keys(c);
    assert v !in Keys(c.left) && v !in Keys(c.right);
    assert Keys(c.left) == {} && Keys(c.right) == {};
  }

  /** The carve lists the tree's values: below `v`, equal, above `v`. */
  lemma CarveFlatten(t: FHQNode, v: int)
    ensures var p := Carve(t, v);
      Flatten(p.0) + (Flatten(p.1) + Flatten(p.2)) == Flatten(t) && Keys(p.0) + Keys(p.1) + Keys(p.2) == Keys(t)
  {
    SplitByKeyFlatten(t, v, false);
    SplitByKeyFlatten(SplitByKey(t, v, false).1, v, true);
  }

  /** The three parts are ordered and hold the keys below `v`, only `v`
      (in one node at most) and the keys above `v`. */
  lemma CarveOrder(t: FHQNode, v: int)
    requires Ordered(t)
    ensures var p := Carve(t, v);
      Ordered(p.0) && Ordered(p.1) && Ordered(p.2) &&
      (forall k :: k in Keys(p.0) ==> k < v) &&
      (forall k :: k in Keys(p.1) ==> k == v) &&
      (forall k :: k in Keys(p.2) ==> v < k) &&
      (p.1.Node? ==> p.1.left.Nil? && p.1.right.Nil? && p.1.data == v)
  {
    var rest := SplitByKey(t, v, false).1;
    SplitByKeySides(t, v, false);
    SplitByKeyFlatten(rest, v, true);
    SplitByKeySides(rest, v, true);
    var c := SplitByKey(rest, v, true).0;
    if c.Node? {
      SingleKey(c, v);
    }
  }

  /** The equal part is absent or a single node holding `v`. */
  lemma CarveMiddle(t: FHQNode, v: int)
    requires IsTreap(t)
    ensures var c := Carve(t, v).1;
      c.Nil? || (c.left.Nil? && c.right.Nil? && c.data == v && c.repeat >= 1)
  {
    CarveOrder(t, v);
    CarveShape(t, v);
  }

  lemma CarveShape(t: FHQNode, v: int)
    ensures var p := Carve(t, v);
      (SizesOk(t) ==> SizesOk(p.0) && SizesOk(p.1) && SizesOk(p.2)) &&
      (RepeatsPositive(t) ==> RepeatsPositive(p.0) && RepeatsPositive(p.1) && RepeatsPositive(p.2))
  {
    SplitByKeyShape(t, v, false);
    SplitByKeyShape(SplitByKey(t, v, false).1, v, true);
  }

  lemma CarveHeap(t: FHQNode, v: int)
    requires HeapOrdered(t)
    ensures var p := Carve(t, v);
      HeapOrdered(p.0) && HeapOrdered(p.1) && HeapOrdered(p.2)
  {
    SplitByKeyHeap(t, v, false, 0);
    SplitByKeyHeap(SplitByKey(t, v, false).1, v, true, 0);
  }

  /** Merging back three parts whose keys are in increasing order. */
  lemma MergeThreeOrdered(a: FHQNode, m: FHQNode, d: FHQNode, v: int)
    requires Ordered(a) && Ordered(m) && Ordered(d)
    requires forall k :: k in Keys(a) ==> k < v
    requires forall k :: k in Keys(m) ==> k == v
    requires forall k :: k in Keys(d) ==> v < k
    ensures Ordered(Merge(a, Merge(m, d)))
  {
    MergeOrdered(m, d);
    MergeFlatten(m, d);
    MergeOrdered(a, Merge(m, d));
  }

  lemma MergeThreeFlatten(a: FHQNode, m: FHQNode, d: FHQNode)
    ensures Flatten(Merge(a, Merge(m, d))) == Flatten(a) + (Flatten(m) + Flatten(d))
  {
    MergeFlatten(m, d);
    MergeFlatten(a, Merge(m, d));
  }

  lemma MergeThreeShape(a: FHQNode, m: FHQNode, d: FHQNode)
    ensures SizesOk(a) && SizesOk(m) && SizesOk(d) ==> SizesOk(Merge(a, Merge(m, d)))
    ensures RepeatsPositive(a) && RepeatsPositive(m) && RepeatsPositive(d) ==>
      RepeatsPositive(Merge(a, Merge(m, d)))
  {
    MergeShape(m, d);
    MergeShape(a, Merge(m, d));
  }

  lemma MergeThreeHeap(a: FHQNode, m: FHQNode, d: FHQNode)
    requires HeapOrdered(a) && HeapOrdered(m) && HeapOrdered(d)
    ensures HeapOrdered(Merge(a, Merge(m, d)))
  {
    MergeHeap(m, d, 0);
    MergeHeap(a, Merge(m, d), 0);
  }

  /** The node insert merges between the outer parts: the equal part with
      one more copy, or a new node. */
  ghost function Grown(c: FHQNode, v: int, index: int): FHQNode {
    if c.Node? then Enlarge(c) else Node(Nil, v, 1, 1, index, Nil)
  }

  lemma GrownFlatten(c: FHQNode, v: int, index: int)
    requires c.Nil? || (c.left.Nil? && c.right.Nil? && c.data == v && c.repeat >= 0)
    ensures Flatten(Grown(c, v, index)) == [v] + Flatten(c) && Keys(Grown(c, v, index)) == {v}
  {
  }

  lemma InsertUnfold(t: FHQNode, v: int, index: int)
    ensures var p := Carve(t, v);
      InsertInto(t, v, index) == Merge(p.0, Merge(Grown(p.1, v, index), p.2))
  {
  }

  /** insert lists the values below `v`, one copy of `v` more than the
      tree held, and the values above `v`. */
  lemma InsertFlatten(t: FHQNode, v: int, index: int)
    requires IsTreap(t)
    ensures var p := Carve(t, v);
      Flatten(t) == Flatten(p.0) + (Flatten(p.1) + Flatten(p.2)) &&
      Flatten(InsertInto(t, v, index)) == Flatten(p.0) + ([v] + (Flatten(p.1) + Flatten(p.2)))
  {
    var p := Carve(t, v);
    CarveFlatten(t, v);
    CarveMiddle(t, v);
    InsertUnfold(t, v, index);
    GrownMergeFlatten(p.0, p.1, p.2, v, index);
  }

  lemma GrownMergeFlatten(a: FHQNode, c: FHQNode, d: FHQNode, v: int, index: int)
    requires c.Nil? || (c.left.Nil? && c.right.Nil? && c.data == v && c.repeat >= 0)
    ensures Flatten(Merge(a, Merge(Grown(c, v, index), d))) == Flatten(a) + ([v] + (Flatten(c) + Flatten(d)))
  {
    var g := Grown(c, v, index);
    GrownFlatten(c, v, index);
    MergeThreeFlatten(a, g, d);
    assert Flatten(g) + Flatten(d) == [v] + (Flatten(c) + Flatten(d));
  }

  /** insert adds exactly one copy of `v`. */
  lemma InsertElems(t: FHQNode, v: int, index: int)
    requires IsTreap(t)
    ensures Elems(InsertInto(t, v, index)) == Elems(t) + multiset{v}
  {
    InsertFlatten(t, v, index);
    var p := Carve(t, v);
    AddOne(Flatten(p.0), Flatten(p.1) + Flatten(p.2), v);
  }

  lemma AddOne(a: seq<int>, r: seq<int>, v: int)
    ensures multiset(a + ([v] + r)) == multiset(a + r) + multiset{v}
  {
    assert multiset(a + ([v] + r)) == multiset(a) + multiset([v]) + multiset(r);
  }

  /** insert keeps the search-tree order, the sizes and the heap order. */
  lemma InsertValid(t: FHQNode, v: int, index: int)
    requires IsTreap(t)
    ensures IsTreap(InsertInto(t, v, index))
  {
    var p := Carve(t, v);
    CarveFlatten(t, v);
    CarveOrder(t, v);
    CarveShape(t, v);
    CarveHeap(t, v);
    InsertUnfold(t, v, index);
    var m := Grown(p.1, v, index);
    GrownFlatten(p.1, v, index);
    MergeThreeOrdered(p.0, m, p.2, v);
    MergeThreeShape(p.0, m, p.2);
    MergeThreeHeap(p.0, m, p.2);
  }

  /** The part delete merges between the outer parts: the equal part with
      one copy fewer, or nothing. */
  ghost function Shrunk(c: FHQNode): FHQNode {
    if c.Node? && c.repeat > 1 then Reduce(c) else Nil
  }

  lemma ShrunkFlatten(c: FHQNode, v: int)
    requires c.Nil? || (c.left.Nil? && c.right.Nil? && c.data == v && c.repeat >= 1)
    ensures Flatten(c) == (if c.Node? then [v] else []) + Flatten(Shrunk(c))
    ensures Keys(Shrunk(c)) <= {v}
  {
  }

  lemma DeleteUnfold(t: FHQNode, v: int)
    ensures var p := Carve(t, v);
      DeleteFrom(t, v) == Merge(p.0, Merge(Shrunk(p.1), p.2))
  {
  }

  /** Taking one `v` out of a three-part multiset whose outer parts lack `v`. */
  lemma DropOne(a: multiset<int>, c: multiset<int>, d: multiset<int>, m: multiset<int>, v: int)
    requires v !in a && v !in d
    requires c == multiset{v} + m || (c == m && v !in c)
    ensures a + (m + d) == (a + (c + d)) - multiset{v}
  {
    assert forall x :: (a + (m + d))[x] == ((a + (c + d)) - multiset{v})[x];
  }

  /** delete lists the values below `v`, the equal part with one copy
      fewer, and the values above `v`. */
  lemma DeleteFlatten(t: FHQNode, v: int)
    requires IsTreap(t)
    ensures var p := Carve(t, v);
      Flatten(t) == Flatten(p.0) + (Flatten(p.1) + Flatten(p.2)) &&
      Flatten(DeleteFrom(t, v)) == Flatten(p.0) + (Flatten(Shrunk(p.1)) + Flatten(p.2)) &&
      Flatten(p.1) == (if p.1.Node? then [v] else []) + Flatten(Shrunk(p.1)) &&
      v !in Flatten(p.0) && v !in Flatten(p.2)
  {
    var p := Carve(t, v);
    CarveFlatten(t, v);
    CarveOrder(t, v);
    CarveMiddle(t, v);
    DeleteUnfold(t, v);
    ShrunkFlatten(p.1, v);
    MergeThreeFlatten(p.0, Shrunk(p.1), p.2);
    FlattenInKeys(p.0);
    FlattenInKeys(p.2);
  }

  /** delete removes one copy of `v`, and changes nothing when `v` is absent. */
  lemma DeleteElems(t: FHQNode, v: int)
    requires IsTreap(t)
    ensures Elems(DeleteFrom(t, v)) == Elems(t) - multiset{v}
  {
    DeleteFlatten(t, v);
    var p := Carve(t, v);
    DropOne(multiset(Flatten(p.0)), multiset(Flatten(p.1)), multiset(Flatten(p.2)), multiset(Flatten(Shrunk(p.1))), v);
  }

  /** delete keeps the search-tree order, the sizes and the heap order. */
  lemma DeleteValid(t: FHQNode, v: int)
    requires IsTreap(t)
    ensures IsTreap(DeleteFrom(t, v))
  {
    var p := Carve(t, v);
    CarveFlatten(t, v);
    CarveOrder(t, v);
    CarveShape(t, v);
    CarveHeap(t, v);
    DeleteUnfold(t, v);
    var m := Shrunk(p.1);
    ShrunkFlatten(p.1, v);
    MergeThreeOrdered(p.0, m, p.2, v);
    MergeThreeShape(p.0, m, p.2);
    MergeThreeHeap(p.0, m, p.2);
  }

  // ---------------------------------------------------------------------
  // The tree object

  class FHQTreap {
    var root: FHQNode

    /** Search-tree order on values, min-heap order on priorities. */
    ghost predicate Valid()
      reads this
    {
      IsTreap(root)
    }

    ghost function Contents(): multiset<int>
      reads this
    {
      Elems(root)
    }

    constructor()
      ensures Valid() && Contents() == multiset{}
    {
      root := Nil;
    }

    method Clear()
      modifies this
      ensures Valid() && Contents() == multiset{}
    {
      root := Nil;
    }

    /** Adds one copy of `v`; `index` is the priority a new node gets. */
    method Insert(v: int, index: int)
      requires Valid()
      modifies this
      ensures Valid() && Contents() == old(Contents()) + multiset{v}
    {
      InsertElems(root, v, index);
      InsertValid(root, v, index);
      root := InsertInto(root, v, index);
    }

    method Delete(v: int)
      requires Valid()
      modifies this
      ensures Valid() && Contents() == old(Contents()) - multiset{v}
    {
      DeleteElems(root, v);
      DeleteValid(root, v);
      root := DeleteFrom(root, v);
    }

    method Rank(v: int) returns (r: int)
      requires Valid()
      modifies this
      ensures Valid() && Contents() == old(Contents())
      ensures r == OrderedMultiset.Rank(Contents(), v)
    {
      RankBySplit(root, v);
      RemergeByKey(root, v, false);
      var a, b := SplitByKey(root, v, false).0, SplitByKey(root, v, false).1;
      r := if a.Nil? then 1 else a.size + 1;
      root := Merge(a, b);
    }

    /** As written: a rank past the end selects the largest value. */
    method Select(k: int) returns (r: Result<int>)
      requires Valid()
      modifies this
      ensures Valid() && Contents() == old(Contents())
      ensures r == OrderedMultiset.Select(Contents(), if k < |Contents()| then k else |Contents()|)
    {
      SelectBySize(root, k);
      RemergeBySize(root, k);
      var a, b := SplitBySize(root, k).0, SplitBySize(root, k).1;
      if a.Nil? {
        r := NoSuchElement;
      } else {
        var node := GetMaxNode(a);
        r := Ok(node.value.data);
      }
      root := Merge(a, b);
    }

    /** select with the range check the other variants make: a rank past
        the end fails as well. */
    method SelectChecked(k: int) returns (r: Result<int>)
      requires Valid()
      modifies this
      ensures Valid() && Contents() == old(Contents())
      ensures r == OrderedMultiset.Select(Contents(), k)
    {
      SelectCheckedBySize(root, k);
      RemergeBySize(root, k);
      var a, b := SplitBySize(root, k).0, SplitBySize(root, k).1;
      if a.Nil? || k > Size(root) {
        r := NoSuchElement;
      } else {
        var node := GetMaxNode(a);
        r := Ok(node.value.data);
      }
      root := Merge(a, b);
    }

    method Predecessor(v: int) returns (r: Result<int>)
      requires Valid()
      modifies this
      ensures Valid() && Contents() == old(Contents())
      ensures r == OrderedMultiset.Predecessor(Contents(), v)
    {
      PredecessorBySplit(root, v);
      RemergeByKey(root, v, false);
      var a, b := SplitByKey(root, v, false).0, SplitByKey(root, v, false).1;
      if a.Nil? {
        r := NoSuchElement;
      } else {
        var node := GetMaxNode(a);
        r := Ok(node.value.data);
      }
      root := Merge(a, b);
    }

    method Successor(v: int) returns (r: Result<int>)
      requires Valid()
      modifies this
      ensures Valid() && Contents() == old(Contents())
      ensures r == OrderedMultiset.Successor(Contents(), v)
    {
      SuccessorBySplit(root, v);
      RemergeByKey(root, v, true);
      var a, b := SplitByKey(root, v, true).0, SplitByKey(root, v, true).1;
      if b.Nil? {
        r := NoSuchElement;
      } else {
        var node := GetMinNode(b);
        r := Ok(node.value.data);
      }
      root := Merge(a, b);
    }
  }
}
