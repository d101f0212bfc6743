/**
 * Rotating treap: a search tree on the values and a max-heap on a
 * priority (`index`) fixed when a node is created. Insert rotates a child
 * with a larger priority above its parent on the way back up; delete
 * rotates a node with two children down, lifting the child of larger
 * priority, until it has at most one child.
 */
module Treap {
  import opened OrderedMultiset
  import opened SearchTree

  /** A treap node's own field is its priority. */
  type TreapNode = Tree<int>

  /** Every priority in `t` is at most `b`. */
  ghost predicate Bounded(t: TreapNode, b: int) {
    match t
    case Nil => true
    case Node(l, _, _, _, p, r) => p <= b && Bounded(l, b) && Bounded(r, b)
  }

  /** Max-heap order on priorities: no node lies below a node of smaller priority. */
  ghost predicate HeapOrdered(t: TreapNode) {
    match t
    case Nil => true
    case Node(l, _, _, _, p, r) => HeapOrdered(l) && HeapOrdered(r) && Bounded(l, p) && Bounded(r, p)
  }

  /** maintain: lift the left child when its priority exceeds the node's,
      otherwise the right child when its does, otherwise nothing. */
  function Maintain(t: TreapNode): TreapNode
    requires t.Node?
  {
    if t.left.Node? && t.left.info > t.info then RightRotate(t)
    else if t.right.Node? && t.right.info > t.info then LeftRotate(t)
    else t
  }

  /** The recursive insert(current, data); `index` is the priority a new
      node receives (a random number in the source). */
  function InsertInto(t: TreapNode, v: int, index: int): (r: TreapNode)
    ensures r.Node?
  {
    if t.Nil? then Node(Nil, v, 1, 1, index, Nil)
    else if v < t.data then Maintain(PushUp(t.(left := InsertInto(t.left, v, index))))
    else if v > t.data then Maintain(PushUp(t.(right := InsertInto(t.right, v, index))))
    else t.(size := t.size + 1, repeat := t.repeat + 1)
  }

  /** The recursive delete(current, data): a node with two children is
      rotated below the child of larger priority (the right child on a
      tie) and deleted from the subtree it lands in. */
  function DeleteFrom(t: TreapNode, v: int): TreapNode
    decreases NodeCount(t)
  {
    if t.Nil? then Nil
    else if v < t.data then PushUp(t.(left := DeleteFrom(t.left, v)))
    else if v > t.data then PushUp(t.(right := DeleteFrom(t.right, v)))
    else if t.repeat > 1 then t.(size := t.size - 1, repeat := t.repeat - 1)
    else if t.left.Nil? then t.right
    else if t.right.Nil? then t.left
    else if t.left.info > t.right.info then
      var node := RightRotate(t);
      PushUp(node.(right := DeleteFrom(node.right, v)))
    else
      var node := LeftRotate(t);
      PushUp(node.(left := DeleteFrom(node.left, v)))
  }

  // ---------------------------------------------------------------------
  // Priorities

  lemma {:induction false} BoundedMono(t: TreapNode, a: int, b: int)
    requires Bounded(t, a) && a <= b
    ensures Bounded(t, b)
  {
    if t.Node? {
      BoundedMono(t.left, a, b);
      BoundedMono(t.right, a, b);
    }
  }

  /** In a heap-ordered tree the root's priority bounds every priority. */
  lemma HeapBounded(t: TreapNode)
    requires t.Node? && HeapOrdered(t)
    ensures Bounded(t, t.info)
  {
  }

  /** Rotations move nodes together with their priorities: the new root
      carries the lifted child's priority and the old root's priority goes
      down with it. */
  lemma RotationsKeepPriorities(t: TreapNode)
    requires t.Node?
    ensures t.left.Node? ==> RightRotate(t).info == t.left.info && RightRotate(t).right.info == t.info
    ensures t.right.Node? ==> LeftRotate(t).info == t.right.info && LeftRotate(t).left.info == t.info
  {
    RotationsKeep(t);
  }

  /** insert keeps the heap order; if the new root's priority exceeds a
      bound of the old tree, the new root is the inserted node and the rest
      of the tree still keeps that bound. */
  lemma {:induction false} InsertHeap(t: TreapNode, v: int, index: int, b: int)
    requires HeapOrdered(t)
    ensures var r := InsertInto(t, v, index);
            && HeapOrdered(r)
            && (Bounded(t, b) ==> r.info <= b || (Bounded(r.left, b) && Bounded(r.right, b)))
  {
    if t.Nil? {
    } else if v < t.data {
      InsertHeap(t.left, v, index, t.info);
      InsertLeftHeap(t, v, index, b);
    } else if v > t.data {
      InsertHeap(t.right, v, index, t.info);
      InsertRightHeap(t, v, index, b);
    }
  }

  lemma InsertLeftHeap(t: TreapNode, v: int, index: int, b: int)
    requires t.Node? && v < t.data && HeapOrdered(t)
    requires var l := InsertInto(t.left, v, index);
             && HeapOrdered(l)
             && (l.info <= t.info || (Bounded(l.left, t.info) && Bounded(l.right, t.info)))
    ensures var r := InsertInto(t, v, index);
            && HeapOrdered(r)
            && (Bounded(t, b) ==> r.info <= b || (Bounded(r.left, b) && Bounded(r.right, b)))
  {
    var l := InsertInto(t.left, v, index);
    var n := PushUp(t.(left := l));
    assert InsertInto(t, v, index) == Maintain(n);
    if l.info > t.info {
      var r := RightRotate(n);
      assert r.left == l.left && r.info == l.info;
      assert r.right == PushUp(n.(left := l.right));
      BoundedMono(t.right, t.info, l.info);
      if Bounded(t, b) {
        BoundedMono(l.left, t.info, b);
        BoundedMono(l.right, t.info, b);
      }
    } else {
      HeapBounded(l);
      BoundedMono(l, l.info, t.info);
    }
  }

  lemma InsertRightHeap(t: TreapNode, v: int, index: int, b: int)
    requires t.Node? && v > t.data && HeapOrdered(t)
    requires var r := InsertInto(t.right, v, index);
             && HeapOrdered(r)
             && (r.info <= t.info || (Bounded(r.left, t.info) && Bounded(r.right, t.info)))
    ensures var r := InsertInto(t, v, index);
            && HeapOrdered(r)
            && (Bounded(t, b) ==> r.info <= b || (Bounded(r.left, b) && Bounded(r.right, b)))
  {
    var rr := InsertInto(t.right, v, index);
    var n := PushUp(t.(right := rr));
    assert InsertInto(t, v, index) == Maintain(n);
    if rr.info > t.info {
      var r := LeftRotate(n);
      assert r.right == rr.right && r.info == rr.info;
      assert r.left == PushUp(n.(right := rr.left));
      BoundedMono(t.left, t.info, rr.info);
      if Bounded(t, b) {
        BoundedMono(rr.left, t.info, b);
        BoundedMono(rr.right, t.info, b);
      }
    } else {
      HeapBounded(rr);
      BoundedMono(rr, rr.info, t.info);
    }
  }

  /** delete keeps the heap order and lowers no bound; deleting the root of
      a tree whose two subtrees keep a bound leaves a tree keeping it. */
  lemma {:induction false} DeleteHeap(t: TreapNode, v: int, b: int)
    requires HeapOrdered(t)
    ensures var r := DeleteFrom(t, v);
            && HeapOrdered(r)
            && (Bounded(t, b) ==> Bounded(r, b))
            && (t.Node? && v == t.data && t.repeat <= 1 && Bounded(t.left, b) && Bounded(t.right, b) ==> Bounded(r, b))
    decreases NodeCount(t)
  {
    if t.Nil? {
    } else if v < t.data {
      DeleteHeap(t.left, v, t.info);
      if Bounded(t, b) {
        BoundedMono(DeleteFrom(t.left, v), t.info, b);
      }
    } else if v > t.data {
      DeleteHeap(t.right, v, t.info);
      if Bounded(t, b) {
        BoundedMono(DeleteFrom(t.right, v), t.info, b);
      }
    } else if t.repeat > 1 || t.left.Nil? || t.right.Nil? {
    } else if t.left.info > t.right.info {
      var down := RightRotate(t).right;
      RotationsKeepPriorities(t);
      assert down == PushUp(t.(left := t.left.right));
      HeapBounded(t.right);
      BoundedMono(t.right, t.right.info, t.left.info);
      DeleteHeap(down, v, t.left.info);
      SinkRightHeap(t, b);
    } else {
      var down := LeftRotate(t).left;
      RotationsKeepPriorities(t);
      assert down == PushUp(t.(right := t.right.left));
      HeapBounded(t.left);
      BoundedMono(t.left, t.left.info, t.right.info);
      DeleteHeap(down, v, t.right.info);
      SinkLeftHeap(t, b);
    }
  }

  lemma SinkRightHeap(t: TreapNode, b: int)
    requires t.Node? && t.left.Node? && t.right.Node? && t.repeat <= 1 && HeapOrdered(t)
    requires t.left.info > t.right.info
    requires var down := RightRotate(t).right;
             HeapOrdered(DeleteFrom(down, t.data)) && Bounded(DeleteFrom(down, t.data), t.left.info)
    ensures var r := DeleteFrom(t, t.data);
            && HeapOrdered(r)
            && (Bounded(t, b) ==> Bounded(r, b))
            && (Bounded(t.left, b) && Bounded(t.right, b) ==> Bounded(r, b))
  {
    var rot := RightRotate(t);
    var d := DeleteFrom(rot.right, t.data);
    assert DeleteFrom(t, t.data) == PushUp(rot.(right := d));
    RotationsKeepPriorities(t);
    assert rot.left == t.left.left;
    if t.left.info <= b {
      BoundedMono(t.left.left, t.left.info, b);
      BoundedMono(d, t.left.info, b);
    }
  }

  lemma SinkLeftHeap(t: TreapNode, b: int)
    requires t.Node? && t.left.Node? && t.right.Node? && t.repeat <= 1 && HeapOrdered(t)
    requires t.left.info <= t.right.info
    requires var down := LeftRotate(t).left;
             HeapOrdered(DeleteFrom(down, t.data)) && Bounded(DeleteFrom(down, t.data), t.right.info)
    ensures var r := DeleteFrom(t, t.data);
            && HeapOrdered(r)
            && (Bounded(t, b) ==> Bounded(r, b))
            && (Bounded(t.left, b) && Bounded(t.right, b) ==> Bounded(r, b))
  {
    var rot := LeftRotate(t);
    var d := DeleteFrom(rot.left, t.data);
    assert DeleteFrom(t, t.data) == PushUp(rot.(left := d));
    RotationsKeepPriorities(t);
    assert rot.right == t.right.right;
    if t.right.info <= b {
      BoundedMono(t.right.right, t.right.info, b);
      BoundedMono(d, t.right.info, b);
    }
  }

  // ---------------------------------------------------------------------
  // Contents and order

  /** maintain only rotates: listing, keys, order, repeat counts and sizes kept. */
  lemma MaintainKeeps(t: TreapNode)
    requires t.Node?
    ensures Rearranged(t, Maintain(t))
  {
    if t.left.Node? && t.left.info > t.info {
      RightRotateRearranges(t);
    } else if t.right.Node? && t.right.info > t.info {
      LeftRotateRearranges(t);
    }
  }

  /** pushUp then maintain after a child was replaced. */
  lemma Rebuilt(t: TreapNode)
    requires t.Node?
    ensures var u := Maintain(PushUp(t));
            && Elems(u) == Elems(t.left) + multiset(Repeat(t.data, t.repeat)) + Elems(t.right)
            && Keys(u) == Keys(t.left) + {t.data} + Keys(t.right)
            && (Ordered(t) ==> Ordered(u))
            && (RepeatsPositive(t) ==> RepeatsPositive(u))
            && (SizesOk(t.left) && SizesOk(t.right) ==> SizesOk(u))
  {
    var n := PushUp(t);
    PushUpKeeps(t);
    MaintainKeeps(n);
    ElemsOfNode(n);
  }

  /** insert adds exactly one copy of `v`, whatever the priority. */
  lemma {:induction false} InsertElems(t: TreapNode, v: int, index: int)
    requires RepeatsNonNegative(t)
    ensures Elems(InsertInto(t, v, index)) == Elems(t) + multiset{v}
  {
    if t.Nil? {
    } else if v < t.data {
      InsertElems(t.left, v, index);
      InsertLeftElems(t, v, index);
    } else if v > t.data {
      InsertElems(t.right, v, index);
      InsertRightElems(t, v, index);
    } else {
      var u := InsertInto(t, v, index);
      assert Repeat(t.data, t.repeat + 1) == [t.data] + Repeat(t.data, t.repeat);
      ElemsOfNode(u);
      ElemsOfNode(t);
    }
  }

  lemma InsertLeftElems(t: TreapNode, v: int, index: int)
    requires t.Node? && v < t.data
    requires Elems(InsertInto(t.left, v, index)) == Elems(t.left) + multiset{v}
    ensures Elems(InsertInto(t, v, index)) == Elems(t) + multiset{v}
  {
    Rebuilt(t.(left := InsertInto(t.left, v, index)));
    ElemsOfNode(t);
  }

  lemma InsertRightElems(t: TreapNode, v: int, index: int)
    requires t.Node? && v > t.data
    requires Elems(InsertInto(t.right, v, index)) == Elems(t.right) + multiset{v}
    ensures Elems(InsertInto(t, v, index)) == Elems(t) + multiset{v}
  {
    Rebuilt(t.(right := InsertInto(t.right, v, index)));
    ElemsOfNode(t);
  }

  /** insert adds the key `v` and no other. */
  lemma {:induction false} InsertKeys(t: TreapNode, v: int, index: int)
    ensures Keys(InsertInto(t, v, index)) == Keys(t) + {v}
  {
    if t.Nil? {
    } else if v < t.data {
      InsertKeys(t.left, v, index);
      Rebuilt(t.(left := InsertInto(t.left, v, index)));
    } else if v > t.data {
      InsertKeys(t.right, v, index);
      Rebuilt(t.(right := InsertInto(t.right, v, index)));
    }
  }

  /** insert keeps a search tree. */
  lemma {:induction false} InsertSearch(t: TreapNode, v: int, index: int)
    requires IsSearchTree(t)
    ensures IsSearchTree(InsertInto(t, v, index))
  {
    if t.Nil? {
    } else if v < t.data {
      InsertSearch(t.left, v, index);
      InsertKeys(t.left, v, index);
      InsertLeftSearch(t, v, index);
    } else if v > t.data {
      InsertSearch(t.right, v, index);
      InsertKeys(t.right, v, index);
      InsertRightSearch(t, v, index);
    }
  }

  lemma InsertLeftSearch(t: TreapNode, v: int, index: int)
    requires t.Node? && v < t.data && IsSearchTree(t)
    requires var l := InsertInto(t.left, v, index); IsSearchTree(l) && Keys(l) == Keys(t.left) + {v}
    ensures IsSearchTree(InsertInto(t, v, index))
  {
    var w := t.(left := InsertInto(t.left, v, index));
    assert Ordered(w);
    Rebuilt(w);
  }

  lemma InsertRightSearch(t: TreapNode, v: int, index: int)
    requires t.Node? && v > t.data && IsSearchTree(t)
    requires var r := InsertInto(t.right, v, index); IsSearchTree(r) && Keys(r) == Keys(t.right) + {v}
    ensures IsSearchTree(InsertInto(t, v, index))
  {
    var w := t.(right := InsertInto(t.right, v, index));
    assert Ordered(w);
    Rebuilt(w);
  }

  /** delete removes one copy of `v`, and nothing when `v` is absent. */
  lemma {:induction false} DeleteElems(t: TreapNode, v: int)
    requires IsSearchTree(t)
    ensures Elems(DeleteFrom(t, v)) == Elems(t) - multiset{v}
    decreases NodeCount(t)
  {
    if t.Nil? {
    } else if v < t.data {
      DeleteElems(t.left, v);
      LeftReplacedElems(t, DeleteFrom(t, v), v);
    } else if v > t.data {
      DeleteElems(t.right, v);
      RightReplacedElems(t, DeleteFrom(t, v), v);
    } else if t.repeat > 1 {
      ReduceElems(t);
    } else if t.left.Nil? || t.right.Nil? {
      SpliceElems(t);
    } else if t.left.info > t.right.info {
      RightRotateRearranges(t);
      DeleteElems(RightRotate(t).right, v);
      SinkRightElems(t);
    } else {
      LeftRotateRearranges(t);
      DeleteElems(LeftRotate(t).left, v);
      SinkLeftElems(t);
    }
  }

  lemma ReduceElems(t: TreapNode)
    requires t.Node? && t.repeat > 1
    ensures Elems(DeleteFrom(t, t.data)) == Elems(t) - multiset{t.data}
  {
    var u := DeleteFrom(t, t.data);
    assert Repeat(t.data, t.repeat) == [t.data] + Repeat(t.data, t.repeat - 1);
    ElemsOfNode(u);
    ElemsOfNode(t);
  }

  lemma SpliceElems(t: TreapNode)
    requires t.Node? && t.repeat == 1 && (t.left.Nil? || t.right.Nil?)
    ensures Elems(DeleteFrom(t, t.data)) == Elems(t) - multiset{t.data}
  {
    assert Repeat(t.data, 1) == [t.data];
    ElemsOfNode(t);
  }

  lemma SinkRightElems(t: TreapNode)
    requires t.Node? && t.left.Node? && t.right.Node? && t.repeat == 1 && t.left.info > t.right.info
    requires Ordered(t)
    requires Elems(DeleteFrom(RightRotate(t).right, t.data)) == Elems(RightRotate(t).right) - multiset{t.data}
    ensures Elems(DeleteFrom(t, t.data)) == Elems(t) - multiset{t.data}
  {
    var rot := RightRotate(t);
    RightRotateRearranges(t);
    assert t.left.data in Keys(t.left);
    RightReplacedElems(rot, DeleteFrom(t, t.data), t.data);
  }

  lemma SinkLeftElems(t: TreapNode)
    requires t.Node? && t.left.Node? && t.right.Node? && t.repeat == 1 && t.left.info <= t.right.info
    requires Ordered(t)
    requires Elems(DeleteFrom(LeftRotate(t).left, t.data)) == Elems(LeftRotate(t).left) - multiset{t.data}
    ensures Elems(DeleteFrom(t, t.data)) == Elems(t) - multiset{t.data}
  {
    var rot := LeftRotate(t);
    LeftRotateRearranges(t);
    assert t.right.data in Keys(t.right);
    LeftReplacedElems(rot, DeleteFrom(t, t.data), t.data);
  }

  /** delete introduces no key. */
  lemma {:induction false} DeleteKeys(t: TreapNode, v: int)
    ensures Keys(DeleteFrom(t, v)) <= Keys(t)
    decreases NodeCount(t)
  {
    if t.Nil? {
    } else if v < t.data {
      DeleteKeys(t.left, v);
    } else if v > t.data {
      DeleteKeys(t.right, v);
    } else if t.repeat > 1 || t.left.Nil? || t.right.Nil? {
    } else if t.left.info > t.right.info {
      RightRotateRearranges(t);
      DeleteKeys(RightRotate(t).right, v);
    } else {
      LeftRotateRearranges(t);
      DeleteKeys(LeftRotate(t).left, v);
    }
  }

  /** delete keeps a search tree. */
  lemma {:induction false} DeleteSearch(t: TreapNode, v: int)
    requires IsSearchTree(t)
    ensures IsSearchTree(DeleteFrom(t, v))
    decreases NodeCount(t)
  {
    if t.Nil? {
    } else if v < t.data {
      DeleteSearch(t.left, v);
      DeleteKeys(t.left, v);
      ChildShrunk(t, DeleteFrom(t, v));
    } else if v > t.data {
      DeleteSearch(t.right, v);
      DeleteKeys(t.right, v);
      ChildShrunk(t, DeleteFrom(t, v));
    } else if t.repeat > 1 || t.left.Nil? || t.right.Nil? {
    } else if t.left.info > t.right.info {
      var rot := RightRotate(t);
      RightRotateRearranges(t);
      DeleteSearch(rot.right, v);
      DeleteKeys(rot.right, v);
      ChildShrunk(rot, DeleteFrom(t, v));
    } else {
      var rot := LeftRotate(t);
      LeftRotateRearranges(t);
      DeleteSearch(rot.left, v);
      DeleteKeys(rot.left, v);
      ChildShrunk(rot, DeleteFrom(t, v));
    }
  }

  // ---------------------------------------------------------------------
  // The tree object

  class Treap {
    var root: TreapNode

    /** Search-tree order on values, max-heap order on priorities. */
    ghost predicate Valid()
      reads this
    {
      IsSearchTree(root) && HeapOrdered(root)
    }

    ghost function Contents(): multiset<int>
      reads this
    {
      Elems(root)
    }

    constructor()
      ensures Valid() && Contents() == multiset{}
    {
      root := Nil;
    }

    method Clear()
      modifies this
      ensures Valid() && Contents() == multiset{}
    {
      root := Nil;
    }

    /** Adds one copy of `v`; `index` is the priority a new node gets. */
    method Insert(v: int, index: int)
      requires Valid()
      modifies this
      ensures Valid() && Contents() == old(Contents()) + multiset{v}
    {
      PositiveIsNonNegative(root);
      InsertElems(root, v, index);
      InsertSearch(root, v, index);
      InsertHeap(root, v, index, 0);
      root := InsertInto(root, v, index);
    }

    method Delete(v: int)
      requires Valid()
      modifies this
      ensures Valid() && Contents() == old(Contents()) - multiset{v}
    {
      DeleteElems(root, v);
      DeleteSearch(root, v);
      DeleteHeap(root, v, 0);
      root := DeleteFrom(root, v);
    }

    method Rank(v: int) returns (r: int)
      requires Valid()
      ensures r == OrderedMultiset.Rank(Contents(), v)
    {
      PositiveIsNonNegative(root);
      ListingIsFlatten(root);
      r := RankOf(root, v);
    }

    method Select(k: int) returns (r: Result<int>)
      requires Valid()
      ensures r == OrderedMultiset.Select(Contents(), k)
    {
      PositiveIsNonNegative(root);
      ListingIsFlatten(root);
      r := SelectAt(root, k);
    }

    method Predecessor(v: int) returns (r: Result<int>)
      requires Valid()
      ensures r == OrderedMultiset.Predecessor(Contents(), v)
    {
      ListingIsFlatten(root);
      r := PredecessorOf(root, v);
    }

    method Successor(v: int) returns (r: Result<int>)
      requires Valid()
      ensures r == OrderedMultiset.Successor(Contents(), v)
    {
      ListingIsFlatten(root);
      r := SuccessorOf(root, v);
    }
  }
}
