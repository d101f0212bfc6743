/**
 * AVL tree: a search tree whose nodes also record their height. Insert
 * rebalances every node on the way back up with single or double
 * rotations; delete only rebalances the node that takes the place of a
 * removed node with two children.
 */
module AVL {
  import opened OrderedMultiset
  import opened SearchTree

  /** leftHeight / rightHeight: the height a parent reads from a child (0 when absent). */
  function Height(t: Tree<int>): int {
    if t.Nil? then 0 else t.info
  }

  function Max(a: int, b: int): int {
    if a < b then b else a
  }

  /** pushUp: recompute size and height from the children. An absent child
      contributes size 0 and height 0, so `Height(child) + 1` never exceeds
      the starting height 1 for it. */
  function PushUp(t: Tree<int>): Tree<int> {
    if t.Nil? then Nil
    else t.(size := Size(t.left) + t.repeat + Size(t.right),
            info := Max(Max(1, Height(t.left) + 1), Height(t.right) + 1))
  }

  /** Every stored height is the one pushUp computes. */
  ghost predicate HeightsOk(t: Tree<int>) {
    match t
    case Nil => true
    case Node(l, _, _, _, h, r) =>
      HeightsOk(l) && HeightsOk(r) && h == Max(Max(1, Height(l) + 1), Height(r) + 1)
  }

  /** The AVL balance condition at every node. */
  ghost predicate Balanced(t: Tree<int>) {
    match t
    case Nil => true
    case Node(l, _, _, _, _, r) =>
      Balanced(l) && Balanced(r) && -1 <= Height(l) - Height(r) <= 1
  }

  function LeftRotate(t: Tree<int>): Tree<int>
    requires t.Nil? || t.right.Node?
  {
    if t.Nil? then Nil
    else
      var node := t.right;
      PushUp(node.(left := PushUp(t.(right := node.left))))
  }

  function RightRotate(t: Tree<int>): Tree<int>
    requires t.Nil? || t.left.Node?
  {
    if t.Nil? then Nil
    else
      var node := t.left;
      PushUp(node.(right := PushUp(t.(left := node.right))))
  }

  /** maintain: a single rotation when the heavy child leans outwards, a
      double rotation when it leans inwards or is level. The children must
      carry correct heights; that is what guarantees the children the
      rotations dereference. */
  function Maintain(t: Tree<int>): Tree<int>
    requires t.Nil? || (HeightsOk(t.left) && HeightsOk(t.right))
  {
    if t.Nil? then Nil
    else if Height(t.left) - Height(t.right) >= 2 then
      var t1 := if Height(t.left.left) <= Height(t.left.right) then t.(left := LeftRotate(t.left)) else t;
      RightRotate(t1)
    else if Height(t.left) - Height(t.right) <= -2 then
      var t1 := if Height(t.right.right) <= Height(t.right.left) then t.(right := RightRotate(t.right)) else t;
      LeftRotate(t1)
    else t
  }

  /** The recursive insert(current, data). */
  function InsertInto(t: Tree<int>, v: int): (r: Tree<int>)
    requires HeightsOk(t)
    ensures HeightsOk(r) && r.Node?
  {
    if t.Nil? then Node(Nil, v, 1, 1, 1, Nil)
    else if v < t.data then
      Rebalances(t.(left := InsertInto(t.left, v)));
      Maintain(PushUp(t.(left := InsertInto(t.left, v))))
    else if v > t.data then
      Rebalances(t.(right := InsertInto(t.right, v)));
      Maintain(PushUp(t.(right := InsertInto(t.right, v))))
    else t.(size := t.size + 1, repeat := t.repeat + 1)
  }

  /** Removes the leftmost node, recomputing size and height on the way up. */
  function RemoveMin(t: Tree<int>): (r: Tree<int>)
    requires t.Node?
  {
    if t.left.Nil? then t.right else PushUp(t.(left := RemoveMin(t.left)))
  }

  /** The recursive delete(current, data). A node with two children is
      replaced by a copy of the least node of its right subtree, which is
      then deleted there after its repeat count is set to 1. */
  function DeleteFrom(t: Tree<int>, v: int): (r: Tree<int>)
    requires HeightsOk(t)
    ensures HeightsOk(r)
    decreases NodeCount(t)
  {
    if t.Nil? then Nil
    else if v < t.data then PushUp(t.(left := DeleteFrom(t.left, v)))
    else if v > t.data then PushUp(t.(right := DeleteFrom(t.right, v)))
    else if t.repeat > 1 then t.(size := t.size - 1, repeat := t.repeat - 1)
    else if t.left.Nil? then t.right
    else if t.right.Nil? then t.left
    else
      var replace := MinNode(t.right);
      MinRepeatOneKeepsHeights(t.right);
      var rest := DeleteFrom(MinRepeatOne(t.right), replace.data);
      var node := Node(t.left, replace.data, replace.repeat, 1, 1, rest);
      Rebalances(node);
      Maintain(PushUp(node))
  }

  // ---------------------------------------------------------------------
  // Heights

  lemma MinRepeatOneKeepsHeights(t: Tree<int>)
    requires t.Node? && HeightsOk(t)
    ensures HeightsOk(MinRepeatOne(t)) && Height(MinRepeatOne(t)) == Height(t)
  {
    if t.left.Node? {
      MinRepeatOneKeepsHeights(t.left);
    }
  }

  lemma RotationsKeepHeights(t: Tree<int>)
    requires t.Node? && HeightsOk(t.left) && HeightsOk(t.right)
    ensures t.right.Node? ==> HeightsOk(LeftRotate(t))
    ensures t.left.Node? ==> HeightsOk(RightRotate(t))
  {
  }

  /** pushUp then maintain on a node with correct children heights gives a
      node with correct heights. */
  lemma Rebalances(t: Tree<int>)
    requires t.Node? && HeightsOk(t.left) && HeightsOk(t.right)
    ensures HeightsOk(Maintain(PushUp(t))) && Maintain(PushUp(t)).Node?
  {
    var u := PushUp(t);
    assert u.left == t.left && u.right == t.right && u == PushUp(u);
    HeightsAfterMaintain(u);
  }

  lemma HeightsAfterMaintain(t: Tree<int>)
    requires t.Node? && HeightsOk(t.left) && HeightsOk(t.right)
    requires t == PushUp(t)
    ensures HeightsOk(Maintain(t))
  {
    if Height(t.left) - Height(t.right) >= 2 {
      LeftHeavyHeights(t);
    } else if Height(t.left) - Height(t.right) <= -2 {
      RightHeavyHeights(t);
    }
  }

  lemma LeftHeavyHeights(t: Tree<int>)
    requires t.Node? && HeightsOk(t.left) && HeightsOk(t.right) && Height(t.left) - Height(t.right) >= 2
    ensures HeightsOk(Maintain(t))
  {
    HeightFacts(t.left);
    HeightFacts(t.right);
    var t1 := if Height(t.left.left) <= Height(t.left.right) then t.(left := LeftRotate(t.left)) else t;
    if Height(t.left.left) <= Height(t.left.right) {
      RotationsKeepHeights(t.left);
    }
    assert t1.left.Node? && HeightsOk(t1.left) && HeightsOk(t1.right);
    assert Maintain(t) == RightRotate(t1);
    RotationsKeepHeights(t1);
  }

  lemma RightHeavyHeights(t: Tree<int>)
    requires t.Node? && HeightsOk(t.left) && HeightsOk(t.right) && Height(t.left) - Height(t.right) <= -2
    ensures HeightsOk(Maintain(t))
  {
    HeightFacts(t.left);
    HeightFacts(t.right);
    var t1 := if Height(t.right.right) <= Height(t.right.left) then t.(right := RightRotate(t.right)) else t;
    if Height(t.right.right) <= Height(t.right.left) {
      RotationsKeepHeights(t.right);
    }
    assert t1.right.Node? && HeightsOk(t1.left) && HeightsOk(t1.right);
    assert Maintain(t) == LeftRotate(t1);
    RotationsKeepHeights(t1);
  }

  lemma HeightFacts(t: Tree<int>)
    requires HeightsOk(t)
    ensures Height(t) >= 0
    ensures t.Node? ==> Height(t.left) >= 0 && Height(t.right) >= 0 &&
                        Height(t) == 1 + Max(Height(t.left), Height(t.right))
  {
  }

  // ---------------------------------------------------------------------
  // Rotations and maintain keep the listing

  lemma RotationsKeepShape(t: Tree<int>)
    requires t.Node?
    ensures t.right.Node? ==>
              && RotationOf(t, LeftRotate(t))
              && (SizesOk(t.left) && SizesOk(t.right) ==> SizesOk(LeftRotate(t)))
    ensures t.left.Node? ==>
              && RotationOf(RightRotate(t), t)
              && (SizesOk(t.left) && SizesOk(t.right) ==> SizesOk(RightRotate(t)))
  {
  }

  lemma LeftRotateRearranges(t: Tree<int>)
    requires t.Node? && t.right.Node?
    ensures Rearranged(t, LeftRotate(t))
  {
    var u := LeftRotate(t);
    RotationsKeepShape(t);
    RotationShape(t, u);
    if SizesOk(t) {
      assert SizesOk(t.left) && SizesOk(t.right.left) && SizesOk(t.right.right);
      assert SizesOk(t.right);
      assert t.right.size == Size(t.right.left) + t.right.repeat + Size(t.right.right);
      assert t.size == Size(t.left) + t.repeat + Size(t.right.left) + t.right.repeat + Size(t.right.right);
      assert u.size == Size(u.left) + u.repeat + Size(u.right);
      assert Size(u) == Size(t);
    }
  }

  lemma RightRotateRearranges(t: Tree<int>)
    requires t.Node? && t.left.Node?
    ensures Rearranged(t, RightRotate(t))
  {
    var u := RightRotate(t);
    RotationsKeepShape(t);
    RotationShape(u, t);
    if SizesOk(t) {
      assert SizesOk(t.right) && SizesOk(t.left.left) && SizesOk(t.left.right);
      assert SizesOk(t.left);
      assert t.left.size == Size(t.left.left) + t.left.repeat + Size(t.left.right);
      assert t.size == Size(t.left.left) + t.left.repeat + Size(t.left.right) + t.repeat + Size(t.right);
      assert u.size == Size(u.left) + u.repeat + Size(u.right);
      assert Size(u) == Size(t);
    }
  }

  /** maintain only rearranges: same listing, same keys, order, sizes and
      repeat counts kept. */
  lemma MaintainKeeps(t: Tree<int>)
    requires t.Node? && HeightsOk(t.left) && HeightsOk(t.right)
    ensures Rearranged(t, Maintain(t))
  {
    if Height(t.left) - Height(t.right) >= 2 {
      var t1 := if Height(t.left.left) <= Height(t.left.right) then t.(left := LeftRotate(t.left)) else t;
      if Height(t.left.left) <= Height(t.left.right) {
        LeftRotateRearranges(t.left);
        assert Rearranged(t, t1);
      }
      RightRotateRearranges(t1);
    } else if Height(t.left) - Height(t.right) <= -2 {
      var t1 := if Height(t.right.right) <= Height(t.right.left) then t.(right := RightRotate(t.right)) else t;
      if Height(t.right.right) <= Height(t.right.left) {
        RightRotateRearranges(t.right);
        assert Rearranged(t, t1);
      }
      LeftRotateRearranges(t1);
    }
  }

  // ---------------------------------------------------------------------
  // Insert

  /** pushUp then maintain after a child was replaced: the node lists its
      children and its own copies in order, and keeps the invariants. */
  lemma Rebuilt(t: Tree<int>)
    requires t.Node? && HeightsOk(t.left) && HeightsOk(t.right)
    ensures Flatten(Maintain(PushUp(t))) == Flatten(t.left) + Repeat(t.data, t.repeat) + Flatten(t.right)
    ensures Elems(Maintain(PushUp(t))) == Elems(t.left) + multiset(Repeat(t.data, t.repeat)) + Elems(t.right)
    ensures Keys(Maintain(PushUp(t))) == Keys(t.left) + {t.data} + Keys(t.right)
    ensures Ordered(t) ==> Ordered(Maintain(PushUp(t)))
    ensures RepeatsPositive(t) ==> RepeatsPositive(Maintain(PushUp(t)))
    ensures SizesOk(t.left) && SizesOk(t.right) ==> SizesOk(Maintain(PushUp(t)))
  {
    var n := PushUp(t);
    MaintainKeeps(n);
    ElemsOfNode(n);
  }

  /** insert adds exactly one copy of `v`. */
  lemma {:induction false} InsertElems(t: Tree<int>, v: int)
    requires HeightsOk(t) && RepeatsNonNegative(t)
    ensures Elems(InsertInto(t, v)) == Elems(t) + multiset{v}
  {
    if t.Nil? {
    } else if v < t.data {
      InsertElems(t.left, v);
      InsertLeftElems(t, v);
    } else if v > t.data {
      InsertElems(t.right, v);
      InsertRightElems(t, v);
    } else {
      EnlargeElems(t);
    }
  }

  lemma InsertLeftElems(t: Tree<int>, v: int)
    requires t.Node? && v < t.data && HeightsOk(t)
    requires Elems(InsertInto(t.left, v)) == Elems(t.left) + multiset{v}
    ensures Elems(InsertInto(t, v)) == Elems(t) + multiset{v}
  {
    Rebuilt(t.(left := InsertInto(t.left, v)));
    ElemsOfNode(t);
  }

  lemma InsertRightElems(t: Tree<int>, v: int)
    requires t.Node? && v > t.data && HeightsOk(t)
    requires Elems(InsertInto(t.right, v)) == Elems(t.right) + multiset{v}
    ensures Elems(InsertInto(t, v)) == Elems(t) + multiset{v}
  {
    Rebuilt(t.(right := InsertInto(t.right, v)));
    ElemsOfNode(t);
  }

  lemma EnlargeElems(t: Tree<int>)
    requires t.Node? && HeightsOk(t) && t.repeat >= 0
    ensures Elems(InsertInto(t, t.data)) == Elems(t) + multiset{t.data}
  {
    var u := InsertInto(t, t.data);
    assert Repeat(t.data, t.repeat + 1) == [t.data] + Repeat(t.data, t.repeat);
    ElemsOfNode(u);
    ElemsOfNode(t);
  }

  /** insert adds the key `v` and no other. */
  lemma {:induction false} InsertKeys(t: Tree<int>, v: int)
    requires HeightsOk(t)
    ensures Keys(InsertInto(t, v)) == Keys(t) + {v}
  {
    if t.Nil? {
    } else if v < t.data {
      InsertKeys(t.left, v);
      Rebuilt(t.(left := InsertInto(t.left, v)));
    } else if v > t.data {
      InsertKeys(t.right, v);
      Rebuilt(t.(right := InsertInto(t.right, v)));
    }
  }

  /** insert keeps a search tree: order, sizes and positive repeat counts. */
  lemma {:induction false} InsertSearch(t: Tree<int>, v: int)
    requires IsSearchTree(t) && HeightsOk(t)
    ensures IsSearchTree(InsertInto(t, v))
  {
    if t.Nil? {
    } else if v < t.data {
      InsertSearch(t.left, v);
      InsertKeys(t.left, v);
      InsertLeftSearch(t, v);
    } else if v > t.data {
      InsertSearch(t.right, v);
      InsertKeys(t.right, v);
      InsertRightSearch(t, v);
    }
  }

  lemma InsertLeftSearch(t: Tree<int>, v: int)
    requires t.Node? && v < t.data && IsSearchTree(t) && HeightsOk(t)
    requires IsSearchTree(InsertInto(t.left, v)) && Keys(InsertInto(t.left, v)) == Keys(t.left) + {v}
    ensures IsSearchTree(InsertInto(t, v))
  {
    var l1 := InsertInto(t.left, v);
    assert InsertInto(t, v) == Maintain(PushUp(t.(left := l1)));
    GrownSearch(t, t.(left := l1), v);
  }

  lemma InsertRightSearch(t: Tree<int>, v: int)
    requires t.Node? && v > t.data && IsSearchTree(t) && HeightsOk(t)
    requires IsSearchTree(InsertInto(t.right, v)) && Keys(InsertInto(t.right, v)) == Keys(t.right) + {v}
    ensures IsSearchTree(InsertInto(t, v))
  {
    var r1 := InsertInto(t.right, v);
    assert InsertInto(t, v) == Maintain(PushUp(t.(right := r1)));
    GrownSearch(t, t.(right := r1), v);
  }

  /** A node one of whose children gained the key `v` on its own side, rebuilt
      by pushUp and maintain, is still a search tree. */
  lemma GrownSearch(t: Tree<int>, w: Tree<int>, v: int)
    requires t.Node? && IsSearchTree(t) && w.Node? && w.data == t.data && w.repeat == t.repeat
    requires HeightsOk(w.left) && HeightsOk(w.right) && IsSearchTree(w.left) && IsSearchTree(w.right)
    requires Keys(w.left) <= Keys(t.left) + {v} && Keys(w.right) <= Keys(t.right) + {v}
    requires v < t.data ==> Keys(w.right) <= Keys(t.right)
    requires t.data < v ==> Keys(w.left) <= Keys(t.left)
    requires v != t.data
    ensures IsSearchTree(Maintain(PushUp(w)))
  {
    assert Ordered(w);
    Rebuilt(w);
  }

  /** Single right rotation at a node whose left child is two levels
      higher and leans left. */
  lemma RotateRightBalances(n: Tree<int>)
    requires n.Node? && n.left.Node?
    requires HeightsOk(n.left) && HeightsOk(n.right) && Balanced(n.left) && Balanced(n.right)
    requires Height(n.left.left) == Height(n.right) + 1 && Height(n.left.right) == Height(n.right)
    ensures Balanced(RightRotate(n)) && Height(RightRotate(n)) == Height(n.right) + 2
  {
    HeightFacts(n.left);
    HeightFacts(n.right);
  }

  /** Single left rotation at a node whose right child is two levels
      higher and leans right. */
  lemma RotateLeftBalances(n: Tree<int>)
    requires n.Node? && n.right.Node?
    requires HeightsOk(n.left) && HeightsOk(n.right) && Balanced(n.left) && Balanced(n.right)
    requires Height(n.right.right) == Height(n.left) + 1 && Height(n.right.left) == Height(n.left)
    ensures Balanced(LeftRotate(n)) && Height(LeftRotate(n)) == Height(n.left) + 2
  {
    HeightFacts(n.left);
    HeightFacts(n.right);
  }

  /** Double rotation at a node whose left child is two levels higher and
      leans right. */
  lemma DoubleRotateRightBalances(n: Tree<int>)
    requires n.Node? && n.left.Node? && n.left.right.Node?
    requires HeightsOk(n.left) && HeightsOk(n.right) && Balanced(n.left) && Balanced(n.right)
    requires Height(n.left.right) == Height(n.right) + 1 && Height(n.left.left) == Height(n.right)
    ensures var t1 := n.(left := LeftRotate(n.left));
            Balanced(RightRotate(t1)) && Height(RightRotate(t1)) == Height(n.right) + 2
  {
    HeightFacts(n.left);
    HeightFacts(n.right);
    HeightFacts(n.left.right);
    HeightFacts(n.left.left);
  }

  /** Double rotation at a node whose right child is two levels higher and
      leans left. */
  lemma DoubleRotateLeftBalances(n: Tree<int>)
    requires n.Node? && n.right.Node? && n.right.left.Node?
    requires HeightsOk(n.left) && HeightsOk(n.right) && Balanced(n.left) && Balanced(n.right)
    requires Height(n.right.left) == Height(n.left) + 1 && Height(n.right.right) == Height(n.left)
    ensures var t1 := n.(right := RightRotate(n.right));
            Balanced(LeftRotate(t1)) && Height(LeftRotate(t1)) == Height(n.left) + 2
  {
    HeightFacts(n.left);
    HeightFacts(n.right);
    HeightFacts(n.right.left);
    HeightFacts(n.right.right);
  }

  /** insert keeps the AVL balance, and the height grows by at most one;
      when a nonempty tree grows, its new root leans one way by exactly one
      level (so the level case of maintain never arises after an insert). */
  lemma {:induction false} InsertKeepsBalance(t: Tree<int>, v: int)
    requires HeightsOk(t) && Balanced(t)
    ensures var u := InsertInto(t, v);
            && Balanced(u)
            && Height(t) <= Height(u) <= Height(t) + 1
            && (t.Node? && Height(u) == Height(t) + 1 ==>
                  Height(u.left) - Height(u.right) == 1 || Height(u.right) - Height(u.left) == 1)
  {
    HeightFacts(t);
    if t.Nil? {
    } else if v < t.data {
      InsertKeepsBalance(t.left, v);
      var l1 := InsertInto(t.left, v);
      assert InsertInto(t, v) == Maintain(PushUp(t.(left := l1)));
      LeftGrownBalance(t, l1);
    } else if v > t.data {
      InsertKeepsBalance(t.right, v);
      var r1 := InsertInto(t.right, v);
      assert InsertInto(t, v) == Maintain(PushUp(t.(right := r1)));
      RightGrownBalance(t, r1);
    }
  }

  /** A left child that grew by at most one level, and leans when it grew,
      is rebalanced by maintain into a node that grew by at most one level. */
  lemma LeftGrownBalance(t: Tree<int>, l1: Tree<int>)
    requires t.Node? && HeightsOk(t) && Balanced(t) && l1.Node? && HeightsOk(l1) && Balanced(l1)
    requires Height(t.left) <= Height(l1) <= Height(t.left) + 1
    requires t.left.Node? && Height(l1) == Height(t.left) + 1 ==>
               Height(l1.left) - Height(l1.right) == 1 || Height(l1.right) - Height(l1.left) == 1
    ensures var u := Maintain(PushUp(t.(left := l1)));
            && Balanced(u)
            && Height(t) <= Height(u) <= Height(t) + 1
            && (Height(u) == Height(t) + 1 ==>
                  Height(u.left) - Height(u.right) == 1 || Height(u.right) - Height(u.left) == 1)
  {
    HeightFacts(t);
    HeightFacts(l1);
    var n := PushUp(t.(left := l1));
    if Height(l1) - Height(t.right) >= 2 {
      if Height(l1.left) <= Height(l1.right) {
        DoubleRotateRightBalances(n);
      } else {
        RotateRightBalances(n);
      }
    }
  }

  /** The mirror image of LeftGrownBalance. */
  lemma RightGrownBalance(t: Tree<int>, r1: Tree<int>)
    requires t.Node? && HeightsOk(t) && Balanced(t) && r1.Node? && HeightsOk(r1) && Balanced(r1)
    requires Height(t.right) <= Height(r1) <= Height(t.right) + 1
    requires t.right.Node? && Height(r1) == Height(t.right) + 1 ==>
               Height(r1.left) - Height(r1.right) == 1 || Height(r1.right) - Height(r1.left) == 1
    ensures var u := Maintain(PushUp(t.(right := r1)));
            && Balanced(u)
            && Height(t) <= Height(u) <= Height(t) + 1
            && (Height(u) == Height(t) + 1 ==>
                  Height(u.left) - Height(u.right) == 1 || Height(u.right) - Height(u.left) == 1)
  {
    HeightFacts(t);
    HeightFacts(r1);
    var n := PushUp(t.(right := r1));
    if Height(r1) - Height(t.left) >= 2 {
      if Height(r1.right) <= Height(r1.left) {
        DoubleRotateLeftBalances(n);
      } else {
        RotateLeftBalances(n);
      }
    }
  }

  // ---------------------------------------------------------------------
  // Delete

  /** Removing the leftmost node takes its copies off the front of the listing. */
  lemma {:induction false} RemoveMinFlatten(t: Tree<int>)
    requires t.Node?
    ensures Flatten(t) == Repeat(MinNode(t).data, MinNode(t).repeat) + Flatten(RemoveMin(t))
  {
    if t.left.Node? {
      RemoveMinFlatten(t.left);
    }
  }

  /** ... and its key, which no other node of an ordered tree has. */
  lemma {:induction false} RemoveMinKeys(t: Tree<int>)
    requires t.Node? && Ordered(t)
    ensures Keys(RemoveMin(t)) == Keys(t) - {MinNode(t).data}
  {
    if t.left.Node? {
      RemoveMinKeys(t.left);
      ExtremeNodes(t.left);
    }
  }

  /** Removing the leftmost node keeps a search tree with correct heights. */
  lemma {:induction false} RemoveMinSearch(t: Tree<int>)
    requires t.Node? && IsSearchTree(t) && HeightsOk(t)
    ensures IsSearchTree(RemoveMin(t)) && HeightsOk(RemoveMin(t)) && MinNode(t).repeat >= 1
  {
    if t.left.Node? {
      RemoveMinSearch(t.left);
      RemoveMinKeys(t.left);
      ChildShrunk(t, RemoveMin(t));
    }
  }

  /** Setting the least node's repeat count to 1 and deleting its key
      removes exactly that node. */
  lemma {:induction false} DeleteReplaced(t: Tree<int>)
    requires t.Node? && Ordered(t) && HeightsOk(t)
    ensures HeightsOk(MinRepeatOne(t)) && DeleteFrom(MinRepeatOne(t), MinNode(t).data) == RemoveMin(t)
  {
    MinRepeatOneKeepsHeights(t);
    if t.left.Node? {
      DeleteReplaced(t.left);
      ExtremeNodes(t.left);
    }
  }

  /** delete removes one copy of `v`, and nothing when `v` is absent. */
  lemma {:induction false} DeleteElems(t: Tree<int>, v: int)
    requires IsSearchTree(t) && HeightsOk(t)
    ensures Elems(DeleteFrom(t, v)) == Elems(t) - multiset{v}
    decreases NodeCount(t)
  {
    if t.Nil? {
    } else if v < t.data {
      DeleteElems(t.left, v);
      LeftReplacedElems(t, DeleteFrom(t, v), v);
    } else if v > t.data {
      DeleteElems(t.right, v);
      RightReplacedElems(t, DeleteFrom(t, v), v);
    } else if t.repeat > 1 {
      ReduceElems(t);
    } else if t.left.Nil? || t.right.Nil? {
      SpliceElems(t);
    } else {
      ReplaceElems(t);
    }
  }

  lemma ReduceElems(t: Tree<int>)
    requires t.Node? && t.repeat > 1 && HeightsOk(t)
    ensures Elems(DeleteFrom(t, t.data)) == Elems(t) - multiset{t.data}
  {
    var u := DeleteFrom(t, t.data);
    assert Repeat(t.data, t.repeat) == [t.data] + Repeat(t.data, t.repeat - 1);
    ElemsOfNode(u);
    ElemsOfNode(t);
  }

  lemma SpliceElems(t: Tree<int>)
    requires t.Node? && t.repeat == 1 && HeightsOk(t)
    requires t.left.Nil? || t.right.Nil?
    ensures Elems(DeleteFrom(t, t.data)) == Elems(t) - multiset{t.data}
  {
    assert Repeat(t.data, 1) == [t.data];
    ElemsOfNode(t);
  }

  /** The node that takes the place of a deleted node with two children:
      its left subtree, the copied least node of its right subtree, and the
      right subtree without that node. */
  ghost function Replacement(t: Tree<int>): Tree<int>
    requires t.Node? && t.right.Node?
  {
    Node(t.left, MinNode(t.right).data, MinNode(t.right).repeat, 1, 1, RemoveMin(t.right))
  }

  lemma ReplaceUnfold(t: Tree<int>)
    requires t.Node? && t.repeat == 1 && t.left.Node? && t.right.Node?
    requires IsSearchTree(t) && HeightsOk(t)
    ensures var n := Replacement(t);
            && HeightsOk(n.left) && HeightsOk(n.right)
            && DeleteFrom(t, t.data) == Maintain(PushUp(n))
  {
    DeleteReplaced(t.right);
    RemoveMinSearch(t.right);
  }

  /** The replacement node is a search tree over keys of `t`. */
  lemma ReplacementOrder(t: Tree<int>)
    requires t.Node? && t.repeat == 1 && t.left.Node? && t.right.Node?
    requires IsSearchTree(t) && HeightsOk(t)
    ensures var n := Replacement(t);
            && Ordered(n) && RepeatsPositive(n) && SizesOk(n.left) && SizesOk(n.right)
            && Keys(n) <= Keys(t)
  {
    var n := Replacement(t);
    RemoveMinSearch(t.right);
    RemoveMinKeys(t.right);
    ExtremeNodes(t.right);
    assert Ordered(n);
  }

  /** The replacement node holds the values of `t` but its own key's one copy. */
  lemma ReplacementElems(t: Tree<int>)
    requires t.Node? && t.repeat == 1 && t.left.Node? && t.right.Node?
    requires IsSearchTree(t) && HeightsOk(t)
    ensures var n := Replacement(t);
            Elems(n.left) + multiset(Repeat(n.data, n.repeat)) + Elems(n.right) == Elems(t) - multiset{t.data}
  {
    var n := Replacement(t);
    RemoveMinFlatten(t.right);
    var m, e := multiset(Repeat(n.data, n.repeat)), Elems(n.right);
    assert Elems(t.right) == m + e;
    assert Repeat(t.data, 1) == [t.data];
    ElemsOfNode(t);
    DropMiddle(Elems(t.left), t.data, m + e);
    assert Elems(t.left) + (m + e) == Elems(t.left) + m + e;
  }

  lemma ReplaceElems(t: Tree<int>)
    requires t.Node? && t.repeat == 1 && t.left.Node? && t.right.Node?
    requires IsSearchTree(t) && HeightsOk(t)
    ensures Elems(DeleteFrom(t, t.data)) == Elems(t) - multiset{t.data}
  {
    ReplaceUnfold(t);
    ReplacementElems(t);
    Rebuilt(Replacement(t));
  }

  /** delete introduces no key. */
  lemma {:induction false} DeleteKeys(t: Tree<int>, v: int)
    requires IsSearchTree(t) && HeightsOk(t)
    ensures Keys(DeleteFrom(t, v)) <= Keys(t)
    decreases NodeCount(t)
  {
    if t.Nil? {
    } else if v < t.data {
      DeleteKeys(t.left, v);
    } else if v > t.data {
      DeleteKeys(t.right, v);
    } else if t.repeat > 1 || t.left.Nil? || t.right.Nil? {
    } else {
      ReplaceKeys(t);
    }
  }

  lemma ReplaceKeys(t: Tree<int>)
    requires t.Node? && t.repeat == 1 && t.left.Node? && t.right.Node?
    requires IsSearchTree(t) && HeightsOk(t)
    ensures Keys(DeleteFrom(t, t.data)) <= Keys(t)
  {
    ReplaceUnfold(t);
    ReplacementOrder(t);
    Rebuilt(Replacement(t));
  }

  /** delete keeps a search tree: order, sizes and positive repeat counts. */
  lemma {:induction false} DeleteSearch(t: Tree<int>, v: int)
    requires IsSearchTree(t) && HeightsOk(t)
    ensures IsSearchTree(DeleteFrom(t, v))
    decreases NodeCount(t)
  {
    if t.Nil? {
    } else if v < t.data {
      DeleteSearch(t.left, v);
      DeleteKeys(t.left, v);
      ChildShrunk(t, DeleteFrom(t, v));
    } else if v > t.data {
      DeleteSearch(t.right, v);
      DeleteKeys(t.right, v);
      ChildShrunk(t, DeleteFrom(t, v));
    } else if t.repeat > 1 || t.left.Nil? || t.right.Nil? {
    } else {
      ReplaceSearch(t);
    }
  }

  lemma ReplaceSearch(t: Tree<int>)
    requires t.Node? && t.repeat == 1 && t.left.Node? && t.right.Node?
    requires IsSearchTree(t) && HeightsOk(t)
    ensures IsSearchTree(DeleteFrom(t, t.data))
  {
    ReplaceUnfold(t);
    ReplacementOrder(t);
    Rebuilt(Replacement(t));
  }

  // ---------------------------------------------------------------------
  // The tree object

  class AVLTree {
    var root: Tree<int>

    /** Search-tree order, correct sizes and heights, no empty node. */
    ghost predicate Valid()
      reads this
    {
      IsSearchTree(root) && HeightsOk(root)
    }

    ghost function Contents(): multiset<int>
      reads this
    {
      Elems(root)
    }

    constructor()
      ensures Valid() && Contents() == multiset{} && Balanced(root)
    {
      root := Nil;
    }

    method Clear()
      modifies this
      ensures Valid() && Contents() == multiset{} && Balanced(root)
    {
      root := Nil;
    }

    /** Adds one copy of `v`; a balanced tree stays balanced. */
    method Insert(v: int)
      requires Valid()
      modifies this
      ensures Valid() && Contents() == old(Contents()) + multiset{v}
      ensures old(Balanced(root)) ==> Balanced(root)
    {
      PositiveIsNonNegative(root);
      InsertElems(root, v);
      InsertSearch(root, v);
      if Balanced(root) {
        InsertKeepsBalance(root, v);
      }
      root := InsertInto(root, v);
    }

    /** Removes one copy of `v`; nothing changes when `v` is absent. */
    method Delete(v: int)
      requires Valid()
      modifies this
      ensures Valid() && Contents() == old(Contents()) - multiset{v}
    {
      DeleteElems(root, v);
      DeleteSearch(root, v);
      root := DeleteFrom(root, v);
    }

    method Rank(v: int) returns (r: int)
      requires Valid()
      ensures r == OrderedMultiset.Rank(Contents(), v)
    {
      PositiveIsNonNegative(root);
      ListingIsFlatten(root);
      r := RankOf(root, v);
    }

    method Select(k: int) returns (r: Result<int>)
      requires Valid()
      ensures r == OrderedMultiset.Select(Contents(), k)
    {
      PositiveIsNonNegative(root);
      ListingIsFlatten(root);
      r := SelectAt(root, k);
    }

    method Predecessor(v: int) returns (r: Result<int>)
      requires Valid()
      ensures r == OrderedMultiset.Predecessor(Contents(), v)
    {
      ListingIsFlatten(root);
      r := PredecessorOf(root, v);
    }

    method Successor(v: int) returns (r: Result<int>)
      requires Valid()
      ensures r == OrderedMultiset.Successor(Contents(), v)
    {
      ListingIsFlatten(root);
      r := SuccessorOf(root, v);
    }
  }
}
