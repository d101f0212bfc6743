/**
 * Size-balanced tree: a search tree kept balanced by subtree sizes alone.
 * Insert calls maintain on the way back up, with the flag saying which
 * side grew; delete is the plain search-tree delete and never calls
 * maintain.
 */
module SB {
  import opened OrderedMultiset
  import opened SearchTree

  /** An SB node carries no field beyond the shared ones. */
  type SBNode = Tree<()>

  /** The tests of maintain that leave a node as it is: with `flag` set,
      neither grandchild on the right outweighs the left child; without
      it, neither grandchild on the left outweighs the right child. A
      grandchild the source reaches through a child of positive size is
      tested for presence explicitly here. */
  predicate Settled(t: SBNode, flag: bool)
    requires t.Node?
  {
    if flag then
      !(t.right.Node? && Size(t.right.right) > Size(t.left)) &&
      !(t.right.Node? && t.right.left.Node? && Size(t.right.left) > Size(t.left))
    else
      !(t.left.Node? && Size(t.left.left) > Size(t.right)) &&
      !(t.left.Node? && t.left.right.Node? && Size(t.left.right) > Size(t.right))
  }

  /** The single or double rotation maintain applies to an unsettled node. */
  function Rotate(t: SBNode, flag: bool): (r: SBNode)
    requires t.Node? && !Settled(t, flag)
    ensures r.Node?
  {
    if flag then
      if Size(t.right.right) > Size(t.left) then LeftRotate(t)
      else LeftRotate(t.(right := RightRotate(t.right)))
    else
      if Size(t.left.left) > Size(t.right) then RightRotate(t)
      else RightRotate(t.(left := LeftRotate(t.left)))
  }

  /** maintain(current, flag): an unsettled node is rotated and the result
      goes through the rest of maintain (ReMaintain). The source's nested
      recursion has no decreasing measure, and on some trees it never ends
      (MaintainReenters below), so the model carries a fuel bound and
      returns the tree as it is once the fuel is spent. */
  function Maintain(t: SBNode, flag: bool, fuel: nat): SBNode
    decreases fuel, 0
  {
    if t.Nil? then Nil
    else if fuel == 0 || Settled(t, flag) then t
    else ReMaintain(Rotate(t, flag), fuel - 1)
  }

  /** After the rotation: maintain the left child with flag false, the right
      child with flag true, then the node with true and again with false. */
  function ReMaintain(now: SBNode, fuel: nat): SBNode
    requires now.Node?
    decreases fuel, 1
  {
    var now := now.(left := Maintain(now.left, false, fuel), right := Maintain(now.right, true, fuel));
    Maintain(Maintain(now, true, fuel), false, fuel)
  }

  /** The fuel insert hands to maintain. */
  function Fuel(t: SBNode): nat {
    NodeCount(t) + 1
  }

  /** The recursive insert(current, data). */
  function InsertInto(t: SBNode, v: int): (r: SBNode)
  {
    if t.Nil? then Node(Nil, v, 1, 1, (), Nil)
    else if v < t.data then
      var n := PushUp(t.(left := InsertInto(t.left, v)));
      Maintain(n, false, Fuel(n))
    else if v > t.data then
      var n := PushUp(t.(right := InsertInto(t.right, v)));
      Maintain(n, true, Fuel(n))
    else t.(size := t.size + 1, repeat := t.repeat + 1)
  }

  /** Removes the leftmost node, recomputing sizes on the way up. */
  function RemoveMin(t: SBNode): SBNode
    requires t.Node?
  {
    if t.left.Nil? then t.right else PushUp(t.(left := RemoveMin(t.left)))
  }

  /** The recursive delete(current, data), without maintain. */
  function DeleteFrom(t: SBNode, v: int): SBNode
    decreases NodeCount(t)
  {
    if t.Nil? then Nil
    else if v < t.data then PushUp(t.(left := DeleteFrom(t.left, v)))
    else if v > t.data then PushUp(t.(right := DeleteFrom(t.right, v)))
    else if t.repeat > 1 then t.(size := t.size - 1, repeat := t.repeat - 1)
    else if t.left.Nil? then t.right
    else if t.right.Nil? then t.left
    else
      var replace := MinNode(t.right);
      var rest := DeleteFrom(MinRepeatOne(t.right), replace.data);
      PushUp(Node(t.left, replace.data, replace.repeat, 1, (), rest))
  }

  // ---------------------------------------------------------------------
  // maintain

  /** A settled node is what maintain returns without rotating: with the
      flag set, neither grandchild on the right outweighs the left child. */
  lemma SettledMeans(t: SBNode, flag: bool, fuel: nat)
    requires t.Node? && SizesOk(t) && RepeatsNonNegative(t)
    ensures Settled(t, flag) ==> Maintain(t, flag, fuel) == t
    ensures flag ==> (Settled(t, flag) <==>
              t.right.Nil? || (Size(t.right.right) <= Size(t.left) && Size(t.right.left) <= Size(t.left)))
    ensures !flag ==> (Settled(t, flag) <==>
              t.left.Nil? || (Size(t.left.left) <= Size(t.right) && Size(t.left.right) <= Size(t.right)))
  {
    NonNegativeSizes(t.left);
    NonNegativeSizes(t.right);
  }

  lemma RotateRearranges(t: SBNode, flag: bool)
    requires t.Node? && !Settled(t, flag)
    ensures Rearranged(t, Rotate(t, flag))
  {
    if flag {
      if Size(t.right.right) > Size(t.left) {
        LeftRotateRearranges(t);
      } else {
        var t1 := t.(right := RightRotate(t.right));
        RightRotateRearranges(t.right);
        ChildrenRearranged(t, t.left, RightRotate(t.right));
        LeftRotateRearranges(t1);
      }
    } else {
      if Size(t.left.left) > Size(t.right) {
        RightRotateRearranges(t);
      } else {
        var t1 := t.(left := LeftRotate(t.left));
        LeftRotateRearranges(t.left);
        ChildrenRearranged(t, LeftRotate(t.left), t.right);
        RightRotateRearranges(t1);
      }
    }
  }

  /** maintain only rotates: the listing, keys, order, repeat counts and
      sizes are those of its argument. */
  lemma {:induction false} MaintainKeeps(t: SBNode, flag: bool, fuel: nat)
    ensures Rearranged(t, Maintain(t, flag, fuel))
    decreases fuel, 0
  {
    if t.Node? && fuel > 0 && !Settled(t, flag) {
      RotateRearranges(t, flag);
      ReMaintainKeeps(Rotate(t, flag), fuel - 1);
      RearrangedTrans(t, Rotate(t, flag), ReMaintain(Rotate(t, flag), fuel - 1));
    }
  }

  lemma {:induction false} ReMaintainKeeps(now: SBNode, fuel: nat)
    requires now.Node?
    ensures Rearranged(now, ReMaintain(now, fuel))
    decreases fuel, 1
  {
    var l, r := Maintain(now.left, false, fuel), Maintain(now.right, true, fuel);
    var now' := now.(left := l, right := r);
    MaintainKeeps(now.left, false, fuel);
    MaintainKeeps(now.right, true, fuel);
    ChildrenRearranged(now, l, r);
    MaintainKeeps(now', true, fuel);
    MaintainKeeps(Maintain(now', true, fuel), false, fuel);
    RearrangedChain(now, now', Maintain(now', true, fuel), ReMaintain(now, fuel));
  }

  // ---------------------------------------------------------------------
  // Insert

  /** pushUp then maintain after a child was replaced: the node lists its
      children and its own copies in order, and keeps the invariants. */
  lemma Rebuilt(t: SBNode, flag: bool)
    requires t.Node?
    ensures var u := Maintain(PushUp(t), flag, Fuel(PushUp(t)));
            && Elems(u) == Elems(t.left) + multiset(Repeat(t.data, t.repeat)) + Elems(t.right)
            && Keys(u) == Keys(t.left) + {t.data} + Keys(t.right)
            && (Ordered(t) ==> Ordered(u))
            && (RepeatsPositive(t) ==> RepeatsPositive(u))
            && (SizesOk(t.left) && SizesOk(t.right) ==> SizesOk(u))
  {
    var n := PushUp(t);
    PushUpKeeps(t);
    MaintainKeeps(n, flag, Fuel(n));
    ElemsOfNode(n);
  }

  /** insert adds exactly one copy of `v`. */
  lemma {:induction false} InsertElems(t: SBNode, v: int)
    requires RepeatsNonNegative(t)
    ensures Elems(InsertInto(t, v)) == Elems(t) + multiset{v}
  {
    if t.Nil? {
    } else if v < t.data {
      InsertElems(t.left, v);
      InsertLeftElems(t, v);
    } else if v > t.data {
      InsertElems(t.right, v);
      InsertRightElems(t, v);
    } else {
      EnlargeElems(t);
    }
  }

  lemma InsertLeftElems(t: SBNode, v: int)
    requires t.Node? && v < t.data
    requires Elems(InsertInto(t.left, v)) == Elems(t.left) + multiset{v}
    ensures Elems(InsertInto(t, v)) == Elems(t) + multiset{v}
  {
    Rebuilt(t.(left := InsertInto(t.left, v)), false);
    ElemsOfNode(t);
  }

  lemma InsertRightElems(t: SBNode, v: int)
    requires t.Node? && v > t.data
    requires Elems(InsertInto(t.right, v)) == Elems(t.right) + multiset{v}
    ensures Elems(InsertInto(t, v)) == Elems(t) + multiset{v}
  {
    Rebuilt(t.(right := InsertInto(t.right, v)), true);
    ElemsOfNode(t);
  }

  lemma EnlargeElems(t: SBNode)
    requires t.Node? && t.repeat >= 0
    ensures Elems(InsertInto(t, t.data)) == Elems(t) + multiset{t.data}
  {
    var u := InsertInto(t, t.data);
    assert Repeat(t.data, t.repeat + 1) == [t.data] + Repeat(t.data, t.repeat);
    ElemsOfNode(u);
    ElemsOfNode(t);
  }

  /** insert adds the key `v` and no other. */
  lemma {:induction false} InsertKeys(t: SBNode, v: int)
    ensures Keys(InsertInto(t, v)) == Keys(t) + {v}
  {
    if t.Nil? {
    } else if v < t.data {
      InsertKeys(t.left, v);
      Rebuilt(t.(left := InsertInto(t.left, v)), false);
    } else if v > t.data {
      InsertKeys(t.right, v);
      Rebuilt(t.(right := InsertInto(t.right, v)), true);
    }
  }

  /** insert keeps a search tree: order, sizes and positive repeat counts. */
  lemma {:induction false} InsertSearch(t: SBNode, v: int)
    requires IsSearchTree(t)
    ensures IsSearchTree(InsertInto(t, v))
  {
    if t.Nil? {
    } else if v < t.data {
      InsertSearch(t.left, v);
      InsertKeys(t.left, v);
      InsertLeftSearch(t, v);
    } else if v > t.data {
      InsertSearch(t.right, v);
      InsertKeys(t.right, v);
      InsertRightSearch(t, v);
    }
  }

  lemma InsertLeftSearch(t: SBNode, v: int)
    requires t.Node? && v < t.data && IsSearchTree(t)
    requires IsSearchTree(InsertInto(t.left, v)) && Keys(InsertInto(t.left, v)) == Keys(t.left) + {v}
    ensures IsSearchTree(InsertInto(t, v))
  {
    var w := t.(left := InsertInto(t.left, v));
    assert InsertInto(t, v) == Maintain(PushUp(w), false, Fuel(PushUp(w)));
    assert Ordered(w);
    Rebuilt(w, false);
  }

  lemma InsertRightSearch(t: SBNode, v: int)
    requires t.Node? && v > t.data && IsSearchTree(t)
    requires IsSearchTree(InsertInto(t.right, v)) && Keys(InsertInto(t.right, v)) == Keys(t.right) + {v}
    ensures IsSearchTree(InsertInto(t, v))
  {
    var w := t.(right := InsertInto(t.right, v));
    assert InsertInto(t, v) == Maintain(PushUp(w), true, Fuel(PushUp(w)));
    assert Ordered(w);
    Rebuilt(w, true);
  }

  // ---------------------------------------------------------------------
  // A maintain that never returns
  //
  // The source's maintain has no measure that shrinks, and there are trees
  // on which it calls itself again with the very arguments it started from.
  // The model's fuel cuts that chain off; the lemmas below exhibit it.

  /** A single node holding `n` copies of `v`. */
  function Single(v: int, n: nat): SBNode {
    Node(Nil, v, n, n, (), Nil)
  }

  /** The tree built by inserting 3, 3, 4, 5, 4, 2, 6, 3, 3, 4 into an empty tree. */
  const Before: SBNode :=
    Node(Node(Single(2, 1), 3, 4, 5, (), Nil), 4, 3, 10, (), Node(Nil, 5, 1, 2, (), Single(6, 1)))

  /** The root insert(Before, 1) hands to maintain with the flag cleared. */
  const LoopRoot: SBNode :=
    Node(Node(Single(1, 1), 2, 1, 6, (), Single(3, 4)), 4, 3, 11, (), Node(Nil, 5, 1, 2, (), Single(6, 1)))

  /** What maintain(LoopRoot, false) holds after its rotation and the
      re-maintained children. */
  const LoopTurn: SBNode :=
    Node(Node(Single(1, 1), 2, 1, 2, (), Nil), 3, 4, 11, (), Node(Single(4, 3), 5, 1, 5, (), Single(6, 1)))

  /** Ten inserts into an empty tree build `Before`. */
  lemma ReachesBefore()
    ensures InsertInto(InsertInto(InsertInto(InsertInto(InsertInto(InsertInto(InsertInto(
              InsertInto(InsertInto(InsertInto(Nil, 3), 3), 4), 5), 4), 2), 6), 3), 3), 4) == Before
  {
    EarlyInserts();
    LateInserts();
  }

  /** The first five inserts: 3, 3, 4, 5, 4. */
  lemma EarlyInserts()
    ensures InsertInto(InsertInto(InsertInto(InsertInto(InsertInto(Nil, 3), 3), 4), 5), 4)
            == Node(Single(3, 2), 4, 2, 5, (), Single(5, 1))
  {
    assert InsertInto(Nil, 3) == Single(3, 1);
    assert InsertInto(Single(3, 1), 3) == Single(3, 2);
    ThirdInsert();
    FourthInsert();
    assert InsertInto(Node(Single(3, 2), 4, 1, 4, (), Single(5, 1)), 4) == Node(Single(3, 2), 4, 2, 5, (), Single(5, 1));
  }

  lemma ThirdInsert()
    ensures InsertInto(Single(3, 2), 4) == Node(Nil, 3, 2, 3, (), Single(4, 1))
  {
    assert InsertInto(Nil, 4) == Single(4, 1);
    assert Settled(Node(Nil, 3, 2, 3, (), Single(4, 1)), true);
  }

  lemma FourthInsert()
    ensures InsertInto(Node(Nil, 3, 2, 3, (), Single(4, 1)), 5) == Node(Single(3, 2), 4, 1, 4, (), Single(5, 1))
  {
    var r := Node(Nil, 4, 1, 2, (), Single(5, 1));
    assert InsertInto(Single(4, 1), 5) == r by {
      assert InsertInto(Nil, 5) == Single(5, 1);
      assert Settled(r, true);
    }
    var m := Node(Nil, 3, 2, 4, (), r);
    FirstRotation(Fuel(m) - 1);
  }

  /** The fourth insert is the first to rotate: 3x2(-, 4(-, 5)) becomes 4(3x2, 5). */
  lemma FirstRotation(fuel: nat)
    ensures Maintain(Node(Nil, 3, 2, 4, (), Node(Nil, 4, 1, 2, (), Single(5, 1))), true, fuel + 1)
            == Node(Single(3, 2), 4, 1, 4, (), Single(5, 1))
  {
    var n := Node(Nil, 3, 2, 4, (), Node(Nil, 4, 1, 2, (), Single(5, 1)));
    var q := Node(Single(3, 2), 4, 1, 4, (), Single(5, 1));
    assert Rotate(n, true) == q;
    assert Maintain(q.left, false, fuel) == q.left && Maintain(q.right, true, fuel) == q.right;
    assert q.(left := q.left, right := q.right) == q;
    assert Maintain(q, true, fuel) == q;
    assert Maintain(q, false, fuel) == q;
  }

  /** The last five inserts: 2, 6, 3, 3, 4; none of them rotates. */
  lemma LateInserts()
    ensures InsertInto(InsertInto(InsertInto(InsertInto(InsertInto(
              Node(Single(3, 2), 4, 2, 5, (), Single(5, 1)), 2), 6), 3), 3), 4) == Before
  {
    SixthInsert();
    SeventhInsert();
    var r := Node(Nil, 5, 1, 2, (), Single(6, 1));
    var t8 := Node(Node(Single(2, 1), 3, 3, 4, (), Nil), 4, 2, 8, (), r);
    assert InsertInto(Node(Node(Single(2, 1), 3, 2, 3, (), Nil), 4, 2, 7, (), r), 3) == t8 by {
      assert Settled(t8, false);
    }
    var t9 := Node(Node(Single(2, 1), 3, 4, 5, (), Nil), 4, 2, 9, (), r);
    assert InsertInto(t8, 3) == t9 by {
      assert Settled(t9, false);
    }
    assert InsertInto(t9, 4) == Before;
  }

  lemma SixthInsert()
    ensures InsertInto(Node(Single(3, 2), 4, 2, 5, (), Single(5, 1)), 2)
            == Node(Node(Single(2, 1), 3, 2, 3, (), Nil), 4, 2, 6, (), Single(5, 1))
  {
    var l := Node(Single(2, 1), 3, 2, 3, (), Nil);
    assert InsertInto(Single(3, 2), 2) == l by {
      assert InsertInto(Nil, 2) == Single(2, 1);
      assert Settled(l, false);
    }
    assert Settled(Node(l, 4, 2, 6, (), Single(5, 1)), false);
  }

  lemma SeventhInsert()
    ensures InsertInto(Node(Node(Single(2, 1), 3, 2, 3, (), Nil), 4, 2, 6, (), Single(5, 1)), 6)
            == Node(Node(Single(2, 1), 3, 2, 3, (), Nil), 4, 2, 7, (), Node(Nil, 5, 1, 2, (), Single(6, 1)))
  {
    var r := Node(Nil, 5, 1, 2, (), Single(6, 1));
    assert InsertInto(Single(5, 1), 6) == r by {
      assert InsertInto(Nil, 6) == Single(6, 1);
      assert Settled(r, true);
    }
    assert Settled(Node(Node(Single(2, 1), 3, 2, 3, (), Nil), 4, 2, 7, (), r), true);
  }

  /** Inserting 1 into `Before` calls maintain(LoopRoot, false) at the root. */
  lemma ReachesLoop()
    ensures InsertInto(Before, 1) == Maintain(LoopRoot, false, Fuel(LoopRoot))
  {
    LowInsert();
    assert Before.left == Node(Single(2, 1), 3, 4, 5, (), Nil);
    assert PushUp(Before.(left := LoopRoot.left)) == LoopRoot;
  }

  /** In the left subtree, inserting 1 ends in a rotation. */
  lemma LowInsert()
    ensures InsertInto(Node(Single(2, 1), 3, 4, 5, (), Nil), 1) == Node(Single(1, 1), 2, 1, 6, (), Single(3, 4))
  {
    var low := Node(Single(1, 1), 2, 1, 2, (), Nil);
    assert InsertInto(Single(2, 1), 1) == low by {
      assert InsertInto(Nil, 1) == Single(1, 1);
      assert Settled(low, false);
    }
    LowRotation(Fuel(Node(low, 3, 4, 6, (), Nil)) - 1);
  }

  /** On the way up, 3x4(2(1, -), -) rotates into 2(1, 3x4). */
  lemma LowRotation(fuel: nat)
    ensures Maintain(Node(Node(Single(1, 1), 2, 1, 2, (), Nil), 3, 4, 6, (), Nil), false, fuel + 1)
            == Node(Single(1, 1), 2, 1, 6, (), Single(3, 4))
  {
    var n := Node(Node(Single(1, 1), 2, 1, 2, (), Nil), 3, 4, 6, (), Nil);
    var q := Node(Single(1, 1), 2, 1, 6, (), Single(3, 4));
    assert Rotate(n, false) == q;
    assert Maintain(q.left, false, fuel) == q.left && Maintain(q.right, true, fuel) == q.right;
    assert q.(left := q.left, right := q.right) == q;
    assert Maintain(q, true, fuel) == q;
    assert Maintain(q, false, fuel) == q;
  }

  /** maintain(LoopRoot, false) rotates and re-maintains the children into
      LoopTurn, then calls maintain(LoopTurn, true); that one rotates and
      re-maintains its children back into LoopRoot, which is settled with
      the flag set, and so calls maintain(LoopRoot, false) again. Without
      fuel the chain never ends: the source overflows its stack. */
  lemma MaintainReenters(fuel: nat)
    ensures !Settled(LoopRoot, false) && !Settled(LoopTurn, true) && Settled(LoopRoot, true)
    ensures var r := Rotate(LoopRoot, false);
            r.(left := Maintain(r.left, false, fuel + 1), right := Maintain(r.right, true, fuel + 1)) == LoopTurn
    ensures var r := Rotate(LoopTurn, true);
            r.(left := Maintain(r.left, false, fuel + 1), right := Maintain(r.right, true, fuel + 1)) == LoopRoot
    ensures Maintain(LoopRoot, false, fuel + 2) == Maintain(Maintain(LoopTurn, true, fuel + 1), false, fuel + 1)
    ensures Maintain(LoopTurn, true, fuel + 2) == Maintain(LoopRoot, false, fuel + 1)
  {
    RootTurns(fuel);
    TurnReturns(fuel);
    assert Maintain(LoopRoot, true, fuel + 1) == LoopRoot;
  }

  lemma RootTurns(fuel: nat)
    ensures var r := Rotate(LoopRoot, false);
            r.(left := Maintain(r.left, false, fuel + 1), right := Maintain(r.right, true, fuel + 1)) == LoopTurn
  {
    var r := Rotate(LoopRoot, false);
    assert r == Node(Node(Single(1, 1), 2, 1, 2, (), Nil), 3, 4, 11, (),
                     Node(Nil, 4, 3, 5, (), Node(Nil, 5, 1, 2, (), Single(6, 1))));
    assert Settled(r.left, false);
    HighRotation(fuel);
  }

  lemma TurnReturns(fuel: nat)
    ensures var r := Rotate(LoopTurn, true);
            r.(left := Maintain(r.left, false, fuel + 1), right := Maintain(r.right, true, fuel + 1)) == LoopRoot
  {
    var r := Rotate(LoopTurn, true);
    assert r == Node(Node(Node(Single(1, 1), 2, 1, 2, (), Nil), 3, 4, 6, (), Nil), 4, 3, 11, (),
                     Node(Nil, 5, 1, 2, (), Single(6, 1)));
    assert Settled(r.right, true);
    LowRotation(fuel);
  }

  /** maintain with the flag set rotates 4x3(-, 5(-, 6)) into 5(4x3, 6). */
  lemma HighRotation(fuel: nat)
    ensures Maintain(Node(Nil, 4, 3, 5, (), Node(Nil, 5, 1, 2, (), Single(6, 1))), true, fuel + 1)
            == Node(Single(4, 3), 5, 1, 5, (), Single(6, 1))
  {
    var n := Node(Nil, 4, 3, 5, (), Node(Nil, 5, 1, 2, (), Single(6, 1)));
    var q := Node(Single(4, 3), 5, 1, 5, (), Single(6, 1));
    assert Rotate(n, true) == q;
    assert Maintain(q.left, false, fuel) == q.left && Maintain(q.right, true, fuel) == q.right;
    assert q.(left := q.left, right := q.right) == q;
    assert Maintain(q, true, fuel) == q;
    assert Maintain(q, false, fuel) == q;
  }

  // ---------------------------------------------------------------------
  // Delete

  /** Removing the leftmost node takes its copies off the front of the listing. */
  lemma {:induction false} RemoveMinFlatten(t: SBNode)
    requires t.Node?
    ensures Flatten(t) == Repeat(MinNode(t).data, MinNode(t).repeat) + Flatten(RemoveMin(t))
  {
    if t.left.Node? {
      RemoveMinFlatten(t.left);
    }
  }

  /** ... and its key, which no other node of an ordered tree has. */
  lemma {:induction false} RemoveMinKeys(t: SBNode)
    requires t.Node? && Ordered(t)
    ensures Keys(RemoveMin(t)) == Keys(t) - {MinNode(t).data}
  {
    if t.left.Node? {
      RemoveMinKeys(t.left);
      ExtremeNodes(t.left);
    }
  }

  /** Removing the leftmost node keeps a search tree. */
  lemma {:induction false} RemoveMinSearch(t: SBNode)
    requires t.Node? && IsSearchTree(t)
    ensures IsSearchTree(RemoveMin(t)) && MinNode(t).repeat >= 1
  {
    if t.left.Node? {
      RemoveMinSearch(t.left);
      RemoveMinKeys(t.left);
      ChildShrunk(t, RemoveMin(t));
    }
  }

  /** Setting the least node's repeat count to 1 and deleting its key
      removes exactly that node. */
  lemma {:induction false} DeleteReplaced(t: SBNode)
    requires t.Node? && Ordered(t)
    ensures DeleteFrom(MinRepeatOne(t), MinNode(t).data) == RemoveMin(t)
  {
    if t.left.Node? {
      DeleteReplaced(t.left);
      ExtremeNodes(t.left);
    }
  }

  /** The node that takes the place of a deleted node with two children. */
  ghost function Replacement(t: SBNode): SBNode
    requires t.Node? && t.right.Node?
  {
    Node(t.left, MinNode(t.right).data, MinNode(t.right).repeat, 1, (), RemoveMin(t.right))
  }

  lemma ReplacementOrder(t: SBNode)
    requires t.Node? && t.left.Node? && t.right.Node? && IsSearchTree(t)
    ensures var n := Replacement(t);
            && Ordered(n) && RepeatsPositive(n) && SizesOk(n.left) && SizesOk(n.right)
            && Keys(n) <= Keys(t)
  {
    var n := Replacement(t);
    RemoveMinSearch(t.right);
    RemoveMinKeys(t.right);
    ExtremeNodes(t.right);
    assert Ordered(n);
  }

  lemma ReplacementElems(t: SBNode)
    requires t.Node? && t.repeat == 1 && t.left.Node? && t.right.Node?
    ensures var n := Replacement(t);
            Elems(n.left) + multiset(Repeat(n.data, n.repeat)) + Elems(n.right) == Elems(t) - multiset{t.data}
  {
    var n := Replacement(t);
    RemoveMinFlatten(t.right);
    var m, e := multiset(Repeat(n.data, n.repeat)), Elems(n.right);
    assert Elems(t.right) == m + e;
    assert Repeat(t.data, 1) == [t.data];
    ElemsOfNode(t);
    DropMiddle(Elems(t.left), t.data, m + e);
    assert Elems(t.left) + (m + e) == Elems(t.left) + m + e;
  }

  lemma ReplaceUnfold(t: SBNode)
    requires t.Node? && t.repeat == 1 && t.left.Node? && t.right.Node? && Ordered(t)
    ensures DeleteFrom(t, t.data) == PushUp(Replacement(t))
  {
    DeleteReplaced(t.right);
  }

  /** delete removes one copy of `v`, and nothing when `v` is absent. */
  lemma {:induction false} DeleteElems(t: SBNode, v: int)
    requires IsSearchTree(t)
    ensures Elems(DeleteFrom(t, v)) == Elems(t) - multiset{v}
    decreases NodeCount(t)
  {
    if t.Nil? {
    } else if v < t.data {
      DeleteElems(t.left, v);
      LeftReplacedElems(t, DeleteFrom(t, v), v);
    } else if v > t.data {
      DeleteElems(t.right, v);
      RightReplacedElems(t, DeleteFrom(t, v), v);
    } else if t.repeat > 1 {
      ReduceElems(t);
    } else if t.left.Nil? || t.right.Nil? {
      SpliceElems(t);
    } else {
      ReplaceElems(t);
    }
  }

  lemma ReduceElems(t: SBNode)
    requires t.Node? && t.repeat > 1
    ensures Elems(DeleteFrom(t, t.data)) == Elems(t) - multiset{t.data}
  {
    var u := DeleteFrom(t, t.data);
    assert Repeat(t.data, t.repeat) == [t.data] + Repeat(t.data, t.repeat - 1);
    ElemsOfNode(u);
    ElemsOfNode(t);
  }

  lemma SpliceElems(t: SBNode)
    requires t.Node? && t.repeat == 1 && (t.left.Nil? || t.right.Nil?)
    ensures Elems(DeleteFrom(t, t.data)) == Elems(t) - multiset{t.data}
  {
    assert Repeat(t.data, 1) == [t.data];
    ElemsOfNode(t);
  }

  lemma ReplaceElems(t: SBNode)
    requires t.Node? && t.repeat == 1 && t.left.Node? && t.right.Node? && Ordered(t)
    ensures Elems(DeleteFrom(t, t.data)) == Elems(t) - multiset{t.data}
  {
    ReplaceUnfold(t);
    ReplacementElems(t);
    ElemsOfNode(PushUp(Replacement(t)));
  }

  /** delete introduces no key. */
  lemma {:induction false} DeleteKeys(t: SBNode, v: int)
    requires IsSearchTree(t)
    ensures Keys(DeleteFrom(t, v)) <= Keys(t)
    decreases NodeCount(t)
  {
    if t.Nil? {
    } else if v < t.data {
      DeleteKeys(t.left, v);
    } else if v > t.data {
      DeleteKeys(t.right, v);
    } else if t.repeat > 1 || t.left.Nil? || t.right.Nil? {
    } else {
      ReplaceUnfold(t);
      ReplacementOrder(t);
    }
  }

  /** delete keeps a search tree: order, sizes and positive repeat counts. */
  lemma {:induction false} DeleteSearch(t: SBNode, v: int)
    requires IsSearchTree(t)
    ensures IsSearchTree(DeleteFrom(t, v))
    decreases NodeCount(t)
  {
    if t.Nil? {
    } else if v < t.data {
      DeleteSearch(t.left, v);
      DeleteKeys(t.left, v);
      ChildShrunk(t, DeleteFrom(t, v));
    } else if v > t.data {
      DeleteSearch(t.right, v);
      DeleteKeys(t.right, v);
      ChildShrunk(t, DeleteFrom(t, v));
    } else if t.repeat > 1 || t.left.Nil? || t.right.Nil? {
    } else {
      ReplaceUnfold(t);
      ReplacementOrder(t);
    }
  }

  // ---------------------------------------------------------------------
  // The tree object

  class SBTree {
    var root: SBNode

    /** Search-tree order, correct sizes, no empty node. */
    ghost predicate Valid()
      reads this
    {
      IsSearchTree(root)
    }

    ghost function Contents(): multiset<int>
      reads this
    {
      Elems(root)
    }

    constructor()
      ensures Valid() && Contents() == multiset{}
    {
      root := Nil;
    }

    method Clear()
      modifies this
      ensures Valid() && Contents() == multiset{}
    {
      root := Nil;
    }

    method Insert(v: int)
      requires Valid()
      modifies this
      ensures Valid() && Contents() == old(Contents()) + multiset{v}
    {
      PositiveIsNonNegative(root);
      InsertElems(root, v);
      InsertSearch(root, v);
      root := InsertInto(root, v);
    }

    method Delete(v: int)
      requires Valid()
      modifies this
      ensures Valid() && Contents() == old(Contents()) - multiset{v}
    {
      DeleteElems(root, v);
      DeleteSearch(root, v);
      root := DeleteFrom(root, v);
    }

    method Rank(v: int) returns (r: int)
      requires Valid()
      ensures r == OrderedMultiset.Rank(Contents(), v)
    {
      PositiveIsNonNegative(root);
      ListingIsFlatten(root);
      r := RankOf(root, v);
    }

    method Select(k: int) returns (r: Result<int>)
      requires Valid()
      ensures r == OrderedMultiset.Select(Contents(), k)
    {
      PositiveIsNonNegative(root);
      ListingIsFlatten(root);
      r := SelectAt(root, k);
    }

    method Predecessor(v: int) returns (r: Result<int>)
      requires Valid()
      ensures r == OrderedMultiset.Predecessor(Contents(), v)
    {
      ListingIsFlatten(root);
      r := PredecessorOf(root, v);
    }

    method Successor(v: int) returns (r: Result<int>)
      requires Valid()
      ensures r == OrderedMultiset.Successor(Contents(), v)
    {
      ListingIsFlatten(root);
      r := SuccessorOf(root, v);
    }
  }
}
