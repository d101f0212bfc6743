/**
 * Splay tree: an ordered multiset kept in a binary search tree that is
 * restructured on every access, so that the node accessed last becomes the
 * root. A node holds one value, its repeat count and its subtree size;
 * there is no balance field. Sizes are recomputed only by rotations, so the
 * root's own size can be stale after insert or delete changed its repeat
 * count; every size below the root is right.
 */
module Splay {
  import opened OrderedMultiset
  import opened SearchTree
  import opened Zipper

  type SplayNode = Tree<()>

  /** Every size below the root is right. */
  ghost predicate SizedBelow(t: SplayNode) {
    t.Nil? || (SizesOk(t.left) && SizesOk(t.right))
  }

  /** Everything hanging off a splay path has correct sizes: the focus's
      children and the ancestors' other children. */
  ghost predicate Hanging(x: SplayNode, path: seq<Frame<()>>) {
    (x.Node? ==> SizesOk(x.left) && SizesOk(x.right)) && SiblingsOk(path)
  }

  // ---------------------------------------------------------------------
  // Splay steps

  /** One rotation lifts the focus over its father (the last step of splay
      when the father is the root). */
  function Zig(x: SplayNode, p: Frame<()>): (r: SplayNode)
    requires x.Node?
    ensures r.Node?
  {
    var top := Attach(p, x);
    if p.side == GoLeft then RightRotate(top) else LeftRotate(top)
  }

  /** Two rotations lift the focus over its father and grandfather: when
      both links lean the same way the grandfather is rotated first, else
      the father is rotated first; then the focus is rotated to the top. */
  function ZigZag(x: SplayNode, p: Frame<()>, g: Frame<()>): (r: SplayNode)
    requires x.Node?
    ensures r.Node?
  {
    var top := Attach(g, Attach(p, x));
    if g.side == GoLeft && p.side == GoLeft then RightRotate(RightRotate(top))
    else if g.side == GoLeft then RightRotate(top.(left := LeftRotate(top.left)))
    else if p.side == GoLeft then LeftRotate(top.(right := RightRotate(top.right)))
    else LeftRotate(LeftRotate(top))
  }

  /** A zig keeps the listing and the order and puts the focus at the top;
      its result has correct sizes when everything hanging off it had. */
  lemma ZigKeeps(x: SplayNode, p: Frame<()>)
    requires x.Node?
    ensures Rearranged(Attach(p, x), Zig(x, p))
    ensures Zig(x, p).data == x.data && Zig(x, p).repeat == x.repeat
    ensures Hanging(x, [p]) ==> SizesOk(Zig(x, p))
  {
    var top := Attach(p, x);
    if p.side == GoLeft {
      RightRotateRearranges(top);
    } else {
      LeftRotateRearranges(top);
    }
    if Hanging(x, [p]) {
      assert SizesOk(p.sibling) by {
        assert [p][0] == p;
      }
    }
  }

  /** The same for the double steps. */
  lemma ZigZagKeeps(x: SplayNode, p: Frame<()>, g: Frame<()>)
    requires x.Node?
    ensures Rearranged(Attach(g, Attach(p, x)), ZigZag(x, p, g))
    ensures ZigZag(x, p, g).data == x.data && ZigZag(x, p, g).repeat == x.repeat
    ensures Hanging(x, [p, g]) ==> SizesOk(ZigZag(x, p, g))
  {
    if g.side == GoLeft && p.side == GoLeft {
      ZigZigLeft(x, p, g);
    } else if g.side == GoLeft {
      ZigZagLeft(x, p, g);
    } else if p.side == GoLeft {
      ZigZagRight(x, p, g);
    } else {
      ZigZigRight(x, p, g);
    }
  }

  lemma ZigZigLeft(x: SplayNode, p: Frame<()>, g: Frame<()>)
    requires x.Node? && g.side == GoLeft && p.side == GoLeft
    ensures Rearranged(Attach(g, Attach(p, x)), ZigZag(x, p, g))
    ensures ZigZag(x, p, g).data == x.data && ZigZag(x, p, g).repeat == x.repeat
    ensures Hanging(x, [p, g]) ==> SizesOk(ZigZag(x, p, g))
  {
    var top := Attach(g, Attach(p, x));
    RightRotateRearranges(top);
    RightRotateRearranges(RightRotate(top));
    if Hanging(x, [p, g]) {
      assert [p, g][0] == p && [p, g][1] == g;
    }
  }

  lemma ZigZigRight(x: SplayNode, p: Frame<()>, g: Frame<()>)
    requires x.Node? && g.side == GoRight && p.side == GoRight
    ensures Rearranged(Attach(g, Attach(p, x)), ZigZag(x, p, g))
    ensures ZigZag(x, p, g).data == x.data && ZigZag(x, p, g).repeat == x.repeat
    ensures Hanging(x, [p, g]) ==> SizesOk(ZigZag(x, p, g))
  {
    var top := Attach(g, Attach(p, x));
    LeftRotateRearranges(top);
    LeftRotateRearranges(LeftRotate(top));
    if Hanging(x, [p, g]) {
      assert [p, g][0] == p && [p, g][1] == g;
    }
  }

  lemma ZigZagLeft(x: SplayNode, p: Frame<()>, g: Frame<()>)
    requires x.Node? && g.side == GoLeft && p.side == GoRight
    ensures Rearranged(Attach(g, Attach(p, x)), ZigZag(x, p, g))
    ensures ZigZag(x, p, g).data == x.data && ZigZag(x, p, g).repeat == x.repeat
    ensures Hanging(x, [p, g]) ==> SizesOk(ZigZag(x, p, g))
  {
    var top := Attach(g, Attach(p, x));
    var inner := top.(left := LeftRotate(top.left));
    LeftRotateRearranges(top.left);
    ChildrenRearranged(top, inner.left, top.right);
    RightRotateRearranges(inner);
    if Hanging(x, [p, g]) {
      assert [p, g][0] == p && [p, g][1] == g;
    }
  }

  lemma ZigZagRight(x: SplayNode, p: Frame<()>, g: Frame<()>)
    requires x.Node? && g.side == GoRight && p.side == GoLeft
    ensures Rearranged(Attach(g, Attach(p, x)), ZigZag(x, p, g))
    ensures ZigZag(x, p, g).data == x.data && ZigZag(x, p, g).repeat == x.repeat
    ensures Hanging(x, [p, g]) ==> SizesOk(ZigZag(x, p, g))
  {
    var top := Attach(g, Attach(p, x));
    var inner := top.(right := RightRotate(top.right));
    RightRotateRearranges(top.right);
    ChildrenRearranged(top, top.left, inner.right);
    LeftRotateRearranges(inner);
    if Hanging(x, [p, g]) {
      assert [p, g][0] == p && [p, g][1] == g;
    }
  }

  /** Hanging subtrees of the rest of the path stay as they were. */
  lemma HangingDrop(x: SplayNode, path: seq<Frame<()>>, n: nat)
    requires Hanging(x, path) && n <= |path|
    ensures SiblingsOk(path[n..]) && Hanging(x, path[..n])
  {
    forall i | 0 <= i < |path[n..]| ensures SizesOk(path[n..][i].sibling) {
      assert path[n..][i] == path[i + n];
    }
    forall i | 0 <= i < |path[..n]| ensures SizesOk(path[..n][i].sibling) {
      assert path[..n][i] == path[i];
    }
  }

  /** One round of splay's loop with a grandfather present ... */
  lemma DoubleStep(start: SplayNode, x: SplayNode, path: seq<Frame<()>>)
    requires x.Node? && |path| >= 2 && Rearranged(start, Plug(x, path))
    ensures var y := ZigZag(x, path[0], path[1]);
      Rearranged(start, Plug(y, path[2..])) && y.data == x.data && y.repeat == x.repeat
  {
    ZigZagKeeps(x, path[0], path[1]);
    TwoUp(start, x, path, ZigZag(x, path[0], path[1]));
  }

  /** ... keeps everything off the path sized. */
  lemma DoubleStepSizes(x: SplayNode, path: seq<Frame<()>>)
    requires x.Node? && |path| >= 2 && Hanging(x, path)
    ensures Hanging(ZigZag(x, path[0], path[1]), path[2..]) && SizesOk(ZigZag(x, path[0], path[1]))
  {
    HangingDrop(x, path, 2);
    assert path[..2] == [path[0], path[1]];
    ZigZagKeeps(x, path[0], path[1]);
  }

  /** The last round of splay's loop, when the father is the root ... */
  lemma SingleStep(start: SplayNode, x: SplayNode, path: seq<Frame<()>>)
    requires x.Node? && |path| >= 1 && Rearranged(start, Plug(x, path))
    ensures var y := Zig(x, path[0]);
      Rearranged(start, Plug(y, path[1..])) && y.data == x.data && y.repeat == x.repeat
  {
    ZigKeeps(x, path[0]);
    OneUp(start, x, path, Zig(x, path[0]));
  }

  /** ... keeps everything off the path sized. */
  lemma SingleStepSizes(x: SplayNode, path: seq<Frame<()>>)
    requires x.Node? && |path| >= 1 && Hanging(x, path)
    ensures Hanging(Zig(x, path[0]), path[1..]) && SizesOk(Zig(x, path[0]))
  {
    HangingDrop(x, path, 1);
    assert path[..1] == [path[0]];
    ZigKeeps(x, path[0]);
  }

  /**
   * splay(src, null): rotates the focus up to the root, two levels at a
   * time while it has a grandfather, then once more when it still has a
   * father. The result holds the same listing, keeps the order and has the
   * focus's value at the root; after at least one rotation its sizes are
   * all correct when everything hanging off the path had correct sizes.
   */
  method SplayUp(x0: SplayNode, path0: seq<Frame<()>>) returns (t: SplayNode)
    requires x0.Node?
    ensures Rearranged(Plug(x0, path0), t)
    ensures t.Node? && t.data == x0.data && t.repeat == x0.repeat
    ensures |path0| == 0 ==> t == x0
    ensures Hanging(x0, path0) ==> SizedBelow(t) && (|path0| > 0 ==> SizesOk(t))
  {
    var x, path := x0, path0;
    ghost var start := Plug(x0, path0);
    ghost var hanging := Hanging(x0, path0);
    while |path| > 0
      invariant x.Node? && x.data == x0.data && x.repeat == x0.repeat
      invariant Rearranged(start, Plug(x, path))
      invariant |path| == |path0| ==> x == x0
      invariant hanging ==> Hanging(x, path) && (|path| < |path0| ==> SizesOk(x))
      decreases |path|
    {
      if |path| >= 2 {
        DoubleStep(start, x, path);
        if hanging {
          DoubleStepSizes(x, path);
        }
        x, path := ZigZag(x, path[0], path[1]), path[2..];
      } else {
        SingleStep(start, x, path);
        if hanging {
          SingleStepSizes(x, path);
        }
        x, path := Zig(x, path[0]), path[1..];
      }
    }
    t := x;
  }

  // ---------------------------------------------------------------------
  // Finding the node to splay

  /** Everything hanging off the path to a subtree of a tree whose sizes
      are right below the root has correct sizes, and so has the subtree
      itself when it is not the root. */
  lemma {:induction false} SubtreesSized(x: SplayNode, path: seq<Frame<()>>)
    requires SizedBelow(Plug(x, path))
    ensures Hanging(x, path) && (|path| > 0 ==> SizesOk(x))
    decreases |path|
  {
    if |path| > 0 {
      SubtreesSized(Attach(path[0], x), path[1..]);
      forall i | 0 <= i < |path| ensures SizesOk(path[i].sibling) {
        if i > 0 {
          assert path[i] == path[1..][i - 1];
        }
      }
    }
  }

  /**
   * getNode(root, data): the node holding `v`, or the absent child where
   * the search for `v` ends, with the ancestors the search passed; the
   * nearest ancestor is the last node visited.
   */
  method GetNode(root: SplayNode, v: int) returns (x: SplayNode, path: seq<Frame<()>>)
    ensures Plug(x, path) == root && SearchPath(path, v)
    ensures x.Node? ==> x.data == v
  {
    x, path := root, [];
    while x.Node? && x.data != v
      invariant Plug(x, path) == root && SearchPath(path, v)
      decreases x
    {
      var side := if v < x.data then GoLeft else GoRight;
      var f := FrameOf(x, side);
      PlugCons(Child(x, side), f, path);
      SearchPathCons(f, path, v);
      x, path := Child(x, side), [f] + path;
    }
  }

  /**
   * `v` sits next to the root: no other key equals `v`, and every other key
   * lies on the same side of `v` as of the root's key. This holds after
   * splaying the node holding `v`, or the last node a search for an absent
   * `v` visited.
   */
  ghost predicate Adjacent(t: SplayNode, v: int) {
    t.Node? && forall k :: k in Keys(t) ==> k == t.data || (k != v && (k < v <==> k < t.data))
  }

  /** With `v` next to the root, the values below `v` are the left subtree
      and, when `v` is above the root's key, the root's copies. */
  lemma AdjacentRank(t: SplayNode, v: int)
    requires Ordered(t) && RepeatsPositive(t) && SizedBelow(t) && Adjacent(t, v)
    ensures CountBelow(Flatten(t), v) == Size(t.left) + (if v > t.data then t.repeat else 0)
  {
    var u := PushUp(t);
    PushUpKeeps(t);
    PositiveIsNonNegative(t);
    CountAtNode(u, v);
    FlattenInKeys(t.left);
    FlattenInKeys(t.right);
    if v < t.data {
      CountAll(Flatten(t.left), v);
      FlattenLength(t.left);
    } else if v > t.data {
      CountAll(Flatten(t.right), v);
    }
  }

  /** With `v` next to the root, the predecessor of `v` is the root's key
      when `v` is above it, and else the greatest key of the left subtree. */
  lemma AdjacentPredecessor(t: SplayNode, v: int)
    requires Ordered(t) && RepeatsPositive(t) && Adjacent(t, v)
    ensures PredecessorIn(Flatten(t), v) ==
              if v > t.data then Ok(t.data)
              else if t.left.Nil? then NoSuchElement
              else Ok(MaxNode(t.left).data)
  {
    var s := Flatten(t);
    FlattenSorted(t);
    FlattenInKeys(t);
    KeysInFlatten(t);
    if v > t.data {
      assert t.data in s;
      PredecessorInSorted(s, v, t.data);
    } else if t.left.Nil? {
      forall y | y in s ensures v <= y {
        assert y in Keys(t);
        assert y == t.data || y in Keys(t.right);
      }
      PredecessorInSorted(s, v, t.data);
    } else {
      ExtremeNodes(t.left);
      var x := MaxNode(t.left).data;
      assert x in Keys(t) && x < t.data;
      forall y | y in s && y < v ensures y <= x {
        assert y in Keys(t) && y < t.data;
        assert y in Keys(t.left);
      }
      PredecessorInSorted(s, v, x);
    }
  }

  /** With `v` next to the root, the successor of `v` is the root's key
      when `v` is below it, and else the least key of the right subtree. */
  lemma AdjacentSuccessor(t: SplayNode, v: int)
    requires Ordered(t) && RepeatsPositive(t) && Adjacent(t, v)
    ensures SuccessorIn(Flatten(t), v) ==
              if v < t.data then Ok(t.data)
              else if t.right.Nil? then NoSuchElement
              else Ok(MinNode(t.right).data)
  {
    var s := Flatten(t);
    FlattenSorted(t);
    FlattenInKeys(t);
    KeysInFlatten(t);
    if v < t.data {
      assert t.data in s;
      SuccessorInSorted(s, v, t.data);
    } else if t.right.Nil? {
      forall y | y in s ensures y <= v {
        assert y in Keys(t);
        assert y == t.data || y in Keys(t.left);
      }
      SuccessorInSorted(s, v, t.data);
    } else {
      ExtremeNodes(t.right);
      var x := MinNode(t.right).data;
      assert x in Keys(t) && t.data < x;
      forall y | y in s && v < y ensures x <= y {
        assert y in Keys(t) && t.data < y;
        assert y in Keys(t.right);
      }
      SuccessorInSorted(s, v, x);
    }
  }

  // ---------------------------------------------------------------------
  // Changing the root's repeat count and removing the root

  lemma {:induction false} RepeatMultiset(x: int, n: int)
    ensures multiset(Repeat(x, n)) == multiset{}[x := if n < 0 then 0 else n]
    decreases n
  {
    if n > 0 {
      RepeatMultiset(x, n - 1);
      assert Repeat(x, n) == [x] + Repeat(x, n - 1);
    }
  }

  /** One copy more at the root. */
  lemma RootOneMore(t: SplayNode)
    requires t.Node? && t.repeat >= 0
    ensures Elems(t.(repeat := t.repeat + 1)) == Elems(t) + multiset{t.data}
  {
    ElemsOfNode(t);
    ElemsOfNode(t.(repeat := t.repeat + 1));
    assert Repeat(t.data, t.repeat + 1) == [t.data] + Repeat(t.data, t.repeat);
  }

  /** One copy less at a root holding several keeps a splay tree. */
  lemma RootOneLess(t: SplayNode)
    requires t.Node? && t.repeat > 1 && Ordered(t) && RepeatsPositive(t) && SizedBelow(t)
    ensures var u := t.(repeat := t.repeat - 1);
      Ordered(u) && RepeatsPositive(u) && SizedBelow(u) && Elems(u) == Elems(t) - multiset{t.data}
  {
    ElemsOfNode(t);
    ElemsOfNode(t.(repeat := t.repeat - 1));
    assert Repeat(t.data, t.repeat) == [t.data] + Repeat(t.data, t.repeat - 1);
  }

  /** Removing the root node takes away all its copies and nothing else. */
  lemma RootOut(t: SplayNode)
    requires t.Node? && Ordered(t)
    ensures Elems(t)[t.data := 0] == Elems(t.left) + Elems(t.right)
  {
    var a, b := Elems(t.left), Elems(t.right);
    var c := multiset(Repeat(t.data, t.repeat));
    ElemsOfNode(t);
    FlattenInKeys(t.left);
    FlattenInKeys(t.right);
    assert t.data !in Flatten(t.left) && t.data !in Flatten(t.right);
    assert a[t.data] == 0 && b[t.data] == 0;
    RepeatMultiset(t.data, t.repeat);
    assert (a + c + b)[t.data := 0] == a + b;
  }

  /** Removing a root that holds one copy removes one copy of its key. */
  lemma RootRemovedOnce(t: SplayNode)
    requires t.Node? && t.repeat == 1
    ensures Elems(t.left) + Elems(t.right) == Elems(t) - multiset{t.data}
  {
    ElemsOfNode(t);
    assert Repeat(t.data, 1) == [t.data];
  }

  /** Removing a root that sits next to an absent `v` removes every copy of
      a neighbour of `v`. */
  lemma RootRemovedNear(t: SplayNode, v: int)
    requires Ordered(t) && RepeatsPositive(t) && Adjacent(t, v) && v !in Elems(t)
    ensures t.data in Elems(t) && Elems(t.left) + Elems(t.right) == Elems(t)[t.data := 0]
    ensures Elems(t)[t.data := 0] != Elems(t)
    ensures forall k :: k in Elems(t) ==> k == t.data || (k < v <==> k < t.data)
  {
    RootOut(t);
    KeysInFlatten(t);
    FlattenInKeys(t);
    assert t.data in Keys(t);
    assert t.data in Flatten(t);
    Zeroed(Elems(t), t.data);
    forall k | k in Elems(t) ensures k == t.data || (k < v <==> k < t.data) {
      assert k in Flatten(t);
      assert k in Keys(t);
    }
  }

  lemma Zeroed(m: multiset<int>, x: int)
    requires x in m
    ensures m[x := 0] != m
  {
    assert m[x := 0][x] == 0;
  }

  /** The successor transplant of delete gives a search tree holding both
      subtrees of the removed root. */
  lemma SuccessorRoot(t: SplayNode, y: SplayNode, m: SplayNode)
    requires t.Node? && t.right.Node? && Ordered(t) && RepeatsPositive(t) && SizedBelow(t)
    requires y.Node? && Detached(t.right, y.right, m)
    requires y == Node(t.left, m.data, m.repeat, Size(t.left) + m.repeat + Size(y.right), t.info, y.right)
    ensures IsSearchTree(y) && Elems(y) == Elems(t.left) + Elems(t.right)
  {
    assert IsSearchTree(t.right);
    assert DetachedParts(t.right, y.right, m);
    ElemsOfNode(y);
    assert m.data in Keys(t.right);
  }

  // ---------------------------------------------------------------------
  // Insert

  /** Before splaying at insert: the tree with the raised sizes has the old
      contents and order, and the splay path hangs off sized subtrees. */
  lemma InsertFoundBefore(x: SplayNode, path: seq<Frame<()>>)
    requires x.Node? && SizedBelow(Plug(x, path))
    ensures SameButSizes(Plug(x, path), Plug(x.(size := x.size + 1), Bump(path, 1)))
    ensures Hanging(x.(size := x.size + 1), Bump(path, 1))
  {
    PlugBumpSame(x, x.(size := x.size + 1), path, 1);
    SubtreesSized(x, path);
    SiblingsBump(path, 1);
  }

  /** Before splaying the new leaf: the tree with the leaf in place has one
      more copy of `v` and keeps the order ... */
  lemma InsertLeafBefore(path: seq<Frame<()>>, v: int)
    requires SearchPath(path, v) && Ordered(Plug(Nil, path)) && RepeatsPositive(Plug(Nil, path))
    ensures var t := Plug(Node(Nil, v, 1, 1, (), Nil), Bump(path, 1));
      Ordered(t) && RepeatsPositive(t) && Elems(t) == Elems(Plug(Nil, path)) + multiset{v}
  {
    var leaf: SplayNode := Node(Nil, v, 1, 1, (), Nil);
    PlugBumpSame(leaf, leaf, path, 1);
    InsertLeafOrder(path, v);
    InsertLeafElems(path, v);
  }

  lemma InsertLeafOrder(path: seq<Frame<()>>, v: int)
    requires SearchPath(path, v) && Ordered(Plug(Nil, path)) && RepeatsPositive(Plug(Nil, path))
    ensures var t := Plug(Node(Nil, v, 1, 1, (), Nil), path);
      Ordered(t) && RepeatsPositive(t)
  {
    var leaf: SplayNode := Node(Nil, v, 1, 1, (), Nil);
    PlugGrown(Nil, leaf, path, v);
    PlugPositive(Nil, leaf, path);
  }

  lemma InsertLeafElems(path: seq<Frame<()>>, v: int)
    ensures Elems(Plug(Node(Nil, v, 1, 1, (), Nil), path)) == Elems(Plug(Nil, path)) + multiset{v}
  {
    var leaf: SplayNode := Node(Nil, v, 1, 1, (), Nil);
    assert Flatten(leaf) == [v];
    PlugElems(Nil, leaf, path, multiset{v});
  }

  /** ... and the splay path hangs off sized subtrees. */
  lemma InsertLeafSizes(path: seq<Frame<()>>, v: int)
    requires SizedBelow(Plug(Nil, path))
    ensures Hanging(Node(Nil, v, 1, 1, (), Nil), Bump(path, 1))
  {
    SubtreesSized(Nil, path);
    SiblingsBump(path, 1);
  }

  /** After splaying at insert: the root with one copy more holds the old
      contents and one more `v`. */
  lemma InsertFoundAfter(r0: SplayNode, x: SplayNode, path: seq<Frame<()>>, t: SplayNode)
    requires x.Node? && r0 == Plug(x, path) && Ordered(r0) && RepeatsPositive(r0)
    requires SameButSizes(r0, Plug(x.(size := x.size + 1), Bump(path, 1)))
    requires Rearranged(Plug(x.(size := x.size + 1), Bump(path, 1)), t)
    requires t.Node? && t.data == x.data && t.repeat == x.repeat && SizedBelow(t)
    ensures var u := t.(repeat := t.repeat + 1);
      Ordered(u) && RepeatsPositive(u) && SizedBelow(u) && Elems(u) == Elems(r0) + multiset{x.data}
  {
    PlugPositiveInner(x, path);
    RootOneMore(t);
  }

  // ---------------------------------------------------------------------
  // The tree

  class SplayTree {
    var root: SplayNode

    /** Search-tree order, no empty node, and correct sizes below the root. */
    ghost predicate Valid()
      reads this
    {
      Ordered(root) && RepeatsPositive(root) && SizedBelow(root)
    }

    ghost function Contents(): multiset<int>
      reads this
    {
      Elems(root)
    }

    constructor()
      ensures Valid() && Contents() == multiset{}
    {
      root := Nil;
    }

    method Clear()
      modifies this
      ensures Valid() && Contents() == multiset{}
    {
      root := Nil;
    }

    /**
     * insert(data): one more copy of `v`, and the node holding `v` becomes
     * the root. Every size on the search path is raised on the way down.
     */
    method Insert(v: int)
      requires Valid()
      modifies this
      ensures Valid() && Contents() == old(Contents()) + multiset{v}
      ensures root.Node? && root.data == v
    {
      ghost var r0 := root;
      ghost var path0: seq<Frame<()>> := [];
      var path: seq<Frame<()>> := [];
      var current := root;
      while current.Node?
        invariant Plug(current, path0) == r0 && path == Bump(path0, 1) && SearchPath(path0, v)
        decreases current
      {
        var bumped := current.(size := current.size + 1);
        if v == current.data {
          InsertFoundBefore(current, path0);
          var t := SplayUp(bumped, path);
          InsertFoundAfter(r0, current, path0, t);
          root := t.(repeat := t.repeat + 1);
          return;
        }
        var side := if v < current.data then GoLeft else GoRight;
        var f := FrameOf(current, side);
        PlugCons(Child(current, side), f, path0);
        SearchPathCons(f, path0, v);
        BumpCons(f, path0, 1);
        path0, path := [f] + path0, [FrameOf(bumped, side)] + path;
        current := Child(current, side);
      }
      InsertLeafBefore(path0, v);
      InsertLeafSizes(path0, v);
      var t := SplayUp(Node(Nil, v, 1, 1, (), Nil), path);
      root := t;
    }

    /** splay(x, null) on the whole tree: the node `x`, reached through
        `path`, becomes the root. */
    method SplayAt(x: SplayNode, path: seq<Frame<()>>)
      requires Valid() && x.Node? && Plug(x, path) == root
      modifies this
      ensures Valid() && Contents() == old(Contents())
      ensures Flatten(root) == Flatten(old(root)) && Keys(root) == Keys(old(root))
      ensures root.Node? && root.data == x.data && root.repeat == x.repeat
    {
      SubtreesSized(x, path);
      var t := SplayUp(x, path);
      root := t;
    }

    /**
     * The first step of delete, rank, predecessor and successor: getNode,
     * then splay the node holding `v` or, when `v` is absent, the last node
     * the search visited. Nothing happens on an empty tree.
     */
    method SplayNear(v: int) returns (found: bool)
      requires Valid()
      modifies this
      ensures Valid() && Contents() == old(Contents()) && Keys(root) == old(Keys(root))
      ensures found <==> v in old(Contents())
      ensures old(root).Nil? ==> root.Nil?
      ensures old(root).Node? ==> Adjacent(root, v)
      ensures found ==> root.Node? && root.data == v
    {
      ghost var r0 := root;
      FlattenInKeys(r0);
      KeysInFlatten(r0);
      var x, path := GetNode(root, v);
      found := x.Node?;
      if found {
        SplayAt(x, path);
      } else if |path| > 0 {
        PlugAbsent(x, path, v);
        LastVisited(path, v);
        var w := Attach(path[0], Nil);
        assert Plug(w, path[1..]) == r0;
        SplayAt(w, path[1..]);
      }
    }

    /** The root node goes, with all its copies: it is replaced by its only
        child, or by its in-order successor when it has two. */
    method RemoveRoot()
      requires Valid() && root.Node?
      modifies this
      ensures Valid() && Contents() == Elems(old(root).left) + Elems(old(root).right)
    {
      ghost var t := root;
      if root.left.Nil? {
        root := root.right;
      } else if root.right.Nil? {
        root := root.left;
      } else {
        var y, m, lowered := TakeSuccessor(root);
        SuccessorRoot(t, y, m);
        root := y;
      }
    }

    /** The end of delete once the node holding the value is the root:
        one copy fewer, and the root node goes when it held one copy. */
    method DropRootCopy()
      requires Valid() && root.Node?
      modifies this
      ensures Valid() && Contents() == old(Contents()) - multiset{old(root).data}
    {
      ghost var t := root;
      if root.repeat > 1 {
        RootOneLess(t);
        root := root.(repeat := root.repeat - 1);
        return;
      }
      RootRemovedOnce(t);
      RemoveRoot();
    }

    /**
     * delete(data) as written: the node holding `v` loses one copy, or goes
     * when it held one. When `v` is absent, the last node the search visited
     * is splayed and then removed with all its copies, although it holds a
     * neighbouring value rather than `v`. An empty tree is not handled.
     */
    method Delete(v: int) returns (ghost removed: int)
      requires Valid() && root.Node?
      modifies this
      ensures Valid()
      ensures v in old(Contents()) ==> Contents() == old(Contents()) - multiset{v}
      ensures v !in old(Contents()) ==>
                && removed in old(Contents()) && Contents() == old(Contents())[removed := 0]
                && Contents() != old(Contents())
                && forall k :: k in old(Contents()) ==> k == removed || (k < v <==> k < removed)
    {
      var found := SplayNear(v);
      if found {
        DropRootCopy();
        return v;
      }
      RootRemovedNear(root, v);
      removed := root.data;
      RemoveRoot();
    }

    /** delete(data) as evidently intended: one copy of `v` fewer, and
        nothing changes when `v` is absent or the tree is empty. */
    method DeleteChecked(v: int)
      requires Valid()
      modifies this
      ensures Valid() && Contents() == old(Contents()) - multiset{v}
    {
      if root.Nil? {
        assert Contents() - multiset{v} == Contents();
        return;
      }
      var found := SplayNear(v);
      if !found {
        assert Contents() - multiset{v} == Contents();
        return;
      }
      DropRootCopy();
    }

    /** rank(data): 1 + the number of stored values below `v`; splays the
        node holding `v` or the last node visited. */
    method Rank(v: int) returns (r: int)
      requires Valid()
      modifies this
      ensures Valid() && Contents() == old(Contents())
      ensures r == OrderedMultiset.Rank(Contents(), v)
    {
      var found := SplayNear(v);
      if found {
        r := Size(root.left) + 1;
      } else if root.Node? {
        if v > root.data {
          r := Size(root.left) + root.repeat + 1;
        } else {
          r := Size(root.left) + 1;
        }
      } else {
        r := 1;
      }
      if root.Node? {
        AdjacentRank(root, v);
        assert r == 1 + CountBelow(Flatten(root), v);
      } else {
        assert r == 1 + CountBelow(Flatten(root), v);
      }
      ListingIsFlatten(root);
      assert OrderedMultiset.Rank(Contents(), v) == 1 + CountBelow(Flatten(root), v);
      assert r == OrderedMultiset.Rank(Contents(), v);
    }

    /** select(rank): the value of rank `k`; splays the node holding it, or
        the last node visited when `k` is out of range. */
    method Select(k: int) returns (r: Result<int>)
      requires Valid()
      modifies this
      ensures Valid() && Contents() == old(Contents())
      ensures r == OrderedMultiset.Select(Contents(), k)
    {
      ListingIsFlatten(root);
      var x, path := SelectWalk(root, k);
      if x.Node? {
        SplayAt(x, path);
        return Ok(x.data);
      }
      if |path| > 0 {
        var w := Attach(path[0], Nil);
        assert Plug(w, path[1..]) == root;
        SplayAt(w, path[1..]);
      }
      return NoSuchElement;
    }

    /** predecessor(data): the greatest value below `v`; splays as rank does. */
    method Predecessor(v: int) returns (r: Result<int>)
      requires Valid()
      modifies this
      ensures Valid() && Contents() == old(Contents())
      ensures r == OrderedMultiset.Predecessor(Contents(), v)
    {
      var found := SplayNear(v);
      if root.Nil? {
        r := NoSuchElement;
      } else if !found && v > root.data {
        r := Ok(root.data);
      } else {
        var node := GetMaxNode(root.left);
        r := if node.Ok? then Ok(node.value.data) else NoSuchElement;
      }
      ListingIsFlatten(root);
      if root.Node? {
        AdjacentPredecessor(root, v);
      }
    }

    /** successor(data): the least value above `v`; splays as rank does. */
    method Successor(v: int) returns (r: Result<int>)
      requires Valid()
      modifies this
      ensures Valid() && Contents() == old(Contents())
      ensures r == OrderedMultiset.Successor(Contents(), v)
    {
      var found := SplayNear(v);
      if root.Nil? {
        r := NoSuchElement;
      } else if !found && v < root.data {
        r := Ok(root.data);
      } else {
        var node := GetMinNode(root.right);
        r := if node.Ok? then Ok(node.value.data) else NoSuchElement;
      }
      ListingIsFlatten(root);
      if root.Node? {
        AdjacentSuccessor(root, v);
      }
    }
  }

  /**
   * select's walk: the node holding the value of rank `k`, or the absent
   * child where the walk ends when `k` is out of range, with the ancestors
   * passed. Only the sizes of the children of the nodes visited are read,
   * so a stale size at the root does no harm.
   */
  method SelectWalk(root: SplayNode, k: int) returns (x: SplayNode, path: seq<Frame<()>>)
    requires RepeatsPositive(root) && SizedBelow(root)
    ensures Plug(x, path) == root
    ensures SelectIn(Flatten(root), k) == if x.Node? then Ok(x.data) else NoSuchElement
  {
    var value := k;
    x, path := root, [];
    while x.Node?
      invariant Plug(x, path) == root && RepeatsPositive(x)
      invariant x.Node? ==> SizesOk(x.left) && SizesOk(x.right)
      invariant SelectIn(Flatten(x), value) == SelectIn(Flatten(root), k)
      decreases x
    {
      SelectHere(x, value);
      if Size(x.left) + 1 <= value <= Size(x.left) + x.repeat {
        return;
      }
      var side := if value < Size(x.left) + 1 then GoLeft else GoRight;
      if side == GoRight {
        value := value - (Size(x.left) + x.repeat);
      }
      PlugCons(Child(x, side), FrameOf(x, side), path);
      x, path := Child(x, side), [FrameOf(x, side)] + path;
    }
  }

  /** select's test at one node, whose own size may be stale: only the
      children's sizes are read. */
  lemma SelectHere(t: SplayNode, k: int)
    requires t.Node? && RepeatsPositive(t) && SizesOk(t.left) && SizesOk(t.right)
    ensures SelectIn(Flatten(t), k) ==
              if Size(t.left) + 1 <= k <= Size(t.left) + t.repeat then Ok(t.data)
              else if k < Size(t.left) + 1 then SelectIn(Flatten(t.left), k)
              else SelectIn(Flatten(t.right), k - Size(t.left) - t.repeat)
  {
    PushUpKeeps(t);
    PositiveIsNonNegative(t);
    SelectAtNode(PushUp(t), k);
  }
}
