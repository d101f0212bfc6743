/**
 * Red-black tree over an ordered multiset. Nodes carry a colour; an absent
 * node reads as black. Insert walks down raising sizes, adds a copy to an
 * equal node or hangs a new red leaf, and fixInsert walks back up through
 * the parent links recolouring and rotating. Delete walks down lowering
 * sizes, then lowers a repeat count, splices the node out, or moves its
 * in-order successor into its place, and fixDelete walks up from the
 * child that took the removed node's place.
 *
 * The walks up are modelled with a zipper: the focus subtree and its
 * ancestors, nearest first.
 */
module RB {
  import opened OrderedMultiset
  import opened SearchTree
  import opened Zipper

  datatype Color = Red | Black

  type RBNode = Tree<Color>

  /** getColor: an absent node is black. */
  function ColorOf(t: RBNode): Color {
    if t.Nil? then Black else t.info
  }

  predicate IsRed(t: RBNode) {
    ColorOf(t) == Red
  }

  /** setColor: does nothing to an absent node. */
  function Paint(t: RBNode, c: Color): (r: RBNode)
    ensures r.Nil? == t.Nil?
  {
    if t.Nil? then Nil else t.(info := c)
  }

  /**
   * No red node has a red child, and every way down to an absent child
   * meets `h` black nodes.
   */
  ghost predicate RB(t: RBNode, h: int) {
    match t
    case Nil => h == 0
    case Node(l, _, _, _, c, r) =>
      RB(l, if c == Black then h - 1 else h) && RB(r, if c == Black then h - 1 else h) &&
      (c == Red ==> !IsRed(l) && !IsRed(r))
  }

  function BlackHeight(t: RBNode): int {
    if t.Nil? then 0 else BlackHeight(t.left) + (if t.info == Black then 1 else 0)
  }

  /** The three red-black properties: a black root, no red node with a red
      child, and the same number of black nodes on every way down. */
  ghost predicate IsRB(t: RBNode) {
    !IsRed(t) && RB(t, BlackHeight(t))
  }

  /**
   * The ancestors of a subtree of black height `h` keep the red-black
   * properties, except that the nearest one may be red over a red focus
   * when `allow` holds.
   */
  ghost predicate PathOk(path: seq<Frame<Color>>, h: int, focusRed: bool, allow: bool)
    decreases |path|
  {
    |path| == 0 ||
    (RB(path[0].sibling, h) &&
     (path[0].info == Red ==> !IsRed(path[0].sibling) && (!focusRed || allow)) &&
     PathOk(path[1..], h + (if path[0].info == Black then 1 else 0), path[0].info == Red, false))
  }

  // ---------------------------------------------------------------------
  // Red-black facts

  lemma {:induction false} RBHeight(t: RBNode, h: int)
    requires RB(t, h)
    ensures h == BlackHeight(t)
  {
    if t.Node? {
      RBHeight(t.left, if t.info == Black then h - 1 else h);
    }
  }

  /** Settled ancestors over a valid subtree make a valid tree. */
  lemma {:induction false} PlugRB(x: RBNode, path: seq<Frame<Color>>, h: int) returns (top: int)
    requires RB(x, h) && PathOk(path, h, IsRed(x), false)
    ensures RB(Plug(x, path), top)
    decreases |path|
  {
    if |path| == 0 {
      top := h;
    } else {
      var f := path[0];
      var y := Attach(f, x);
      var h' := h + (if f.info == Black then 1 else 0);
      assert RB(y, h');
      top := PlugRB(y, path[1..], h');
    }
  }

  /** root.color = BLACK on a valid tree gives all three properties. */
  lemma Blacken(t: RBNode, h: int)
    requires t.Node? && RB(t, h)
    ensures IsRB(t.(info := Black))
  {
    var u := t.(info := Black);
    var hu := if t.info == Black then h else h + 1;
    assert RB(u, hu);
    RBHeight(u, hu);
  }

  lemma PathWeaken(path: seq<Frame<Color>>, h: int)
    requires PathOk(path, h, false, false)
    ensures PathOk(path, h, true, true)
  {
  }

  lemma PathBlackFather(path: seq<Frame<Color>>, h: int)
    requires PathOk(path, h, true, true) && |path| > 0 && path[0].info == Black
    ensures PathOk(path, h, true, false)
  {
  }

  /** One step down: the child and the ancestors grown by its parent. */
  lemma DescendRB(t: RBNode, f: Frame<Color>, path: seq<Frame<Color>>, h: int)
    requires t.Node? && RB(t, h) && PathOk(path, h, IsRed(t), false)
    requires f.side == GoLeft ==> f.sibling == t.right
    requires f.side == GoRight ==> f.sibling == t.left
    requires f.info == t.info
    ensures var c := Child(t, f.side);
      var h' := if t.info == Black then h - 1 else h;
      RB(c, h') && PathOk([f] + path, h', IsRed(c), false)
  {
    assert ([f] + path)[1..] == path;
  }

  // ---------------------------------------------------------------------
  // Insert without the fix-up

  /** The descent of insert: every size on the way up by one, then one more
      copy at an equal node or a new red leaf (fixInsert colours the new
      node red before anything else). */
  function InsertPlain(t: RBNode, v: int): RBNode {
    match t
    case Nil => Node(Nil, v, 1, 1, Red, Nil)
    case Node(l, x, n, s, c, r) =>
      if v < x then Node(InsertPlain(l, v), x, n, s + 1, c, r)
      else if v > x then Node(l, x, n, s + 1, c, InsertPlain(r, v))
      else Node(l, x, n + 1, s + 1, c, r)
  }

  lemma {:induction false} InsertPlainElems(t: RBNode, v: int)
    requires RepeatsNonNegative(t)
    ensures Elems(InsertPlain(t, v)) == Elems(t) + multiset{v}
  {
    if t.Nil? {
    } else if v < t.data {
      InsertPlainElems(t.left, v);
      InsertPlainSide(t, InsertPlain(t, v), v);
    } else if v > t.data {
      InsertPlainElems(t.right, v);
      InsertPlainSide(t, InsertPlain(t, v), v);
    } else {
      InsertPlainEqual(t);
    }
  }

  /** One more copy in a child is one more copy in the node. */
  lemma InsertPlainSide(t: RBNode, u: RBNode, v: int)
    requires t.Node? && u.Node? && u.data == t.data && u.repeat == t.repeat
    requires (u.right == t.right && Elems(u.left) == Elems(t.left) + multiset{v}) ||
             (u.left == t.left && Elems(u.right) == Elems(t.right) + multiset{v})
    ensures Elems(u) == Elems(t) + multiset{v}
  {
    ElemsOfNode(t);
    ElemsOfNode(u);
  }

  lemma InsertPlainEqual(t: RBNode)
    requires t.Node? && t.repeat >= 0
    ensures Elems(InsertPlain(t, t.data)) == Elems(t) + multiset{t.data}
  {
    assert Repeat(t.data, t.repeat + 1) == [t.data] + Repeat(t.data, t.repeat);
    ElemsOfNode(t);
    ElemsOfNode(InsertPlain(t, t.data));
  }

  lemma {:induction false} InsertPlainKeys(t: RBNode, v: int)
    ensures Keys(InsertPlain(t, v)) == Keys(t) + {v}
  {
    match t
    case Nil =>
    case Node(l, x, n, s, c, r) =>
      if v < x {
        InsertPlainKeys(l, v);
      } else if v > x {
        InsertPlainKeys(r, v);
      }
  }

  lemma {:induction false} InsertPlainSearch(t: RBNode, v: int)
    requires IsSearchTree(t)
    ensures IsSearchTree(InsertPlain(t, v)) && Size(InsertPlain(t, v)) == Size(t) + 1
  {
    match t
    case Nil =>
    case Node(l, x, n, s, c, r) =>
      if v < x {
        InsertPlainSearch(l, v);
        InsertPlainKeys(l, v);
      } else if v > x {
        InsertPlainSearch(r, v);
        InsertPlainKeys(r, v);
      }
  }

  // ---------------------------------------------------------------------
  // fixInsert

  /** The state fixInsert keeps: a red focus over a valid subtree, at most
      one red-red pair (focus and father), and a black root. */
  ghost predicate Climbing(x: RBNode, path: seq<Frame<Color>>, h: int) {
    IsRed(x) && RB(x, h) && PathOk(path, h, true, true) &&
    (|path| > 0 ==> path[|path| - 1].info == Black)
  }

  /** The red uncle case: father and uncle turn black, the grandfather red,
      and the walk moves to the grandfather. */
  function Recolour(x: RBNode, p: Frame<Color>, g: Frame<Color>): RBNode {
    Attach(g.(info := Red, sibling := Paint(g.sibling, Black)), Attach(p.(info := Black), x))
  }

  /** The black uncle case: a rotation at the father when the focus is an
      inner grandchild, then the father (or the focus) turns black, the
      grandfather red, and a rotation at the grandfather. */
  function Restructure(x: RBNode, p: Frame<Color>, g: Frame<Color>): RBNode
    requires x.Node?
  {
    var top := Attach(g, Attach(p, x));
    if g.side == GoLeft then
      var turned := if p.side == GoRight then top.(left := LeftRotate(top.left)) else top;
      RightRotate(turned.(info := Red, left := turned.left.(info := Black)))
    else
      var turned := if p.side == GoLeft then top.(right := RightRotate(top.right)) else top;
      LeftRotate(turned.(info := Red, right := turned.right.(info := Black)))
  }

  /** A red father at the root (never the case in a red-black tree): the
      grandfather tests read null, so the focus rotates up when it is a
      left child, and the new father turns black. */
  function RedRootFather(x: RBNode, p: Frame<Color>): RBNode
    requires x.Node?
  {
    var top := Attach(p, x);
    if p.side == GoLeft then RightRotate(top).(info := Black) else top.(info := Black)
  }

  lemma RecolourClimbs(x: RBNode, path: seq<Frame<Color>>, h: int)
    requires Climbing(x, path, h) && |path| >= 2 && path[0].info == Red && IsRed(path[1].sibling)
    ensures Climbing(Recolour(x, path[0], path[1]), path[2..], h + 1)
  {
    var p, g := path[0], path[1];
    assert path[1..][1..] == path[2..] && path[1..][0] == g;
    assert PathOk(path[1..], h, true, false);
    assert g.info == Black && RB(g.sibling, h) && PathOk(path[2..], h + 1, false, false);
    var u := Paint(g.sibling, Black);
    assert RB(u, h + 1);
    assert RB(Attach(p.(info := Black), x), h + 1);
    PathWeaken(path[2..], h + 1);
  }

  lemma RecolourKeeps(x: RBNode, p: Frame<Color>, g: Frame<Color>)
    ensures Rearranged(Attach(g, Attach(p, x)), Recolour(x, p, g))
  {
    var a := Attach(p, x);
    Recoloured(a, Black);
    AttachRearranged(g, a, a.(info := Black));
    SiblingPainted(g, a.(info := Black), Black);
    var b := Attach(g.(sibling := Paint(g.sibling, Black)), a.(info := Black));
    Recoloured(b, Red);
    RearrangedChain(Attach(g, a), Attach(g, a.(info := Black)), b, b.(info := Red));
  }

  /** The rotation cases end the walk with a black subtree root of the
      grandfather's black height. */
  lemma RestructureSettles(x: RBNode, path: seq<Frame<Color>>, h: int)
    requires Climbing(x, path, h) && |path| >= 2 && path[0].info == Red && !IsRed(path[1].sibling)
    ensures var r := Restructure(x, path[0], path[1]);
      RB(r, h + 1) && !IsRed(r) && PathOk(path[2..], h + 1, false, false)
  {
    var p, g := path[0], path[1];
    assert path[1..][1..] == path[2..] && path[1..][0] == g;
    assert PathOk(path[1..], h, true, false);
    assert g.info == Black && PathOk(path[2..], h + 1, false, false);
    assert RB(p.sibling, h) && !IsRed(p.sibling) && RB(g.sibling, h);
    if g.side == GoLeft {
      RestructureLeft(x, p, g, h);
    } else {
      RestructureRight(x, p, g, h);
    }
  }

  lemma RestructureLeft(x: RBNode, p: Frame<Color>, g: Frame<Color>, h: int)
    requires IsRed(x) && RB(x, h) && g.side == GoLeft
    requires p.info == Red && RB(p.sibling, h) && !IsRed(p.sibling)
    requires g.info == Black && RB(g.sibling, h) && !IsRed(g.sibling)
    ensures RB(Restructure(x, p, g), h + 1) && !IsRed(Restructure(x, p, g))
  {
    if p.side == GoRight {
      var a := LeftRotate(Attach(p, x));
      assert RB(a.left, h);
    }
  }

  lemma RestructureRight(x: RBNode, p: Frame<Color>, g: Frame<Color>, h: int)
    requires IsRed(x) && RB(x, h) && g.side == GoRight
    requires p.info == Red && RB(p.sibling, h) && !IsRed(p.sibling)
    requires g.info == Black && RB(g.sibling, h) && !IsRed(g.sibling)
    ensures RB(Restructure(x, p, g), h + 1) && !IsRed(Restructure(x, p, g))
  {
    if p.side == GoLeft {
      var a := RightRotate(Attach(p, x));
      assert RB(a.right, h);
    }
  }

  lemma RestructureKeeps(x: RBNode, p: Frame<Color>, g: Frame<Color>)
    requires x.Node?
    ensures Rearranged(Attach(g, Attach(p, x)), Restructure(x, p, g))
  {
    var top := Attach(g, Attach(p, x));
    if g.side == GoLeft {
      var turned := if p.side == GoRight then top.(left := LeftRotate(top.left)) else top;
      if p.side == GoRight {
        LeftRotateRearranges(top.left);
        ChildrenRearranged(top, LeftRotate(top.left), top.right);
      }
      Recoloured(turned.left, Black);
      ChildrenRearranged(turned, turned.left.(info := Black), turned.right);
      var painted := turned.(left := turned.left.(info := Black));
      Recoloured(painted, Red);
      RightRotateRearranges(painted.(info := Red));
    } else {
      var turned := if p.side == GoLeft then top.(right := RightRotate(top.right)) else top;
      if p.side == GoLeft {
        RightRotateRearranges(top.right);
        ChildrenRearranged(top, top.left, RightRotate(top.right));
      }
      Recoloured(turned.right, Black);
      ChildrenRearranged(turned, turned.left, turned.right.(info := Black));
      var painted := turned.(right := turned.right.(info := Black));
      Recoloured(painted, Red);
      LeftRotateRearranges(painted.(info := Red));
    }
  }

  lemma RedRootFatherKeeps(x: RBNode, p: Frame<Color>)
    requires x.Node?
    ensures Rearranged(Attach(p, x), RedRootFather(x, p))
  {
    var top := Attach(p, x);
    if p.side == GoLeft {
      RightRotateRearranges(top);
      Recoloured(RightRotate(top), Black);
    } else {
      Recoloured(top, Black);
    }
  }

  lemma PlugNode(x: RBNode, path: seq<Frame<Color>>)
    requires x.Node?
    ensures Plug(x, path).Node?
  {
    if |path| > 0 {
      PlugTop(x, path);
    }
  }

  /**
   * fixInsert(current): colours the new node red and walks up while the
   * father is red, recolouring under a red uncle and rotating under a
   * black one; finally the root turns black. The tree is rearranged, not
   * changed, and a tree that was red-black before the new leaf was hung
   * is red-black again.
   */
  method FixInsert(focus0: RBNode, path0: seq<Frame<Color>>, ghost rb: bool, ghost h0: int) returns (t: RBNode)
    requires focus0.Node?
    requires rb ==> Climbing(focus0.(info := Red), path0, h0)
    ensures Rearranged(Plug(focus0.(info := Red), path0), t)
    ensures t.Node? && t.info == Black
    ensures rb ==> IsRB(t)
  {
    var focus := focus0.(info := Red);
    var path := path0;
    ghost var start := Plug(focus, path);
    ghost var h := h0;
    while |path| > 0 && path[0].info == Red
      invariant focus.Node?
      invariant Rearranged(start, Plug(focus, path))
      invariant rb ==> Climbing(focus, path, h)
      decreases |path|
    {
      if |path| == 1 {
        RedRootFatherKeeps(focus, path[0]);
        OneUp(start, focus, path, RedRootFather(focus, path[0]));
        focus, path := RedRootFather(focus, path[0]), [];
        break;
      }
      var p, g := path[0], path[1];
      if IsRed(g.sibling) {
        RecolourKeeps(focus, p, g);
        if rb {
          RecolourClimbs(focus, path, h);
        }
        TwoUp(start, focus, path, Recolour(focus, p, g));
        focus, path := Recolour(focus, p, g), path[2..];
        h := h + 1;
      } else {
        RestructureKeeps(focus, p, g);
        if rb {
          RestructureSettles(focus, path, h);
        }
        TwoUp(start, focus, path, Restructure(focus, p, g));
        focus, path := Restructure(focus, p, g), path[2..];
        h := h + 1;
        break;
      }
    }
    if rb {
      Settle(focus, path, h);
    }
    PlugNode(focus, path);
    t := Plug(focus, path).(info := Black);
    Recoloured(Plug(focus, path), Black);
  }

  /** Where fixInsert stops, either still climbing under a black father or
      at the root, or settled after a rotation, blackening the root leaves a
      red-black tree. */
  lemma Settle(x: RBNode, path: seq<Frame<Color>>, h: int)
    requires x.Node?
    requires (Climbing(x, path, h) && !(|path| > 0 && path[0].info == Red)) ||
             (RB(x, h) && !IsRed(x) && PathOk(path, h, false, false))
    ensures Plug(x, path).Node? && IsRB(Plug(x, path).(info := Black))
  {
    if IsRed(x) && |path| > 0 {
      PathBlackFather(path, h);
    }
    var top := PlugRB(x, path, h);
    PlugNode(x, path);
    Blacken(Plug(x, path), top);
  }

  // ---------------------------------------------------------------------
  // delete: splicing a node out

  /** A node with one copy and at most one child, replaced by that child. */
  lemma SpliceShrunk(c: RBNode, y: RBNode)
    requires c.Node? && c.repeat <= 1
    requires (c.left.Nil? && y == c.right) || (c.right.Nil? && y == c.left)
    ensures Shrunk(c, y, c.data)
  {
    if IsSearchTree(c) {
      SpliceElems(c, y);
      if c.left.Nil? {
        assert IsSearchTree(y) && Keys(y) <= Keys(c) && Size(y) == Size(c) - 1;
      } else {
        assert IsSearchTree(y) && Keys(y) <= Keys(c) && Size(y) == Size(c) - 1;
      }
    }
  }

  lemma SpliceElems(c: RBNode, y: RBNode)
    requires c.Node? && c.repeat == 1
    requires (c.left.Nil? && y == c.right) || (c.right.Nil? && y == c.left)
    ensures Elems(y) == Elems(c) - multiset{c.data}
  {
    ElemsOfNode(c);
    assert Repeat(c.data, 1) == [c.data];
  }

  /** A node with one copy and two children, replaced by its in-order
      successor `m` holding the node's left child and the rest of the right. */
  lemma SuccessorShrunk(c: RBNode, rest: RBNode, m: RBNode, y: RBNode)
    requires c.Node? && c.repeat <= 1 && Detached(c.right, rest, m)
    requires y == Node(c.left, m.data, m.repeat, Size(c.left) + m.repeat + Size(rest), c.info, rest)
    ensures Shrunk(c, y, c.data)
  {
    if IsSearchTree(c) {
      assert c.repeat == 1 && IsSearchTree(c.left) && IsSearchTree(c.right);
      assert DetachedParts(c.right, rest, m);
      SuccessorElems(c, rest, m, y);
      SuccessorOrder(c, rest, m.data, y);
      SuccessorSized(c, rest, m, y);
    }
  }

  lemma SuccessorSized(c: RBNode, rest: RBNode, m: RBNode, y: RBNode)
    requires c.Node? && c.repeat == 1 && c.size == Size(c.left) + 1 + Size(c.right)
    requires IsSearchTree(c.left) && m.Node? && m.repeat > 0 && IsSearchTree(rest)
    requires Size(rest) == Size(c.right) - m.repeat
    requires y == Node(c.left, m.data, m.repeat, Size(c.left) + m.repeat + Size(rest), c.info, rest)
    ensures SizesOk(y) && RepeatsPositive(y) && Size(y) == Size(c) - 1
  {
  }

  lemma SuccessorElems(c: RBNode, rest: RBNode, m: RBNode, y: RBNode)
    requires c.Node? && c.repeat == 1 && m.Node?
    requires Elems(c.right) == multiset(Repeat(m.data, m.repeat)) + Elems(rest)
    requires y.Node? && y.left == c.left && y.data == m.data && y.repeat == m.repeat && y.right == rest
    ensures Elems(y) == Elems(c) - multiset{c.data}
  {
    ElemsOfNode(c);
    ElemsOfNode(y);
    assert Repeat(c.data, 1) == [c.data];
  }

  lemma SuccessorOrder(c: RBNode, rest: RBNode, k: int, y: RBNode)
    requires c.Node? && Ordered(c) && Ordered(rest) && y.Node? && y.left == c.left && y.data == k && y.right == rest
    requires k in Keys(c.right) && Keys(rest) <= Keys(c.right) && AllAbove(k, rest)
    ensures Ordered(y) && Keys(y) <= Keys(c)
  {
  }

  // ---------------------------------------------------------------------
  // fixDelete

  /** A node with a red child (an absent node has none). */
  predicate HasRedChild(t: RBNode) {
    t.Node? && (IsRed(t.left) || IsRed(t.right))
  }

  /** The red cousin case: the father turns red, the cousin black, and a
      rotation at the father lifts the cousin above it; the focus keeps its
      side under the father, one level deeper. */
  function RedCousinTurn(x: RBNode, p: Frame<Color>): (r: RBNode)
    requires IsRed(p.sibling)
    ensures r.Node? && Child(r, p.side).Node? && Child(Child(r, p.side), p.side) == x
  {
    var top := Attach(p, x);
    if p.side == GoLeft then LeftRotate(top.(info := Red, right := top.right.(info := Black)))
    else RightRotate(top.(info := Red, left := top.left.(info := Black)))
  }

  /** The black cousin with a red child: a rotation at the cousin when only
      its near child is red, then the cousin takes the father's colour, the
      father and the cousin's far child turn black, and a rotation at the
      father ends the walk. */
  function FarCousinTurn(x: RBNode, p: Frame<Color>): RBNode
    requires HasRedChild(p.sibling)
  {
    var c := NearTurn(p.sibling, p.side);
    if p.side == GoLeft then
      LeftRotate(Node(x, p.data, p.repeat, p.size, Black, c.(info := p.info, right := Paint(c.right, Black))))
    else
      RightRotate(Node(c.(info := p.info, left := Paint(c.left, Black)), p.data, p.repeat, p.size, Black, x))
  }

  /** The cousin of a focus on `side`, rotated so that its far child is red:
      when only the near child is red, it turns black, the cousin red, and
      the cousin rotates away from the focus. */
  function NearTurn(c: RBNode, side: Side): (r: RBNode)
    requires HasRedChild(c)
    ensures r.Node?
  {
    if side == GoLeft then
      if !IsRed(c.right) then RightRotate(c.(info := Red, left := c.left.(info := Black))) else c
    else
      if !IsRed(c.left) then LeftRotate(c.(info := Red, right := c.right.(info := Black))) else c
  }

  lemma NearTurnKeeps(c: RBNode, side: Side)
    requires HasRedChild(c)
    ensures Rearranged(c, NearTurn(c, side))
  {
    if side == GoLeft && !IsRed(c.right) {
      Recoloured(c.left, Black);
      ChildrenRearranged(c, c.left.(info := Black), c.right);
      Recoloured(c.(left := c.left.(info := Black)), Red);
      RightRotateRearranges(c.(info := Red, left := c.left.(info := Black)));
    } else if side == GoRight && !IsRed(c.left) {
      Recoloured(c.right, Black);
      ChildrenRearranged(c, c.left, c.right.(info := Black));
      Recoloured(c.(right := c.right.(info := Black)), Red);
      LeftRotateRearranges(c.(info := Red, right := c.right.(info := Black)));
    }
  }

  /** The turned cousin takes colour `col` and its far child turns black. */
  lemma FarPainted(c: RBNode, col: Color, side: Side)
    requires c.Node?
    ensures side == GoLeft ==> Rearranged(c, c.(info := col, right := Paint(c.right, Black)))
    ensures side == GoRight ==> Rearranged(c, c.(info := col, left := Paint(c.left, Black)))
  {
    Recoloured(c, col);
    if side == GoLeft {
      PaintRearranged(c.right, Black);
      ChildrenRearranged(c.(info := col), c.left, Paint(c.right, Black));
    } else {
      PaintRearranged(c.left, Black);
      ChildrenRearranged(c.(info := col), Paint(c.left, Black), c.right);
    }
  }

  lemma PaintRearranged(t: RBNode, c: Color)
    ensures Rearranged(t, Paint(t, c))
  {
    if t.Node? {
      Recoloured(t, c);
    }
  }

  /** Rearranging the other child of the father rearranges the father. */
  lemma SiblingReplaced(p: Frame<Color>, x: RBNode, s: RBNode)
    requires Rearranged(p.sibling, s)
    ensures Rearranged(Attach(p, x), Attach(p.(sibling := s), x))
  {
    var t := Attach(p, x);
    if p.side == GoLeft {
      ChildrenRearranged(t, x, s);
    } else {
      ChildrenRearranged(t, s, x);
    }
  }

  /** Recolouring the other child of the father rearranges nothing. */
  lemma SiblingPainted(p: Frame<Color>, x: RBNode, c: Color)
    ensures Rearranged(Attach(p, x), Attach(p.(sibling := Paint(p.sibling, c)), x))
  {
    PaintRearranged(p.sibling, c);
    SiblingReplaced(p, x, Paint(p.sibling, c));
  }

  lemma RedCousinKeeps(x: RBNode, p: Frame<Color>)
    requires IsRed(p.sibling)
    ensures Rearranged(Attach(p, x), RedCousinTurn(x, p))
  {
    var top := Attach(p, x);
    SiblingPainted(p, x, Black);
    var painted := Attach(p.(sibling := Paint(p.sibling, Black)), x);
    Recoloured(painted, Red);
    if p.side == GoLeft {
      LeftRotateRearranges(painted.(info := Red));
    } else {
      RightRotateRearranges(painted.(info := Red));
    }
  }

  lemma FarCousinKeeps(x: RBNode, p: Frame<Color>)
    requires HasRedChild(p.sibling)
    ensures Rearranged(Attach(p, x), FarCousinTurn(x, p))
  {
    if p.side == GoLeft {
      FarCousinLeft(x, p);
    } else {
      FarCousinRight(x, p);
    }
  }

  lemma FarCousinLeft(x: RBNode, p: Frame<Color>)
    requires HasRedChild(p.sibling) && p.side == GoLeft
    ensures Rearranged(Attach(p, x), FarCousinTurn(x, p))
  {
    var c := NearTurn(p.sibling, p.side);
    var c2 := c.(info := p.info, right := Paint(c.right, Black));
    NearTurnKeeps(p.sibling, p.side);
    FarPainted(c, p.info, p.side);
    RearrangedTrans(p.sibling, c, c2);
    SiblingReplaced(p, x, c2);
    var top := Node(x, p.data, p.repeat, p.size, p.info, c2);
    Recoloured(top, Black);
    LeftRotateRearranges(top.(info := Black));
    RearrangedChain(Attach(p, x), top, top.(info := Black), FarCousinTurn(x, p));
  }

  lemma FarCousinRight(x: RBNode, p: Frame<Color>)
    requires HasRedChild(p.sibling) && p.side == GoRight
    ensures Rearranged(Attach(p, x), FarCousinTurn(x, p))
  {
    var c := NearTurn(p.sibling, p.side);
    var c2 := c.(info := p.info, left := Paint(c.left, Black));
    NearTurnKeeps(p.sibling, p.side);
    FarPainted(c, p.info, p.side);
    RearrangedTrans(p.sibling, c, c2);
    SiblingReplaced(p, x, c2);
    var top := Node(c2, p.data, p.repeat, p.size, p.info, x);
    Recoloured(top, Black);
    RightRotateRearranges(top.(info := Black));
    RearrangedChain(Attach(p, x), top, top.(info := Black), FarCousinTurn(x, p));
  }

  /**
   * fixDelete(node): walks up from the node that took the removed node's
   * place while it is black and not the root: a red cousin is rotated
   * above the father; a cousin without red children turns red and the
   * walk moves to the father; otherwise rotations at the cousin and the
   * father end the walk. The node it stops at turns black. An absent
   * node starts no walk. The tree is rearranged, not changed.
   */
  method FixDelete(focus0: RBNode, path0: seq<Frame<Color>>) returns (t: RBNode)
    ensures Rearranged(Plug(focus0, path0), t)
    ensures focus0.Nil? ==> t == Plug(focus0, path0)
  {
    var focus, path := focus0, path0;
    ghost var start := Plug(focus, path);
    while focus.Node? && |path| > 0 && focus.info == Black
      invariant Rearranged(start, Plug(focus, path))
      invariant focus0.Nil? ==> focus.Nil? && path == path0
      decreases 2 * |path| + (if focus.Node? && focus.info == Black then 1 else 0)
    {
      if IsRed(path[0].sibling) {
        var side := path[0].side;
        var z := RedCousinTurn(focus, path[0]);
        RedCousinKeeps(focus, path[0]);
        OneUp(start, focus, path, z);
        path := Resplit(focus, z, side, path[1..]);
      }
      var p := path[0];
      if !HasRedChild(p.sibling) {
        var up := Attach(p.(sibling := Paint(p.sibling, Red)), focus);
        SiblingPainted(p, focus, Red);
        OneUp(start, focus, path, up);
        focus, path := up, path[1..];
      } else {
        var z := FarCousinTurn(focus, p);
        FarCousinKeeps(focus, p);
        OneUp(start, focus, path, z);
        focus, path := Plug(z, path[1..]), [];
      }
    }
    if focus.Node? {
      Recoloured(focus, Black);
      PlugRearranged(focus, focus.(info := Black), path);
      focus := focus.(info := Black);
    }
    t := Plug(focus, path);
  }

  /** After the red cousin case the focus sits two levels below the lifted
      cousin: its new father and the cousin become its two nearest ancestors. */
  function Resplit(x: RBNode, z: RBNode, side: Side, rest: seq<Frame<Color>>): (path: seq<Frame<Color>>)
    requires z.Node? && Child(z, side).Node? && Child(Child(z, side), side) == x
    ensures |path| == |rest| + 2 && path[2..] == rest && path[0].side == side
    ensures Plug(x, path) == Plug(z, rest)
  {
    var below := Child(z, side);
    var path := [FrameOf(below, side), FrameOf(z, side)] + rest;
    PlugCons(x, FrameOf(below, side), [FrameOf(z, side)] + rest);
    PlugCons(below, FrameOf(z, side), rest);
    path
  }

  // ---------------------------------------------------------------------
  // The tree

  class RBTree {
    var root: RBNode

    /** Search-tree order, correct sizes, no empty node. */
    ghost predicate Valid()
      reads this
    {
      IsSearchTree(root)
    }

    ghost function Contents(): multiset<int>
      reads this
    {
      Elems(root)
    }

    constructor()
      ensures Valid() && Contents() == multiset{} && IsRB(root)
    {
      root := Nil;
    }

    method Clear()
      modifies this
      ensures Valid() && Contents() == multiset{} && IsRB(root)
    {
      root := Nil;
    }

    /**
     * insert(data): one more copy of `v`; a red-black tree stays one.
     */
    method Insert(v: int)
      requires Valid()
      modifies this
      ensures Valid() && Contents() == old(Contents()) + multiset{v}
      ensures old(IsRB(root)) ==> IsRB(root)
    {
      ghost var r0 := root;
      ghost var rb := IsRB(root);
      ghost var hc := BlackHeight(root);
      var path: seq<Frame<Color>> := [];
      var current := root;
      while current.Node?
        invariant Plug(InsertPlain(current, v), path) == InsertPlain(r0, v)
        invariant rb ==> RB(current, hc) && PathOk(path, hc, IsRed(current), false)
        invariant rb ==> (|path| > 0 ==> path[|path| - 1].info == Black) && (|path| == 0 ==> !IsRed(current))
        decreases current
      {
        if v < current.data {
          var f := Frame(GoLeft, current.data, current.repeat, current.size + 1, current.info, current.right);
          PlugCons(InsertPlain(current.left, v), f, path);
          if rb {
            DescendRB(current, f, path, hc);
            hc := if current.info == Black then hc - 1 else hc;
          }
          path, current := [f] + path, current.left;
        } else if v > current.data {
          var f := Frame(GoRight, current.data, current.repeat, current.size + 1, current.info, current.left);
          PlugCons(InsertPlain(current.right, v), f, path);
          if rb {
            DescendRB(current, f, path, hc);
            hc := if current.info == Black then hc - 1 else hc;
          }
          path, current := [f] + path, current.right;
        } else {
          root := Plug(current.(repeat := current.repeat + 1, size := current.size + 1), path);
          InsertDone(r0, v);
          if rb {
            ghost var top := PlugRB(current.(repeat := current.repeat + 1, size := current.size + 1), path, hc);
            RBHeight(root, top);
            if |path| > 0 {
              PlugTop(current.(repeat := current.repeat + 1, size := current.size + 1), path);
            }
          }
          return;
        }
      }
      // new Node<>(data, father), coloured red by fixInsert's first statement
      var leaf := Node(Nil, v, 1, 1, Black, Nil);
      if rb {
        PathWeaken(path, hc);
      }
      root := FixInsert(leaf, path, rb, 0);
      InsertDone(r0, v);
    }

    /**
     * delete(data): one copy of `v` fewer; nothing changes when `v` is absent.
     */
    method Delete(v: int)
      requires Valid()
      modifies this
      ensures Valid() && Contents() == old(Contents()) - multiset{v}
    {
      ghost var r0 := root;
      var path: seq<Frame<Color>> := [];
      var current := root;
      while current.Node?
        invariant Plug(current, Bump(path, 1)) == r0
        invariant SearchPath(path, v)
        decreases current
      {
        if v < current.data {
          var f := Frame(GoLeft, current.data, current.repeat, current.size - 1, current.info, current.right);
          DescendPath(current, f, path, v);
          path, current := [f] + path, current.left;
        } else if v > current.data {
          var f := Frame(GoRight, current.data, current.repeat, current.size - 1, current.info, current.left);
          DescendPath(current, f, path, v);
          path, current := [f] + path, current.right;
        } else {
          if current.repeat > 1 {
            var y := current.(repeat := current.repeat - 1, size := current.size - 1);
            LowerShrunk(current, y);
            PlugShrunk(current, y, path, v);
            root := Plug(y, path);
            return;
          }
          break;
        }
      }
      if current.Nil? {
        // every size lowered on the way down is raised again
        PlugAbsent(Nil, Bump(path, 1), v);
        FlattenInKeys(r0);
        var focus := current;
        while |path| > 0
          invariant Plug(focus, Bump(path, 1)) == r0
          decreases |path|
        {
          assert Bump(path, 1)[1..] == Bump(path[1..], 1);
          focus, path := Attach(path[0].(size := path[0].size + 1), focus), path[1..];
        }
        root := focus;
        return;
      }
      var y;
      var fixFrom: RBNode;
      var fixPath: seq<Frame<Color>>;
      var removedBlack: bool;
      if current.left.Nil? {
        y, fixFrom, fixPath, removedBlack := current.right, current.right, path, current.info == Black;
        SpliceShrunk(current, y);
      } else if current.right.Nil? {
        y, fixFrom, fixPath, removedBlack := current.left, current.left, path, current.info == Black;
        SpliceShrunk(current, y);
      } else {
        var m, lowered;
        y, m, lowered := TakeSuccessor(current);
        SuccessorShrunk(current, y.right, m, y);
        fixFrom, removedBlack := m.right, m.info == Black;
        fixPath := lowered + ([FrameOf(y, GoRight)] + path);
        PlugAppend(fixFrom, lowered, [FrameOf(y, GoRight)] + path);
        PlugCons(y.right, FrameOf(y, GoRight), path);
      }
      assert Plug(fixFrom, fixPath) == Plug(y, path);
      PlugShrunk(current, y, path, v);
      if removedBlack {
        root := FixDelete(fixFrom, fixPath);
      } else {
        root := Plug(fixFrom, fixPath);
      }
      DeleteDone(r0, Plug(y, path), root, v);
    }

    /** rank(data): one more than the number of smaller copies. */
    method Rank(v: int) returns (r: int)
      requires Valid()
      ensures r == OrderedMultiset.Rank(Contents(), v)
    {
      PositiveIsNonNegative(root);
      ListingIsFlatten(root);
      r := RankOf(root, v);
    }

    /** select(rank): the element of the given rank, counting from 1. */
    method Select(k: int) returns (r: Result<int>)
      requires Valid()
      ensures r == OrderedMultiset.Select(Contents(), k)
    {
      PositiveIsNonNegative(root);
      ListingIsFlatten(root);
      r := SelectAt(root, k);
    }

    /** predecessor(data): the greatest element smaller than `v`. */
    method Predecessor(v: int) returns (r: Result<int>)
      requires Valid()
      ensures r == OrderedMultiset.Predecessor(Contents(), v)
    {
      ListingIsFlatten(root);
      r := PredecessorOf(root, v);
    }

    /** successor(data): the least element greater than `v`. */
    method Successor(v: int) returns (r: Result<int>)
      requires Valid()
      ensures r == OrderedMultiset.Successor(Contents(), v)
    {
      ListingIsFlatten(root);
      r := SuccessorOf(root, v);
    }
  }

  /** The end of insert: one more copy, and still a search tree. */
  lemma InsertDone(t: RBNode, v: int)
    requires IsSearchTree(t)
    ensures IsSearchTree(InsertPlain(t, v)) && Elems(InsertPlain(t, v)) == Elems(t) + multiset{v}
  {
    PositiveIsNonNegative(t);
    InsertPlainElems(t, v);
    InsertPlainSearch(t, v);
  }

  /** One step of delete's descent: the node's size was lowered. */
  lemma DescendPath(t: RBNode, f: Frame<Color>, path: seq<Frame<Color>>, v: int)
    requires t.Node? && SearchPath(path, v)
    requires f.data == t.data && f.repeat == t.repeat && f.size == t.size - 1 && f.info == t.info
    requires (f.side == GoLeft && v < t.data && f.sibling == t.right) || (f.side == GoRight && t.data < v && f.sibling == t.left)
    ensures SearchPath([f] + path, v)
    ensures Plug(Child(t, f.side), Bump([f] + path, 1)) == Plug(t, Bump(path, 1))
  {
    assert Bump([f] + path, 1) == [f.(size := f.size + 1)] + Bump(path, 1);
    PlugCons(Child(t, f.side), f.(size := f.size + 1), Bump(path, 1));
  }

  /** An equal node with more than one copy loses one. */
  lemma LowerShrunk(c: RBNode, y: RBNode)
    requires c.Node? && c.repeat > 1 && y == c.(repeat := c.repeat - 1, size := c.size - 1)
    ensures Shrunk(c, y, c.data)
  {
    LowerElems(c, y);
  }

  lemma LowerElems(c: RBNode, y: RBNode)
    requires c.Node? && c.repeat > 1 && y == c.(repeat := c.repeat - 1, size := c.size - 1)
    ensures Elems(y) == Elems(c) - multiset{c.data}
  {
    ElemsOfNode(c);
    ElemsOfNode(y);
    assert Repeat(c.data, c.repeat) == [c.data] + Repeat(c.data, c.repeat - 1);
  }

  /** The end of delete: one copy fewer, and still a search tree. */
  lemma DeleteDone(r0: RBNode, removed: RBNode, t: RBNode, v: int)
    requires IsSearchTree(r0) && Shrunk(r0, removed, v) && Rearranged(removed, t)
    ensures IsSearchTree(t) && Elems(t) == Elems(r0) - multiset{v}
  {
  }
}
