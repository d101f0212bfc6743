/**
 * Parent links as a path. The red-black tree and the splay tree walk up
 * from a node through its `father` fields; here the walk is a focus
 * subtree together with the list of its ancestors, nearest first, each
 * ancestor kept without the child the walk came from. Putting the focus
 * back into its ancestors (`Plug`) gives the whole tree, so the father /
 * child links are consistent by construction.
 */
module Zipper {
  import opened SearchTree

  /** Which child of the ancestor the walk came from. */
  datatype Side = GoLeft | GoRight

  /** An ancestor of the focus without the child on the path: its fields
      and the child on the other side. */
  datatype Frame<B> = Frame(side: Side, data: int, repeat: int, size: int, info: B, sibling: Tree<B>)

  /** The ancestor with `x` put back as its child. */
  function Attach<B>(f: Frame<B>, x: Tree<B>): (r: Tree<B>)
    ensures r.Node? && r.data == f.data && r.repeat == f.repeat && r.size == f.size && r.info == f.info
  {
    if f.side == GoLeft then Node(x, f.data, f.repeat, f.size, f.info, f.sibling)
    else Node(f.sibling, f.data, f.repeat, f.size, f.info, x)
  }

  /** The child of `t` on `side`. */
  function Child<B>(t: Tree<B>, side: Side): Tree<B>
    requires t.Node?
  {
    if side == GoLeft then t.left else t.right
  }

  /** `t` as the ancestor of its child on `side`. */
  function FrameOf<B>(t: Tree<B>, side: Side): (f: Frame<B>)
    requires t.Node?
    ensures Attach(f, Child(t, side)) == t
  {
    if side == GoLeft then Frame(GoLeft, t.data, t.repeat, t.size, t.info, t.right)
    else Frame(GoRight, t.data, t.repeat, t.size, t.info, t.left)
  }

  /** The whole tree: the focus put back into every ancestor, nearest first. */
  function Plug<B>(x: Tree<B>, path: seq<Frame<B>>): Tree<B>
    decreases |path|
  {
    if |path| == 0 then x else Plug(Attach(path[0], x), path[1..])
  }

  /** Every ancestor's size changed by `d`. */
  function Bump<B>(path: seq<Frame<B>>, d: int): (r: seq<Frame<B>>)
    ensures |r| == |path|
    ensures forall i :: 0 <= i < |path| ==> r[i] == path[i].(size := path[i].size + d)
    decreases |path|
  {
    if |path| == 0 then [] else [path[0].(size := path[0].size + d)] + Bump(path[1..], d)
  }

  /** The path a search for `v` takes: left of larger keys, right of smaller. */
  ghost predicate SearchPath<B>(path: seq<Frame<B>>, v: int) {
    forall i :: 0 <= i < |path| ==>
      (path[i].side == GoLeft ==> v < path[i].data) && (path[i].side == GoRight ==> path[i].data < v)
  }

  // ---------------------------------------------------------------------
  // Plugging

  lemma PlugCons<B>(x: Tree<B>, f: Frame<B>, path: seq<Frame<B>>)
    ensures Plug(x, [f] + path) == Plug(Attach(f, x), path)
  {
    assert ([f] + path)[1..] == path;
  }

  lemma {:induction false} PlugAppend<B>(x: Tree<B>, p: seq<Frame<B>>, q: seq<Frame<B>>)
    ensures Plug(x, p + q) == Plug(Plug(x, p), q)
    decreases |p|
  {
    if |p| > 0 {
      assert (p + q)[1..] == p[1..] + q;
      PlugAppend(Attach(p[0], x), p[1..], q);
    } else {
      assert p + q == q;
    }
  }

  /** The root of a plugged tree is the farthest ancestor. */
  lemma {:induction false} PlugTop<B>(x: Tree<B>, path: seq<Frame<B>>)
    requires |path| > 0
    ensures Plug(x, path).Node? && Plug(x, path).info == path[|path| - 1].info
    decreases |path|
  {
    if |path| > 1 {
      PlugTop(Attach(path[0], x), path[1..]);
    }
  }

  /** Replacing the focus by a rearrangement of it rearranges the whole tree. */
  lemma {:induction false} PlugRearranged<B>(x: Tree<B>, y: Tree<B>, path: seq<Frame<B>>)
    requires Rearranged(x, y)
    ensures Rearranged(Plug(x, path), Plug(y, path))
    decreases |path|
  {
    if |path| > 0 {
      AttachRearranged(path[0], x, y);
      PlugRearranged(Attach(path[0], x), Attach(path[0], y), path[1..]);
    }
  }

  /** Rearranging the focus and its nearest ancestor keeps a rearrangement
      of the whole tree. */
  lemma OneUp<B>(start: Tree<B>, x: Tree<B>, path: seq<Frame<B>>, y: Tree<B>)
    requires |path| >= 1 && Rearranged(start, Plug(x, path)) && Rearranged(Attach(path[0], x), y)
    ensures Rearranged(start, Plug(y, path[1..]))
  {
    PlugRearranged(Attach(path[0], x), y, path[1..]);
  }

  /** The same for the focus and its two nearest ancestors. */
  lemma TwoUp<B>(start: Tree<B>, x: Tree<B>, path: seq<Frame<B>>, y: Tree<B>)
    requires |path| >= 2 && Rearranged(start, Plug(x, path)) && Rearranged(Attach(path[1], Attach(path[0], x)), y)
    ensures Rearranged(start, Plug(y, path[2..]))
  {
    assert Plug(x, path) == Plug(Attach(path[0], x), path[1..]);
    assert path[1..][0] == path[1] && path[1..][1..] == path[2..];
    OneUp(start, Attach(path[0], x), path[1..], y);
  }

  lemma AttachRearranged<B>(f: Frame<B>, x: Tree<B>, y: Tree<B>)
    requires Rearranged(x, y)
    ensures Rearranged(Attach(f, x), Attach(f, y))
  {
    var t := Attach(f, x);
    if f.side == GoLeft {
      ChildrenRearranged(t, y, t.right);
    } else {
      ChildrenRearranged(t, t.left, y);
    }
  }

  /** A change of the variant-specific field alone rearranges nothing. */
  lemma Recoloured<B>(t: Tree<B>, c: B)
    requires t.Node?
    ensures Rearranged(t, t.(info := c))
  {
    assert Flatten(t.(info := c)) == Flatten(t);
  }

  // ---------------------------------------------------------------------
  // Removing one copy below a search path

  /** `u` is `t` with one copy of `v` removed and one fewer in its size. */
  ghost predicate Shrunk<B>(t: Tree<B>, u: Tree<B>, v: int) {
    IsSearchTree(t) ==>
      Elems(u) == Elems(t) - multiset{v} && Keys(u) <= Keys(t) && IsSearchTree(u) && Size(u) == Size(t) - 1
  }

  /** One ancestor: its size was lowered on the way down. */
  lemma AttachShrunk<B>(f: Frame<B>, x: Tree<B>, y: Tree<B>, v: int)
    requires (f.side == GoLeft ==> v < f.data) && (f.side == GoRight ==> f.data < v)
    requires Shrunk(x, y, v)
    ensures Shrunk(Attach(f.(size := f.size + 1), x), Attach(f, y), v)
  {
    var t := Attach(f.(size := f.size + 1), x);
    var u := Attach(f, y);
    if IsSearchTree(t) {
      assert IsSearchTree(x);
      AttachShrunkOrder(f, x, y);
      AttachShrunkSizes(f, x, y);
      if f.side == GoLeft {
        LeftReplacedElems(t, u, v);
      } else {
        RightReplacedElems(t, u, v);
      }
    }
  }

  lemma AttachShrunkOrder<B>(f: Frame<B>, x: Tree<B>, y: Tree<B>)
    requires Ordered(Attach(f.(size := f.size + 1), x)) && Ordered(y) && Keys(y) <= Keys(x)
    ensures Ordered(Attach(f, y)) && Keys(Attach(f, y)) <= Keys(Attach(f.(size := f.size + 1), x))
  {
    ChildShrunk(Attach(f.(size := f.size + 1), x), Attach(f, y));
  }

  lemma AttachShrunkSizes<B>(f: Frame<B>, x: Tree<B>, y: Tree<B>)
    requires SizesOk(Attach(f.(size := f.size + 1), x)) && RepeatsPositive(Attach(f.(size := f.size + 1), x))
    requires SizesOk(y) && RepeatsPositive(y) && Size(y) == Size(x) - 1
    ensures SizesOk(Attach(f, y)) && RepeatsPositive(Attach(f, y))
    ensures Size(Attach(f, y)) == Size(Attach(f.(size := f.size + 1), x)) - 1
  {
  }

  /** Removing one copy at the focus, with every ancestor's size lowered on
      the way down, removes one copy from the whole tree. */
  lemma {:induction false} PlugShrunk<B>(x: Tree<B>, y: Tree<B>, path: seq<Frame<B>>, v: int)
    requires SearchPath(path, v) && Shrunk(x, y, v)
    ensures Shrunk(Plug(x, Bump(path, 1)), Plug(y, path), v)
    decreases |path|
  {
    if |path| > 0 {
      var f := path[0];
      AttachShrunk(f, x, y, v);
      assert Bump(path, 1)[1..] == Bump(path[1..], 1);
      PlugShrunk(Attach(f.(size := f.size + 1), x), Attach(f, y), path[1..], v);
    }
  }

  // ---------------------------------------------------------------------
  // Removing the in-order successor (getMinNode of a right child)

  /** `u` is `t` without its leftmost node `m`, whose keys precede all of `u`. */
  ghost predicate Detached<B>(t: Tree<B>, u: Tree<B>, m: Tree<B>) {
    m.Node? && (IsSearchTree(t) ==> DetachedParts(t, u, m))
  }

  ghost predicate DetachedParts<B>(t: Tree<B>, u: Tree<B>, m: Tree<B>)
    requires m.Node?
  {
    Elems(t) == multiset(Repeat(m.data, m.repeat)) + Elems(u) && m.repeat > 0 &&
    Keys(u) <= Keys(t) && m.data in Keys(t) && AllAbove(m.data, u) &&
    IsSearchTree(u) && Size(u) == Size(t) - m.repeat
  }

  ghost predicate AllAbove<B>(k: int, u: Tree<B>) {
    forall j :: j in Keys(u) ==> k < j
  }

  lemma DetachBase<B>(m: Tree<B>)
    requires m.Node? && m.left.Nil?
    ensures Detached(m, m.right, m)
  {
    ElemsOfNode(m);
  }

  /** One more left ancestor above the leftmost node, its size lowered by
      the copies removed. */
  lemma DetachStep<B>(f: Frame<B>, x: Tree<B>, y: Tree<B>, m: Tree<B>)
    requires f.side == GoLeft && Detached(x, y, m)
    ensures Detached(Attach(f, x), Attach(f.(size := f.size - m.repeat), y), m)
  {
    var t := Attach(f, x);
    var u := Attach(f.(size := f.size - m.repeat), y);
    if IsSearchTree(t) {
      assert IsSearchTree(x);
      DetachStepElems(t, u, m);
      DetachStepOrder(t, u, m.data);
      DetachStepSizes(t, u, m.repeat);
    }
  }

  lemma DetachStepElems<B>(t: Tree<B>, u: Tree<B>, m: Tree<B>)
    requires t.Node? && u.Node? && m.Node? && u.data == t.data && u.repeat == t.repeat && u.right == t.right
    requires Elems(t.left) == multiset(Repeat(m.data, m.repeat)) + Elems(u.left)
    ensures Elems(t) == multiset(Repeat(m.data, m.repeat)) + Elems(u)
  {
    ElemsOfNode(t);
    ElemsOfNode(u);
  }

  lemma DetachStepOrder<B>(t: Tree<B>, u: Tree<B>, k: int)
    requires t.Node? && u.Node? && u.data == t.data && u.right == t.right && Ordered(t)
    requires Ordered(u.left) && Keys(u.left) <= Keys(t.left)
    requires k in Keys(t.left) && AllAbove(k, u.left)
    ensures Ordered(u) && Keys(u) <= Keys(t) && AllAbove(k, u) && k in Keys(t)
  {
    ChildShrunk(t, u);
  }

  lemma DetachStepSizes<B>(t: Tree<B>, u: Tree<B>, n: int)
    requires t.Node? && u.Node? && u.repeat == t.repeat && u.right == t.right && u.size == t.size - n
    requires SizesOk(t) && RepeatsPositive(t)
    requires SizesOk(u.left) && RepeatsPositive(u.left) && Size(u.left) == Size(t.left) - n
    ensures SizesOk(u) && RepeatsPositive(u) && Size(u) == Size(t) - n
  {
  }

  /** Every ancestor on the path holds the focus as its left child. */
  ghost predicate LeftSpine<B>(spine: seq<Frame<B>>) {
    forall i :: 0 <= i < |spine| ==> spine[i].side == GoLeft
  }

  lemma BumpTail<B>(path: seq<Frame<B>>, d: int)
    requires |path| > 0
    ensures Bump(path, d)[0] == path[0].(size := path[0].size + d)
    ensures Bump(path, d)[1..] == Bump(path[1..], d)
  {
  }

  lemma LeftSpineTail<B>(spine: seq<Frame<B>>)
    requires |spine| > 0 && LeftSpine(spine)
    ensures LeftSpine(spine[1..])
  {
    forall i | 0 <= i < |spine| - 1 ensures spine[1..][i].side == GoLeft {
      assert spine[1..][i] == spine[i + 1];
    }
  }

  /** getMinNode's walk: the leftmost node leaves `t` with every size on
      the way lowered by its copies. */
  lemma {:induction false} PlugDetached<B>(x: Tree<B>, y: Tree<B>, spine: seq<Frame<B>>, m: Tree<B>)
    requires Detached(x, y, m) && LeftSpine(spine)
    ensures Detached(Plug(x, spine), Plug(y, Bump(spine, -m.repeat)), m)
    decreases |spine|
  {
    if |spine| > 0 {
      var f := spine[0];
      var g := f.(size := f.size - m.repeat);
      var lowered := Bump(spine, -m.repeat);
      BumpTail(spine, -m.repeat);
      assert Plug(x, spine) == Plug(Attach(f, x), spine[1..]);
      assert Plug(y, lowered) == Plug(Attach(g, y), Bump(spine[1..], -m.repeat));
      DetachStep(f, x, y, m);
      LeftSpineTail(spine);
      PlugDetached(Attach(f, x), Attach(g, y), spine[1..], m);
    }
  }

  /** A search that ends at an absent child missed `v` everywhere. */
  lemma {:induction false} PlugAbsent<B>(x: Tree<B>, path: seq<Frame<B>>, v: int)
    requires SearchPath(path, v) && v !in Keys(x) && Ordered(Plug(x, path))
    ensures v !in Keys(Plug(x, path))
    decreases |path|
  {
    if |path| > 0 {
      var y := Attach(path[0], x);
      PlugOrderedInner(y, path[1..]);
      assert SearchPath(path[1..], v) by {
        forall i | 0 <= i < |path[1..]| ensures
          (path[1..][i].side == GoLeft ==> v < path[1..][i].data) && (path[1..][i].side == GoRight ==> path[1..][i].data < v)
        {
          assert path[1..][i] == path[i + 1];
        }
      }
      PlugAbsent(y, path[1..], v);
    }
  }

  lemma {:induction false} PlugOrderedInner<B>(x: Tree<B>, path: seq<Frame<B>>)
    requires Ordered(Plug(x, path))
    ensures Ordered(x)
    decreases |path|
  {
    if |path| > 0 {
      PlugOrderedInner(Attach(path[0], x), path[1..]);
    }
  }

  /**
   * The two-children case of delete: the in-order successor `m`
   * (getMinNode of the right child) is spliced out of the right subtree,
   * the sizes between lowered by its copies, and takes the removed node's
   * place with the removed node's left child and variant field; pushUp
   * sets its size. Also returns the successor's old right child and its
   * ancestors up to the new subtree's right child.
   */
  method TakeSuccessor<B>(current: Tree<B>) returns (y: Tree<B>, m: Tree<B>, lowered: seq<Frame<B>>)
    requires current.Node? && current.right.Node?
    ensures y.Node? && Detached(current.right, y.right, m) && Plug(m.right, lowered) == y.right
    ensures y == Node(current.left, m.data, m.repeat, Size(current.left) + m.repeat + Size(y.right), current.info, y.right)
  {
    // getMinNode(current.rightSon), remembering the left turns
    var spine: seq<Frame<B>> := [];
    var node := current.right;
    while node.left.Node?
      invariant node.Node? && Plug(node, spine) == current.right
      invariant forall i :: 0 <= i < |spine| ==> spine[i].side == GoLeft
      decreases node
    {
      PlugCons(node.left, FrameOf(node, GoLeft), spine);
      spine, node := [FrameOf(node, GoLeft)] + spine, node.left;
    }
    // for (i = node; i != current; i = i.father) i.size -= node.repeat
    lowered := [];
    var i := 0;
    while i < |spine|
      invariant 0 <= i <= |spine| && |lowered| == i
      invariant forall j :: 0 <= j < i ==> lowered[j] == spine[j].(size := spine[j].size - node.repeat)
    {
      lowered := lowered + [spine[i].(size := spine[i].size - node.repeat)];
      i := i + 1;
    }
    assert lowered == Bump(spine, -node.repeat);
    m := node;
    var rest := Plug(node.right, lowered);
    y := Node(current.left, node.data, node.repeat, Size(current.left) + node.repeat + Size(rest), current.info, rest);
    DetachBase(node);
    PlugDetached(node, node.right, spine, node);
  }

  // ---------------------------------------------------------------------
  // The listing around the focus

  /** The listing of everything left of the focus ... */
  ghost function Before<B>(path: seq<Frame<B>>): seq<int>
    decreases |path|
  {
    if |path| == 0 then [] else
    var f := path[0];
    Before(path[1..]) + (if f.side == GoRight then Flatten(f.sibling) + Repeat(f.data, f.repeat) else [])
  }

  /** ... and right of it. */
  ghost function After<B>(path: seq<Frame<B>>): seq<int>
    decreases |path|
  {
    if |path| == 0 then [] else
    var f := path[0];
    (if f.side == GoLeft then Repeat(f.data, f.repeat) + Flatten(f.sibling) else []) + After(path[1..])
  }

  /** The whole listing is the focus's listing between the two. */
  lemma {:induction false} PlugFlatten<B>(x: Tree<B>, path: seq<Frame<B>>)
    ensures Flatten(Plug(x, path)) == Before(path) + Flatten(x) + After(path)
    decreases |path|
  {
    if |path| > 0 {
      var f := path[0];
      PlugFlatten(Attach(f, x), path[1..]);
      if f.side == GoLeft {
        assert Flatten(Attach(f, x)) == Flatten(x) + Repeat(f.data, f.repeat) + Flatten(f.sibling);
      } else {
        assert Flatten(Attach(f, x)) == Flatten(f.sibling) + Repeat(f.data, f.repeat) + Flatten(x);
      }
    }
  }

  /** Replacing the focus changes the contents by what the focus changed. */
  lemma PlugElems<B>(x: Tree<B>, y: Tree<B>, path: seq<Frame<B>>, d: multiset<int>)
    requires Elems(y) == Elems(x) + d
    ensures Elems(Plug(y, path)) == Elems(Plug(x, path)) + d
  {
    PlugFlatten(x, path);
    PlugFlatten(y, path);
  }

  // ---------------------------------------------------------------------
  // Changes that only touch size fields

  /** Equal but for size fields. */
  ghost predicate SameButSizes<B>(t: Tree<B>, u: Tree<B>) {
    Flatten(t) == Flatten(u) && Keys(t) == Keys(u) && Ordered(t) == Ordered(u) &&
    RepeatsPositive(t) == RepeatsPositive(u)
  }

  lemma AttachSame<B>(f: Frame<B>, s: int, x: Tree<B>, y: Tree<B>)
    requires SameButSizes(x, y)
    ensures SameButSizes(Attach(f, x), Attach(f.(size := s), y))
  {
  }

  /** Sizes raised or lowered along the path change nothing else. */
  lemma {:induction false} PlugBumpSame<B>(x: Tree<B>, y: Tree<B>, path: seq<Frame<B>>, d: int)
    requires SameButSizes(x, y)
    ensures SameButSizes(Plug(x, path), Plug(y, Bump(path, d)))
    decreases |path|
  {
    if |path| > 0 {
      var f := path[0];
      var bumped := Bump(path, d);
      AttachSame(f, f.size + d, x, y);
      assert bumped[0] == f.(size := f.size + d) && bumped[1..] == Bump(path[1..], d);
      PlugBumpSame(Attach(f, x), Attach(bumped[0], y), path[1..], d);
    }
  }

  /** Every subtree hanging off the path has correct sizes. */
  ghost predicate SiblingsOk<B>(path: seq<Frame<B>>) {
    forall i :: 0 <= i < |path| ==> SizesOk(path[i].sibling)
  }

  lemma SiblingsBump<B>(path: seq<Frame<B>>, d: int)
    requires SiblingsOk(path)
    ensures SiblingsOk(Bump(path, d))
  {
  }

  // ---------------------------------------------------------------------
  // One key more at the end of a search path

  lemma SearchPathTail<B>(path: seq<Frame<B>>, v: int)
    requires |path| > 0 && SearchPath(path, v)
    ensures SearchPath(path[1..], v)
  {
    forall i | 0 <= i < |path[1..]|
      ensures (path[1..][i].side == GoLeft ==> v < path[1..][i].data) && (path[1..][i].side == GoRight ==> path[1..][i].data < v)
    {
      assert path[1..][i] == path[i + 1];
    }
  }

  lemma AttachGrown<B>(f: Frame<B>, x: Tree<B>, y: Tree<B>, v: int)
    requires (f.side == GoLeft ==> v < f.data) && (f.side == GoRight ==> f.data < v)
    requires Ordered(Attach(f, x)) && Ordered(y) && Keys(y) <= Keys(x) + {v}
    ensures Ordered(Attach(f, y)) && Keys(Attach(f, y)) <= Keys(Attach(f, x)) + {v}
  {
  }

  /** A focus with at most the searched key added keeps the order. */
  lemma {:induction false} PlugGrown<B>(x: Tree<B>, y: Tree<B>, path: seq<Frame<B>>, v: int)
    requires SearchPath(path, v) && Ordered(Plug(x, path)) && Ordered(y) && Keys(y) <= Keys(x) + {v}
    ensures Ordered(Plug(y, path)) && Keys(Plug(y, path)) <= Keys(Plug(x, path)) + {v}
    decreases |path|
  {
    if |path| > 0 {
      PlugOrderedInner(Attach(path[0], x), path[1..]);
      AttachGrown(path[0], x, y, v);
      SearchPathTail(path, v);
      PlugGrown(Attach(path[0], x), Attach(path[0], y), path[1..], v);
    }
  }

  lemma {:induction false} PlugPositiveInner<B>(x: Tree<B>, path: seq<Frame<B>>)
    requires RepeatsPositive(Plug(x, path))
    ensures RepeatsPositive(x)
    decreases |path|
  {
    if |path| > 0 {
      PlugPositiveInner(Attach(path[0], x), path[1..]);
    }
  }

  /** A focus without empty nodes keeps a tree without empty nodes. */
  lemma {:induction false} PlugPositive<B>(x: Tree<B>, y: Tree<B>, path: seq<Frame<B>>)
    requires RepeatsPositive(Plug(x, path)) && RepeatsPositive(y)
    ensures RepeatsPositive(Plug(y, path))
    decreases |path|
  {
    if |path| > 0 {
      PlugPositiveInner(Attach(path[0], x), path[1..]);
      PlugPositive(Attach(path[0], x), Attach(path[0], y), path[1..]);
    }
  }

  // ---------------------------------------------------------------------
  // Where an unsuccessful search ends

  /** The ancestors of a subtree lie on the search path of its keys. */
  lemma {:induction false} KeyOnPath<B>(x: Tree<B>, path: seq<Frame<B>>, k: int)
    requires Ordered(Plug(x, path)) && k in Keys(x)
    ensures SearchPath(path, k)
    decreases |path|
  {
    if |path| > 0 {
      PlugOrderedInner(Attach(path[0], x), path[1..]);
      KeyOnPath(Attach(path[0], x), path[1..], k);
      forall i | 0 <= i < |path|
        ensures (path[i].side == GoLeft ==> k < path[i].data) && (path[i].side == GoRight ==> path[i].data < k)
      {
        if i > 0 {
          assert path[i] == path[1..][i - 1];
        }
      }
    }
  }

  /** No key strictly between `a` and `b`. */
  ghost predicate NoneBetween(keys: set<int>, a: int, b: int) {
    forall k :: k in keys ==> !(a < k < b)
  }

  /** Ancestors that lie wholly on one side of the interval add no key inside it. */
  lemma {:induction false} PlugNoneBetween<B>(x: Tree<B>, path: seq<Frame<B>>, a: int, b: int)
    requires Ordered(Plug(x, path)) && NoneBetween(Keys(x), a, b)
    requires forall i :: 0 <= i < |path| ==>
      (path[i].side == GoLeft ==> b <= path[i].data) && (path[i].side == GoRight ==> path[i].data <= a)
    ensures NoneBetween(Keys(Plug(x, path)), a, b)
    decreases |path|
  {
    if |path| > 0 {
      PlugOrderedInner(Attach(path[0], x), path[1..]);
      assert NoneBetween(Keys(Attach(path[0], x)), a, b);
      forall i | 0 <= i < |path[1..]|
        ensures (path[1..][i].side == GoLeft ==> b <= path[1..][i].data) && (path[1..][i].side == GoRight ==> path[1..][i].data <= a)
      {
        assert path[1..][i] == path[i + 1];
      }
      PlugNoneBetween(Attach(path[0], x), path[1..], a, b);
    }
  }

  /**
   * getNode's last visited node when `v` is absent: every other key lies
   * on the same side of `v` as of that node, so it is the predecessor or
   * the successor of `v`.
   */
  lemma LastVisited<B>(path: seq<Frame<B>>, v: int)
    requires |path| > 0 && Ordered(Plug(Nil, path)) && SearchPath(path, v)
    ensures forall k :: k in Keys(Plug(Nil, path)) ==> k == path[0].data || (k != v && (k < v <==> k < path[0].data))
  {
    var w := path[0].data;
    var x := Attach(path[0], Nil);
    assert Plug(Nil, path) == Plug(x, path[1..]);
    PlugAbsent(Nil, path, v);
    PlugOrderedInner(x, path[1..]);
    KeyOnPath(x, path[1..], w);
    SearchPathTail(path, v);
    var a := if v < w then v else w;
    var b := if v < w then w else v;
    assert NoneBetween(Keys(x), a, b);
    forall i | 0 <= i < |path[1..]|
      ensures (path[1..][i].side == GoLeft ==> b <= path[1..][i].data) && (path[1..][i].side == GoRight ==> path[1..][i].data <= a)
    {
    }
    PlugNoneBetween(x, path[1..], a, b);
  }

  // ---------------------------------------------------------------------
  // Growing a path by one ancestor

  lemma BumpCons<B>(f: Frame<B>, path: seq<Frame<B>>, d: int)
    ensures Bump([f] + path, d) == [f.(size := f.size + d)] + Bump(path, d)
  {
    assert ([f] + path)[1..] == path;
  }

  lemma SearchPathCons<B>(f: Frame<B>, path: seq<Frame<B>>, v: int)
    requires SearchPath(path, v)
    requires (f.side == GoLeft ==> v < f.data) && (f.side == GoRight ==> f.data < v)
    ensures SearchPath([f] + path, v)
  {
    forall i | 0 <= i < |[f] + path|
      ensures (([f] + path)[i].side == GoLeft ==> v < ([f] + path)[i].data) &&
              (([f] + path)[i].side == GoRight ==> ([f] + path)[i].data < v)
    {
      if i > 0 {
        assert ([f] + path)[i] == path[i - 1];
      }
    }
  }
}
