/**
 * Scapegoat tree. Deleting only lowers a node's repeat count, so a node
 * whose last copy is deleted stays in place as a tombstone (repeat 0).
 * Besides the size, every node carries two counters that drive the
 * rebuild heuristic: `real`, the number of nodes below it tombstones
 * included, and `unique`, an estimate of the live ones. After an insert or
 * a delete the topmost node on the search path whose counters look
 * unbalanced (the scapegoat) has its live nodes listed in order and
 * rebuilt into a perfectly balanced subtree.
 */
module SG {
  import opened OrderedMultiset
  import opened SearchTree

  /** A scapegoat-tree node's own fields. */
  datatype Counters = Counters(realCount: int, uniqueCount: int)

  type SGNode = Tree<Counters>

  /** A step down the tree. */
  datatype Side = Left | Right

  /** The trace/rebuild pair: no pending rebuild, or the path from the
      root to the subtree to rebuild (the empty path is the root, whose
      father is null). */
  datatype Scapegoat = NoScapegoat | At(path: seq<Side>)

  /** The invariant: search order, exact sizes, no negative repeat count.
      Tombstones are allowed. */
  ghost predicate IsSGTree(t: SGNode) {
    Ordered(t) && SizesOk(t) && RepeatsNonNegative(t)
  }

  function Real(t: SGNode): int {
    if t.Nil? then 0 else t.info.realCount
  }

  function Unique(t: SGNode): int {
    if t.Nil? then 0 else t.info.uniqueCount
  }

  // ---------------------------------------------------------------------
  // Node operations

  /** new Node(data): one live copy, counters 1. */
  function Leaf(v: int): SGNode {
    Node(Nil, v, 1, 1, Counters(1, 1), Nil)
  }

  /** enlarge: one more copy; `unique` is bumped as well. */
  function Enlarge(t: SGNode): (r: SGNode)
    requires t.Node?
    ensures r.Node? && r.data == t.data && r.left == t.left && r.right == t.right
  {
    t.(repeat := t.repeat + 1, size := t.size + 1, info := t.info.(uniqueCount := t.info.uniqueCount + 1))
  }

  /** reduce: one copy fewer, and nothing at all on a tombstone. */
  function Reduce(t: SGNode): (r: SGNode)
    requires t.Node?
    ensures r.Node? && r.data == t.data && r.left == t.left && r.right == t.right
  {
    if t.repeat > 0 then
      t.(repeat := t.repeat - 1, size := t.size - 1, info := t.info.(uniqueCount := t.info.uniqueCount - 1))
    else t
  }

  /** pushUp: size, real and unique recomputed from the children. */
  function PushUp(t: SGNode): (r: SGNode)
    requires t.Node?
    ensures r.Node? && r.data == t.data && r.repeat == t.repeat && r.left == t.left && r.right == t.right
    ensures r.size == Size(t.left) + t.repeat + Size(t.right)
  {
    t.(size := Size(t.left) + t.repeat + Size(t.right),
       info := Counters(1 + Real(t.left) + Real(t.right),
                        (if t.repeat == 0 then 0 else 1) + Unique(t.left) + Unique(t.right)))
  }

  /** The Java cast `(int)` of a product with a fraction: `x * num / den`
      truncated toward zero. */
  function TruncDiv(a: int, den: int): int
    requires den > 0
  {
    if a >= 0 then a / den else -((-a) / den)
  }

  /** unbalance: a child holds more than ALPHA = 0.8 of the nodes (plus a
      slack of 10), or fewer than BETA = 0.6 of them (minus 10) are live. */
  predicate Unbalance(t: SGNode)
    requires t.Node?
  {
    (t.left.Node? && t.left.info.realCount > TruncDiv(t.info.realCount * 4, 5) + 10) ||
    (t.right.Node? && t.right.info.realCount > TruncDiv(t.info.realCount * 4, 5) + 10) ||
    t.info.uniqueCount < TruncDiv(t.info.realCount * 3, 5) - 10
  }

  // ---------------------------------------------------------------------
  // modify

  function Descend(side: Side, s: Scapegoat): Scapegoat {
    if s.At? then At([side] + s.path) else NoScapegoat
  }

  /** modify(current, father, data, insert): the recursive insert or delete
      along the search path. On the way back up every node of the path is
      tested, and a node that is unbalanced overrides what its descendants
      recorded, so the topmost one is the scapegoat. */
  function Modify(t: SGNode, v: int, insert: bool): (r: (SGNode, Scapegoat))
    ensures insert ==> r.0.Node?
    ensures t.Node? ==> r.0.Node? && r.0.data == t.data
  {
    if t.Nil? then (if insert then Leaf(v) else Nil, NoScapegoat)
    else
      var step :=
        if v < t.data then
          var m := Modify(t.left, v, insert);
          (PushUp(t.(left := m.0)), Descend(Left, m.1))
        else if v > t.data then
          var m := Modify(t.right, v, insert);
          (PushUp(t.(right := m.0)), Descend(Right, m.1))
        else
          (if insert then Enlarge(t) else Reduce(t), NoScapegoat);
      (step.0, if Unbalance(step.0) then At([]) else step.1)
  }

  // ---------------------------------------------------------------------
  // The scapegoat, walking down from the root

  function Child(t: SGNode, side: Side): SGNode
    requires t.Node?
  {
    if side == Left then t.left else t.right
  }

  /** The subtree at the end of a path (Nil once the path leaves the tree). */
  function Subtree(t: SGNode, p: seq<Side>): SGNode
    decreases |p|
  {
    if |p| == 0 || t.Nil? then t else Subtree(Child(t, p[0]), p[1..])
  }

  /** `p` follows the search for `v`, stepping past nodes other than `v`'s. */
  ghost predicate OnSearchPath(t: SGNode, v: int, p: seq<Side>)
    decreases |p|
  {
    |p| == 0 ||
    (t.Node? && v != t.data && p[0] == (if v < t.data then Left else Right) &&
     OnSearchPath(Child(t, p[0]), v, p[1..]))
  }

  /** No node strictly above the end of `p` is unbalanced. */
  ghost predicate BalancedAbove(t: SGNode, p: seq<Side>)
    decreases |p|
  {
    |p| == 0 || (t.Node? && !Unbalance(t) && BalancedAbove(Child(t, p[0]), p[1..]))
  }

  /** The first unbalanced node met when searching `v` from the root. */
  function FirstUnbalanced(t: SGNode, v: int): Scapegoat {
    if t.Nil? then NoScapegoat
    else if Unbalance(t) then At([])
    else if v < t.data then Descend(Left, FirstUnbalanced(t.left, v))
    else if v > t.data then Descend(Right, FirstUnbalanced(t.right, v))
    else NoScapegoat
  }

  /** The first unbalanced node on the search path is unbalanced, lies on
      the search path, has only balanced nodes above it; and when there is
      none, no node of the search path is unbalanced. */
  lemma {:induction false} FirstUnbalancedIsTopmost(t: SGNode, v: int)
    ensures FirstUnbalanced(t, v).At? ==>
      var p := FirstUnbalanced(t, v).path;
      OnSearchPath(t, v, p) && Subtree(t, p).Node? && Unbalance(Subtree(t, p)) && BalancedAbove(t, p)
    ensures FirstUnbalanced(t, v).NoScapegoat? ==>
      forall p :: OnSearchPath(t, v, p) && Subtree(t, p).Node? ==> !Unbalance(Subtree(t, p))
  {
    if t.Node? && !Unbalance(t) && v != t.data {
      var side := if v < t.data then Left else Right;
      var c := Child(t, side);
      FirstUnbalancedIsTopmost(c, v);
      var s := FirstUnbalanced(c, v);
      if s.At? {
        var p := [side] + s.path;
        assert p[1..] == s.path;
        assert OnSearchPath(t, v, p);
        assert Subtree(t, p) == Subtree(c, s.path);
      } else {
        forall p | OnSearchPath(t, v, p) && Subtree(t, p).Node?
          ensures !Unbalance(Subtree(t, p))
        {
          if |p| > 0 {
            assert Subtree(t, p) == Subtree(c, p[1..]);
          }
        }
      }
    }
  }

  /** A new leaf is never unbalanced. */
  lemma LeafBalanced(v: int)
    ensures !Unbalance(Leaf(v)) && FirstUnbalanced(Leaf(v), v) == NoScapegoat
  {
  }

  /** What modify records as trace/rebuild is the first unbalanced node met
      when searching `v` from the root of the modified tree. */
  lemma {:induction false} ModifyScapegoat(t: SGNode, v: int, insert: bool)
    ensures Modify(t, v, insert).1 == FirstUnbalanced(Modify(t, v, insert).0, v)
  {
    if t.Nil? {
      if insert {
        LeafBalanced(v);
      }
    } else if v < t.data {
      ModifyScapegoat(t.left, v, insert);
    } else if v > t.data {
      ModifyScapegoat(t.right, v, insert);
    }
  }

  // ---------------------------------------------------------------------
  // What modify does to the stored values

  lemma EnlargeElems(t: SGNode)
    requires t.Node? && t.repeat >= 0
    ensures Elems(Enlarge(t)) == Elems(t) + multiset{t.data}
  {
    assert Repeat(t.data, t.repeat + 1) == [t.data] + Repeat(t.data, t.repeat);
    ElemsOfNode(Enlarge(t));
    ElemsOfNode(t);
  }

  /** reduce removes one copy, or none on a tombstone, where there is none
      to remove. */
  lemma ReduceElems(t: SGNode)
    requires t.Node? && Ordered(t)
    ensures Elems(Reduce(t)) == Elems(t) - multiset{t.data}
  {
    ElemsOfNode(t);
    if t.repeat > 0 {
      assert Repeat(t.data, t.repeat) == [t.data] + Repeat(t.data, t.repeat - 1);
      ElemsOfNode(Reduce(t));
      DropMiddle(Elems(t.left), t.data, multiset(Repeat(t.data, t.repeat - 1)) + Elems(t.right));
    } else {
      TombstoneElems(t);
    }
  }

  /** A tombstone's key is not stored anywhere in its subtree. */
  lemma TombstoneElems(t: SGNode)
    requires t.Node? && Ordered(t) && t.repeat <= 0
    ensures t.data !in Elems(t)
  {
    ElemsOfNode(t);
    FlattenInKeys(t.left);
    FlattenInKeys(t.right);
    assert t.data !in Flatten(t.left) && t.data !in Flatten(t.right);
  }

  /** A node whose child gained one copy of `v` gained exactly that copy. */
  lemma ChildGrownElems(t: SGNode, u: SGNode, v: int)
    requires t.Node? && u.Node? && u.data == t.data && u.repeat == t.repeat
    requires (u.right == t.right && Elems(u.left) == Elems(t.left) + multiset{v})
          || (u.left == t.left && Elems(u.right) == Elems(t.right) + multiset{v})
    ensures Elems(u) == Elems(t) + multiset{v}
  {
    ElemsOfNode(u);
    ElemsOfNode(t);
  }

  /** insert adds one copy of `v`. */
  lemma {:induction false} ModifyInsertElems(t: SGNode, v: int)
    requires RepeatsNonNegative(t)
    ensures Elems(Modify(t, v, true).0) == Elems(t) + multiset{v}
  {
    if t.Nil? {
      assert Flatten(Leaf(v)) == [v];
    } else if v < t.data {
      ModifyInsertElems(t.left, v);
      ChildGrownElems(t, Modify(t, v, true).0, v);
    } else if v > t.data {
      ModifyInsertElems(t.right, v);
      ChildGrownElems(t, Modify(t, v, true).0, v);
    } else {
      EnlargeElems(t);
    }
  }

  /** delete removes one copy of `v` when there is one and changes nothing
      otherwise. */
  lemma {:induction false} ModifyDeleteElems(t: SGNode, v: int)
    requires Ordered(t)
    ensures Elems(Modify(t, v, false).0) == Elems(t) - multiset{v}
  {
    if t.Nil? {
    } else if v < t.data {
      ModifyDeleteElems(t.left, v);
      LeftReplacedElems(t, Modify(t, v, false).0, v);
    } else if v > t.data {
      ModifyDeleteElems(t.right, v);
      RightReplacedElems(t, Modify(t, v, false).0, v);
    } else {
      ReduceElems(t);
    }
  }

  /** insert adds the key `v`; delete keeps every node, tombstones
      included. */
  lemma {:induction false} ModifyKeys(t: SGNode, v: int, insert: bool)
    ensures Keys(Modify(t, v, insert).0) == if insert then Keys(t) + {v} else Keys(t)
  {
    if t.Node? && v < t.data {
      ModifyKeys(t.left, v, insert);
    } else if t.Node? && v > t.data {
      ModifyKeys(t.right, v, insert);
    }
  }

  /** modify keeps the invariant. */
  lemma {:induction false} ModifyValid(t: SGNode, v: int, insert: bool)
    requires IsSGTree(t)
    ensures IsSGTree(Modify(t, v, insert).0)
  {
    if t.Node? && v < t.data {
      ModifyValid(t.left, v, insert);
      ModifyKeys(t.left, v, insert);
    } else if t.Node? && v > t.data {
      ModifyValid(t.right, v, insert);
      ModifyKeys(t.right, v, insert);
    }
  }

  // ---------------------------------------------------------------------
  // serialize / unSerialize

  /** serialize: the live nodes in in-order. */
  function Serialize(t: SGNode): (r: seq<SGNode>)
    ensures forall i :: 0 <= i < |r| ==> r[i].Node? && r[i].repeat > 0
  {
    if t.Nil? then []
    else Serialize(t.left) + (if t.repeat > 0 then [t] else []) + Serialize(t.right)
  }

  /** Every buffer entry is a node. */
  ghost predicate AllNodes(buffer: seq<SGNode>) {
    forall i :: 0 <= i < |buffer| ==> buffer[i].Node?
  }

  /** unSerialize(left, right, buffer): buffer[(left + right) >> 1] becomes
      the root, the entries before it the left subtree and those after it
      the right subtree, and pushUp recomputes the fields. */
  function UnSerialize(l: int, r: int, buffer: seq<SGNode>): (t: SGNode)
    requires 0 <= l && r <= |buffer|
    requires AllNodes(buffer)
    ensures NodeCount(t) == if l < r then r - l else 0
    decreases r - l
  {
    if l >= r then Nil
    else
      var mid := (l + r) / 2;
      PushUp(buffer[mid].(left := UnSerialize(l, mid, buffer), right := UnSerialize(mid + 1, r, buffer)))
  }

  /** What the entries `buffer[l..r]` store, gathered the way unSerialize
      splits them: the halves around the middle entry. */
  function HalvedSpread(buffer: seq<SGNode>, l: int, r: int): seq<int>
    requires 0 <= l && r <= |buffer|
    decreases r - l
  {
    if l >= r then []
    else
      var mid := (l + r) / 2;
      HalvedSpread(buffer, l, mid) + Entry(buffer[mid]) + HalvedSpread(buffer, mid + 1, r)
  }

  /** The subtree unSerialize builds from `buffer[l..r]` lists what those
      entries store, gathered around the middle entry. */
  ghost predicate HalvedListed(buffer: seq<SGNode>, l: int, r: int)
    requires 0 <= l && r <= |buffer| && AllNodes(buffer)
  {
    Flatten(UnSerialize(l, r, buffer)) == HalvedSpread(buffer, l, r)
  }

  /** unSerialize keeps the listing of the buffer entries it is given. */
  lemma {:induction false} UnSerializeHalved(l: int, r: int, buffer: seq<SGNode>)
    requires 0 <= l && r <= |buffer|
    requires AllNodes(buffer)
    ensures HalvedListed(buffer, l, r)
    decreases r - l
  {
    if l < r {
      UnSerializeHalved(l, (l + r) / 2, buffer);
      UnSerializeHalved((l + r) / 2 + 1, r, buffer);
      HalvedStep(l, r, buffer);
    }
  }

  lemma {:induction false} HalvedStep(l: int, r: int, buffer: seq<SGNode>)
    requires 0 <= l < r <= |buffer| && AllNodes(buffer)
    requires HalvedListed(buffer, l, (l + r) / 2) && HalvedListed(buffer, (l + r) / 2 + 1, r)
    ensures HalvedListed(buffer, l, r)
  {
  }

  /** Gathering the halves around the middle entry lists the entries in
      buffer order. */
  lemma {:induction false} HalvedInOrder(buffer: seq<SGNode>, l: int, r: int)
    requires 0 <= l <= r <= |buffer|
    ensures HalvedSpread(buffer, l, r) == SpreadRange(buffer, l, r)
    decreases r - l
  {
    if l < r {
      var mid := (l + r) / 2;
      HalvedInOrder(buffer, l, mid);
      HalvedInOrder(buffer, mid + 1, r);
      SpreadRangeSplit(buffer, l, mid, r);
    }
  }

  /** unSerialize lists the buffer entries it is given, in buffer order. */
  lemma UnSerializeSpread(l: int, r: int, buffer: seq<SGNode>)
    requires 0 <= l <= r <= |buffer|
    requires AllNodes(buffer)
    ensures Flatten(UnSerialize(l, r, buffer)) == SpreadRange(buffer, l, r)
  {
    UnSerializeHalved(l, r, buffer);
    assert HalvedListed(buffer, l, r);
    HalvedInOrder(buffer, l, r);
  }

  /** The subtree that replaces `t` in rebuild. */
  function Rebuilt(t: SGNode): SGNode {
    var buffer := Serialize(t);
    UnSerialize(0, |buffer|, buffer)
  }

  /** rebuild: the subtree at the end of `path` is replaced by its rebuilt
      form; the counters of the nodes above it are left as they were. */
  function RebuildAt(t: SGNode, path: seq<Side>): SGNode
    decreases |path|
  {
    if |path| == 0 || t.Nil? then Rebuilt(t)
    else if path[0] == Left then t.(left := RebuildAt(t.left, path[1..]))
    else t.(right := RebuildAt(t.right, path[1..]))
  }

  /** What a list of nodes stores, in order. */
  function Spread(ns: seq<SGNode>): seq<int> {
    if |ns| == 0 then [] else Entry(ns[0]) + Spread(ns[1..])
  }

  /** What one buffer entry stores. */
  function Entry(n: SGNode): seq<int> {
    if n.Nil? then [] else Repeat(n.data, n.repeat)
  }

  /** Strictly increasing keys. */
  ghost predicate Increasing(ns: seq<SGNode>) {
    forall i, j :: 0 <= i < j < |ns| && ns[i].Node? && ns[j].Node? ==> ns[i].data < ns[j].data
  }

  lemma {:induction false} SpreadAppend(a: seq<SGNode>, b: seq<SGNode>)
    ensures Spread(a + b) == Spread(a) + Spread(b)
  {
    if |a| == 0 {
      assert a + b == b;
    } else {
      assert (a + b)[0] == a[0];
      assert (a + b)[1..] == a[1..] + b;
      SpreadAppend(a[1..], b);
    }
  }

  /** serialize lists what the tree stores: dropping tombstones loses nothing. */
  lemma {:induction false} SerializeSpread(t: SGNode)
    ensures Spread(Serialize(t)) == Flatten(t)
  {
    if t.Node? {
      SerializeSpread(t.left);
      SerializeSpread(t.right);
      var mid: seq<SGNode> := if t.repeat > 0 then [t] else [];
      SpreadAppend(Serialize(t.left), mid);
      SpreadAppend(Serialize(t.left) + mid, Serialize(t.right));
      assert Spread(mid) == Repeat(t.data, t.repeat);
    }
  }

  /** serialize lists keys of the tree, in increasing order. */
  lemma {:induction false} SerializeOrder(t: SGNode)
    requires Ordered(t)
    ensures Increasing(Serialize(t))
    ensures forall i :: 0 <= i < |Serialize(t)| ==> Serialize(t)[i].data in Keys(t)
  {
    if t.Node? {
      SerializeOrder(t.left);
      SerializeOrder(t.right);
      var a, b := Serialize(t.left), Serialize(t.right);
      var mid: seq<SGNode> := if t.repeat > 0 then [t] else [];
      IncreasingJoin(a, mid, b, t.data);
      var s := a + mid + b;
      forall i | 0 <= i < |s| ensures s[i].data in Keys(t) {
        if i < |a| {
          assert s[i] == a[i];
        } else if i >= |a| + |mid| {
          assert s[i] == b[i - |a| - |mid|];
        }
      }
    }
  }

  lemma IncreasingJoin(a: seq<SGNode>, m: seq<SGNode>, b: seq<SGNode>, x: int)
    requires Increasing(a) && Increasing(b)
    requires forall i :: 0 <= i < |a| && a[i].Node? ==> a[i].data < x
    requires forall i :: 0 <= i < |b| && b[i].Node? ==> x < b[i].data
    requires forall i :: 0 <= i < |m| ==> m[i].Node? && m[i].data == x
    requires |m| <= 1
    ensures Increasing(a + m + b)
  {
    var s := a + m + b;
    forall i, j | 0 <= i < j < |s| && s[i].Node? && s[j].Node? ensures s[i].data < s[j].data {
      if j < |a| {
        assert s[i] == a[i] && s[j] == a[j];
      } else if i >= |a| + |m| {
        assert s[i] == b[i - |a| - |m|] && s[j] == b[j - |a| - |m|];
      } else if i < |a| {
        assert s[i] == a[i];
        if j < |a| + |m| {
          assert s[j] == m[j - |a|];
        } else {
          assert s[j] == b[j - |a| - |m|];
        }
      } else {
        assert s[i] == m[i - |a|] && s[j] == b[j - |a| - |m|];
      }
    }
  }

  /** What the entries `buffer[l..r]` store, in order. */
  function SpreadRange(buffer: seq<SGNode>, l: int, r: int): seq<int>
    requires 0 <= l <= r <= |buffer|
    decreases r - l
  {
    if l == r then [] else Entry(buffer[l]) + SpreadRange(buffer, l + 1, r)
  }

  /** The entries of a range are those before `mid`, the one at `mid` and
      those after it. */
  lemma {:induction false} SpreadRangeSplit(buffer: seq<SGNode>, l: int, mid: int, r: int)
    requires 0 <= l <= mid < r <= |buffer|
    ensures SpreadRange(buffer, l, r) ==
      SpreadRange(buffer, l, mid) + Entry(buffer[mid]) + SpreadRange(buffer, mid + 1, r)
    decreases mid - l
  {
    var head := Entry(buffer[l]);
    assert SpreadRange(buffer, l, r) == head + SpreadRange(buffer, l + 1, r);
    if l < mid {
      SpreadRangeSplit(buffer, l + 1, mid, r);
      assert SpreadRange(buffer, l, mid) == head + SpreadRange(buffer, l + 1, mid);
      ConcatAssoc(head, SpreadRange(buffer, l + 1, mid), Entry(buffer[mid]), SpreadRange(buffer, mid + 1, r));
    } else {
      assert SpreadRange(buffer, l, mid) == [];
      assert [] + head == head;
    }
  }

  lemma ConcatAssoc(w: seq<int>, x: seq<int>, y: seq<int>, z: seq<int>)
    ensures w + (x + y + z) == (w + x) + y + z
  {
  }

  /** The range over the whole buffer is the buffer's spread. */
  lemma {:induction false} SpreadRangeWhole(buffer: seq<SGNode>, l: int)
    requires 0 <= l <= |buffer|
    ensures SpreadRange(buffer, l, |buffer|) == Spread(buffer[l..])
    decreases |buffer| - l
  {
    if l < |buffer| {
      SpreadRangeWhole(buffer, l + 1);
      assert buffer[l..][1..] == buffer[l + 1..];
    }
  }

  /** unSerialize only uses keys of the entries it is given. */
  lemma {:induction false} UnSerializeKeys(l: int, r: int, buffer: seq<SGNode>, keys: set<int>)
    requires 0 <= l && r <= |buffer|
    requires AllNodes(buffer)
    requires forall i :: l <= i < r ==> buffer[i].data in keys
    ensures Keys(UnSerialize(l, r, buffer)) <= keys
    decreases r - l
  {
    if l < r {
      var mid := (l + r) / 2;
      UnSerializeKeys(l, mid, buffer, keys);
      UnSerializeKeys(mid + 1, r, buffer, keys);
    }
  }

  /** The keys unSerialize uses lie between those of its first and last
      entries. */
  lemma {:induction false} UnSerializeBounds(l: int, r: int, buffer: seq<SGNode>, lo: int, hi: int)
    requires 0 <= l && r <= |buffer|
    requires AllNodes(buffer)
    requires forall i :: l <= i < r ==> lo <= buffer[i].data <= hi
    ensures forall k :: k in Keys(UnSerialize(l, r, buffer)) ==> lo <= k <= hi
    decreases r - l
  {
    if l < r {
      var mid := (l + r) / 2;
      UnSerializeBounds(l, mid, buffer, lo, hi);
      UnSerializeBounds(mid + 1, r, buffer, lo, hi);
    }
  }

  /** In an increasing buffer the keys before `mid` are below its key and
      the keys after it above. */
  lemma IncreasingAround(buffer: seq<SGNode>, l: int, mid: int, r: int)
    requires 0 <= l <= mid < r <= |buffer|
    requires AllNodes(buffer)
    requires Increasing(buffer)
    ensures forall i :: l <= i < mid ==> buffer[l].data <= buffer[i].data <= buffer[mid].data - 1
    ensures forall i :: mid + 1 <= i < r ==> buffer[mid].data + 1 <= buffer[i].data <= buffer[r - 1].data
  {
  }

  /** unSerialize of entries with increasing keys builds an ordered tree. */
  lemma {:induction false} UnSerializeOrder(l: int, r: int, buffer: seq<SGNode>)
    requires 0 <= l && r <= |buffer|
    requires AllNodes(buffer)
    requires Increasing(buffer)
    ensures Ordered(UnSerialize(l, r, buffer))
    decreases r - l
  {
    if l < r {
      var mid := (l + r) / 2;
      var x := buffer[mid].data;
      UnSerializeOrder(l, mid, buffer);
      UnSerializeOrder(mid + 1, r, buffer);
      IncreasingAround(buffer, l, mid, r);
      UnSerializeBounds(l, mid, buffer, buffer[l].data, x - 1);
      UnSerializeBounds(mid + 1, r, buffer, x + 1, buffer[r - 1].data);
    }
  }

  /** Every node of the rebuilt subtree has exact fields: live, sizes
      recomputed, `real` the number of nodes and `unique` the number of
      live ones. */
  ghost predicate Fresh(t: SGNode) {
    match t
    case Nil => true
    case Node(l, _, n, s, c, r) =>
      Fresh(l) && Fresh(r) && 1 <= n && s == Size(l) + n + Size(r) &&
      c.realCount == NodeCount(t) && c.uniqueCount == NodeCount(t)
  }

  /** Perfect balance: the two children of every node differ by at most one
      node. */
  ghost predicate PerfectlyBalanced(t: SGNode) {
    match t
    case Nil => true
    case Node(l, _, _, _, _, r) =>
      PerfectlyBalanced(l) && PerfectlyBalanced(r) &&
      -1 <= NodeCount(l) - NodeCount(r) <= 1
  }

  lemma {:induction false} FreshShape(t: SGNode)
    requires Fresh(t)
    ensures SizesOk(t) && RepeatsPositive(t) && Real(t) == NodeCount(t) && Unique(t) == NodeCount(t)
  {
    if t.Node? {
      FreshShape(t.left);
      FreshShape(t.right);
    }
  }

  /** unSerialize of live entries gives every node exact fields. */
  lemma {:induction false} UnSerializeFresh(l: int, r: int, buffer: seq<SGNode>)
    requires 0 <= l && r <= |buffer|
    requires AllNodes(buffer) && forall i :: 0 <= i < |buffer| ==> buffer[i].Node? && buffer[i].repeat > 0
    ensures Fresh(UnSerialize(l, r, buffer))
    decreases r - l
  {
    if l < r {
      var mid := (l + r) / 2;
      UnSerializeFresh(l, mid, buffer);
      UnSerializeFresh(mid + 1, r, buffer);
      FreshShape(UnSerialize(l, mid, buffer));
      FreshShape(UnSerialize(mid + 1, r, buffer));
    }
  }

  /** unSerialize builds a perfectly balanced subtree. */
  lemma {:induction false} UnSerializeBalanced(l: int, r: int, buffer: seq<SGNode>)
    requires 0 <= l && r <= |buffer|
    requires AllNodes(buffer)
    ensures PerfectlyBalanced(UnSerialize(l, r, buffer))
    decreases r - l
  {
    if l < r {
      var mid := (l + r) / 2;
      UnSerializeBalanced(l, mid, buffer);
      UnSerializeBalanced(mid + 1, r, buffer);
    }
  }

  /** rebuild keeps what the subtree stores and its size, uses only its
      keys, and leaves a perfectly balanced subtree without tombstones. */
  lemma RebuiltKeeps(t: SGNode)
    requires IsSGTree(t)
    ensures var u := Rebuilt(t);
      Flatten(u) == Flatten(t) && Keys(u) <= Keys(t) && Size(u) == Size(t) &&
      IsSGTree(u) && RepeatsPositive(u) && PerfectlyBalanced(u)
  {
    RebuiltShape(t);
    RebuiltListing(t);
    RebuiltOrder(t);
    PositiveIsNonNegative(Rebuilt(t));
  }

  lemma RebuiltShape(t: SGNode)
    ensures SizesOk(Rebuilt(t)) && RepeatsPositive(Rebuilt(t)) && PerfectlyBalanced(Rebuilt(t))
  {
    var buffer := Serialize(t);
    UnSerializeFresh(0, |buffer|, buffer);
    UnSerializeBalanced(0, |buffer|, buffer);
    FreshShape(Rebuilt(t));
  }

  lemma RebuiltListing(t: SGNode)
    requires SizesOk(t) && RepeatsNonNegative(t)
    ensures Flatten(Rebuilt(t)) == Flatten(t) && Size(Rebuilt(t)) == Size(t)
  {
    var buffer := Serialize(t);
    SerializeSpread(t);
    UnSerializeSpread(0, |buffer|, buffer);
    SpreadRangeWhole(buffer, 0);
    assert buffer[0..] == buffer;
    RebuiltShape(t);
    PositiveIsNonNegative(Rebuilt(t));
    FlattenLength(Rebuilt(t));
    FlattenLength(t);
  }

  lemma RebuiltOrder(t: SGNode)
    requires Ordered(t)
    ensures Ordered(Rebuilt(t)) && Keys(Rebuilt(t)) <= Keys(t)
  {
    var buffer := Serialize(t);
    SerializeOrder(t);
    UnSerializeOrder(0, |buffer|, buffer);
    UnSerializeKeys(0, |buffer|, buffer, Keys(t));
  }

  /** rebuild at the scapegoat keeps the listing and the invariant. */
  lemma {:induction false} RebuildAtKeeps(t: SGNode, path: seq<Side>)
    requires IsSGTree(t)
    ensures var u := RebuildAt(t, path);
      Flatten(u) == Flatten(t) && Keys(u) <= Keys(t) && Size(u) == Size(t) && IsSGTree(u)
    decreases |path|
  {
    if |path| == 0 || t.Nil? {
      RebuiltKeeps(t);
    } else if path[0] == Left {
      RebuildAtKeeps(t.left, path[1..]);
    } else {
      RebuildAtKeeps(t.right, path[1..]);
    }
  }

  // ---------------------------------------------------------------------
  // count

  /** The number of listed values below `v`, or at most `v` when `close`. */
  ghost function Counted(s: seq<int>, v: int, close: bool): nat {
    if close then CountAtMost(s, v) else CountBelow(s, v)
  }

  lemma CountedAtNode(t: SGNode, v: int, close: bool)
    requires t.Node? && Ordered(t) && SizesOk(t) && RepeatsNonNegative(t)
    ensures Counted(Flatten(t), v, close) ==
      if v < t.data then Counted(Flatten(t.left), v, close)
      else if v == t.data then Size(t.left) + (if close then t.repeat else 0)
      else Size(t.left) + t.repeat + Counted(Flatten(t.right), v, close)
  {
    CountAtNode(t, v);
  }

  /** count(data, close): the number of stored values below `v`, or at most
      `v` when `close`. */
  method Count(root: SGNode, v: int, close: bool) returns (rank: int)
    requires Ordered(root) && SizesOk(root) && RepeatsNonNegative(root)
    ensures rank == if close then CountAtMost(Flatten(root), v) else CountBelow(Flatten(root), v)
  {
    rank := 0;
    var current := root;
    while current.Node?
      invariant Ordered(current) && SizesOk(current) && RepeatsNonNegative(current)
      invariant rank + Counted(Flatten(current), v, close) == Counted(Flatten(root), v, close)
      decreases current
    {
      CountedAtNode(current, v, close);
      if v == current.data {
        rank := rank + Size(current.left) + (if close then current.repeat else 0);
        break;
      } else if v < current.data {
        current := current.left;
      } else {
        rank := rank + Size(current.left) + current.repeat;
        current := current.right;
      }
    }
    assert rank == Counted(Flatten(root), v, close);
  }

  /** Predecessor and successor as selections by count. */
  lemma SelectByCount(s: seq<int>, v: int)
    ensures SelectIn(s, CountBelow(s, v)) == PredecessorIn(s, v)
    ensures SelectIn(s, CountAtMost(s, v) + 1) == SuccessorIn(s, v)
  {
  }

  // ---------------------------------------------------------------------
  // The tree

  class SGTree {
    var root: SGNode
    /** trace and rebuild: the pending rebuild, cleared by Rebuild. */
    var pending: Scapegoat

    ghost predicate Valid()
      reads this
    {
      IsSGTree(root) && pending == NoScapegoat
    }

    ghost function Contents(): multiset<int>
      reads this
    {
      Elems(root)
    }

    constructor()
      ensures Valid() && Contents() == multiset{}
    {
      root := Nil;
      pending := NoScapegoat;
    }

    method Clear()
      modifies this
      ensures Valid() && Contents() == multiset{}
    {
      root := Nil;
      pending := NoScapegoat;
    }

    /** rebuild: replaces the recorded subtree and clears the record. */
    method Rebuild()
      requires IsSGTree(root) && pending.At?
      modifies this
      ensures root == RebuildAt(old(root), old(pending).path) && pending == NoScapegoat
      ensures IsSGTree(root) && Flatten(root) == old(Flatten(root))
    {
      RebuildAtKeeps(root, pending.path);
      root := RebuildAt(root, pending.path);
      pending := NoScapegoat;
    }

    /** insert: modify, then rebuild at the topmost unbalanced node of the
        search path, if any. */
    method Insert(v: int)
      requires Valid()
      modifies this
      ensures Valid() && Contents() == old(Contents()) + multiset{v}
      ensures var u := Modify(old(root), v, true).0;
        root == if FirstUnbalanced(u, v).At? then RebuildAt(u, FirstUnbalanced(u, v).path) else u
    {
      ModifyInsertElems(root, v);
      ModifyValid(root, v, true);
      ModifyScapegoat(root, v, true);
      var m := Modify(root, v, true);
      root, pending := m.0, m.1;
      if pending.At? {
        Rebuild();
      }
    }

    /** delete: as insert; deleting an absent value or a tombstone changes
        no count. */
    method Delete(v: int)
      requires Valid()
      modifies this
      ensures Valid() && Contents() == old(Contents()) - multiset{v}
      ensures var u := Modify(old(root), v, false).0;
        root == if FirstUnbalanced(u, v).At? then RebuildAt(u, FirstUnbalanced(u, v).path) else u
    {
      ModifyDeleteElems(root, v);
      ModifyValid(root, v, false);
      ModifyScapegoat(root, v, false);
      var m := Modify(root, v, false);
      root, pending := m.0, m.1;
      if pending.At? {
        Rebuild();
      }
    }

    /** rank: count(data, false) + 1. */
    method Rank(v: int) returns (r: int)
      requires Valid()
      ensures r == OrderedMultiset.Rank(Contents(), v)
    {
      ListingIsFlatten(root);
      var c := Count(root, v, false);
      r := c + 1;
    }

    /** select walks past tombstones like any other node. */
    method Select(k: int) returns (r: Result<int>)
      requires Valid()
      ensures r == OrderedMultiset.Select(Contents(), k)
    {
      ListingIsFlatten(root);
      r := SelectAt(root, k);
    }

    /** predecessor: select(count(data, false)). */
    method Predecessor(v: int) returns (r: Result<int>)
      requires Valid()
      ensures r == OrderedMultiset.Predecessor(Contents(), v)
    {
      ListingIsFlatten(root);
      SelectByCount(Flatten(root), v);
      var c := Count(root, v, false);
      r := SelectAt(root, c);
    }

    /** successor: select(count(data, true) + 1). */
    method Successor(v: int) returns (r: Result<int>)
      requires Valid()
      ensures r == OrderedMultiset.Successor(Contents(), v)
    {
      ListingIsFlatten(root);
      SelectByCount(Flatten(root), v);
      var c := Count(root, v, true);
      r := SelectAt(root, c + 1);
    }
  }
}
