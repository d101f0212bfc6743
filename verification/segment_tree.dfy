/**
 * Range-add / range-sum segment tree over the points 1..size, with lazy
 * tags and nodes allocated on demand. A node covering [lb, rb] holds the
 * sum of its range in `data` and, in `tag`, an addition still owed to
 * every point of its range that its children have not yet received. The
 * element type is `int`; `mul(value, times)` is `value * times`.
 *
 * The point value a tree stands for is read off by `Pt`: walking from the
 * root to the leaf of a point, the tags met on the way plus the leaf's
 * `data` (an absent node contributes nothing).
 */
module Segment {

  datatype Seg = Nil | Node(tag: int, data: int, left: Seg, right: Seg)

  /** An absent node holds the zero element. */
  function Data(t: Seg): int {
    if t.Nil? then 0 else t.data
  }

  /** `(lb + rb) >> 1`: arithmetic shift rounds down, as `/` does here. */
  function Mid(lb: int, rb: int): int {
    (lb + rb) / 2
  }

  function Covered(lb: int, rb: int, l: int, r: int): bool {
    l <= lb && rb <= r
  }

  /** The node itself, or a new node holding the zero element. */
  function OrFresh(t: Seg): (r: Seg)
    ensures r.Node? && Data(r) == Data(t)
  {
    if t.Nil? then Node(0, 0, Nil, Nil) else t
  }

  /** `i` moved into [lb, rb]. */
  function Clamp(i: int, lb: int, rb: int): int {
    if i < lb then lb else if i > rb then rb else i
  }

  // ---------------------------------------------------------------------
  // What a tree stands for

  /** The value of point `p` in a tree covering [lb, rb]. */
  function Pt(t: Seg, lb: int, rb: int, p: int): int {
    match t
    case Nil => 0
    case Node(tag, data, left, right) =>
      if lb >= rb then data
      else if p <= Mid(lb, rb) then tag + Pt(left, lb, Mid(lb, rb), p)
      else tag + Pt(right, Mid(lb, rb) + 1, rb, p)
  }

  ghost function Points(t: Seg, lb: int, rb: int): int -> int {
    p => Pt(t, lb, rb, p)
  }

  /** f(a) + ... + f(b). */
  ghost function SumOf(f: int -> int, a: int, b: int): int
    decreases b - a
  {
    if a > b then 0 else SumOf(f, a, b - 1) + f(b)
  }

  /**
   * The stored sums agree with the tags: an inner node's `data` is the sum
   * of its children's plus its own tag once for every point of its range.
   */
  ghost predicate Good(t: Seg, lb: int, rb: int) {
    match t
    case Nil => true
    case Node(tag, data, left, right) =>
      lb >= rb ||
      (data == Data(left) + Data(right) + tag * (rb - lb + 1) &&
       Good(left, lb, Mid(lb, rb)) && Good(right, Mid(lb, rb) + 1, rb))
  }

  /** Every node exists down to the leaves. */
  ghost predicate Full(t: Seg, lb: int, rb: int)
    decreases t
  {
    t.Node? && (lb >= rb || (Full(t.left, lb, Mid(lb, rb)) && Full(t.right, Mid(lb, rb) + 1, rb)))
  }

  /** Every node on the way to point `p` exists. */
  ghost predicate HasPath(t: Seg, lb: int, rb: int, p: int)
    decreases t
  {
    t.Node? &&
    (lb >= rb ||
     (if p <= Mid(lb, rb) then HasPath(t.left, lb, Mid(lb, rb), p) else HasPath(t.right, Mid(lb, rb) + 1, rb, p)))
  }

  // ---------------------------------------------------------------------
  // Operations on nodes

  /** updateNode: adds `v` to each of the rb - lb + 1 points of the node. */
  function UpdateNode(t: Seg, lb: int, rb: int, v: int): (r: Seg)
    requires t.Node?
    ensures r.Node?
  {
    t.(data := t.data + v * (rb - lb + 1), tag := t.tag + v)
  }

  /** spread: hands a pending tag down to both halves, creating them. */
  function Spread(t: Seg, lb: int, rb: int): (r: Seg)
    requires t.Node?
    ensures r.Node? && r.tag == 0 && r.data == t.data
  {
    if t.tag != 0 then
      Node(0, t.data,
           UpdateNode(OrFresh(t.left), lb, Mid(lb, rb), t.tag),
           UpdateNode(OrFresh(t.right), Mid(lb, rb) + 1, rb, t.tag))
    else
      t
  }

  /** insert(current, leftBound, rightBound, value) with leftRange ==
      rightRange == index: adds `v` to every node on the way down. */
  function InsertAt(t: Seg, lb: int, rb: int, index: int, v: int): (r: Seg)
    ensures r.Node? && r.data == Data(t) + v
    decreases if lb < rb then rb - lb else 0
  {
    var made := OrFresh(t);
    var node := Node(made.tag, Data(t) + v, made.left, made.right);
    if lb >= rb then node
    else
      var withLeft := if index <= Mid(lb, rb) then node.(left := InsertAt(node.left, lb, Mid(lb, rb), index, v)) else node;
      if index > Mid(lb, rb) then withLeft.(right := InsertAt(withLeft.right, Mid(lb, rb) + 1, rb, index, v)) else withLeft
  }

  /**
   * What update(current, leftBound, rightBound, value) needs to run: the
   * node exists and, when it is not covered, it is not a leaf, both
   * children exist after spreading and the children it visits can be
   * updated in turn.
   */
  ghost predicate CanUpdate(t: Seg, lb: int, rb: int, l: int, r: int)
    decreases rb - lb
  {
    t.Node? &&
    (Covered(lb, rb, l, r) ||
     (lb < rb &&
      var s := Spread(t, lb, rb);
      s.left.Node? && s.right.Node? &&
      (l <= Mid(lb, rb) ==> CanUpdate(s.left, lb, Mid(lb, rb), l, r)) &&
      (r > Mid(lb, rb) ==> CanUpdate(s.right, Mid(lb, rb) + 1, rb, l, r))))
  }

  /** What query(current, leftBound, rightBound) needs to run: as for
      update, but only the children it visits must exist. */
  ghost predicate CanQuery(t: Seg, lb: int, rb: int, l: int, r: int)
    decreases rb - lb
  {
    t.Node? &&
    (Covered(lb, rb, l, r) ||
     (lb < rb &&
      var s := Spread(t, lb, rb);
      (l <= Mid(lb, rb) ==> CanQuery(s.left, lb, Mid(lb, rb), l, r)) &&
      (r > Mid(lb, rb) ==> CanQuery(s.right, Mid(lb, rb) + 1, rb, l, r))))
  }

  /** update(current, leftBound, rightBound, value) with the range [l, r]. */
  function UpdateAt(t: Seg, lb: int, rb: int, l: int, r: int, v: int): (u: Seg)
    requires CanUpdate(t, lb, rb, l, r)
    ensures u.Node?
    decreases rb - lb
  {
    if Covered(lb, rb, l, r) then UpdateNode(t, lb, rb, v)
    else
      var s := Spread(t, lb, rb);
      var a := if l <= Mid(lb, rb) then s.(left := UpdateAt(s.left, lb, Mid(lb, rb), l, r, v)) else s;
      var b := if r > Mid(lb, rb) then a.(right := UpdateAt(a.right, Mid(lb, rb) + 1, rb, l, r, v)) else a;
      b.(data := b.left.data + b.right.data)
  }

  /** query(current, leftBound, rightBound) with the range [l, r]: the sum
      and the node as the spreads on the way have left it. */
  function QueryAt(t: Seg, lb: int, rb: int, l: int, r: int): (q: (int, Seg))
    requires CanQuery(t, lb, rb, l, r)
    ensures q.1.Node?
    decreases rb - lb
  {
    if Covered(lb, rb, l, r) then (t.data, t)
    else
      var s := Spread(t, lb, rb);
      var x := if l <= Mid(lb, rb) then QueryAt(s.left, lb, Mid(lb, rb), l, r) else (0, s.left);
      var a := s.(left := x.1);
      var y := if r > Mid(lb, rb) then QueryAt(a.right, Mid(lb, rb) + 1, rb, l, r) else (0, a.right);
      (x.0 + y.0, a.(right := y.1))
  }

  // ---------------------------------------------------------------------
  // Sums

  lemma {:induction false} SumSplit(f: int -> int, a: int, m: int, b: int)
    requires a - 1 <= m <= b
    ensures SumOf(f, a, b) == SumOf(f, a, m) + SumOf(f, m + 1, b)
    decreases b - m
  {
    if m < b {
      SumSplit(f, a, m, b - 1);
    }
  }

  /** Adding `c` to every term adds `c` once per term. */
  lemma {:induction false} SumShift(f: int -> int, g: int -> int, c: int, a: int, b: int)
    requires a <= b + 1
    requires forall p :: a <= p <= b ==> f(p) == c + g(p)
    ensures SumOf(f, a, b) == c * (b - a + 1) + SumOf(g, a, b)
    decreases b - a
  {
    if a <= b {
      SumShift(f, g, c, a, b - 1);
      assert c * (b - a + 1) == c * (b - 1 - a + 1) + c;
    }
  }

  lemma {:induction false} SumExt(f: int -> int, g: int -> int, a: int, b: int)
    requires forall p :: a <= p <= b ==> f(p) == g(p)
    ensures SumOf(f, a, b) == SumOf(g, a, b)
    decreases b - a
  {
    if a <= b {
      SumExt(f, g, a, b - 1);
    }
  }

  lemma {:induction false} SumZero(f: int -> int, a: int, b: int)
    requires forall p :: a <= p <= b ==> f(p) == 0
    ensures SumOf(f, a, b) == 0
    decreases b - a
  {
    if a <= b {
      SumZero(f, a, b - 1);
    }
  }

  /** The part of [l, r] below the middle and the part above it make up
      the whole of [l, r] within [lb, rb]. */
  lemma SumClipped(f: int -> int, lb: int, mid: int, rb: int, l: int, r: int)
    requires lb <= mid < rb
    ensures SumOf(f, Max(l, lb), Min(r, mid)) + SumOf(f, Max(l, mid + 1), Min(r, rb)) == SumOf(f, Max(l, lb), Min(r, rb))
  {
    var a, b := Max(l, lb), Min(r, rb);
    if a <= b {
      if l <= mid + 1 {
        SumSplit(f, a, Min(r, mid), b);
      }
    }
  }

  // ---------------------------------------------------------------------
  // Point values under the operations

  /** updateNode adds `v` to every point of the node's range. */
  lemma UpdateNodePoints(t: Seg, lb: int, rb: int, v: int, p: int)
    requires t.Node? && lb <= p <= rb
    ensures Pt(UpdateNode(t, lb, rb, v), lb, rb, p) == Pt(t, lb, rb, p) + v
  {
  }

  /** A node created by spread stands for the points of an absent one. */
  lemma FreshPoints(t: Seg, lb: int, rb: int, p: int)
    ensures Pt(OrFresh(t), lb, rb, p) == Pt(t, lb, rb, p)
  {
  }

  /** spread changes no point value. */
  lemma SpreadPoints(t: Seg, lb: int, rb: int, p: int)
    requires t.Node? && lb < rb
    ensures Pt(Spread(t, lb, rb), lb, rb, p) == Pt(t, lb, rb, p)
  {
    var mid := Mid(lb, rb);
    if t.tag != 0 {
      if p <= mid {
        FreshPoints(t.left, lb, mid, p);
        if lb <= p {
          UpdateNodePoints(OrFresh(t.left), lb, mid, t.tag, p);
        }
      } else {
        FreshPoints(t.right, mid + 1, rb, p);
        if p <= rb {
          UpdateNodePoints(OrFresh(t.right), mid + 1, rb, t.tag, p);
        }
      }
    }
  }

  /** insert(index, v) adds `v` at `index` moved into the range, and
      nowhere else. */
  lemma {:induction false} InsertPoints(t: Seg, lb: int, rb: int, index: int, v: int, p: int)
    requires lb <= p <= rb
    ensures Pt(InsertAt(t, lb, rb, index, v), lb, rb, p) == Pt(t, lb, rb, p) + (if p == Clamp(index, lb, rb) then v else 0)
    decreases if lb < rb then rb - lb else 0
  {
    if lb < rb {
      var mid := Mid(lb, rb);
      if p <= mid {
        InsertPoints(OrFresh(t).left, lb, mid, index, v, p);
      } else {
        InsertPoints(OrFresh(t).right, mid + 1, rb, index, v, p);
      }
    }
  }

  /** update(l, r, v) adds `v` to the points of [l, r] and leaves the
      others as they were. */
  lemma {:induction false} UpdatePoints(t: Seg, lb: int, rb: int, l: int, r: int, v: int, p: int)
    requires CanUpdate(t, lb, rb, l, r) && lb <= p <= rb
    ensures Pt(UpdateAt(t, lb, rb, l, r, v), lb, rb, p) == Pt(t, lb, rb, p) + (if l <= p <= r then v else 0)
    decreases rb - lb
  {
    if Covered(lb, rb, l, r) {
      UpdateNodePoints(t, lb, rb, v, p);
    } else {
      var mid := Mid(lb, rb);
      var s := Spread(t, lb, rb);
      SpreadPoints(t, lb, rb, p);
      if p <= mid && l <= mid {
        UpdatePoints(s.left, lb, mid, l, r, v, p);
      } else if p > mid && r > mid {
        UpdatePoints(s.right, mid + 1, rb, l, r, v, p);
      }
    }
  }

  /** query changes no point value. */
  lemma {:induction false} QueryPoints(t: Seg, lb: int, rb: int, l: int, r: int, p: int)
    requires CanQuery(t, lb, rb, l, r)
    ensures Pt(QueryAt(t, lb, rb, l, r).1, lb, rb, p) == Pt(t, lb, rb, p)
    decreases rb - lb
  {
    if !Covered(lb, rb, l, r) {
      var mid := Mid(lb, rb);
      var s := Spread(t, lb, rb);
      SpreadPoints(t, lb, rb, p);
      if p <= mid && l <= mid {
        QueryPoints(s.left, lb, mid, l, r, p);
      } else if p > mid && r > mid {
        QueryPoints(s.right, mid + 1, rb, l, r, p);
      }
    }
  }

  // ---------------------------------------------------------------------
  // The sums stay consistent with the tags

  lemma UpdateNodeGood(t: Seg, lb: int, rb: int, v: int)
    requires t.Node? && Good(t, lb, rb)
    ensures Good(UpdateNode(t, lb, rb, v), lb, rb)
  {
    if lb < rb {
      assert t.data + v * (rb - lb + 1) == Data(t.left) + Data(t.right) + (t.tag + v) * (rb - lb + 1);
    }
  }

  /** A half that spread hands the tag to stays consistent. */
  lemma HalfGood(c: Seg, lb: int, rb: int, v: int)
    requires Good(c, lb, rb)
    ensures Good(UpdateNode(OrFresh(c), lb, rb, v), lb, rb)
  {
    if c.Nil? && lb < rb {
      var blank: Seg := Node(0, 0, Nil, Nil);
      assert blank.tag * (rb - lb + 1) == 0;
      assert blank.data == Data(blank.left) + Data(blank.right) + blank.tag * (rb - lb + 1);
      assert Good(blank, lb, rb);
      assert OrFresh(c) == blank;
    }
    UpdateNodeGood(OrFresh(c), lb, rb, v);
  }

  lemma SpreadGood(t: Seg, lb: int, rb: int)
    requires t.Node? && Good(t, lb, rb) && lb < rb
    ensures Good(Spread(t, lb, rb), lb, rb)
  {
    var mid := Mid(lb, rb);
    if t.tag != 0 {
      HalfGood(t.left, lb, mid, t.tag);
      HalfGood(t.right, mid + 1, rb, t.tag);
      SpreadData(t, lb, rb);
    }
  }

  /** After spread the node's sum is its halves' sums. */
  lemma SpreadData(t: Seg, lb: int, rb: int)
    requires t.Node? && Good(t, lb, rb) && lb < rb
    ensures var s := Spread(t, lb, rb); s.data == Data(s.left) + Data(s.right)
  {
    var mid := Mid(lb, rb);
    var tag := t.tag;
    assert tag * (rb - lb + 1) == tag * (mid - lb + 1) + tag * (rb - (mid + 1) + 1);
  }

  lemma {:induction false} InsertGood(t: Seg, lb: int, rb: int, index: int, v: int)
    requires Good(t, lb, rb)
    ensures Good(InsertAt(t, lb, rb, index, v), lb, rb)
    decreases if lb < rb then rb - lb else 0
  {
    if lb < rb {
      var mid := Mid(lb, rb);
      if index <= mid {
        InsertGood(OrFresh(t).left, lb, mid, index, v);
      } else {
        InsertGood(OrFresh(t).right, mid + 1, rb, index, v);
      }
    }
  }

  lemma {:induction false} UpdateGood(t: Seg, lb: int, rb: int, l: int, r: int, v: int)
    requires CanUpdate(t, lb, rb, l, r) && Good(t, lb, rb)
    ensures Good(UpdateAt(t, lb, rb, l, r, v), lb, rb)
    decreases rb - lb
  {
    if Covered(lb, rb, l, r) {
      UpdateNodeGood(t, lb, rb, v);
    } else {
      var mid := Mid(lb, rb);
      var s := Spread(t, lb, rb);
      SpreadGood(t, lb, rb);
      if l <= mid {
        UpdateGood(s.left, lb, mid, l, r, v);
      }
      if r > mid {
        UpdateGood(s.right, mid + 1, rb, l, r, v);
      }
    }
  }

  lemma {:induction false} QueryGood(t: Seg, lb: int, rb: int, l: int, r: int)
    requires CanQuery(t, lb, rb, l, r) && Good(t, lb, rb)
    ensures Good(QueryAt(t, lb, rb, l, r).1, lb, rb)
    decreases rb - lb
  {
    if !Covered(lb, rb, l, r) {
      var mid := Mid(lb, rb);
      var s := Spread(t, lb, rb);
      SpreadGood(t, lb, rb);
      if l <= mid {
        QueryGood(s.left, lb, mid, l, r);
        QueryData(s.left, lb, mid, l, r);
      }
      if r > mid {
        QueryGood(s.right, mid + 1, rb, l, r);
        QueryData(s.right, mid + 1, rb, l, r);
      }
    }
  }

  /** query leaves the sum of the node it starts from as it was. */
  lemma QueryData(t: Seg, lb: int, rb: int, l: int, r: int)
    requires CanQuery(t, lb, rb, l, r)
    ensures Data(QueryAt(t, lb, rb, l, r).1) == Data(t)
  {
  }

  // ---------------------------------------------------------------------
  // Sums read off the tree

  /** A consistent node's `data` is the sum of the points of its range. */
  lemma {:induction false} DataIsSum(t: Seg, lb: int, rb: int)
    requires Good(t, lb, rb) && lb <= rb
    ensures Data(t) == SumOf(Points(t, lb, rb), lb, rb)
    decreases t
  {
    if t.Nil? {
      SumZero(Points(t, lb, rb), lb, rb);
    } else if lb < rb {
      var mid := Mid(lb, rb);
      DataIsSum(t.left, lb, mid);
      DataIsSum(t.right, mid + 1, rb);
      NodeSum(t, lb, rb);
      SumOfTags(t.tag, lb, mid, rb);
    } else {
      assert SumOf(Points(t, lb, rb), lb, rb) == SumOf(Points(t, lb, rb), lb, lb - 1) + Pt(t, lb, rb, lb);
    }
  }

  lemma SumOfTags(tag: int, lb: int, mid: int, rb: int)
    ensures tag * (rb - lb + 1) == tag * (mid - lb + 1) + tag * (rb - (mid + 1) + 1)
  {
  }

  /** The points of an inner node are its tag plus the points of its
      halves. */
  lemma NodeSum(t: Seg, lb: int, rb: int)
    requires t.Node? && lb < rb
    ensures SumOf(Points(t, lb, rb), lb, rb) ==
      t.tag * (Mid(lb, rb) - lb + 1) + SumOf(Points(t.left, lb, Mid(lb, rb)), lb, Mid(lb, rb)) +
      (t.tag * (rb - (Mid(lb, rb) + 1) + 1) + SumOf(Points(t.right, Mid(lb, rb) + 1, rb), Mid(lb, rb) + 1, rb))
  {
    var mid := Mid(lb, rb);
    SumSplit(Points(t, lb, rb), lb, mid, rb);
    SumShift(Points(t, lb, rb), Points(t.left, lb, mid), t.tag, lb, mid);
    SumShift(Points(t, lb, rb), Points(t.right, mid + 1, rb), t.tag, mid + 1, rb);
  }

  /** query(l, r) returns the sum of the points of [l, r] that the node
      covers. */
  lemma {:induction false} QuerySum(t: Seg, lb: int, rb: int, l: int, r: int)
    requires CanQuery(t, lb, rb, l, r) && Good(t, lb, rb) && lb <= rb
    ensures QueryAt(t, lb, rb, l, r).0 == SumOf(Points(t, lb, rb), Max(l, lb), Min(r, rb))
    decreases rb - lb
  {
    if Covered(lb, rb, l, r) {
      DataIsSum(t, lb, rb);
    } else {
      var mid := Mid(lb, rb);
      var s := Spread(t, lb, rb);
      SpreadGood(t, lb, rb);
      QueryUnfold(t, lb, rb, l, r);
      if l <= mid {
        QuerySum(s.left, lb, mid, l, r);
        HalfPoints(t, lb, rb, Max(l, lb), Min(r, mid), true);
      }
      if r > mid {
        QuerySum(s.right, mid + 1, rb, l, r);
        HalfPoints(t, lb, rb, Max(l, mid + 1), Min(r, rb), false);
      }
      SumClipped(Points(t, lb, rb), lb, mid, rb, l, r);
    }
  }

  /** An uncovered node's query is the sum of its visited halves' queries. */
  lemma QueryUnfold(t: Seg, lb: int, rb: int, l: int, r: int)
    requires CanQuery(t, lb, rb, l, r) && !Covered(lb, rb, l, r)
    ensures var s := Spread(t, lb, rb);
      QueryAt(t, lb, rb, l, r).0 ==
      (if l <= Mid(lb, rb) then QueryAt(s.left, lb, Mid(lb, rb), l, r).0 else 0) +
      (if r > Mid(lb, rb) then QueryAt(s.right, Mid(lb, rb) + 1, rb, l, r).0 else 0)
  {
  }

  /** After spread, a point of one half has the value it has in that
      half's child. */
  lemma HalfPoints(t: Seg, lb: int, rb: int, a: int, b: int, leftHalf: bool)
    requires t.Node? && lb < rb
    requires if leftHalf then lb <= a && b <= Mid(lb, rb) else Mid(lb, rb) + 1 <= a && b <= rb
    ensures var s := Spread(t, lb, rb);
      SumOf(Points(t, lb, rb), a, b) ==
      (if leftHalf then SumOf(Points(s.left, lb, Mid(lb, rb)), a, b)
       else SumOf(Points(s.right, Mid(lb, rb) + 1, rb), a, b))
  {
    var s := Spread(t, lb, rb);
    var mid := Mid(lb, rb);
    var g := if leftHalf then Points(s.left, lb, mid) else Points(s.right, mid + 1, rb);
    forall p | a <= p <= b ensures Points(t, lb, rb)(p) == g(p) {
      SpreadPoints(t, lb, rb, p);
    }
    SumExt(Points(t, lb, rb), g, a, b);
  }

  function Max(a: int, b: int): int {
    if a < b then b else a
  }

  function Min(a: int, b: int): int {
    if a < b then a else b
  }

  // ---------------------------------------------------------------------
  // When update and query can run

  lemma SpreadFull(t: Seg, lb: int, rb: int)
    requires Full(t, lb, rb) && lb < rb
    ensures Full(Spread(t, lb, rb), lb, rb)
  {
    var mid := Mid(lb, rb);
    var s := Spread(t, lb, rb);
    assert Full(t.left, lb, mid) && Full(t.right, mid + 1, rb);
    if t.tag != 0 {
      UpdateNodeFull(t.left, lb, mid, t.tag);
      UpdateNodeFull(t.right, mid + 1, rb, t.tag);
    }
    assert s.left.Node? && s.left.left == t.left.left && s.left.right == t.left.right;
    assert s.right.Node? && s.right.left == t.right.left && s.right.right == t.right.right;
  }

  /** A tag added at a node leaves its children where they are. */
  lemma UpdateNodeFull(t: Seg, lb: int, rb: int, v: int)
    requires Full(t, lb, rb)
    ensures Full(UpdateNode(t, lb, rb, v), lb, rb)
  {
    var u := UpdateNode(t, lb, rb, v);
    assert u.left == t.left && u.right == t.right;
  }

  /**
   * The walk for [l, r] from a node of [lb, rb] never reaches a leaf
   * outside [l, r]. Only the outermost leaves can be reached that way:
   * the leftmost one when l <= lb and r < lb, the rightmost one when
   * l > rb and r >= rb. A node that is itself a leaf must be covered.
   */
  predicate WalkInside(lb: int, rb: int, l: int, r: int) {
    if lb < rb then !(r < lb && l <= lb) && !(rb < l && rb <= r)
    else Covered(lb, rb, l, r)
  }

  /** Update can only run when its walk stays inside [l, r] at the leaves. */
  lemma {:induction false} CanUpdateInside(t: Seg, lb: int, rb: int, l: int, r: int)
    requires CanUpdate(t, lb, rb, l, r)
    ensures WalkInside(lb, rb, l, r)
    decreases rb - lb
  {
    if !Covered(lb, rb, l, r) {
      var mid := Mid(lb, rb);
      var s := Spread(t, lb, rb);
      if l <= mid {
        CanUpdateInside(s.left, lb, mid, l, r);
      }
      if r > mid {
        CanUpdateInside(s.right, mid + 1, rb, l, r);
      }
    }
  }

  /** The same holds for query. */
  lemma {:induction false} CanQueryInside(t: Seg, lb: int, rb: int, l: int, r: int)
    requires CanQuery(t, lb, rb, l, r)
    ensures WalkInside(lb, rb, l, r)
    decreases rb - lb
  {
    if !Covered(lb, rb, l, r) {
      var mid := Mid(lb, rb);
      var s := Spread(t, lb, rb);
      if l <= mid {
        CanQueryInside(s.left, lb, mid, l, r);
      }
      if r > mid {
        CanQueryInside(s.right, mid + 1, rb, l, r);
      }
    }
  }

  /** Once every node exists, every update whose walk stays inside [l, r]
      at the leaves can run. */
  lemma {:induction false} FullCanUpdate(t: Seg, lb: int, rb: int, l: int, r: int)
    requires Full(t, lb, rb) && WalkInside(lb, rb, l, r)
    ensures CanUpdate(t, lb, rb, l, r)
    decreases rb - lb
  {
    if !Covered(lb, rb, l, r) {
      var mid := Mid(lb, rb);
      SpreadFull(t, lb, rb);
      var s := Spread(t, lb, rb);
      if l <= mid {
        FullCanUpdate(s.left, lb, mid, l, r);
      }
      if r > mid {
        FullCanUpdate(s.right, mid + 1, rb, l, r);
      }
    }
  }

  /** Whatever update can visit, query can too. */
  lemma {:induction false} UpdatableQueryable(t: Seg, lb: int, rb: int, l: int, r: int)
    requires CanUpdate(t, lb, rb, l, r)
    ensures CanQuery(t, lb, rb, l, r)
    decreases rb - lb
  {
    if !Covered(lb, rb, l, r) {
      var mid := Mid(lb, rb);
      var s := Spread(t, lb, rb);
      if l <= mid {
        UpdatableQueryable(s.left, lb, mid, l, r);
      }
      if r > mid {
        UpdatableQueryable(s.right, mid + 1, rb, l, r);
      }
    }
  }

  /** insert(index) creates every node on the way to `index`. */
  lemma {:induction false} InsertMakesPath(t: Seg, lb: int, rb: int, index: int)
    requires lb <= index <= rb
    ensures forall v :: HasPath(InsertAt(t, lb, rb, index, v), lb, rb, index)
    decreases if lb < rb then rb - lb else 0
  {
    forall v ensures HasPath(InsertAt(t, lb, rb, index, v), lb, rb, index) {
      if lb < rb {
        var mid := Mid(lb, rb);
        if index <= mid {
          InsertMakesPath(OrFresh(t).left, lb, mid, index);
        } else {
          InsertMakesPath(OrFresh(t).right, mid + 1, rb, index);
        }
      }
    }
  }

  /** insert keeps every existing path. */
  lemma {:induction false} InsertKeepsPath(t: Seg, lb: int, rb: int, index: int, v: int, p: int)
    requires HasPath(t, lb, rb, p)
    ensures HasPath(InsertAt(t, lb, rb, index, v), lb, rb, p)
    decreases if lb < rb then rb - lb else 0
  {
    if lb < rb {
      var mid := Mid(lb, rb);
      if p <= mid && index <= mid {
        InsertKeepsPath(t.left, lb, mid, index, v, p);
      } else if p > mid && index > mid {
        InsertKeepsPath(t.right, mid + 1, rb, index, v, p);
      }
    }
  }

  /** The tree after the inserts `ops`, each an (index, value) pair, in order. */
  function InsertEach(t: Seg, lb: int, rb: int, ops: seq<(int, int)>): Seg
    decreases |ops|
  {
    if ops == [] then t else InsertEach(InsertAt(t, lb, rb, ops[0].0, ops[0].1), lb, rb, ops[1..])
  }

  /** The indices the inserts `ops` name. */
  function Indices(ops: seq<(int, int)>): set<int> {
    set i | 0 <= i < |ops| :: ops[i].0
  }

  /** After a run of inserts, every point that had a path, and every point
      one of the inserts named, has one. */
  lemma {:induction false} InsertEachPaths(t: Seg, lb: int, rb: int, ops: seq<(int, int)>, p: int)
    requires lb <= p <= rb && (HasPath(t, lb, rb, p) || p in Indices(ops))
    ensures HasPath(InsertEach(t, lb, rb, ops), lb, rb, p)
    decreases |ops|
  {
    if ops != [] {
      var u := InsertAt(t, lb, rb, ops[0].0, ops[0].1);
      if HasPath(t, lb, rb, p) {
        InsertKeepsPath(t, lb, rb, ops[0].0, ops[0].1, p);
      } else if ops[0].0 == p {
        InsertMakesPath(t, lb, rb, p);
      } else {
        var i :| 0 <= i < |ops| && ops[i].0 == p;
        assert ops[1..][i - 1].0 == p;
      }
      InsertEachPaths(u, lb, rb, ops[1..], p);
    }
  }

  /** On a tree with every node, update and query run exactly when their
      walk stays inside [l, r] at the leaves. */
  lemma FullCanRun(t: Seg, lb: int, rb: int, l: int, r: int)
    requires Full(t, lb, rb)
    ensures CanUpdate(t, lb, rb, l, r) <==> WalkInside(lb, rb, l, r)
    ensures CanQuery(t, lb, rb, l, r) <==> WalkInside(lb, rb, l, r)
  {
    if WalkInside(lb, rb, l, r) {
      FullCanUpdate(t, lb, rb, l, r);
      UpdatableQueryable(t, lb, rb, l, r);
    } else {
      if CanUpdate(t, lb, rb, l, r) {
        CanUpdateInside(t, lb, rb, l, r);
      }
      if CanQuery(t, lb, rb, l, r) {
        CanQueryInside(t, lb, rb, l, r);
      }
    }
  }

  /** Once every point of lb..rb has been inserted, whatever the tree was
      before, every node is present, and any update or query whose walk
      stays inside [l, r] at the leaves finds every child it visits. */
  lemma FilledCanUpdate(t: Seg, lb: int, rb: int, ops: seq<(int, int)>, l: int, r: int)
    requires lb <= rb && WalkInside(lb, rb, l, r)
    requires forall p :: lb <= p <= rb ==> p in Indices(ops)
    ensures Full(InsertEach(t, lb, rb, ops), lb, rb)
    ensures CanUpdate(InsertEach(t, lb, rb, ops), lb, rb, l, r)
    ensures CanQuery(InsertEach(t, lb, rb, ops), lb, rb, l, r)
  {
    var u := InsertEach(t, lb, rb, ops);
    forall p | lb <= p <= rb ensures HasPath(u, lb, rb, p) {
      InsertEachPaths(t, lb, rb, ops, p);
    }
    PathsMakeFull(u, lb, rb);
    FullCanUpdate(u, lb, rb, l, r);
    UpdatableQueryable(u, lb, rb, l, r);
  }

  /** A path to every point makes the tree full. */
  lemma {:induction false} PathsMakeFull(t: Seg, lb: int, rb: int)
    requires lb <= rb
    requires forall p :: lb <= p <= rb ==> HasPath(t, lb, rb, p)
    ensures Full(t, lb, rb)
    decreases t
  {
    assert HasPath(t, lb, rb, lb);
    if lb < rb {
      var mid := Mid(lb, rb);
      forall p | lb <= p <= mid ensures HasPath(t.left, lb, mid, p) {
        assert HasPath(t, lb, rb, p);
      }
      var next := mid + 1;
      forall p | next <= p <= rb ensures HasPath(t.right, next, rb, p) {
        assert HasPath(t, lb, rb, p);
      }
      PathsMakeFull(t.left, lb, mid);
      PathsMakeFull(t.right, next, rb);
    }
  }

  lemma {:induction false} UpdateKeepsFull(t: Seg, lb: int, rb: int, l: int, r: int, v: int)
    requires CanUpdate(t, lb, rb, l, r) && Full(t, lb, rb)
    ensures Full(UpdateAt(t, lb, rb, l, r, v), lb, rb)
    decreases rb - lb
  {
    if !Covered(lb, rb, l, r) {
      var mid := Mid(lb, rb);
      var s := Spread(t, lb, rb);
      SpreadFull(t, lb, rb);
      if l <= mid {
        UpdateKeepsFull(s.left, lb, mid, l, r, v);
      }
      if r > mid {
        UpdateKeepsFull(s.right, mid + 1, rb, l, r, v);
      }
    }
  }

  lemma {:induction false} QueryKeepsFull(t: Seg, lb: int, rb: int, l: int, r: int)
    requires CanQuery(t, lb, rb, l, r) && Full(t, lb, rb)
    ensures Full(QueryAt(t, lb, rb, l, r).1, lb, rb)
    decreases rb - lb
  {
    if !Covered(lb, rb, l, r) {
      var mid := Mid(lb, rb);
      var s := Spread(t, lb, rb);
      SpreadFull(t, lb, rb);
      if l <= mid {
        QueryKeepsFull(s.left, lb, mid, l, r);
      }
      if r > mid {
        QueryKeepsFull(s.right, mid + 1, rb, l, r);
      }
    }
  }

  lemma {:induction false} InsertKeepsFull(t: Seg, lb: int, rb: int, index: int, v: int)
    requires Full(t, lb, rb)
    ensures Full(InsertAt(t, lb, rb, index, v), lb, rb)
    decreases if lb < rb then rb - lb else 0
  {
    if lb < rb {
      var mid := Mid(lb, rb);
      if index <= mid {
        InsertKeepsFull(t.left, lb, mid, index, v);
      } else {
        InsertKeepsFull(t.right, mid + 1, rb, index, v);
      }
    }
  }

  // ---------------------------------------------------------------------
  // The tree

  class SegmentTree {
    var root: Seg
    /** The range of the operation in progress. */
    var leftRange: int
    var rightRange: int
    const size: int

    ghost predicate Valid()
      reads this
    {
      size >= 1 && Good(root, 1, size)
    }

    /** The value of point `p`. */
    ghost function Point(p: int): int
      reads this
    {
      Pt(root, 1, size, p)
    }

    /** Every point starts at the zero element, and no node exists. */
    constructor(size: int)
      requires size >= 1
      ensures Valid() && this.size == size && root == Nil
      ensures forall p :: Point(p) == 0
    {
      this.size := size;
      root := Nil;
    }

    /** insert(index, value): adds `value` at point `index`; an index
        outside 1..size lands on the nearer end. */
    method Insert(index: int, value: int)
      requires Valid()
      modifies this
      ensures Valid() && leftRange == index && rightRange == index
      ensures root == InsertAt(old(root), 1, size, index, value)
      ensures forall p :: 1 <= p <= size ==>
        Point(p) == old(Point(p)) + (if p == Clamp(index, 1, size) then value else 0)
      ensures old(Full(root, 1, size)) ==> Full(root, 1, size)
    {
      ghost var before := root;
      leftRange, rightRange := index, index;
      InsertGood(root, 1, size, leftRange, value);
      if Full(root, 1, size) {
        InsertKeepsFull(root, 1, size, leftRange, value);
      }
      root := InsertAt(root, 1, size, leftRange, value);
      forall p | 1 <= p <= size
        ensures Point(p) == Pt(before, 1, size, p) + (if p == Clamp(index, 1, size) then value else 0)
      {
        InsertPoints(before, 1, size, index, value, p);
      }
    }

    /** update(l, r, value): adds `value` to every point of [l, r]. */
    method Update(l: int, r: int, value: int)
      requires Valid() && CanUpdate(root, 1, size, l, r)
      modifies this
      ensures Valid() && leftRange == l && rightRange == r
      ensures root == UpdateAt(old(root), 1, size, l, r, value)
      ensures forall p :: 1 <= p <= size ==> Point(p) == old(Point(p)) + (if l <= p <= r then value else 0)
      ensures old(Full(root, 1, size)) ==> Full(root, 1, size)
    {
      ghost var before := root;
      leftRange, rightRange := l, r;
      UpdateGood(root, 1, size, l, r, value);
      if Full(root, 1, size) {
        UpdateKeepsFull(root, 1, size, l, r, value);
      }
      root := UpdateAt(root, 1, size, leftRange, rightRange, value);
      forall p | 1 <= p <= size
        ensures Point(p) == Pt(before, 1, size, p) + (if l <= p <= r then value else 0)
      {
        UpdatePoints(before, 1, size, l, r, value, p);
      }
    }

    /** query(l, r): the sum of the points of [l, r] within 1..size. Only
        tags move; no point value changes. */
    method Query(l: int, r: int) returns (result: int)
      requires Valid() && CanQuery(root, 1, size, l, r)
      modifies this
      ensures Valid() && leftRange == l && rightRange == r
      ensures root == QueryAt(old(root), 1, size, l, r).1
      ensures result == SumOf(old(Points(root, 1, size)), Max(l, 1), Min(r, size))
      ensures forall p :: Point(p) == old(Point(p))
      ensures old(Full(root, 1, size)) ==> Full(root, 1, size)
    {
      ghost var before := root;
      leftRange, rightRange := l, r;
      QuerySum(root, 1, size, l, r);
      QueryGood(root, 1, size, l, r);
      if Full(root, 1, size) {
        QueryKeepsFull(root, 1, size, l, r);
      }
      var q := QueryAt(root, 1, size, leftRange, rightRange);
      result := q.0;
      root := q.1;
      forall p ensures Point(p) == Pt(before, 1, size, p) {
        QueryPoints(before, 1, size, l, r, p);
      }
    }

    /** query(index): the value of point `index`. */
    method QueryPoint(index: int) returns (result: int)
      requires Valid() && CanQuery(root, 1, size, index, index)
      modifies this
      ensures Valid() && leftRange == index && rightRange == index
      ensures root == QueryAt(old(root), 1, size, index, index).1
      ensures result == old(Point(index))
      ensures forall p :: Point(p) == old(Point(p))
      ensures old(Full(root, 1, size)) ==> Full(root, 1, size)
    {
      ghost var before := root;
      CanQueryInside(root, 1, size, index, index);
      leftRange, rightRange := index, index;
      QuerySum(root, 1, size, index, index);
      QueryGood(root, 1, size, index, index);
      if Full(root, 1, size) {
        QueryKeepsFull(root, 1, size, index, index);
      }
      var q := QueryAt(root, 1, size, leftRange, rightRange);
      result := q.0;
      root := q.1;
      assert SumOf(Points(before, 1, size), index, index) == SumOf(Points(before, 1, size), index, index - 1) + Pt(before, 1, size, index);
      forall p ensures Point(p) == Pt(before, 1, size, p) {
        QueryPoints(before, 1, size, index, index, p);
      }
    }
  }
}
