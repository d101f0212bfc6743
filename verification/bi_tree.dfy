/**
 * Fenwick tree (binary indexed tree) over `n` cells. Cell `j` (1-based)
 * holds the sum of the point values at positions j - lowbit(j) + 1 .. j,
 * so a prefix sum is the sum of at most log n cells and a point update
 * touches at most log n cells. The element type is `int` with `+` and the
 * zero element 0.
 */
module Fenwick {

  /** `i & -i` for positive `i`: the largest power of two dividing `i`. */
  function Lowbit(i: int): (r: int)
    requires i > 0
    ensures 1 <= r <= i
  {
    if i % 2 == 1 then 1 else 2 * Lowbit(i / 2)
  }

  /** The sum of `s[lo..hi]`. */
  function SumRange(s: seq<int>, lo: int, hi: int): int
    requires 0 <= lo && hi <= |s|
    decreases hi - lo
  {
    if lo >= hi then 0 else SumRange(s, lo, hi - 1) + s[hi - 1]
  }

  /** Cell `j` is responsible for point `p` (both 1-based). */
  predicate Covers(j: int, p: int)
    requires j > 0
  {
    j - Lowbit(j) < p <= j
  }

  // ---------------------------------------------------------------------
  // lowbit arithmetic

  function Pow2(k: nat): (r: int)
    ensures r >= 1
  {
    if k == 0 then 1 else 2 * Pow2(k - 1)
  }

  /** lowbit(i) is the largest power of two dividing `i`: `i` is lowbit(i)
      times an odd number `q`. */
  lemma {:induction false} LowbitIsLowestBit(i: int) returns (k: nat, q: int)
    requires i > 0
    ensures Lowbit(i) == Pow2(k)
    ensures i == Lowbit(i) * q && q % 2 == 1
    decreases i
  {
    if i % 2 == 1 {
      k, q := 0, i;
    } else {
      var k', q' := LowbitIsLowestBit(i / 2);
      k, q := k' + 1, q';
      var h := Lowbit(i / 2);
      calc {
        i;
        2 * (i / 2);
        2 * (h * q');
        { MulAssoc(2, h, q'); }
        (2 * h) * q';
      }
    }
  }

  lemma MulAssoc(a: int, b: int, c: int)
    ensures a * (b * c) == (a * b) * c
  {
  }

  /** Adding less than lowbit(i) to i leaves the low bits of the addend. */
  lemma {:induction false} LowbitShift(i: int, d: int)
    requires i > 0 && 0 < d < Lowbit(i)
    ensures Lowbit(i + d) == Lowbit(d)
    decreases i
  {
    if d % 2 == 0 {
      LowbitShift(i / 2, d / 2);
    }
  }

  /** Stepping by lowbit clears the lowest bit: the next cell's lowbit is at
      least twice as large. */
  lemma {:induction false} LowbitNext(i: int)
    requires i > 0
    ensures Lowbit(i + Lowbit(i)) >= 2 * Lowbit(i)
    decreases i
  {
    if i % 2 == 0 {
      LowbitNext(i / 2);
      assert (i + Lowbit(i)) / 2 == i / 2 + Lowbit(i / 2);
    }
  }

  /** The cells update visits are exactly the cells responsible for `p`:
      the next one covers `p` and none in between does. */
  lemma UpdateStep(i: int, p: int)
    requires i > 0 && Covers(i, p)
    ensures Covers(i + Lowbit(i), p)
    ensures forall j :: i < j < i + Lowbit(i) ==> !Covers(j, p)
  {
    LowbitNext(i);
    forall j | i < j < i + Lowbit(i) ensures !Covers(j, p) {
      LowbitShift(i, j - i);
    }
  }

  // ---------------------------------------------------------------------
  // sums

  lemma {:induction false} SumSplit(s: seq<int>, a: int, b: int, c: int)
    requires 0 <= a <= b <= c <= |s|
    ensures SumRange(s, a, c) == SumRange(s, a, b) + SumRange(s, b, c)
    decreases c - b
  {
    if b < c {
      SumSplit(s, a, b, c - 1);
    }
  }

  /** Adding `v` at position `q` adds `v` to exactly the sums over ranges
      holding `q`. */
  lemma {:induction false} SumAdd(s: seq<int>, q: int, v: int, lo: int, hi: int)
    requires 0 <= q < |s| && 0 <= lo && hi <= |s|
    ensures SumRange(s[q := s[q] + v], lo, hi) == SumRange(s, lo, hi) + (if lo <= q < hi then v else 0)
    decreases hi - lo
  {
    if lo < hi {
      SumAdd(s, q, v, lo, hi - 1);
    }
  }

  lemma {:induction false} SumZero(n: nat, lo: int, hi: int)
    requires 0 <= lo && hi <= n
    ensures SumRange(seq(n, _ => 0), lo, hi) == 0
    decreases hi - lo
  {
    if lo < hi {
      SumZero(n, lo, hi - 1);
    }
  }

  /** The range sum the caller reads as query(r) - query(l - 1). */
  lemma RangeByPrefixes(s: seq<int>, l: int, r: int)
    requires 1 <= l <= r + 1 && r <= |s|
    ensures SumRange(s, 0, r) - SumRange(s, 0, l - 1) == SumRange(s, l - 1, r)
  {
    SumSplit(s, 0, l - 1, r);
  }

  /** Every cell `j` holds the sum over the `lowbit(j)` values ending at
      position `j`. */
  ghost predicate Summarises(cells: seq<int>, s: seq<int>)
  {
    |cells| == |s| &&
    forall j :: 1 <= j <= |cells| ==> cells[j - 1] == SumRange(s, j - Lowbit(j), j)
  }

  /** The cells of an update in progress: the cells below `bound` that are
      responsible for `p` already hold `v` on top of their sums over `s`. */
  ghost predicate Accumulated(cells: seq<int>, s: seq<int>, p: int, v: int, bound: int)
  {
    |cells| == |s| &&
    forall j :: 1 <= j <= |cells| ==>
      cells[j - 1] == SumRange(s, j - Lowbit(j), j) + (if j < bound && Covers(j, p) then v else 0)
  }

  /** One round of update's loop: adding `v` to cell `i` extends the
      accumulated prefix to the next cell responsible for `p`. */
  lemma AccumulateStep(cells: seq<int>, s: seq<int>, p: int, v: int, i: int)
    requires Accumulated(cells, s, p, v, i)
    requires 1 <= i <= |cells| && Covers(i, p)
    ensures Accumulated(cells[i - 1 := cells[i - 1] + v], s, p, v, i + Lowbit(i))
    ensures Covers(i + Lowbit(i), p)
  {
    var next := cells[i - 1 := cells[i - 1] + v];
    var bound := i + Lowbit(i);
    UpdateStep(i, p);
    forall j | 1 <= j <= |next|
      ensures next[j - 1] == SumRange(s, j - Lowbit(j), j) + (if j < bound && Covers(j, p) then v else 0)
    {
      if i < j < bound {
        assert !Covers(j, p);
      }
    }
  }

  /** Once the walk has left the array, every cell holds its sum over the
      updated values. */
  lemma AccumulateDone(cells: seq<int>, s: seq<int>, p: int, v: int, bound: int)
    requires Accumulated(cells, s, p, v, bound) && bound > |cells| && 1 <= p <= |s|
    ensures Summarises(cells, s[p - 1 := s[p - 1] + v])
  {
    forall j | 1 <= j <= |cells| ensures cells[j - 1] == SumRange(s[p - 1 := s[p - 1] + v], j - Lowbit(j), j) {
      SumAdd(s, p - 1, v, j - Lowbit(j), j);
    }
  }

  // ---------------------------------------------------------------------
  // The tree

  class BITree {
    /** The cells; `tree[j - 1]` is cell `j`. */
    const tree: array<int>
    /** The point values the updates have accumulated. */
    ghost var values: seq<int>

    ghost predicate Valid()
      reads this, tree
    {
      Summarises(tree[..], values)
    }

    /** Every cell starts at the zero element. */
    constructor(size: nat)
      ensures Valid() && values == seq(size, _ => 0) && tree.Length == size
    {
      tree := new int[size](_ => 0);
      values := seq(size, _ => 0);
      new;
      forall j | 1 <= j <= size ensures tree[..][j - 1] == SumRange(values, j - Lowbit(j), j) {
        SumZero(size, j - Lowbit(j), j);
      }
    }

    /** update(index, value): adds `value` at point `index`; an index past
        the end changes nothing. */
    method Update(index: int, value: int)
      requires Valid() && index > 0
      modifies this, tree
      ensures Valid()
      ensures values == if index <= tree.Length then old(values)[index - 1 := old(values)[index - 1] + value]
                        else old(values)
      ensures index > tree.Length ==> tree[..] == old(tree[..])
    {
      ghost var before := values;
      var i := index;
      while i <= tree.Length
        invariant i > 0 && (i <= tree.Length ==> Covers(i, index))
        invariant values == before
        invariant Accumulated(tree[..], before, index, value, i)
        invariant index > tree.Length ==> tree[..] == old(tree[..])
        decreases tree.Length - i
      {
        ghost var cells := tree[..];
        AccumulateStep(cells, before, index, value, i);
        tree[i - 1] := tree[i - 1] + value;
        assert tree[..] == cells[i - 1 := cells[i - 1] + value];
        i := i + Lowbit(i);
      }
      if index <= tree.Length {
        values := values[index - 1 := values[index - 1] + value];
        AccumulateDone(tree[..], before, index, value, i);
      }
    }

    /** query(index): the sum of the points 1..index; zero for index <= 0. */
    method Query(index: int) returns (result: int)
      requires Valid() && index <= tree.Length
      ensures result == if index <= 0 then 0 else SumRange(values, 0, index)
    {
      result := 0;
      var i := index;
      while i > 0
        invariant i <= index
        invariant result + (if i <= 0 then 0 else SumRange(values, 0, i)) ==
                  (if index <= 0 then 0 else SumRange(values, 0, index))
        decreases i
      {
        SumSplit(values, 0, i - Lowbit(i), i);
        result := result + tree[i - 1];
        i := i - Lowbit(i);
      }
    }
  }
}
