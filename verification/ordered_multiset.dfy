/**
 * The ordered-multiset contract that every tree variant implements:
 * clear, insert, delete, rank, select, predecessor and successor over a
 * multiset of integers. The abstract state of every variant is a
 * `multiset<int>`; the queries are defined on its unique sorted listing,
 * and the lemmas at the end of the module say what the queries mean in
 * terms of the multiset alone.
 */
module OrderedMultiset {

  /** Outcome of select, predecessor and successor: a value, or the
      NoSuchElementException the source throws. */
  datatype Result<T> = Ok(value: T) | NoSuchElement

  ghost predicate Sorted(s: seq<int>) {
    forall i, j :: 0 <= i < j < |s| ==> s[i] <= s[j]
  }

  /** Number of entries of `s` strictly below `v`. */
  function CountBelow(s: seq<int>, v: int): (c: nat)
    ensures c <= |s|
  {
    if s == [] then 0 else (if s[0] < v then 1 else 0) + CountBelow(s[1..], v)
  }

  /** Number of entries of `s` that are at most `v`. */
  function CountAtMost(s: seq<int>, v: int): (c: nat)
    ensures c <= |s|
  {
    if s == [] then 0 else (if s[0] <= v then 1 else 0) + CountAtMost(s[1..], v)
  }

  /** A multiset with no element is the empty multiset. */
  lemma NoElementIsEmpty(m: multiset<int>)
    requires forall x :: x !in m
    ensures m == multiset{}
  {
    assert forall x :: m[x] == multiset{}[x];
  }

  lemma ElementExists(m: multiset<int>)
    requires m != multiset{}
    ensures exists z :: z in m
  {
    if forall x :: x !in m {
      NoElementIsEmpty(m);
      assert false;
    }
  }

  /** Every nonempty multiset has a least element. */
  lemma {:induction false} MinimumExists(m: multiset<int>)
    requires m != multiset{}
    ensures exists x :: x in m && forall y :: y in m ==> x <= y
    decreases |m|
  {
    ElementExists(m);
    var z :| z in m;
    var rest := m - multiset{z};
    if forall y :: y !in rest {
      forall y | y in m ensures z <= y {
        assert rest[y] == 0;
      }
      assert z in m && forall y :: y in m ==> z <= y;
    } else {
      var u :| u in rest;
      MinimumExists(rest);
      var w :| w in rest && forall y :: y in rest ==> w <= y;
      var x := if z <= w then z else w;
      assert x in m;
      forall y | y in m ensures x <= y {
        if y != z {
          assert rest[y] == m[y];
        }
      }
      assert x in m && forall y :: y in m ==> x <= y;
    }
  }

  /** The elements of `m` in ascending order, each repeated as often as it occurs. */
  ghost function Listing(m: multiset<int>): (s: seq<int>)
    ensures Sorted(s) && multiset(s) == m
    decreases |m|
  {
    if m == multiset{} then []
    else
      MinimumExists(m);
      var x :| x in m && forall y :: y in m ==> x <= y;
      var rest := Listing(m - multiset{x});
      ListingStep(m, x, rest);
      [x] + rest
  }

  lemma ListingStep(m: multiset<int>, x: int, rest: seq<int>)
    requires x in m && forall y :: y in m ==> x <= y
    requires Sorted(rest) && multiset(rest) == m - multiset{x}
    ensures Sorted([x] + rest) && multiset([x] + rest) == m
  {
    forall i | 0 <= i < |rest| ensures x <= rest[i] {
      assert rest[i] in multiset(rest);
    }
  }

  /** rank(v) = 1 + the number of elements strictly below v. */
  ghost function Rank(m: multiset<int>, v: int): int {
    1 + CountBelow(Listing(m), v)
  }

  /** select(k): the k-th smallest element, counting multiplicity. */
  ghost function Select(m: multiset<int>, k: int): Result<int> {
    SelectIn(Listing(m), k)
  }

  /** predecessor(v): the largest element strictly below v. */
  ghost function Predecessor(m: multiset<int>, v: int): Result<int> {
    PredecessorIn(Listing(m), v)
  }

  /** successor(v): the smallest element strictly above v. */
  ghost function Successor(m: multiset<int>, v: int): Result<int> {
    SuccessorIn(Listing(m), v)
  }

  /** The same three queries on an explicit sorted listing. */
  function SelectIn(s: seq<int>, k: int): Result<int> {
    if 1 <= k <= |s| then Ok(s[k - 1]) else NoSuchElement
  }

  function PredecessorIn(s: seq<int>, v: int): Result<int> {
    var c := CountBelow(s, v);
    if c == 0 then NoSuchElement else Ok(s[c - 1])
  }

  function SuccessorIn(s: seq<int>, v: int): Result<int> {
    var c := CountAtMost(s, v);
    if c == |s| then NoSuchElement else Ok(s[c])
  }

  // ---------------------------------------------------------------------
  // Counting lemmas

  lemma {:induction false} CountBelowAppend(a: seq<int>, b: seq<int>, v: int)
    ensures CountBelow(a + b, v) == CountBelow(a, v) + CountBelow(b, v)
    ensures CountAtMost(a + b, v) == CountAtMost(a, v) + CountAtMost(b, v)
  {
    if a != [] {
      assert (a + b)[1..] == a[1..] + b;
      CountBelowAppend(a[1..], b, v);
    } else {
      assert a + b == b;
    }
  }

  /** In a sorted sequence the entries below `v` form a prefix, and so do the entries at most `v`. */
  lemma {:induction false} SortedCounts(s: seq<int>, v: int)
    requires Sorted(s)
    ensures forall i :: 0 <= i < |s| ==> (s[i] < v <==> i < CountBelow(s, v))
    ensures forall i :: 0 <= i < |s| ==> (s[i] <= v <==> i < CountAtMost(s, v))
  {
    if s != [] {
      SortedCounts(s[1..], v);
      forall i | 0 <= i < |s|
        ensures (s[i] < v <==> i < CountBelow(s, v))
        ensures (s[i] <= v <==> i < CountAtMost(s, v))
      {
        if i > 0 {
          assert s[i] == s[1..][i - 1];
          assert s[0] <= s[i];
        } else if |s| > 1 {
          assert s[1..][0] == s[1];
        }
      }
    }
  }

  /** The number of entries equal to `x` is the gap between the two counts. */
  lemma {:induction false} CountsGapIsMultiplicity(s: seq<int>, x: int)
    ensures CountAtMost(s, x) - CountBelow(s, x) == multiset(s)[x]
  {
    if s != [] {
      CountsGapIsMultiplicity(s[1..], x);
      assert s == [s[0]] + s[1..];
      assert multiset(s) == multiset{s[0]} + multiset(s[1..]);
    }
  }

  /** Taking out the entry at position `i` takes one copy of it out of the multiset and the counts. */
  lemma RemoveAt(b: seq<int>, i: int, v: int)
    requires 0 <= i < |b|
    ensures multiset(b[..i] + b[i + 1..]) == multiset(b) - multiset{b[i]}
    ensures CountBelow(b, v) == CountBelow(b[..i] + b[i + 1..], v) + (if b[i] < v then 1 else 0)
  {
    assert b == b[..i] + ([b[i]] + b[i + 1..]);
    CountBelowAppend(b[..i], [b[i]] + b[i + 1..], v);
    CountBelowAppend([b[i]], b[i + 1..], v);
    CountBelowAppend(b[..i], b[i + 1..], v);
  }

  lemma {:induction false} CountBelowPermutation(a: seq<int>, b: seq<int>, v: int)
    requires multiset(a) == multiset(b)
    ensures CountBelow(a, v) == CountBelow(b, v)
    decreases |a|
  {
    if a == [] {
      assert |b| == |multiset(b)| == 0;
    } else {
      assert a[0] in multiset(b);
      var i :| 0 <= i < |b| && b[i] == a[0];
      var rest := b[..i] + b[i + 1..];
      RemoveAt(b, i, v);
      MultisetTail(a);
      CountBelowPermutation(a[1..], rest, v);
    }
  }

  /** Two sorted sequences with the same elements are equal. */
  lemma {:induction false} SortedUnique(a: seq<int>, b: seq<int>)
    requires Sorted(a) && Sorted(b) && multiset(a) == multiset(b)
    ensures a == b
    decreases |a|
  {
    if a == [] {
      assert |b| == |multiset(b)| == 0;
    } else {
      SortedHeads(a, b);
      MultisetTail(a);
      MultisetTail(b);
      SortedUnique(a[1..], b[1..]);
      assert a == [a[0]] + a[1..] && b == [b[0]] + b[1..];
    }
  }

  /** Two sorted sequences with the same elements start alike. */
  lemma SortedHeads(a: seq<int>, b: seq<int>)
    requires Sorted(a) && Sorted(b) && multiset(a) == multiset(b) && a != []
    ensures b != [] && a[0] == b[0] && Sorted(a[1..]) && Sorted(b[1..])
  {
    assert |b| == |multiset(b)| == |multiset(a)| == |a|;
    assert a[0] in multiset(b) && b[0] in multiset(a);
    var i :| 0 <= i < |b| && b[i] == a[0];
    var j :| 0 <= j < |a| && a[j] == b[0];
    assert a[0] <= a[j] && b[0] <= b[i];
  }

  lemma MultisetTail(s: seq<int>)
    requires s != []
    ensures multiset(s[1..]) == multiset(s) - multiset{s[0]}
  {
    assert s == [s[0]] + s[1..];
  }

  /** A sorted sequence is the listing of its own multiset. */
  lemma ListingOfSorted(s: seq<int>)
    requires Sorted(s)
    ensures Listing(multiset(s)) == s
  {
    SortedUnique(Listing(multiset(s)), s);
  }

  // ---------------------------------------------------------------------
  // What the queries mean, stated on a sorted listing

  lemma SelectInSorted(s: seq<int>, k: int, x: int)
    requires Sorted(s)
    ensures SelectIn(s, k).Ok? <==> 1 <= k <= |s|
    ensures SelectIn(s, k) == Ok(x) <==>
              x in multiset(s) && 1 + CountBelow(s, x) <= k < 1 + CountBelow(s, x) + multiset(s)[x]
  {
    SortedCounts(s, x);
    CountsGapIsMultiplicity(s, x);
  }

  lemma PredecessorInSorted(s: seq<int>, v: int, x: int)
    requires Sorted(s)
    ensures PredecessorIn(s, v) == NoSuchElement <==> forall y :: y in s ==> v <= y
    ensures PredecessorIn(s, v) == Ok(x) <==> x in s && x < v && forall y :: y in s && y < v ==> y <= x
  {
    SortedCounts(s, v);
    var c := CountBelow(s, v);
    if c == 0 {
      forall y | y in s ensures v <= y {
        var j :| 0 <= j < |s| && s[j] == y;
      }
    } else {
      assert s[c - 1] in s && s[c - 1] < v;
      forall y | y in s && y < v ensures y <= s[c - 1] {
        var j :| 0 <= j < |s| && s[j] == y;
        assert j < c;
      }
      if x in s && x < v && (forall y :: y in s && y < v ==> y <= x) {
        var j :| 0 <= j < |s| && s[j] == x;
        assert j < c;
        assert s[j] <= s[c - 1];
      }
    }
  }

  lemma SuccessorInSorted(s: seq<int>, v: int, x: int)
    requires Sorted(s)
    ensures SuccessorIn(s, v) == NoSuchElement <==> forall y :: y in s ==> y <= v
    ensures SuccessorIn(s, v) == Ok(x) <==> x in s && v < x && forall y :: y in s && v < y ==> x <= y
  {
    SortedCounts(s, v);
    var c := CountAtMost(s, v);
    if c == |s| {
      forall y | y in s ensures y <= v {
        var j :| 0 <= j < |s| && s[j] == y;
      }
    } else {
      assert s[c] in s && v < s[c];
      forall y | y in s && v < y ensures s[c] <= y {
        var j :| 0 <= j < |s| && s[j] == y;
        assert c <= j;
      }
      if x in s && v < x && (forall y :: y in s && v < y ==> x <= y) {
        var j :| 0 <= j < |s| && s[j] == x;
        assert c <= j;
        assert s[c] <= s[j];
      }
    }
  }

  // ---------------------------------------------------------------------
  // What the queries mean, stated on the multiset

  /** rank counts the elements strictly below v: 1 on the empty multiset,
      and each added element below v raises it by one. */
  lemma RankCountsBelow(m: multiset<int>, x: int, v: int)
    ensures Rank(multiset{}, v) == 1
    ensures Rank(m + multiset{x}, v) == Rank(m, v) + (if x < v then 1 else 0)
  {
    var s := Listing(m);
    assert multiset(s + [x]) == m + multiset{x};
    CountBelowPermutation(Listing(m + multiset{x}), s + [x], v);
    CountBelowAppend(s, [x], v);
  }

  /** select fails exactly outside 1..|m|, and select(k) = x exactly when
      rank(x) <= k <= rank(x) + multiplicity(x) - 1 (the rank/select inverse law). */
  lemma SelectInvertsRank(m: multiset<int>, k: int, x: int)
    ensures Select(m, k).Ok? <==> 1 <= k <= |m|
    ensures Select(m, k) == Ok(x) <==> x in m && Rank(m, x) <= k < Rank(m, x) + m[x]
  {
    var s := Listing(m);
    assert |s| == |multiset(s)| == |m|;
    SelectInSorted(s, k, x);
  }

  /** predecessor(v) is the largest element below v, and fails exactly when
      no element is below v (in particular on the empty multiset). */
  lemma PredecessorIsLargestBelow(m: multiset<int>, v: int, x: int)
    ensures Predecessor(m, v) == NoSuchElement <==> forall y :: y in m ==> v <= y
    ensures Predecessor(m, v) == Ok(x) <==> x in m && x < v && forall y :: y in m && y < v ==> y <= x
  {
    var s := Listing(m);
    PredecessorInSorted(s, v, x);
    forall y ensures y in m <==> y in s {
      assert y in m <==> y in multiset(s);
    }
  }

  /** successor(v) is the smallest element above v, and fails exactly when
      no element is above v (in particular on the empty multiset). */
  lemma SuccessorIsSmallestAbove(m: multiset<int>, v: int, x: int)
    ensures Successor(m, v) == NoSuchElement <==> forall y :: y in m ==> y <= v
    ensures Successor(m, v) == Ok(x) <==> x in m && v < x && forall y :: y in m && v < y ==> x <= y
  {
    var s := Listing(m);
    SuccessorInSorted(s, v, x);
    forall y ensures y in m <==> y in s {
      assert y in m <==> y in multiset(s);
    }
  }
}
