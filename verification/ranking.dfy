/**
 * The declarative meaning of "the k-th largest element, duplicates counted":
 * position k-1 of the input sorted in non-increasing order, and equivalently
 * the unique value with fewer than k elements strictly above it and at least
 * k elements at or above it.
 */
module Ranking {

  /** Every element is at least as large as every element after it. */
  ghost predicate NonIncreasing(t: seq<int>)
  {
    forall i, j :: 0 <= i < j < |t| ==> t[i] >= t[j]
  }

  /** Puts `x` into the non-increasing sequence `t`, before the first element not above it. */
  function InsertDescending(x: int, t: seq<int>): (r: seq<int>)
    requires NonIncreasing(t)
    ensures NonIncreasing(r)
    ensures multiset(r) == multiset(t) + multiset{x}
    ensures |r| == |t| + 1
    ensures r[0] == x || (t != [] && r[0] == t[0])
  {
    if t == [] || x >= t[0] then [x] + t
    else
      assert t == [t[0]] + t[1..];
      [t[0]] + InsertDescending(x, t[1..])
  }

  /** The elements of `s`, sorted in non-increasing order (an insertion sort). */
  function SortDescending(s: seq<int>): (r: seq<int>)
    ensures NonIncreasing(r)
    ensures multiset(r) == multiset(s)
    ensures |r| == |s|
  {
    if s == [] then []
    else
      assert s == [s[0]] + s[1..];
      InsertDescending(s[0], SortDescending(s[1..]))
  }

  /** Position k-1 of `s` sorted in non-increasing order. */
  function KthLargest(s: seq<int>, k: int): (v: int)
    requires 1 <= k <= |s|
  {
    SortDescending(s)[k - 1]
  }

  /** Whether `y` lies above `x`: strictly, or at-or-above when `inclusive`. */
  predicate Above(y: int, x: int, inclusive: bool)
  {
    if inclusive then y >= x else y > x
  }

  /** How many elements of `s` lie above `x` (strictly, or at-or-above when `inclusive`). */
  function CountAbove(s: seq<int>, x: int, inclusive: bool): (n: nat)
    ensures n <= |s|
  {
    if s == [] then 0
    else (if Above(s[0], x, inclusive) then 1 else 0) + CountAbove(s[1..], x, inclusive)
  }

  /** Number of elements of `s` strictly greater than `x`. */
  function CountGreater(s: seq<int>, x: int): (n: nat)
  {
    CountAbove(s, x, false)
  }

  /** Number of elements of `s` greater than or equal to `x`. */
  function CountAtLeast(s: seq<int>, x: int): (n: nat)
  {
    CountAbove(s, x, true)
  }

  lemma {:induction false} CountAboveAppend(a: seq<int>, b: seq<int>, x: int, inclusive: bool)
    ensures CountAbove(a + b, x, inclusive) == CountAbove(a, x, inclusive) + CountAbove(b, x, inclusive)
    decreases |a|
  {
    if a == [] {
      assert a + b == b;
    } else {
      assert (a + b)[0] == a[0];
      assert (a + b)[1..] == a[1..] + b;
      CountAboveAppend(a[1..], b, x, inclusive);
    }
  }

  /** The count depends only on the multiset of elements, not on their order. */
  lemma {:induction false} CountAbovePermutation(s: seq<int>, t: seq<int>, x: int, inclusive: bool)
    requires multiset(s) == multiset(t)
    ensures CountAbove(s, x, inclusive) == CountAbove(t, x, inclusive)
    decreases |s|
  {
    if s == [] {
      assert |t| == |multiset(t)| == 0;
    } else {
      var y := s[0];
      assert y in multiset(t) by { assert y in multiset(s); }
      var j :| 0 <= j < |t| && t[j] == y;
      var rest := t[..j] + t[j + 1..];
      CountAboveRemove(t, j, x, inclusive);
      MultisetRemove(t, j);
      MultisetTail(s);
      CountAbovePermutation(s[1..], rest, x, inclusive);
    }
  }

  /** Dropping the first element takes one copy of it out of the multiset. */
  lemma MultisetTail(s: seq<int>)
    requires s != []
    ensures multiset(s[1..]) == multiset(s) - multiset{s[0]}
  {
    assert s == [s[0]] + s[1..];
  }

  /** Taking out the element at position `j` takes one copy of it out of the multiset. */
  lemma MultisetRemove(t: seq<int>, j: int)
    requires 0 <= j < |t|
    ensures multiset(t[..j] + t[j + 1..]) == multiset(t) - multiset{t[j]}
  {
    assert t == t[..j] + [t[j]] + t[j + 1..];
  }

  /** Taking out the element at position `j` lowers the count by its own contribution. */
  lemma CountAboveRemove(t: seq<int>, j: int, x: int, inclusive: bool)
    requires 0 <= j < |t|
    ensures CountAbove(t, x, inclusive)
         == CountAbove(t[..j] + t[j + 1..], x, inclusive) + (if Above(t[j], x, inclusive) then 1 else 0)
  {
    assert t == t[..j] + ([t[j]] + t[j + 1..]);
    CountAboveAppend(t[..j], [t[j]] + t[j + 1..], x, inclusive);
    CountAboveAppend([t[j]], t[j + 1..], x, inclusive);
    CountAboveAppend(t[..j], t[j + 1..], x, inclusive);
  }

  lemma {:induction false} CountAboveAll(s: seq<int>, x: int, inclusive: bool)
    requires forall i :: 0 <= i < |s| ==> Above(s[i], x, inclusive)
    ensures CountAbove(s, x, inclusive) == |s|
    decreases |s|
  {
    if s != [] {
      CountAboveAll(s[1..], x, inclusive);
    }
  }

  lemma {:induction false} CountAboveNone(s: seq<int>, x: int, inclusive: bool)
    requires forall i :: 0 <= i < |s| ==> !Above(s[i], x, inclusive)
    ensures CountAbove(s, x, inclusive) == 0
    decreases |s|
  {
    if s != [] {
      CountAboveNone(s[1..], x, inclusive);
    }
  }

  /** Everything at or above `y` is strictly above any `x < y`. */
  lemma {:induction false} CountAboveMonotone(s: seq<int>, x: int, y: int)
    requires x < y
    ensures CountAtLeast(s, y) <= CountGreater(s, x)
    decreases |s|
  {
    if s != [] {
      CountAboveMonotone(s[1..], x, y);
    }
  }

  /** In a non-increasing sequence, the element at position k-1 has rank k. */
  lemma RankInSorted(t: seq<int>, k: int)
    requires NonIncreasing(t)
    requires 1 <= k <= |t|
    ensures CountGreater(t, t[k - 1]) < k <= CountAtLeast(t, t[k - 1])
  {
    var v := t[k - 1];
    assert t == t[..k - 1] + ([v] + t[k..]);
    CountAboveAppend(t[..k - 1], [v] + t[k..], v, false);
    CountAboveAppend([v], t[k..], v, false);
    CountAboveNone(t[k..], v, false);
    assert t == t[..k] + t[k..];
    CountAboveAppend(t[..k], t[k..], v, true);
    CountAboveAll(t[..k], v, true);
  }

  /** The k-th largest element has fewer than k elements strictly above it and
    * at least k elements at or above it; it is therefore an element of `s`. */
  lemma KthLargestRank(s: seq<int>, k: int)
    requires 1 <= k <= |s|
    ensures KthLargest(s, k) in s
    ensures CountGreater(s, KthLargest(s, k)) < k <= CountAtLeast(s, KthLargest(s, k))
  {
    var t := SortDescending(s);
    RankInSorted(t, k);
    CountAbovePermutation(s, t, t[k - 1], false);
    CountAbovePermutation(s, t, t[k - 1], true);
    assert t[k - 1] in multiset(t);
  }

  /** The rank counts determine the value: both directions. */
  lemma KthLargestCharacterization(s: seq<int>, k: int, x: int)
    requires 1 <= k <= |s|
    ensures x == KthLargest(s, k) <==> CountGreater(s, x) < k <= CountAtLeast(s, x)
  {
    var v := KthLargest(s, k);
    KthLargestRank(s, k);
    if CountGreater(s, x) < k <= CountAtLeast(s, x) && x != v {
      if x < v {
        CountAboveMonotone(s, x, v);
      } else {
        CountAboveMonotone(s, v, x);
      }
    }
  }

  /** Any non-increasing arrangement of the same elements has the same k-th entry:
    * "the" sorted order is well defined at every position. */
  lemma KthLargestIndependentOfSort(s: seq<int>, t: seq<int>, k: int)
    requires NonIncreasing(t)
    requires multiset(t) == multiset(s)
    requires 1 <= k <= |s|
    ensures |t| == |s|
    ensures t[k - 1] == KthLargest(s, k)
  {
    assert |t| == |multiset(t)| == |multiset(s)| == |s|;
    RankInSorted(t, k);
    CountAbovePermutation(s, t, t[k - 1], false);
    CountAbovePermutation(s, t, t[k - 1], true);
    KthLargestCharacterization(s, k, t[k - 1]);
  }

  /** The first largest element is the maximum. */
  lemma KthLargestOneIsMax(s: seq<int>)
    requires |s| >= 1
    ensures KthLargest(s, 1) in s
    ensures forall i :: 0 <= i < |s| ==> s[i] <= KthLargest(s, 1)
  {
    var t := SortDescending(s);
    assert t[0] in multiset(s) by { assert t[0] in multiset(t); }
    forall i | 0 <= i < |s|
      ensures s[i] <= t[0]
    {
      assert s[i] in multiset(t) by { assert s[i] in multiset(s); }
      var j :| 0 <= j < |t| && t[j] == s[i];
    }
  }
}
