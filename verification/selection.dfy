/**
 * The selection problem, first solution (myDSA.h): queue every element in a
 * max-priority queue, pop k-1 times, and read the top, which is the k-th
 * largest element with duplicates counted.
 */
module Selection {
  import opened Ranking
  import opened PriorityQueues

  /** The C++ `int` used for the rank `k` and the pop counter. */
  newtype Int32 = x: int | -0x8000_0000 <= x < 0x8000_0000

  /** The rank actually selected: a rank below 1 pops nothing and so selects the largest. */
  function EffectiveRank(k: Int32): (r: int)
    ensures r >= 1
    ensures k >= 1 ==> r == k as int
  {
    if k < 1 then 1 else k as int
  }

  /** What the queue holds after `pops` pops of a queue filled with `values`:
    * the input without its `pops` largest elements. */
  ghost function Remaining(values: seq<int>, pops: nat): (m: multiset<int>)
    requires pops <= |values|
    ensures |m| == |values| - pops
  {
    multiset(SortDescending(values)[pops..])
  }

  /** Before any pop the queue holds exactly the input. */
  lemma RemainingInitially(values: seq<int>)
    ensures Remaining(values, 0) == multiset(values)
  {
    assert SortDescending(values)[0..] == SortDescending(values);
  }

  /** While values remain, the greatest of them is the next entry of the sorted input. */
  lemma RemainingMax(values: seq<int>, pops: nat)
    requires pops < |values|
    ensures Remaining(values, pops) != multiset{}
    ensures MaxOf(Remaining(values, pops)) == KthLargest(values, pops + 1)
  {
    var t := SortDescending(values);
    var m := Remaining(values, pops);
    forall y | y in m
      ensures y <= t[pops]
    {
      var j :| 0 <= j < |t[pops..]| && t[pops..][j] == y;
      assert t[pops + j] == y;
    }
    assert t[pops] in m by { assert t[pops..][0] == t[pops]; }
    MaxOfUnique(m, t[pops]);
  }

  /** One pop takes the queue from `pops` pops to `pops + 1` pops. */
  lemma RemainingAfterPop(values: seq<int>, pops: nat)
    requires pops < |values|
    ensures Remaining(values, pops) - multiset{MaxOf(Remaining(values, pops))} == Remaining(values, pops + 1)
  {
    var t := SortDescending(values);
    RemainingMax(values, pops);
    SuffixSplit(t, pops);
    assert (multiset(t[pops + 1..]) + multiset{t[pops]}) - multiset{t[pops]} == multiset(t[pops + 1..]);
  }

  /** A suffix holds its first element and the next suffix. */
  lemma SuffixSplit(t: seq<int>, i: int)
    requires 0 <= i < |t|
    ensures multiset(t[i..]) == multiset(t[i + 1..]) + multiset{t[i]}
  {
    assert t[i..] == [t[i]] + t[i + 1..];
  }

  /**
   * The k-th largest element of `values`, duplicates counted. The input is a
   * value and is left untouched. Popping or reading an empty queue is
   * undefined in the source, hence a non-empty `values` and `k <= |values|`;
   * `k - 1` must not overflow an `int`.
   */
  method SelectionProblem1(values: seq<int>, k: Int32) returns (r: int)
    requires |values| > 0
    requires k as int <= |values|
    requires k > -0x8000_0000
    ensures r == KthLargest(values, EffectiveRank(k))
    ensures r in values
    ensures CountGreater(values, r) < EffectiveRank(k) <= CountAtLeast(values, r)
    ensures k <= 1 ==> forall i :: 0 <= i < |values| ==> values[i] <= r
  {
    var pq := new PriorityQueue();
    for j := 0 to |values|
      invariant pq.contents == multiset(values[..j])
    {
      assert values[..j + 1] == values[..j] + [values[j]];
      pq.Push(values[j]);
    }
    assert pq.contents == multiset(values) by {
      assert values[..|values|] == values;
    }
    RemainingInitially(values);

    var i: Int32 := 0;
    while i < k - 1
      invariant 0 <= i as int <= EffectiveRank(k) - 1
      invariant pq.contents == Remaining(values, i as int)
    {
      RemainingAfterPop(values, i as int);
      pq.Pop();
      i := i + 1;
    }

    assert i as int == EffectiveRank(k) - 1;
    RemainingMax(values, i as int);
    r := pq.Top();
    MaxOfUnique(pq.contents, r);
    KthLargestRank(values, EffectiveRank(k));
    if k <= 1 {
      KthLargestOneIsMax(values);
    }
  }

}
