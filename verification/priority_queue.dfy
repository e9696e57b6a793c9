/**
 * The contract of a max-priority queue with the default "less than" ordering:
 * push adds one copy of a value, top reads a greatest value, pop removes one
 * copy of a greatest value. Only the observable multiset of queued values is
 * modelled, not the heap layout that stores it.
 */
module PriorityQueues {

  /** A greatest element of a non-empty multiset. */
  ghost function MaxOf(m: multiset<int>): (r: int)
    requires m != multiset{}
    ensures r in m
    ensures forall y :: y in m ==> y <= r
    decreases |m|
  {
    assert exists y :: y in m by {
      if forall y :: y !in m {
        assert false;
      }
    }
    var x :| x in m;
    var rest := m - multiset{x};
    assert |rest| < |m| by { assert m == rest + multiset{x}; }
    assert forall y :: y in m ==> y == x || y in rest;
    if rest == multiset{} then x
    else
      var r := MaxOf(rest);
      if r < x then x else r
  }

  /** Any value that belongs to `m` and bounds it from above is `MaxOf(m)`. */
  lemma MaxOfUnique(m: multiset<int>, t: int)
    requires t in m
    requires forall y :: y in m ==> y <= t
    ensures t == MaxOf(m)
  {
    var r := MaxOf(m);
    assert r <= t && t <= r;
  }

  class PriorityQueue {
    /** The values currently queued, duplicates counted. */
    var contents: multiset<int>

    /** An empty queue. */
    constructor ()
      ensures contents == multiset{}
    {
      contents := multiset{};
    }

    /** Adds one copy of `x`. */
    method Push(x: int)
      modifies this
      ensures contents == old(contents) + multiset{x}
    {
      contents := contents + multiset{x};
    }

    /** A greatest queued value; reading an empty queue is undefined. */
    method Top() returns (t: int)
      requires contents != multiset{}
      ensures t in contents
      ensures forall y :: y in contents ==> y <= t
    {
      ghost var greatest := MaxOf(contents);
      t :| t in contents && forall y :: y in contents ==> y <= t;
    }

    /** Removes one copy of a greatest queued value; popping an empty queue is undefined. */
    method Pop()
      requires contents != multiset{}
      modifies this
      ensures contents == old(contents) - multiset{MaxOf(old(contents))}
      ensures |contents| == |old(contents)| - 1
    {
      ghost var greatest := MaxOf(contents);
      var m :| m in contents && forall y :: y in contents ==> y <= m;
      MaxOfUnique(contents, m);
      contents := contents - multiset{m};
    }
  }
}
