# Selection problem over a max-priority queue

This project models the first solution to the selection problem in the
`myDSA.h` header of a teaching library of data structures and algorithms.
`selectionProblem1(array, k)` returns the k-th largest element of `array`,
with duplicates counted. It works in three steps:

- it pushes every element into a `std::priority_queue`, which is a
  max-priority queue under the default "less than" ordering;
- it pops `k - 1` times;
- it returns `top()`.

The model has three modules:

- `PriorityQueues` (`priority_queue.dfy`) gives the contract of the priority
  queue. The class `PriorityQueue` has one field, the multiset of queued
  values. `Push` adds one copy of a value. `Top` returns a greatest value.
  `Pop` removes one copy of the greatest value (`MaxOf`).
- `Ranking` (`ranking.dfy`) defines the specification. `KthLargest(s, k)` is
  entry `k - 1` of `s` sorted in non-increasing order, where
  `SortDescending` is an insertion sort proved to sort and to permute. The
  module also proves the equivalent rank statement: fewer than `k` elements
  lie strictly above the answer and at least `k` lie at or above it.
- `Selection` (`selection.dfy`) gives `SelectionProblem1`, an imperative
  method with the source's two loops. It is proved against `KthLargest`.
  `Remaining(values, i)` is what the queue holds after `i` pops: the input
  without its `i` largest elements. It serves as the invariant of the pop
  loop.

Some source behaviour is made explicit in the model:

- The rank `k` is a C++ `int`. It is modelled by the `Int32` newtype, so the
  `k - 1` in the loop guard is range-checked.
- A `k` of 1 or less runs the pop loop zero times, so the result is the
  maximum. `EffectiveRank` captures this.
- Calling `pop()` or `top()` on an empty queue is undefined in C++, and the
  source does not guard against it. The model therefore requires a
  non-empty input and `k <= |values|`.
- The input is taken by `const` reference. The model passes it as a `seq`
  value, so the method cannot change it.

## Model

| member | source | states |
|---|---|---|
| `Selection.SelectionProblem1` | myDSA.h:95-103 | for a non-empty input, `k` at most the input length and `k - 1` within `int` range, the result is entry `max(k,1) - 1` of the input sorted non-increasingly; it is an element of the input; fewer than `max(k,1)` elements exceed it and at least `max(k,1)` are at least it; for `k <= 1` it is the maximum |
| `Selection.EffectiveRank` | myDSA.h:100-102 | the rank actually selected is at least 1: a `k` below 1 runs the pop loop zero times and so selects rank 1, otherwise it is `k` |
| `Selection.Remaining` | myDSA.h:100-101 | the queue after `i` pops holds the input minus its `i` largest elements, so exactly the input length minus `i` values remain |
| `Selection.RemainingInitially` | myDSA.h:97-99 | after the fill loop the queue holds exactly the multiset of the input |
| `Selection.RemainingAfterPop` | myDSA.h:100-101 | removing the greatest value from the queue after `i` pops gives the queue after `i + 1` pops (the input minus its `i + 1` largest elements) |
| `Selection.RemainingMax` | myDSA.h:100-102 | after `i` pops, `i` below the input length, the queue is non-empty and its greatest value is the `(i+1)`-th largest element of the input |
| `PriorityQueues.PriorityQueue.constructor` | myDSA.h:97 | a new queue is empty |
| `PriorityQueues.PriorityQueue.Push` | myDSA.h:98-99 | `push` adds exactly one copy of the value to the queued multiset |
| `PriorityQueues.PriorityQueue.Pop` | myDSA.h:100-101 | `pop` on a non-empty queue removes exactly one copy of its greatest value and nothing else |
| `PriorityQueues.PriorityQueue.Top` | myDSA.h:102 | `top` on a non-empty queue returns a queued value that no queued value exceeds, and changes nothing |
| `PriorityQueues.MaxOf` | myDSA.h:102 | the greatest value of a non-empty multiset is one of its values and bounds every value from above |
| `PriorityQueues.MaxOfUnique` | myDSA.h:102 | any member that bounds the multiset from above is that greatest value, so `top` is determined |
| `Ranking.SortDescending` | myDSA.h:96-102 | the reference order: the result is non-increasing, has the same length and is a permutation of the input |
| `Ranking.InsertDescending` | myDSA.h:96-102 | inserting into a non-increasing sequence keeps it non-increasing and adds exactly that value |
| `Ranking.KthLargestRank` | myDSA.h:96-102 | the k-th largest is an element of the input, fewer than k elements are strictly greater and at least k are greater or equal |
| `Ranking.KthLargestCharacterization` | myDSA.h:96-102 | both directions: a value is the k-th largest exactly when fewer than k elements exceed it and at least k are at least it |
| `Ranking.KthLargestIndependentOfSort` | myDSA.h:96-102 | every non-increasing permutation of the input has the same entry at position k-1, so "sorted in non-increasing order" is unambiguous |
| `Ranking.KthLargestOneIsMax` | myDSA.h:100-102 | the first largest element is an element of the input and is at least every element |
| `Ranking.CountAbovePermutation` | myDSA.h:96-102 | rank counts are invariant under permutation, so ranks in the sorted order are ranks in the input |
| `Ranking.RankInSorted` | myDSA.h:100-102 | in a non-increasing sequence, entry k-1 has fewer than k entries strictly above it and at least k at or above it |

## Left out

- The timer class `pTime` (myDSA.h:37-88) reads a steady clock and writes to the console. It has no behaviour beyond that I/O, so it is not modelled.
- The element type: `selectionProblem1` is a template over any `T` with `operator<`. The model uses `int`, which also stands for a total order. Values are only compared, never computed with, so their width does not matter. For a `T` whose `operator<` is only a strict weak order (values that are equivalent but distinguishable), which of the equivalent values `top()` returns is unspecified; the model does not capture that.
- The rank `k` is modelled by `Int32`, which assumes a 32-bit C++ `int`.
- The comment at myDSA.h:93 says the solution pops `k` times; the code at myDSA.h:100-102 pops `k - 1` times and then reads `top()`. The model follows the code.
- The heap layout inside `std::priority_queue` belongs to the C++ standard library. Only its observable contract is modelled, as a multiset of queued values.
- The queue's `size()`, `empty()` and other members are not modelled, because `selectionProblem1` does not call them.
- Inputs for which the source is undefined are excluded by `requires` clauses and not modelled: an empty `array`, a `k` above `array.size()` (both make `pop()` or `top()` run on an empty queue), and `k` equal to the smallest `int` (where `k - 1` overflows).
- The other algorithms of the library (search trees, heaps, hash tables, sorts, graph algorithms) are not part of this model.
