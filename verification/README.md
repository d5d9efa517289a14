# Binary heap in Dafny

This project models `BinaryHeap<T: Ord>`, a min-heap stored in a `Vec<T>`
(`src/lib.rs`), and proves it correct. The model covers four parts:
- the index arithmetic (`parent`, and the children `2i+1` and `2i+2`);
- the two restructuring loops, `float` (sift-up) and `sink` (sift-down);
- the public mutators `push` and `pop`;
- the constructors `new`, `with_capacity` and `From<Vec<T>>` (bottom-up heapify).

The model makes these choices:
- Elements are `int`, a total order that allows duplicates.
- The backing vector is a `seq<int>`.
- Each `&mut self` operation is a method that takes the current contents and
  returns the new ones. `pop` returns the new heap together with an `Option<int>`.
- `Vec::swap` and `Vec::swap_remove` are modelled only by their effect on the
  values (`VecOps.Swap`, `VecOps.SwapRemove`).

The invariant is `Heap.IsHeap`: every element at an index `c > 0` is at least
the element at `parent(c)`.
- `sink(i)` is stated on subtrees. `Heap.InSubtree(j, r)` holds when `r` is
  `j` or one of its ancestors. If both subtrees of `i` are heaps
  (`Heap.ChildSubtreesHeap`), then afterwards the subtree rooted at `i` is a
  heap (`Heap.SubtreeHeap`), and every position outside that subtree keeps
  its value.
- The bottom-up construction relies on `Heap.HeapFrom(a, k)`: every index
  `>= k` roots a valid sub-heap. `sink(i)` also carries this from `i + 1` to
  `i`, which is the loop invariant of `from`.
- `float(i)` works on `Heap.HeapExceptAt`: a heap in which only `a[i]` may be
  smaller than its parent, with that parent still no larger than `i`'s
  children. Appending a value to a heap produces exactly this shape.

Modules: `Options` (the `Option` type), `HeapIndex` (index arithmetic),
`VecOps` (the two `Vec` operations), `Heap` (the component), `Drain`
(repeated `pop` and its sortedness), and `Examples` (the scenarios of the
source's test module, derived from the contracts alone).

## Model

| member | source | states |
|---|---|---|
| HeapIndex.Parent | src/lib.rs:29-35 | the root has no parent; every other index has a parent strictly smaller than itself, and the index is that parent's left child `2p+1` or right child `2p+2` |
| HeapIndex.ParentOfChild | src/lib.rs:86-87 | `parent` inverts the children computed in `sink`: `parent(c) = p` exactly when `c` is `2p+1` or `2p+2` |
| VecOps.Swap | src/lib.rs:73 | swapping two positions exchanges their values, leaves all other positions and the length unchanged, and keeps the multiset |
| VecOps.SwapRemove | src/lib.rs:156 | `swap_remove(i)` shortens the vector by one, puts the last element at `i`, keeps every other position, and removes exactly one copy of the old `a[i]` from the multiset |
| Heap.New | src/lib.rs:17-19 | `new()` is the empty heap, which satisfies the invariant |
| Heap.WithCapacity | src/lib.rs:21-25 | `with_capacity(n)` cannot be told apart from `new()` |
| Heap.Min | src/lib.rs:89-90 | `std::cmp::min` returns one of its two arguments, and it is no larger than either |
| Heap.SinkTarget | src/lib.rs:85-97 | the child `sink` moves to is an existing child of `i` that is strictly smaller than `a[i]` and no larger than the other existing child; the right child is chosen only when strictly smaller than the left one (ties go left); the result is `None` exactly when `i` is out of range or no existing child is smaller than `a[i]`, which includes a leaf |
| Heap.HeapIffChildrenAtLeast | src/lib.rs:86-87 | the parent-wise invariant holds exactly when every node is no larger than each of its existing children |
| Heap.FloatStep | src/lib.rs:69-74 | one swap with a strictly greater parent moves the single out-of-order position from `cur` to its parent |
| Heap.Float | src/lib.rs:65-79 | starting from a heap that is out of order only at `i`, `float(i)` yields a heap with the same length and multiset; positions after `i` do not change; nothing changes at all when `i` is the root, is out of range, or already has a parent that is no larger |
| Heap.SinkStep | src/lib.rs:94-99 | one swap with the chosen child keeps the moving element inside the start index's subtree, and keeps every edge of that subtree ordered except the edges leaving the element's new position; its new parent stays no larger than its children |
| Heap.SinkDone | src/lib.rs:96 | when no child is strictly smaller, the subtree rooted at the start index is a heap |
| Heap.SubtreeHeapExtends | src/lib.rs:8-10 | if every index after `r` rooted a sub-heap before `sink(r)`, the subtree of `r` is now a heap, and nothing outside that subtree changed, then every index from `r` on roots a sub-heap |
| Heap.Sink | src/lib.rs:82-101 | if both subtrees of `index` are heaps, then afterwards the subtree rooted at `index` is a heap; length and multiset are kept; every position outside that subtree keeps its value; if every index after `index` rooted a sub-heap, every index from `index` on does; nothing changes when `index` has no strictly smaller child, in particular when it is a leaf or the vector is empty |
| Heap.RootIsMin | src/lib.rs:156 | in a heap, the element at index 0 is no larger than any element |
| Heap.Push | src/lib.rs:143-148 | `push(v)` keeps the invariant, grows the length by exactly one, and adds exactly one `v` to the multiset |
| Heap.Pop | src/lib.rs:150-161 | `pop()` returns `None` and leaves the heap unchanged exactly when it is empty; otherwise it returns the old `a[0]`, which is no larger than any element, shortens the heap by one, removes exactly that value from the multiset, and keeps the invariant |
| Heap.From | src/lib.rs:5-12 | heapifying any vector yields a valid heap with the same length and multiset |
| Drain.DrainAll | src/lib.rs:194-200 | popping until `None` yields a non-decreasing sequence with exactly the heap's multiset, and leaves a valid empty heap |
| Drain.PushAll | src/lib.rs:171-177 | a run of pushes keeps the invariant, and the heap's multiset gains exactly the pushed values |
| Drain.SortByPush | src/lib.rs:170-188 | pushing any values into a new heap and draining it returns them sorted, with the same multiset |
| Drain.SortByFrom | src/lib.rs:190-207 | heapifying any values and draining the heap returns them sorted, with the same multiset |
| Drain.SortByFromIs | src/lib.rs:190-200 | heapify-then-drain returns exactly the one sorted arrangement of its input |
| Drain.PopLeast | src/lib.rs:152-159 | which value `pop` returns is fixed by the heap's contents alone: the least of them |
| Drain.SortedUnique | src/lib.rs:194-206 | two sorted sequences with the same multiset are equal, so the expected pop order of a test is the only one possible |
| Examples.PushSix | src/lib.rs:171-177 | six pushes into `with_capacity(5)` hold exactly 5, 11, 3, 7, 1, 7 |
| Examples.PopOne | src/lib.rs:179 | the first pop of that heap returns 1 |
| Examples.PopThree | src/lib.rs:180 | the second pop returns 3 |
| Examples.PushTwoAndDrain | src/lib.rs:181-187 | after pushing 2, the pops return 2, 5, 7, 7, 11 and then `None` |
| Examples.PushTest | src/lib.rs:169-188 | the whole push test pops 1, 3, 2, 5, 7, 7, 11, and the pop after that returns `None` |
| Examples.FromTestSteve | src/lib.rs:191-200 | `from([8, 4, 5, 2, 2, 9, 22])` pops 2, 2, 4, 5, 8, 9, 22 |
| Examples.FromTestJohn | src/lib.rs:202-206 | `from([2, 3, 1])` pops 1, 2, 3 |
| Examples.SinkInsideSubtree | src/lib.rs:82-101 | `sink(1)` on `[0, 9, 5, 4, 4, 7, 1]` makes the subtree of 1 a heap and keeps positions 0, 2, 5 and 6, even though the edge from 2 to 6 is out of order |
| Examples.EmptyPopTest | src/lib.rs:152-155 | popping a new heap returns `None` and leaves it empty |

## Left out

- Generic `T: Ord`: elements are `int`. The `std::cmp::Reverse` max-heap test (src/lib.rs:209-221) only swaps the order, so it adds nothing to verify.
- Heap.WithCapacity: the reserved capacity is a performance hint only, so the model is identical to `new()`.
- Heap.Min: for `int`, equal values cannot be told apart, so the contract does not say which argument `min` returns on a tie. `Heap.SinkTarget` states the left-child tie-break that this choice produces.
- `usize` overflow in `i * 2 + 1` (src/lib.rs:86-87) is not modelled: indices are unbounded naturals.
- Allocation failure, and the ownership and move semantics of `swap_remove` and `pop`, are not modelled. Only their effect on values is.
- Running time (O(log n) for `push` and `pop`, O(n) for `from`) is not modelled.
- The commented-out `left_child`/`right_child` helpers and the older `sink` variant (src/lib.rs:36-62, src/lib.rs:103-141) are dead code.
- Heap.Float: the contract states the result (a heap, the same multiset, the frame and the no-op case) rather than the exact ancestor path the value travels.
- Stable (FIFO) order among equal elements is not modelled, because the source does not promise it.
