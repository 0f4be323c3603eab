# Pairing heap priority queue, modelled in Dafny

This project models `index.js` of the `pairingheap` package: a priority queue
backed by a persistent pairing heap. The model has five modules.

- `Lists` (lists.dfy) is the immutable cons list holding a node's children
  (`List`, `prepend`, `EmptyList` as `Nil`).
- `Heaps` (heaps.dfy) is the immutable heap node (`Heap`, `EmptyHeap` as
  `Empty`): `isEmpty`, the O(1) `merge` that links two roots (the left operand
  wins ties), and `getMin`. It also defines the specification side: the
  multiset of items of a heap and heap order (`WellFormed`) with respect to a
  caller-supplied comparator that is a total preorder.
- `MergePairsEngine` (merge_pairs.dfy) is `mergePairs`, the delete-min
  reduction, without its Promise and `setImmediate` wrapper.
  - One scheduled callback becomes the specification function `Chunk`.
    `Chunk` folds at most `WorkUnitSize` = 32 sibling pairs into an
    accumulator that starts empty, merges the previous chunk's result in on
    the left, and then either finishes or hands on the unread tail.
  - The chain of callbacks becomes `RunChunks`.
  - The methods `MergePairsChunk` (the source's `while` loop over `a`, `b`,
    `l`, `n`) and `MergePairs` (the driver loop, one chunk per turn) are
    proved equal to these functions.
  - `Heap.pop` is `DeleteMin`.
- `Extraction` (extraction.dfy) defines `Drain`, the sequence of items that
  repeated `getMin` and `pop` yield. It is used to state what repeated pops
  promise: a heap sort, independent of tree shape when there are no ties.
- `Queue` (queue.dfy) is the mutable `PairingHeap` class, with fields `size`,
  `heap` and `busy`. It provides `length`, `isEmpty`, `insert`, `peek` and
  `pop`. The errors `'empty insert'` and `'heap empty'` are `Failure` values.

The comparator is a function value of type `(T, T) -> int`, where
`cmp(x, y) <= 0` means "x may come first". `TotalPreorder` requires that
relation to be total and transitive. The default comparator
`(a > b) - (b > a)` is `NaturalOrder` on `int`.

### Design and code

The code is followed where the design description and the code differ.

- **Chunked and one-pass results are not identical trees.** The design asks
  that the chunked and the one-pass reductions yield the identical node.
  The code does not do that. Each chunk starts its fold from `EmptyHeap`
  (index.js:70-71) and only afterwards merges `previousResult` on the left
  (index.js:86-88). So chunk boundaries do show in the shape of the result.
  - `ChunkBoundariesChangeShape` gives a concrete case: seven singletons,
    with two pairs per chunk.
  - What does hold is proved: both results hold the same items, both are in
    heap order, and their roots compare equal (`ChunkedAgreesWithSync`).
  - Under an order without ties, draining either result gives the same
    sequence (`ChunkedDrainsLikeSync`).
- **The reduction is one left-to-right pass, not "two-pass".** The design
  calls it a two-pass merge. The code merges adjacent siblings into a pair
  and folds each pair into a running accumulator from left to right, with no
  second right-to-left pass. `SyncMergePairs` is that one-pass reference.

## Model

| member | source | states |
|---|---|---|
| Lists.IsEmpty | index.js:3-10 | a list is empty exactly when it has length 0 |
| Lists.Prepend | index.js:12-14 | `prepend` yields a new cell with the given head in front of the unchanged list, one longer |
| Heaps.NaturalOrder | index.js:99 | the default comparator `(a > b) - (b > a)` on integers is non-positive exactly when `a <= b` and zero exactly when `a == b` |
| Heaps.NaturalOrderIsTotalPreorder | index.js:99 | the default comparator on integers is a total preorder |
| Heaps.IsEmpty | index.js:29-31 | a heap is empty exactly when it holds no item |
| Heaps.Singleton | index.js:22-27 | `new Heap(item)` holds exactly that one item |
| Heaps.Merge | index.js:33-40 | merging with an empty operand returns the other operand itself |
| Heaps.MergeLinksRoots | index.js:42-46 | merging two non-empty heaps gives a root no greater than either; the left root wins unless the right compares strictly smaller; the loser is prepended to the winner's unchanged children |
| Heaps.MergeElements | index.js:33-47 | a merge holds exactly the items of both operands |
| Heaps.MergeWellFormed | index.js:33-47 | merging two heap-ordered heaps gives a heap-ordered heap |
| Heaps.LinkUnder | index.js:43-45 | hanging the losing heap under the winning root keeps heap order |
| Heaps.GetMin | index.js:49-51 | `getMin` of a non-empty heap returns one of its items |
| Heaps.GetMinIsLeast | index.js:49-51 | the root of a heap-ordered heap compares at most equal to every item it holds |
| MergePairsEngine.TakePairElements | index.js:77-82 | one loop turn takes the next sibling, merged with the following one if any, and loses no item |
| MergePairsEngine.TakePairWellFormed | index.js:77-82 | one loop turn over heap-ordered siblings yields a heap-ordered pair and a heap-ordered tail |
| MergePairsEngine.FoldPairsElements | index.js:76-85 | the chunk loop keeps every item: accumulator plus unread tail hold what accumulator plus list held |
| MergePairsEngine.FoldPairsLength | index.js:73-85 | `n` loop turns read at most `2n` siblings, read at least one whenever they may, and stop early only at the end of the list |
| MergePairsEngine.FoldPairsWellFormed | index.js:76-85 | the chunk loop keeps accumulator and unread siblings heap-ordered |
| MergePairsEngine.ChunkProgress | index.js:73-93 | a chunk that does not finish has read exactly `2 * WORK_UNIT_SIZE` siblings and hands on a strictly shorter non-empty tail, so the chain of callbacks terminates |
| MergePairsEngine.ChunkElements | index.js:70-93 | a chunk, with the previous result merged in, loses no item |
| MergePairsEngine.ChunkWellFormed | index.js:70-93 | a chunk over heap-ordered inputs hands on only heap-ordered heaps |
| MergePairsEngine.RunChunksCorrect | index.js:68-95 | the chained callbacks resolve to one heap holding exactly the list's items plus the previous result's, heap-ordered when the inputs are, and `EmptyHeap` on an empty list with no previous result |
| MergePairsEngine.RunChunksKeepsPreviousRoot | index.js:86-88 | the previous result is merged on the left and wins ties: if its root bounds the list's items, it stays the root |
| MergePairsEngine.FoldAllElements | index.js:76-85 | the one-pass pairing fold (the loop with no chunk limit) keeps every item |
| MergePairsEngine.FoldAllWellFormed | index.js:76-85 | the one-pass pairing fold keeps heap order |
| MergePairsEngine.ChunkedAgreesWithSync | index.js:66-95 | chunked and one-pass reductions hold the same items, are both heap-ordered, are both empty or both not, and have roots that compare equal |
| MergePairsEngine.ShapeExampleFirstChunk | index.js:70-93 | with two pairs per chunk, the first chunk of seven singletons folds 1 to 4 and hands on 5 to 7 |
| MergePairsEngine.ShapeExampleSecondChunk | index.js:86-90 | the second chunk folds 5 to 7 and merges the first chunk's heap in on the left, then finishes |
| MergePairsEngine.ShapeExampleSync | index.js:76-85 | the one-pass fold of the same seven singletons, as a concrete tree |
| MergePairsEngine.ChunkBoundariesChangeShape | index.js:70-88 | the chunked and one-pass reductions of the same list can be different trees |
| MergePairsEngine.MergePairsChunk | index.js:70-93 | the loop of one callback computes the chunk step function, and a continuing step hands on a strictly shorter tail having read `2 * WORK_UNIT_SIZE` siblings |
| MergePairsEngine.MergePairs | index.js:68-95 | the driver that runs one chunk per turn returns what the chained callbacks resolve to |
| MergePairsEngine.DeleteMin | index.js:53-55 | `Heap.pop` on a non-empty heap returns the reduction of its children: every item except one occurrence of the root, heap-ordered when the heap was |
| Extraction.PopShrinks | index.js:53-55 | a pop removes exactly one occurrence of the root item |
| Extraction.PopStep | index.js:171-172 | the drain of a heap is its root followed by the drain of what a pop leaves, and a pop keeps heap order |
| Extraction.DrainElements | index.js:165-176 | popping until empty yields exactly the heap's items |
| Extraction.RootBoundsPopped | index.js:171-172 | the root of a heap-ordered heap bounds every item that a pop leaves |
| Extraction.DrainSorts | index.js:165-176 | popping a heap-ordered heap until empty is a heap sort: a permutation of its items, least first |
| Extraction.SameLeastRoot | index.js:49-51 | two heap-ordered heaps with the same items have the same root when the order has no ties |
| Extraction.DrainDependsOnlyOnElements | index.js:165-176 | with no ties, the items a heap pops in order depend on its items alone, not on its tree shape |
| Extraction.ChunkedDrainsLikeSync | index.js:66-95 | with no ties, the chunked and one-pass reductions pop the same sequence |
| Extraction.NaturalOrderIsAntisymmetric | index.js:99 | the default comparator on integers has no ties between distinct items |
| Queue.PairingHeap.constructor | index.js:98-104 | a new queue has size 0, the empty heap, busy false, no items, and satisfies the queue invariant |
| Queue.PairingHeap.Length | index.js:106-108 | `length` is the number of items held |
| Queue.PairingHeap.IsEmpty | index.js:110-112 | `isEmpty` (size 0) holds exactly when the queue holds no item and exactly when the heap is `EmptyHeap` |
| Queue.PairingHeap.Insert | index.js:137-153 | an absent item fails with `'empty insert'` and changes nothing; otherwise size grows by 1, the item joins the contents, the heap becomes `heap.merge(new Heap(item))`, and the invariant (heap order, size equals item count, not busy) is kept |
| Queue.PairingHeap.Peek | index.js:155-163 | fails with `'heap empty'` exactly when size is 0; otherwise returns the root, one of the least items, and changes nothing |
| Queue.PairingHeap.Pop | index.js:165-183 | fails with `'heap empty'` exactly when size was 0 and then changes nothing; otherwise returns the old root, one of the least items, removes exactly one occurrence of it, decrements size, replaces the heap by the reduction of the root's children (the first item of the drain peeled off), and leaves busy false |
| Queue.InsertPeekPopScenario | __tests__/pairingheap.test.js:3-22 | inserting `lo` then `hi` (with `hi` ranked strictly after `lo`), then peeking twice, popping, peeking and popping, gives peeks `lo, lo, hi`, pops `lo, hi` and lengths 0, 1, 2, 2, 1, 0 |
| Queue.ErrorScenario | __tests__/pairingheap.test.js:45-56 | on a fresh queue, pop and peek fail with `'heap empty'`, and an insert with no item fails with `'empty insert'` and leaves the length 0 |

## Left out

- The Promise and `setImmediate` wrapper of `mergePairs` (index.js:69, 92) and the `async`/`await` in `pop` (index.js:166-172) are scheduling. The chained callbacks are modelled as the driver loop `MergePairs`, and a pop runs its reduction to completion before returning.
- `waitForNotBusy` and the deferred paths of `insert`, `peek` and `pop` (index.js:114-135, 148-149, 156, 181) exist only to interleave operations behind an in-flight pop. Calls are modelled one after another, so `busy` is true only inside `Pop`. The order among several queued callers, and the first waiter's callback running twice (index.js:123, 131), are not modelled.
- The `notifier` field (index.js:103) belongs to that waiting machinery and is not modelled.
- JavaScript truthiness and `typeof` tests (index.js:4, 23, 30, 138) are modelled as datatype tags: an absent item is `None`, and an empty list or heap is `Nil` or `Empty`. So an item such as `null`, which the source accepts, is simply some value of `T`.
- The default comparator is modelled only on `int` (`NaturalOrder`). JavaScript's loose `>` on arbitrary values is not modelled. The queue takes any comparator that is a total preorder.
- Heaps.GetMin and MergePairsEngine.DeleteMin require a non-empty heap. The source calls them only on a non-empty heap (index.js:157-161, 167-172); on `EmptyHeap` they would return `undefined` or read the missing `children`.
- MergePairsEngine.RunChunks requires a work unit size above 0. With 0 the source never advances and schedules callbacks forever; the constant is 32.
- The test file's remaining cases: the custom-comparator test, the sort tests over 10000 items and the million-insert stress test. They sit inside a disabled `if(false)` block (__tests__/pairingheap.test.js:24-99), as do the error tests modelled by `ErrorScenario`. The sort property they check is stated generally by `DrainSorts`, with no concrete sizes.
- The test's strings `'a'` and `'b'` under the default comparator are generalised to any `lo` and `hi` with `hi` ranked strictly after `lo`.
- Performance, and the amortized cost argument that motivates `WORK_UNIT_SIZE`, are not modelled beyond the per-chunk bound in `ChunkProgress`.
