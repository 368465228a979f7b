# DHeap — a verified model of an array-backed d-ary min-heap

`DHeap` is a priority queue whose elements live in slots `1..currentSize`
of an array (slot 0 is unused). Every node has `dimension` children: the
children of node `i` are the slots `(i-1)*d+2 .. i*d+1`, and the parent of
node `i >= 2` is `(i+d-2)/d`. The heap keeps the minimum at slot 1;
`insert` sifts a new element up from the end, `deleteMin` moves the last
element to the root and percolates it down, and the bulk constructor copies
items into the array and runs `buildHeap`, which percolates every internal
node down from `currentSize / 2` to 1.

The model is split along the program's structure:

- `errors.dfy` (module `HeapErrors`): `IllegalArgumentException` and
  `UnderflowException` as values of `HeapError`, returned in a `Result`.
- `heap_index.dfy` (module `HeapIndex`): `parentIndex` and
  `firstChildIndex` as functions, with the parent/child inverse law.
- `heap_order.dfy` (module `HeapOrder`): heap order over a sequence, the
  subtree relation the index arithmetic induces, and the states of the
  three loops that restore heap order (sift-down, sift-up, bottom-up build),
  each with start, step and finish lemmas.
- `dheap.dfy` (module `DHeaps`): the class `DHeap` with its fields
  `currentSize`, `storage` (the source's `array`) and `dimension`. Every
  mutating operation is a method over the array. `Valid()` is the object
  invariant: the layout plus heap order. The ghost `Elements()` is the
  multiset held in slots `1..currentSize`.
- `bulk_finding.dfy` (module `BulkLoadFinding`): the bulk constructor as
  written, with its branching factor left at 0, and the percolation loop
  that then never ends (see Findings).
- `client.dfy` (module `HeapClient`): a consumer that drains a heap by
  repeated `deleteMin` using the contracts alone, after the pattern of the
  program's test `main`.

## Model

| member | source | states |
|---|---|---|
| HeapIndex.ParentIndex | src/main/java/DHeap.java:45-49 | fails with IllegalArgument exactly when index < 2; otherwise the result p satisfies 1 <= p < index and index lies in p's block of d children |
| HeapIndex.FirstChildIndex | src/main/java/DHeap.java:51-55 | fails with IllegalArgument exactly when index < 1; otherwise, for d >= 2, the first child lies past index and each of the d slots from it has index as its parent |
| HeapIndex.Parent | src/main/java/DHeap.java:48 | the parent of every node from 2 on is a node from 1 on that precedes it |
| HeapIndex.FirstChild | src/main/java/DHeap.java:54 | the first child of any node from 1 on is slot 2 or later, and is exactly slot 2 when the branching factor is 0 |
| HeapIndex.ParentOfChild | src/main/java/DHeap.java:45-55 | inverse law: parentIndex(c) == h exactly when c lies in the block of d slots starting at firstChildIndex(h) |
| HeapIndex.ChildBlock | src/main/java/DHeap.java:54 | the child block of node i lies past i and every slot in it has parent i |
| HeapIndex.ParentAtMostHalf | src/main/java/DHeap.java:157 | every node of 2..n has its parent in 1..n/2, so buildHeap may start at currentSize / 2 |
| HeapIndex.ZeroDimensionFirstChildIsSelf | src/main/java/DHeap.java:34-42 | with the branching factor 0 that the bulk constructor leaves in place, firstChildIndex answers slot 2 for every node, node 2 included |
| BulkLoadFinding.SmallestChildIndexAtZero | src/main/java/DHeap.java:65-79 | with dimension 0, smallestChildIndex answers slot 2 exactly when slot 2 is occupied, and currentSize + 1 otherwise |
| BulkLoadFinding.PercolateRoundAtZero | src/main/java/DHeap.java:93-94 | with dimension 0, a round of percolateDown's loop runs exactly when slot 2 is occupied and no larger than tmp, and then copies slot 2 into the hole and moves the hole to slot 2 |
| BulkLoadFinding.RunAtZero | src/main/java/DHeap.java:91-96 | percolateDown's loop iterated for a bounded number of rounds with dimension 0; every round that runs leaves the hole at slot 2 |
| BulkLoadFinding.PercolationAtZeroNeverEnds | src/main/java/DHeap.java:91-96 | with dimension 0, once the hole is at slot 2 and tmp is no smaller than slot 2, no number of rounds ends the loop and the array stays as it is |
| BulkLoadFinding.PercolateAtZero | src/main/java/DHeap.java:91-96 | with dimension 0, percolateDown(i) on an occupied slot exits at once with nothing moved when its element is smaller than slot 2, and otherwise copies slot 2 into slot i and never ends |
| BulkLoadFinding.PercolateTwoAtZeroNeverEnds | src/main/java/DHeap.java:156-159 | with dimension 0 and at least two elements, percolateDown(2), which buildHeap reaches on four or more items, never ends, since its tmp is slot 2 itself |
| BulkLoadFinding.BulkLoadOfFiveThreeNeverEnds | src/main/java/DHeap.java:34-42 | bulk-loading 5 and 3 as written into 4 slots: percolateDown(1) moves 3 to the root and the hole to slot 2, and from there never terminates |
| HeapOrder.SmallestChildFacts | src/main/java/DHeap.java:65-79 | smallestChildIndex's answer exceeds n exactly when the node has no child in 1..n; otherwise it is a child of the node and no in-range child holds a smaller element |
| HeapOrder.RootIsMinimum | src/main/java/DHeap.java:130-134 | in a heap-ordered array the root is no larger than any occupied slot |
| HeapOrder.RootBoundsElements | src/main/java/DHeap.java:130-134 | the root is one of the stored elements and no stored element is smaller |
| HeapOrder.UnderRoot | src/main/java/DHeap.java:147 | every node lies in the subtree of the root |
| HeapOrder.RootSubtreeIsHeap | src/main/java/DHeap.java:147 | ordering the root's subtree orders the whole heap |
| HeapOrder.MoveLastToRoot | src/main/java/DHeap.java:146 | moving the last element to the root keeps the subtrees below the root ordered and drops exactly the old root from the contents |
| HeapOrder.Grown | src/main/java/DHeap.java:106-107 | copying the slots into a longer array keeps heap order and the stored elements |
| HeapOrder.SiftDownStart | src/main/java/DHeap.java:92 | the sift-down loop's frame (contents and untouched outside) holds on entry, and its ordering part too when the subtrees below the hole are ordered |
| HeapOrder.SiftDownStep | src/main/java/DHeap.java:93-94 | moving the smallest child up when tmp is no smaller than it moves the hole strictly down, keeps the loop's frame, and keeps its ordering part where that held |
| HeapOrder.SiftDownOrderStep | src/main/java/DHeap.java:94 | the ordering part of the sift-down state survives moving the smallest child up |
| HeapOrder.SiftDownOrderFinish | src/main/java/DHeap.java:95 | writing tmp into a hole whose children are all no smaller than tmp orders the whole subtree |
| HeapOrder.SiftDownFill | src/main/java/DHeap.java:95 | writing tmp into the hole restores the original contents and writes nothing outside the subtree |
| HeapOrder.SiftDownFinish | src/main/java/DHeap.java:93-95 | when no child is present or tmp is smaller than the smallest child, writing tmp keeps the contents, leaves the rest of the array alone, and orders the subtree where the ordering part held |
| HeapOrder.WriteInside | src/main/java/DHeap.java:94-95 | writes to occupied slots of the subtree keep everything outside it unchanged |
| HeapOrder.SiftUpStart | src/main/java/DHeap.java:110 | after the size grows, the sift-up loop's state holds with the hole at the new last slot |
| HeapOrder.SiftUpOrderStep | src/main/java/DHeap.java:112 | the ordering part of the sift-up state survives moving the parent down when x is smaller than it |
| HeapOrder.SiftUpStep | src/main/java/DHeap.java:111-112 | moving the parent down moves the hole strictly up and keeps the loop's state |
| HeapOrder.SiftUpFinish | src/main/java/DHeap.java:111-114 | placing x at the root, or under a parent no larger than x, leaves the heap ordered and the contents the old ones plus x |
| HeapOrder.SiftUpContents | src/main/java/DHeap.java:112-114 | writing a value into the sift-up hole makes the contents the old ones plus that value |
| HeapOrder.UpdateSlice | src/main/java/DHeap.java:94 | writing one slot trades exactly one element of the stored multiset for the new value |
| HeapOrder.BuildStart | src/main/java/DHeap.java:157 | before the build loop every edge whose parent lies past currentSize / 2 is ordered, vacuously |
| HeapOrder.BeyondOrdersChildSubtrees | src/main/java/DHeap.java:158 | the build's state at node i meets percolateDown's requirement at i |
| HeapOrder.BuildStep | src/main/java/DHeap.java:157-158 | percolating node i down, which orders its subtree and touches nothing else, advances the build state from i to i - 1 |
| HeapOrder.BuildDone | src/main/java/DHeap.java:157-159 | a build that reaches node 0 has ordered the whole heap |
| DHeaps.DHeap.constructor | src/main/java/DHeap.java:23-29 | for d >= 2: an empty valid heap of branching factor d over a fresh array of length d + 1 |
| DHeaps.DHeap.Default | src/main/java/DHeap.java:4-16 | an empty valid binary heap over a fresh array of length 3 |
| DHeaps.DHeap.Create | src/main/java/DHeap.java:23-29 | fails with IllegalArgument exactly when d < 2; otherwise a fresh, empty, valid heap with branching factor d |
| DHeaps.DHeap.FromItems | src/main/java/DHeap.java:34-42 | a valid heap holding exactly the given items, over a fresh array of length (n + 2) * 11 / 10 |
| DHeaps.DHeap.Size | src/main/java/DHeap.java:57-59 | the number of stored elements, counted with multiplicity |
| DHeaps.DHeap.IsEmpty | src/main/java/DHeap.java:166-168 | true exactly when the heap holds no element |
| DHeaps.DHeap.Get | src/main/java/DHeap.java:61-63 | an occupied slot holds one of the stored elements |
| DHeaps.DHeap.SmallestChildIndex | src/main/java/DHeap.java:65-79 | fails with IllegalArgument exactly when index < 1; otherwise currentSize + 1 if the node has no child in range, else the leftmost in-range child holding the least element (ties keep the earlier child) |
| DHeaps.DHeap.SmallestChild | src/main/java/DHeap.java:81-83 | fails exactly when index < 1; otherwise the element at currentSize + 1 for a node without a child, else the element of one of the node's children, no larger than any of them |
| DHeaps.DHeap.PercolateDown | src/main/java/DHeap.java:91-96 | for any hole in the array the elements are only rearranged and no slot outside the occupied part of the hole's subtree changes; when the subtrees below the hole's children were ordered, the hole's whole subtree ends ordered |
| DHeaps.DHeap.Insert | src/main/java/DHeap.java:105-115 | keeps the heap valid, adds exactly x, grows the size by one, and replaces the array by one of length 2 * length + 1 exactly when it was full |
| DHeaps.DHeap.PercolateUp | src/main/java/DHeap.java:109-114 | with every slot but the new last one heap-ordered, sifting x up leaves the heap ordered and holding the old contents plus x |
| DHeaps.DHeap.EnlargeArray | src/main/java/DHeap.java:118-123 | a fresh array of the requested length whose first slots are the old contents |
| DHeaps.DHeap.FindMin | src/main/java/DHeap.java:130-134 | fails with Underflow exactly when empty; otherwise the root, which is a stored element no other element is smaller than |
| DHeaps.DHeap.DeleteMin | src/main/java/DHeap.java:141-150 | Underflow with nothing changed when empty; otherwise returns the old root, a minimum of the old contents, removes one copy of it, and keeps the heap valid |
| DHeaps.DHeap.BuildHeap | src/main/java/DHeap.java:156-159 | turns any arrangement of slots 1..currentSize into a valid heap over the same elements |
| DHeaps.DHeap.MakeEmpty | src/main/java/DHeap.java:173-175 | empties the heap, keeping the array and its validity |
| HeapClient.DrainAll | src/main/java/DHeap.java:187-189 | repeated deleteMin empties a valid heap and yields its former contents in non-decreasing order |
| HeapClient.DrainStep | src/main/java/DHeap.java:188-189 | moving a least remaining element to the output keeps the output sorted, below everything left, and together with the rest equal to the original contents |
| HeapClient.DrainBulkLoaded | src/main/java/DHeap.java:187-189 | bulk-loading 5, 3, 8, 1, 9, 2 and draining yields exactly 1, 2, 3, 5, 8, 9, after which deleteMin underflows |
| HeapClient.SortedIsDeterminedByContents | src/main/java/DHeap.java:187-189 | two non-decreasing sequences with the same elements are equal, so a drain's output is fixed by the contents |

## Left out

- Elements are `int` rather than any `Comparable` type; `compareTo` is the integer order.
- Integer width: indices and sizes are unbounded, so the 32-bit overflow of `(index - 1) * dimension + 2`, `array.length * 2 + 1` and `(currentSize + 2) * 11 / 10` for huge heaps is not modelled.
- The null test in `smallestChildIndex` (line 73): integer slots are never null, so that conjunct is always true.
- `UnderflowException` and `IllegalArgumentException` are returned as `Err` values instead of thrown.
- The test program `main` (lines 181-191) builds a `BinaryHeap`, which is not part of this model, and prints; `HeapClient` states the ordering property it checks, over `DHeap`.
- Running time (the linear cost of `buildHeap`) is not stated.
- The field `array` is called `storage`, since `array` is a Dafny keyword.
- The percolate-up loop of `insert` (lines 109-114) is the separate method `PercolateUp`; `Insert` calls it after growing the array and the size.
- HeapIndex.ParentIndex: requires d >= 2; with the branching factor 0 of the Finding below the source would divide by zero, which is not modelled.
- DHeaps.DHeap.constructor: requires d >= 2; the rejection of smaller d at lines 24-25 is modelled by `Create`.
- DHeaps.DHeap.Get: requires an index inside the array; the source's out-of-bounds exception is not modelled.
- DHeaps.DHeap.SmallestChild: requires slot currentSize + 1 to exist when the node has no child, for the same reason.
- DHeaps.DHeap.FromItems: uses branching factor 2; the source leaves it unset (see Findings).
- `percolateDown` moves a child up when tmp is greater than or equal to it (line 93), so among equal elements the one being sifted goes below; the model keeps that test.
- `insert` grows the array to `2 * array.length + 1` (line 107), measured from the array's length rather than from the element count; the model keeps that size.

## Findings

| source | as written | input that shows it | evidently intended | confidence | as-written member | corrected member |
|---|---|---|---|---|---|---|
| src/main/java/DHeap.java:34-42 | the bulk constructor never assigns `dimension`, so it stays 0; then `firstChildIndex` returns 2 for every node, `smallestChildIndex(2)` returns 2, and `percolateDown` with its hole at slot 2 copies slot 2 onto itself forever | any four or more items: `buildHeap` reaches `percolateDown(2)`, whose tmp is slot 2 itself, so the test at line 93 never fails; two or three items hang whenever the first is no smaller than the second, e.g. `[5, 3]` in its 4 slots, where `percolateDown(1)` moves 3 up to slot 1 and then loops forever at slot 2 | the bulk constructor uses `DEFAULT_CHILD_NUM`, as `DHeap()` does | high; not executed | BulkLoadFinding.BulkLoadOfFiveThreeNeverEnds | DHeaps.DHeap.FromItems |
