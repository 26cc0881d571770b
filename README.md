# Binary heap and heap sort, modelled in Dafny

This project models the two heap components of the DS-A Rust crate and proves
what they promise.

**`Heap<T>`** (`src/data_structures/heap.rs`) is a growable binary-heap priority
queue.
- It keeps a live-element `count` and a vector `items`. Slot 0 holds a default
  value, so the live elements sit at `1..=count`: the parent of `i` is `i / 2`
  and its children are `2i` and `2i + 1`.
- A comparator fixed at construction decides which of two values belongs
  nearer the root. `new_max` passes `>` and `new_min` passes `<`.
- `add` pushes a value and sifts it up.
- `next` (the `Iterator` implementation) returns `None` on an empty heap.
  Otherwise it swap-removes the root and sifts the new root down.

**`heap_sort`** (`src/sorting/heapsort.rs`) sorts a mutable slice in place.
- It first builds a 0-indexed max-heap with `heapify_down`.
- Then it repeatedly swaps the root behind the shrinking heap and sifts the new
  root down.

Module layout:
- `wrappers.dfy` (`Wrappers`) has the `Option` type.
- `slices.dfy` (`Slices`) has the effect of `swap` on a sequence.
- `binary_heap.dfy` (`BinaryHeap`) models `heap.rs`.
  - The `Heap` class has the fields `count`, `items` (a `seq`) and `comparator`.
  - Its mutating methods `Add`, `HeapifyUp` and `Next` are specified by pure
    functions of the old state: `SiftedUp`, `SiftedDown` and `SwapRemove`.
  - The heap property, the multiset of live elements and the extraction order
    are proved about those functions as lemmas.
  - The comparator's properties (a strict weak order) are a hypothesis of the
    ordering results, as the crate leaves them to the caller. `NewMax` and
    `NewMin` prove that `>` and `<` meet it.
- `heap_sort.dfy` (`HeapSort`) models `heapsort.rs` over an `array<int>`.
  - `HeapifyDown` is specified by the function `HeapifiedDown`.
  - `HeapSort` is proved to sort, to permute, and to leave a sorted input
    alone.
  - Its two loops are the methods `BuildMaxHeap` and `SortMaxHeap`.

## Model

| member | source | states |
|---|---|---|
| `Slices.Swap` | src/sorting/heapsort.rs:21 | `swap(i, j)`: positions `i` and `j` exchange values; every other position keeps its value |
| `Slices.SwapPermutes` | src/sorting/heapsort.rs:34 | a swap only rearranges the values (the multiset is unchanged) |
| `BinaryHeap.Parent` | src/data_structures/heap.rs:53-55 | `parent_idx(i) = p` with `2p <= i <= 2p + 1`; below the root the parent is a live index smaller than `i` |
| `BinaryHeap.Left` | src/data_structures/heap.rs:61-63 | the left child's parent is the node itself |
| `BinaryHeap.Right` | src/data_structures/heap.rs:65-67 | the right child's parent is the node itself, and it differs from the left child |
| `BinaryHeap.ChildrenArePresent` | src/data_structures/heap.rs:57-59 | for a live node, true exactly when some live index (2..count) has that node as its parent |
| `BinaryHeap.SmallestChild` | src/data_structures/heap.rs:69-81 | returns the left or the right child; it is live when the node has a child; for a strict weak order neither live child outranks it (the favoured, not the smallest, child) |
| `BinaryHeap.SwapRemove` | src/data_structures/heap.rs:96 | `Vec::swap_remove(i)`: one position shorter; the last value moves to `i`; all other positions keep their values |
| `BinaryHeap.SiftedUp` | src/data_structures/heap.rs:38-51 | the vector `heapify_up` leaves, same length; its properties are `SiftedUpPermutes` and `SiftedUpRestores` |
| `BinaryHeap.SiftedDown` | src/data_structures/heap.rs:99-113 | the vector the sift-down loop of `next` leaves, same length; its properties are `SiftedDownPermutes` and `SiftedDownRestores` |
| `BinaryHeap.LiveElementsAgree` | src/data_structures/heap.rs:14-15 | two rearrangements of each other with the same slot-0 placeholder hold the same live elements |
| `BinaryHeap.SiftedUpPermutes` | src/data_structures/heap.rs:40-50 | sifting up only rearranges the vector and never touches slot 0 |
| `BinaryHeap.SiftedDownPermutes` | src/data_structures/heap.rs:100-112 | sifting down only rearranges the vector and never touches slot 0 |
| `BinaryHeap.SiftUpStep` | src/data_structures/heap.rs:41-49 | one swap with the parent keeps the sift-up invariant, which now stands at the parent |
| `BinaryHeap.SiftedUpRestores` | src/data_structures/heap.rs:38-51 | from the sift-up invariant, `heapify_up` ends with no live element outranking its parent |
| `BinaryHeap.AddElements` | src/data_structures/heap.rs:28-36 | after `add(x)` the live elements are the old ones plus `x`, and slot 0 is unchanged |
| `BinaryHeap.PushLive` | src/data_structures/heap.rs:32 | `push(x)` adds `x` to the live elements |
| `BinaryHeap.AddKeepsHeap` | src/data_structures/heap.rs:28-51 | for a strict weak order, `add` turns a heap of `count` elements into a heap of `count + 1` elements |
| `BinaryHeap.SiftDownStep` | src/data_structures/heap.rs:101-111 | one swap with the favoured child keeps the sift-down invariant, which now stands at that child |
| `BinaryHeap.SiftedDownRestores` | src/data_structures/heap.rs:99-113 | from the sift-down invariant, the loop (with its early `break`) ends with the heap property |
| `BinaryHeap.RootIsTop` | src/data_structures/heap.rs:96 | in a heap no live element outranks the root `items[1]` |
| `BinaryHeap.RemoveTopElements` | src/data_structures/heap.rs:96-113 | after `next` on a non-empty heap the live elements are the old ones less the old root, and slot 0 is unchanged |
| `BinaryHeap.RemoveTopKeepsHeap` | src/data_structures/heap.rs:96-113 | `swap_remove(1)` followed by the sift-down turns a heap into a heap with one element fewer |
| `BinaryHeap.RemoveTopIsTop` | src/data_structures/heap.rs:96 | no element that remains after `next` outranks the value it returned |
| `BinaryHeap.ExtractionOrder` | src/data_structures/heap.rs:90-117 | two successive `next` calls on a heap return values in order: the second does not outrank the first |
| `BinaryHeap.SwapRemoveFirst` | src/data_structures/heap.rs:96 | after `swap_remove(1)` the live elements are the old ones from index 2 on |
| `BinaryHeap.DropFirst` | src/data_structures/heap.rs:96 | the old live elements less `items[1]` are those from index 2 on |
| `BinaryHeap.Heap.constructor` | src/data_structures/heap.rs:11-18 | `new`: `count` is 0, `items` is the placeholder alone, the comparator is stored; no live elements, and the heap property holds |
| `BinaryHeap.Heap.Len` | src/data_structures/heap.rs:20-22 | `len()` is the number of live elements |
| `BinaryHeap.Heap.IsEmpty` | src/data_structures/heap.rs:24-26 | `is_empty()` holds exactly when there is no live element |
| `BinaryHeap.Heap.Add` | src/data_structures/heap.rs:28-36 | `count` grows by one; `items` is the old vector plus the item, sifted up; the live elements gain the item; a heap stays a heap under a strict weak order |
| `BinaryHeap.Heap.HeapifyUp` | src/data_structures/heap.rs:38-51 | the loop, with its `break`, leaves exactly `SiftedUp(old items, count)`; `count` is unchanged |
| `BinaryHeap.Heap.Next` | src/data_structures/heap.rs:90-117 | on an empty heap: `None`, nothing changes (so later calls are `None` too); otherwise: `Some(old items[1])`, which was a live element; `count` drops by one; the live elements lose that value; under a strict weak order the heap stays a heap and nothing left outranks the returned value |
| `BinaryHeap.Heap.SiftDown` | src/data_structures/heap.rs:99-113 | the sift-down loop of `next`, with its `break`, leaves exactly `SiftedDown(old items, count, 1)` |
| `BinaryHeap.GreaterIsStrictWeakOrder` | src/data_structures/heap.rs:124-126 | `>` on integers is a strict weak order |
| `BinaryHeap.LessIsStrictWeakOrder` | src/data_structures/heap.rs:128-130 | `<` on integers is a strict weak order |
| `BinaryHeap.NewMax` | src/data_structures/heap.rs:124-126 | `new_max()`: an empty heap whose comparator is `>`, a strict weak order |
| `BinaryHeap.NewMin` | src/data_structures/heap.rs:128-130 | `new_min()`: an empty heap whose comparator is `<`, a strict weak order |
| `BinaryHeap.MaxHeapTrace` | src/data_structures/heap.rs:139-154 | the vector of a `>`-heap after each `add` of 14, 12, 13, 9, 9, 13, 12, and after the first `next` |
| `BinaryHeap.ItWorksExample` | src/lib.rs:9-14 | a max-heap built from 14 and 12 returns `Some(14)` (the value the test checks), then `Some(12)`, then `None` |
| `BinaryHeap.RemovingItemsExample` | src/data_structures/heap.rs:138-163 | after the seven adds, `next()` is `Some(14)` and the vector is `[0, 13, 12, 13, 9, 9, 12]` |
| `HeapSort.Parent` | src/sorting/heapsort.rs:40-42 | `parent_idx(i)` for `i >= 1` is a smaller index `p` with `i` equal to `2p + 1` or `2p + 2` |
| `HeapSort.Left` | src/sorting/heapsort.rs:44-46 | the left child lies after the node, and its parent is the node |
| `HeapSort.Right` | src/sorting/heapsort.rs:48-50 | the right child follows the left one, and its parent is the node |
| `HeapSort.SmallestChild` | src/sorting/heapsort.rs:52-64 | returns a child of `idx`, which is within `end` when `idx` has a child there; when both children are within `end` it holds the larger value |
| `HeapSort.HeapifiedDown` | src/sorting/heapsort.rs:29-38 | the slice `heapify_down(start, end)` leaves: same length; every position outside `[start, end]` is unchanged |
| `HeapSort.HeapifiedDownPermutes` | src/sorting/heapsort.rs:33-35 | `heapify_down` only rearranges the slice |
| `HeapSort.SiftDownStep` | src/sorting/heapsort.rs:31-37 | one round of the `heapify_down` loop keeps its invariant, which now stands at the chosen child |
| `HeapSort.SiftDownSwapStep` | src/sorting/heapsort.rs:33-34 | the round that swaps the root with its larger child keeps the invariant |
| `HeapSort.SiftDownStayStep` | src/sorting/heapsort.rs:33-36 | the round that does not swap keeps the invariant too: neither child exceeds the root |
| `HeapSort.HeapifiedDownRestores` | src/sorting/heapsort.rs:29-38 | from the loop invariant, `heapify_down` ends with a max-heap from the lower bound up to `end` |
| `HeapSort.HeapifiedDownMakesHeap` | src/sorting/heapsort.rs:29-38 | if the subtrees below `start` (within `end`) are max-heaps, then after `heapify_down(start, end)` so is the subtree at `start` |
| `HeapSort.HeapifiedDownBounded` | src/sorting/heapsort.rs:29-38 | a bound on the values in a range is kept by `heapify_down` inside that range |
| `HeapSort.HeapRootIsMax` | src/sorting/heapsort.rs:19-21 | in a max-heap over `[0, end]` no value exceeds the root |
| `HeapSort.SortedPermutationUnique` | src/sorting/heapsort.rs:1-6 | two sorted rearrangements of each other are equal (so the sorted result is determined by the input) |
| `HeapSort.SortedTail` | src/sorting/heapsort.rs:1-6 | a sorted sequence without its first value is sorted and holds the remaining values |
| `HeapSort.SortedPermutationSameHead` | src/sorting/heapsort.rs:1-6 | two sorted rearrangements of each other start with the same value |
| `HeapSort.ExtractionStateSplits` | src/sorting/heapsort.rs:17-26 | in the extraction loop's state, every value of the heap part is at most every value of the sorted part |
| `HeapSort.ExtractionRound` | src/sorting/heapsort.rs:21-24 | one round of the extraction loop, same length; its properties are `ExtractionStep` |
| `HeapSort.ExtractionStep` | src/sorting/heapsort.rs:18-26 | a round keeps the loop state (max-heap over `[0, end - 1]`, sorted suffix from `end`, root at most the suffix) and the multiset |
| `HeapSort.ExtractionKeepsHeap` | src/sorting/heapsort.rs:21-24 | after swapping the root to `end` and sifting down over `[0, end - 1]`, that range is a max-heap |
| `HeapSort.ExtractionKeepsOrder` | src/sorting/heapsort.rs:21-24 | after a round the suffix from `end` is sorted and the new root is at most its first value |
| `HeapSort.BuildStart` | src/sorting/heapsort.rs:13 | every node after `parent_idx(len - 1)` is a leaf, so before the build loop they are trivially max-heaps |
| `HeapSort.ExtractionStart` | src/sorting/heapsort.rs:17-18 | a max-heap over the whole slice is the extraction state with an empty sorted part |
| `HeapSort.ExtractionDone` | src/sorting/heapsort.rs:18-26 | after the last round (`end = 1`) the whole slice is sorted |
| `HeapSort.SwapElements` | src/sorting/heapsort.rs:21 | `source.swap(i, j)` on the array is `Swap` of its old contents |
| `HeapSort.HeapifyDown` | src/sorting/heapsort.rs:29-38 | the loop (no early exit) leaves exactly `HeapifiedDown(old contents, start, end)` |
| `HeapSort.HeapSort` | src/sorting/heapsort.rs:7-27 | the result is sorted and a permutation of the input; a sorted input, in particular one of length at most one, is unchanged |
| `HeapSort.BuildMaxHeap` | src/sorting/heapsort.rs:12-15 | the build loop, with the bound `len - 1`, makes the whole array a max-heap and only rearranges it |
| `HeapSort.SortMaxHeap` | src/sorting/heapsort.rs:17-26 | the extraction loop turns a max-heap into a sorted array with the same values |
| `HeapSort.HeapifyDownChecked` | src/sorting/heapsort.rs:29-38 | `heapify_down` with an arbitrary `end` and checked indexing: `None` is an out-of-range read; otherwise the length is kept |
| `HeapSort.HeapifyDownCheckedInBounds` | src/sorting/heapsort.rs:29-38 | when `end` is inside the slice the checked run never fails and equals `HeapifiedDown` |
| `HeapSort.BuildAsWritten` | src/sorting/heapsort.rs:13-15 | the build loop exactly as written, bound `source.len()`; when it gets through, the length is kept |
| `HeapSort.BuildAsWrittenFailsOnEvenLength` | src/sorting/heapsort.rs:13-14 | for every slice of even length at least 2 the build loop as written reads out of range |
| `HeapSort.BuildAsWrittenFailsOnOneThreeTwo` | src/sorting/heapsort.rs:13-14 | `[1, 3, 2]` also makes the build loop as written read out of range |
| `HeapSort.UnsortedArrayExample` | src/sorting/heapsort.rs:71-75 | `[5, 1, 2, 1, 1, 69, 420]` sorts to `[1, 1, 1, 2, 5, 69, 420]` |
| `HeapSort.UnsortedArrayResult` | src/sorting/heapsort.rs:74 | `[1, 1, 1, 2, 5, 69, 420]` is the only sorted rearrangement of the test input |
| `HeapSort.InputValues` | src/sorting/heapsort.rs:72 | the test input holds 1 three times, and 2, 5, 69, 420 |
| `HeapSort.OutputValues` | src/sorting/heapsort.rs:74 | the expected output is sorted and holds the same values |
| `HeapSort.NoElementsExample` | src/sorting/heapsort.rs:77-82 | sorting an empty array leaves it empty |

## Left out

- `println!` in the tests (src/data_structures/heap.rs:148, 158) is output only and is not modelled.
- The `Iterator` trait and its adaptors are not modelled; `next` is the method `Heap.Next`.
- `T: Default`: the constructor takes the slot-0 value as a parameter. `NewMax`/`NewMin` pass 0, the default of the test's `u32`.
- `usize` arithmetic: indices and `count` are unbounded `nat`, so the overflow of `idx * 2` and of `count += 1` on huge heaps is not modelled.
- The O(log n) and O(n log n) cost claims are not modelled.
- `HeapSort.HeapSort`: elements are `int` with `>` rather than any `T: Ord`.
- `HeapSort.HeapSort`: the build loop uses the inclusive bound `len - 1`, not the `source.len()` the code passes. That code reads out of range on many inputs (see Findings); `HeapSort.BuildAsWritten` models it as written.
- `HeapSort.HeapSort`: the two loops of `heap_sort` are the helper methods `BuildMaxHeap` and `SortMaxHeap`, to keep each proof small.
- `BinaryHeap.Heap.Next`: the ordering results (heap property kept, nothing left outranks the result) assume the comparator is a strict weak order. The crate leaves that to the caller and does not check it. Without it, only the multiset and count results are proved.
- `BinaryHeap.Heap.Add`: keeping the heap property likewise assumes a strict weak order.

## Findings

| source | as written | input that shows it | evidently intended | confidence | as-written member | corrected member |
|---|---|---|---|---|---|---|
| src/sorting/heapsort.rs:14 | `heapify_down(source, idx, source.len())` passes the slice length where `heapify_down` expects the inclusive last index (`left_child_idx(root) <= end`, :31; `right_child_idx(idx) > end`, :53). `smallest_child_idx` then reads `source[len]` (:58). | every slice of even length at least 2, e.g. `[1, 2]`: `parent_idx(1) = 0` and `right_child_idx(0) = 2 = len`, so `source[2]` is read. Also `[1, 3, 2]`, which reaches index 3 after one swap | `heapify_down(source, idx, source.len() - 1)`, the bound the extraction loop uses (:24) | not executed | `HeapSort.BuildAsWrittenFailsOnEvenLength` | `HeapSort.BuildMaxHeap` |
