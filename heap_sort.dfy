/** In-place heap sort over a mutable slice (`src/sorting/heapsort.rs`).
    The slice is viewed as a 0-indexed complete binary tree: the parent of `i`
    is `(i - 1) / 2`, its children are `2i + 1` and `2i + 2`. The element type
    is any `Ord` type; the model uses `int` and its `>`. */
module HeapSort {
  import opened Wrappers
  import opened Slices

  /** Parent of a node; the root has none (the source's `usize` would underflow). */
  function Parent(i: nat): (p: nat)
    requires i >= 1
    ensures p < i && (i == p * 2 + 1 || i == p * 2 + 2)
  {
    (i - 1) / 2
  }

  function Left(i: nat): (c: nat)
    ensures c > i && Parent(c) == i
  {
    i * 2 + 1
  }

  function Right(i: nat): (c: nat)
    ensures c == Left(i) + 1 && Parent(c) == i
  {
    Left(i) + 1
  }

  /** The child of `idx` (within the inclusive bound `end`) that holds the larger
      value: the left child when the right one is out of range or smaller or
      equal. Despite the source's name it picks the larger child. Only the
      right child's index has to be readable, and only when it is within `end`. */
  function SmallestChild(s: seq<int>, end: nat, idx: nat): (c: nat)
    requires Right(idx) <= end ==> Right(idx) < |s|
    ensures c == Left(idx) || c == Right(idx)
    ensures Left(idx) <= end ==> c <= end
    ensures Right(idx) <= end ==> s[Left(idx)] <= s[c] && s[Right(idx)] <= s[c]
  {
    if Right(idx) > end then Left(idx)
    else if s[Left(idx)] > s[Right(idx)] then Left(idx)
    else Right(idx)
  }

  /** What `heapify_down(s, root, end)` leaves in the slice, for an inclusive last
      index `end` inside the slice. The loop has no early exit: after a step
      that does not swap it still moves on to the chosen child. */
  function HeapifiedDown(s: seq<int>, root: nat, end: nat): (r: seq<int>)
    requires end < |s|
    ensures |r| == |s|
    ensures forall k {:trigger r[k]} :: 0 <= k < |s| && (k < root || end < k) ==> r[k] == s[k]
    decreases end - root
  {
    if Left(root) <= end then
      var c := SmallestChild(s, end, root);
      HeapifiedDown(if s[c] > s[root] then Swap(s, c, root) else s, c, end)
    else
      s
  }

  /** Sifting down only rearranges the sequence. */
  lemma {:induction false} HeapifiedDownPermutes(s: seq<int>, root: nat, end: nat)
    requires end < |s|
    ensures multiset(HeapifiedDown(s, root, end)) == multiset(s)
    decreases end - root
  {
    if Left(root) <= end {
      var c := SmallestChild(s, end, root);
      if s[c] > s[root] {
        SwapPermutes(s, c, root);
      }
      HeapifiedDownPermutes(if s[c] > s[root] then Swap(s, c, root) else s, c, end);
    }
  }

  /** Every parent-child pair whose child lies at or before `end` and whose
      parent lies at or after `lo` is in max-heap order: each of the nodes
      `lo..end` roots a max-heap within `end`. */
  ghost predicate HeapFrom(s: seq<int>, lo: nat, end: nat)
    requires end < |s|
  {
    forall i :: 1 <= i <= end && lo <= Parent(i) ==> s[i] <= s[Parent(i)]
  }

  /** `HeapFrom` except for the pairs whose parent is `root`, and with the
      children of `root` bounded by the parent of `root`: the state of the
      sift-down loop when it stands at `root`. */
  ghost predicate HeapFromExcept(s: seq<int>, lo: nat, end: nat, root: nat)
    requires end < |s|
  {
    && (forall i :: 1 <= i <= end && lo <= Parent(i) && Parent(i) != root ==> s[i] <= s[Parent(i)])
    && (lo < root ==>
          && (Left(root) <= end ==> s[Left(root)] <= s[Parent(root)])
          && (Right(root) <= end ==> s[Right(root)] <= s[Parent(root)]))
  }

  ghost predicate Sorted(s: seq<int>) {
    forall i, j :: 0 <= i <= j < |s| ==> s[i] <= s[j]
  }

  /** One step of the sift-down loop keeps its invariant, now standing at the
      chosen child. */
  lemma SiftDownStep(s: seq<int>, lo: nat, root: nat, end: nat)
    requires end < |s| && lo <= root && Left(root) <= end
    requires HeapFromExcept(s, lo, end, root)
    ensures var c := SmallestChild(s, end, root);
            HeapFromExcept(if s[c] > s[root] then Swap(s, c, root) else s, lo, end, c)
  {
    var c := SmallestChild(s, end, root);
    if s[c] > s[root] {
      SiftDownSwapStep(s, lo, root, end, c);
    } else {
      SiftDownStayStep(s, lo, root, end, c);
    }
  }

  /** The step that swaps the root with its larger child. */
  lemma SiftDownSwapStep(s: seq<int>, lo: nat, root: nat, end: nat, c: nat)
    requires end < |s| && lo <= root && Left(root) <= end
    requires HeapFromExcept(s, lo, end, root)
    requires c == SmallestChild(s, end, root) && s[c] > s[root]
    ensures HeapFromExcept(Swap(s, c, root), lo, end, c)
  {
  }

  /** The step that leaves the root where it is: nothing below it is larger. */
  lemma SiftDownStayStep(s: seq<int>, lo: nat, root: nat, end: nat, c: nat)
    requires end < |s| && lo <= root && Left(root) <= end
    requires HeapFromExcept(s, lo, end, root)
    requires c == SmallestChild(s, end, root) && s[c] <= s[root]
    ensures HeapFromExcept(s, lo, end, c)
  {
  }

  /** The sift-down loop keeps its invariant and ends with a heap. */
  lemma {:induction false} HeapifiedDownRestores(s: seq<int>, lo: nat, root: nat, end: nat)
    requires end < |s| && lo <= root
    requires HeapFromExcept(s, lo, end, root)
    ensures HeapFrom(HeapifiedDown(s, root, end), lo, end)
    decreases end - root
  {
    if Left(root) <= end {
      var c := SmallestChild(s, end, root);
      var t := if s[c] > s[root] then Swap(s, c, root) else s;
      SiftDownStep(s, lo, root, end);
      HeapifiedDownRestores(t, lo, c, end);
    }
  }

  /** If the children of `start` already root heaps within `end`, then after
      `heapify_down(s, start, end)` so does `start`. */
  lemma HeapifiedDownMakesHeap(s: seq<int>, start: nat, end: nat)
    requires end < |s| && HeapFrom(s, start + 1, end)
    ensures HeapFrom(HeapifiedDown(s, start, end), start, end)
  {
    HeapifiedDownRestores(s, start, start, end);
  }

  /** Sifting down only moves values around within `root..end`, so a bound on
      those positions survives it. */
  lemma {:induction false} HeapifiedDownBounded(s: seq<int>, lo: nat, root: nat, end: nat, v: int)
    requires end < |s| && lo <= root
    requires forall k :: lo <= k <= end ==> s[k] <= v
    ensures forall k :: lo <= k <= end ==> HeapifiedDown(s, root, end)[k] <= v
    decreases end - root
  {
    if Left(root) <= end {
      var c := SmallestChild(s, end, root);
      var t := if s[c] > s[root] then Swap(s, c, root) else s;
      HeapifiedDownBounded(t, lo, c, end, v);
    }
  }

  /** The root of a heap holds its largest value. */
  lemma {:induction false} HeapRootIsMax(s: seq<int>, end: nat, k: nat)
    requires end < |s| && HeapFrom(s, 0, end) && k <= end
    ensures s[k] <= s[0]
  {
    if k > 0 {
      HeapRootIsMax(s, end, Parent(k));
    }
  }

  /** A sorted rearrangement of a sequence is unique. */
  lemma {:induction false} SortedPermutationUnique(a: seq<int>, b: seq<int>)
    requires Sorted(a) && Sorted(b) && multiset(a) == multiset(b)
    ensures a == b
  {
    if a != [] {
      assert |b| == |a| by { assert |multiset(b)| == |multiset(a)|; }
      SortedPermutationSameHead(a, b);
      SortedTail(a);
      SortedTail(b);
      SortedPermutationUnique(a[1..], b[1..]);
      assert a == [a[0]] + a[1..] && b == [b[0]] + b[1..];
    }
  }

  /** Dropping the least value of a sorted sequence leaves a sorted sequence
      of the remaining values. */
  lemma SortedTail(a: seq<int>)
    requires Sorted(a) && a != []
    ensures Sorted(a[1..]) && multiset(a[1..]) == multiset(a) - multiset{a[0]}
  {
    assert a == [a[0]] + a[1..];
  }

  /** Two sorted rearrangements of each other start with the same (least) value. */
  lemma SortedPermutationSameHead(a: seq<int>, b: seq<int>)
    requires Sorted(a) && Sorted(b) && multiset(a) == multiset(b) && a != [] && b != []
    ensures a[0] == b[0]
  {
    assert a[0] in multiset(b);
    var j :| 0 <= j < |b| && b[j] == a[0];
    assert b[0] in multiset(a);
    var i :| 0 <= i < |a| && a[i] == b[0];
  }

  /** The state before each round of the extraction loop: `s[..end + 1]` is
      a max-heap, `s[end + 1..]` is sorted, and the heap's root does not
      exceed the first value of the sorted part (so, by `HeapRootIsMax`, no
      value of the heap does). */
  ghost predicate ExtractionState(s: seq<int>, end: nat)
    requires end < |s|
  {
    && HeapFrom(s, 0, end)
    && Sorted(s[end + 1..])
    && (end + 1 < |s| ==> s[0] <= s[end + 1])
  }

  /** In the extraction loop's state every element of the heap is at most
      every element of the sorted suffix. */
  lemma ExtractionStateSplits(s: seq<int>, end: nat)
    requires end < |s| && ExtractionState(s, end)
    ensures forall i, j :: 0 <= i <= end < j < |s| ==> s[i] <= s[j]
  {
    forall i, j | 0 <= i <= end < j < |s|
      ensures s[i] <= s[j]
    {
      HeapRootIsMax(s, end, i);
      assert s[end + 1..][0] <= s[end + 1..][j - end - 1];
    }
  }

  /** One round of the extraction loop: move the root behind the heap, then
      sift the new root down over `0..end - 1`. */
  function ExtractionRound(s: seq<int>, end: nat): (r: seq<int>)
    requires 0 < end < |s|
    ensures |r| == |s|
  {
    HeapifiedDown(Swap(s, 0, end), 0, end - 1)
  }

  /** A round of the extraction loop keeps the loop's state and only
      rearranges the slice. */
  lemma ExtractionStep(s: seq<int>, end: nat)
    requires 0 < end < |s| && ExtractionState(s, end)
    ensures ExtractionState(ExtractionRound(s, end), end - 1)
    ensures multiset(ExtractionRound(s, end)) == multiset(s)
  {
    ExtractionKeepsHeap(s, end);
    ExtractionKeepsOrder(s, end);
    SwapPermutes(s, 0, end);
    HeapifiedDownPermutes(Swap(s, 0, end), 0, end - 1);
  }

  /** The heap part of `ExtractionStep`. */
  lemma ExtractionKeepsHeap(s: seq<int>, end: nat)
    requires 0 < end < |s| && HeapFrom(s, 0, end)
    ensures HeapFrom(ExtractionRound(s, end), 0, end - 1)
  {
    var t := Swap(s, 0, end);
    forall i | 1 <= i <= end - 1 && 1 <= Parent(i)
      ensures t[i] <= t[Parent(i)]
    {
      assert t[i] == s[i] && t[Parent(i)] == s[Parent(i)];
    }
    HeapifiedDownMakesHeap(t, 0, end - 1);
  }

  /** The order part of `ExtractionStep`: the moved root, the largest value
      of the heap, becomes the first value of the sorted part, and the new
      root is one of the values left in the heap. */
  lemma ExtractionKeepsOrder(s: seq<int>, end: nat)
    requires 0 < end < |s| && ExtractionState(s, end)
    ensures Sorted(ExtractionRound(s, end)[end..])
    ensures ExtractionRound(s, end)[0] <= ExtractionRound(s, end)[end]
  {
    var t := Swap(s, 0, end);
    var r := HeapifiedDown(t, 0, end - 1);
    forall k | 0 <= k <= end - 1
      ensures t[k] <= s[0]
    {
      HeapRootIsMax(s, end, if k == 0 then end else k);
    }
    HeapifiedDownBounded(t, 0, 0, end - 1, s[0]);
    assert r[end] == s[0];
    var suffix := s[end + 1..];
    assert r[end..] == [s[0]] + suffix by {
      forall k | end < k < |s|
        ensures r[k] == s[k]
      {
      }
    }
    forall i, j | 0 <= i <= j < |r[end..]|
      ensures r[end..][i] <= r[end..][j]
    {
      if i == 0 && 0 < j {
        assert suffix[0] <= suffix[j - 1];
      }
    }
  }

  /** Before the build loop no pair is constrained yet: every parent lies
      at or before `parent(len - 1)`. */
  lemma BuildStart(s: seq<int>)
    requires |s| >= 2
    ensures HeapFrom(s, Parent(|s| - 1) + 1, |s| - 1)
  {
  }

  /** After the build loop the extraction loop's state holds with an empty
      sorted part. */
  lemma ExtractionStart(s: seq<int>)
    requires |s| >= 1 && HeapFrom(s, 0, |s| - 1)
    ensures ExtractionState(s, |s| - 1)
  {
  }

  /** After the last round of the extraction loop the heap is the single
      node `0`, which bounds the sorted rest: the whole slice is sorted. */
  lemma ExtractionDone(s: seq<int>)
    requires |s| >= 1 && ExtractionState(s, 0)
    ensures Sorted(s)
  {
  }

  /** `slice::swap` on the caller's array. */
  method SwapElements(a: array<int>, i: nat, j: nat)
    requires i < a.Length && j < a.Length
    modifies a
    ensures a[..] == Swap(old(a[..]), i, j)
  {
    a[i], a[j] := a[j], a[i];
  }

  /** `heapify_down(source, start, end)`: sift the value at `start` down through
      the heap that ends at the inclusive index `end`. */
  method HeapifyDown(a: array<int>, start: nat, end: nat)
    requires end < a.Length
    modifies a
    ensures a[..] == HeapifiedDown(old(a[..]), start, end)
  {
    var root := start;
    while Left(root) <= end
      invariant HeapifiedDown(a[..], root, end) == HeapifiedDown(old(a[..]), start, end)
      decreases end - root
    {
      var c := SmallestChild(a[..], end, root);
      if a[c] > a[root] {
        SwapElements(a, c, root);
      }
      root := c;
    }
  }

  /** `heap_sort(source)`: build a max-heap, then repeatedly move its root to
      the end of the shrinking heap. The result is sorted and a rearrangement
      of the input; an input that is already sorted (in particular one of
      length at most one) comes back unchanged. The two loops of the source
      are the methods `BuildMaxHeap` and `SortMaxHeap`. */
  method HeapSort(a: array<int>)
    modifies a
    ensures Sorted(a[..]) && multiset(a[..]) == multiset(old(a[..]))
    ensures Sorted(old(a[..])) ==> a[..] == old(a[..])
  {
    if a.Length <= 1 {
      return;
    }
    BuildMaxHeap(a);
    SortMaxHeap(a);
    if Sorted(old(a[..])) {
      SortedPermutationUnique(a[..], old(a[..]));
    }
  }

  /** Step 1 of `heap_sort`: `heapify_down` every node that has a child, from
      the parent of the last index back to the root. The inclusive bound is
      the last index `len - 1` (see the finding in README.md). */
  method BuildMaxHeap(a: array<int>)
    requires a.Length >= 2
    modifies a
    ensures HeapFrom(a[..], 0, a.Length - 1)
    ensures multiset(a[..]) == multiset(old(a[..]))
  {
    var n := a.Length;
    var top := Parent(n - 1) + 1;
    ghost var heap := a[..];
    BuildStart(heap);
    for idx := top downto 0
      invariant a[..] == heap && |heap| == n
      invariant HeapFrom(heap, idx, n - 1)
      invariant multiset(heap) == multiset(old(a[..]))
    {
      HeapifyDown(a, idx, n - 1);
      HeapifiedDownMakesHeap(heap, idx, n - 1);
      HeapifiedDownPermutes(heap, idx, n - 1);
      heap := HeapifiedDown(heap, idx, n - 1);
    }
  }

  /** Steps 2 to 4 of `heap_sort`: for `end` from `len - 1` down to `1`, swap
      the root behind the heap and sift the new root down over `0..end - 1`. */
  method SortMaxHeap(a: array<int>)
    requires a.Length >= 1 && HeapFrom(a[..], 0, a.Length - 1)
    modifies a
    ensures Sorted(a[..])
    ensures multiset(a[..]) == multiset(old(a[..]))
  {
    var n := a.Length;
    ghost var heap := a[..];
    ExtractionStart(heap);
    for end := n downto 1
      invariant a[..] == heap && |heap| == n
      invariant ExtractionState(heap, end - 1)
      invariant multiset(heap) == multiset(old(a[..]))
    {
      SwapElements(a, 0, end);
      if end > 0 {
        ghost var swapped := a[..];
        HeapifyDown(a, 0, end - 1);
        assert a[..] == HeapifiedDown(swapped, 0, end - 1);
      }
      ExtractionStep(heap, end);
      heap := ExtractionRound(heap, end);
    }
    ExtractionDone(heap);
  }

  // The build phase as written passes the slice length, not the last index,
  // as the inclusive bound `end`. The two functions below model that code with
  // the slice's bounds checks made explicit: `None` stands for the panic of an
  // out-of-range index.

  /** `heapify_down(s, root, end)` for any `end`, with the slice indexing of
      `smallest_child_idx` and of the comparison checked against `|s|`. */
  function HeapifyDownChecked(s: seq<int>, root: nat, end: nat): (r: Option<seq<int>>)
    ensures r.Some? ==> |r.value| == |s|
    decreases end - root
  {
    if Left(root) <= end then
      if Right(root) <= end && |s| <= Right(root) then None
      else
        var c := SmallestChild(s, end, root);
        if |s| <= c then None
        else HeapifyDownChecked(if s[c] > s[root] then Swap(s, c, root) else s, c, end)
    else
      Some(s)
  }

  /** Within the slice the checked model never stops and agrees with `HeapifiedDown`. */
  lemma {:induction false} HeapifyDownCheckedInBounds(s: seq<int>, root: nat, end: nat)
    requires end < |s|
    ensures HeapifyDownChecked(s, root, end) == Some(HeapifiedDown(s, root, end))
    decreases end - root
  {
    if Left(root) <= end {
      var c := SmallestChild(s, end, root);
      HeapifyDownCheckedInBounds(if s[c] > s[root] then Swap(s, c, root) else s, c, end);
    }
  }

  /** The build loop as written: `heapify_down(s, idx, s.len())` for `idx` from
      `next - 1` down to `0`. */
  function BuildAsWritten(s: seq<int>, next: nat): (r: Option<seq<int>>)
    ensures r.Some? ==> |r.value| == |s|
    decreases next
  {
    if next == 0 then Some(s)
    else
      match HeapifyDownChecked(s, next - 1, |s|)
      case None => None
      case Some(t) => BuildAsWritten(t, next - 1)
  }

  /** For every slice of even length at least 2 the first call of the build
      loop reads the index `len`: the right child of `parent(len - 1)`. */
  lemma BuildAsWrittenFailsOnEvenLength(s: seq<int>)
    requires |s| >= 2 && |s| % 2 == 0
    ensures BuildAsWritten(s, Parent(|s| - 1) + 1) == None
  {
  }

  /** An odd-length input that also reaches an out-of-range index. */
  lemma BuildAsWrittenFailsOnOneThreeTwo()
    ensures BuildAsWritten([1, 3, 2], Parent(2) + 1) == None
  {
  }

  /** `unsorted_array`: the sorted result of `[5, 1, 2, 1, 1, 69, 420]`. */
  method UnsortedArrayExample() returns (r: seq<int>)
    ensures r == [1, 1, 1, 2, 5, 69, 420]
  {
    var a := new int[] [5, 1, 2, 1, 1, 69, 420];
    assert a[..] == [5, 1, 2, 1, 1, 69, 420];
    HeapSort(a);
    r := a[..];
    UnsortedArrayResult(r);
  }

  /** The only sorted rearrangement of `[5, 1, 2, 1, 1, 69, 420]`. */
  lemma UnsortedArrayResult(r: seq<int>)
    requires Sorted(r) && multiset(r) == multiset([5, 1, 2, 1, 1, 69, 420])
    ensures r == [1, 1, 1, 2, 5, 69, 420]
  {
    InputValues();
    OutputValues();
    SortedPermutationUnique(r, [1, 1, 1, 2, 5, 69, 420]);
  }

  /** The values of the `unsorted_array` input, in ascending order. */
  lemma InputValues()
    ensures multiset([5, 1, 2, 1, 1, 69, 420]) == multiset{1, 1, 1, 2, 5, 69, 420}
  {
  }

  /** The expected `unsorted_array` result is sorted and holds the same values. */
  lemma OutputValues()
    ensures Sorted([1, 1, 1, 2, 5, 69, 420])
    ensures multiset([1, 1, 1, 2, 5, 69, 420]) == multiset{1, 1, 1, 2, 5, 69, 420}
  {
  }

  /** `no_elements`: sorting an empty slice leaves it empty. */
  method NoElementsExample() returns (r: seq<int>)
    ensures r == []
  {
    var a := new int[0];
    HeapSort(a);
    r := a[..];
  }
}
