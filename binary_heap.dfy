/** A growable binary-heap priority queue (`src/data_structures/heap.rs`).
    The live elements sit at the indices `1..count` of `items`; index 0 holds
    a placeholder (the element type's default value) so that the parent of `i`
    is `i / 2` and its children are `2i` and `2i + 1`. The order comes from a
    comparator fixed at construction: `comparator(x, y)` means that `x`
    belongs above `y` (it "outranks" `y`). */
module BinaryHeap {
  import opened Wrappers
  import opened Slices

  // Index arithmetic on the 1-based tree.

  /** `parent_idx`: the parent of a node; for every node below the root it is
      a live node above it. */
  function Parent(i: nat): (p: nat)
    ensures p * 2 <= i <= p * 2 + 1
    ensures i >= 2 ==> 1 <= p < i
  {
    i / 2
  }

  /** `left_child_idx` */
  function Left(i: nat): (c: nat)
    ensures Parent(c) == i
  {
    i * 2
  }

  /** `right_child_idx`: the other child of `i`. */
  function Right(i: nat): (c: nat)
    ensures Parent(c) == i && c != Left(i)
  {
    Left(i) + 1
  }

  /** `children_are_present`: a live node has a live child exactly when its
      left child is live. */
  function ChildrenArePresent(count: nat, idx: nat): (b: bool)
    ensures idx >= 1 ==> (b <==> exists c :: 2 <= c <= count && Parent(c) == idx)
  {
    Left(idx) <= count
  }

  /** `smallest_child_idx`: the child the comparator favours (the larger one in
      a max-heap, whatever the name says). It is one of the two children, it is
      live whenever `idx` has a live child, and for a strict weak order no
      live child of `idx` outranks it. The values are read only when the right
      child is live. */
  function SmallestChild<T(!new)>(s: seq<T>, count: nat, idx: nat, cmp: (T, T) -> bool): (c: nat)
    requires count < |s|
    ensures c == Left(idx) || c == Right(idx)
    ensures ChildrenArePresent(count, idx) ==> c <= count
    ensures StrictWeakOrder(cmp) && c <= count ==>
              !cmp(s[Left(idx)], s[c]) && (Right(idx) <= count ==> !cmp(s[Right(idx)], s[c]))
  {
    if Right(idx) > count then Left(idx)
    else if cmp(s[Left(idx)], s[Right(idx)]) then Left(idx)
    else Right(idx)
  }

  // The comparator and the heap property.

  /** What the comparator must be for the heap to work: irreflexive,
      transitive, and with a transitive complement (an element that does not
      outrank a second one, which does not outrank a third, does not outrank
      the third). `>` and `<` are such orders. */
  ghost predicate StrictWeakOrder<T(!new)>(cmp: (T, T) -> bool) {
    && (forall x :: !cmp(x, x))
    && (forall x, y, z :: cmp(x, y) && cmp(y, z) ==> cmp(x, z))
    && (forall x, y, z :: !cmp(x, y) && !cmp(y, z) ==> !cmp(x, z))
  }

  /** No live element outranks its parent. */
  ghost predicate HeapOrdered<T(!new)>(s: seq<T>, count: nat, cmp: (T, T) -> bool)
    requires count < |s|
  {
    forall i :: 2 <= i <= count ==> !cmp(s[i], s[Parent(i)])
  }

  /** The state of the sift-up loop standing at `idx`: every live element
      but the one at `idx` is in order with its parent, and the children of
      `idx` do not outrank the parent of `idx`. */
  ghost predicate HeapExceptUp<T(!new)>(s: seq<T>, count: nat, idx: nat, cmp: (T, T) -> bool)
    requires count < |s| && 1 <= idx <= count
  {
    && (forall i :: 2 <= i <= count && i != idx ==> !cmp(s[i], s[Parent(i)]))
    && (idx >= 2 ==>
          && (Left(idx) <= count ==> !cmp(s[Left(idx)], s[Parent(idx)]))
          && (Right(idx) <= count ==> !cmp(s[Right(idx)], s[Parent(idx)])))
  }

  /** The state of the sift-down loop standing at `idx`: every live element
      whose parent is not `idx` is in order with its parent, and the children
      of `idx` do not outrank the parent of `idx`. */
  ghost predicate HeapExceptDown<T(!new)>(s: seq<T>, count: nat, idx: nat, cmp: (T, T) -> bool)
    requires count < |s| && 1 <= idx <= count
  {
    && (forall i :: 2 <= i <= count && Parent(i) != idx ==> !cmp(s[i], s[Parent(i)]))
    && (idx >= 2 ==>
          && (Left(idx) <= count ==> !cmp(s[Left(idx)], s[Parent(idx)]))
          && (Right(idx) <= count ==> !cmp(s[Right(idx)], s[Parent(idx)])))
  }

  // What the mutating operations do to `items`.

  /** `Vec::swap_remove(i)`: the last value takes the place of the one at `i`,
      and the sequence loses its last position. */
  function SwapRemove<T(!new)>(s: seq<T>, i: nat): (r: seq<T>)
    requires i < |s|
    ensures |r| == |s| - 1
    ensures forall k {:trigger r[k]} :: 0 <= k < |r| && k != i ==> r[k] == s[k]
    ensures i < |r| ==> r[i] == s[|s| - 1]
  {
    if i == |s| - 1 then s[..i] else s[..|s| - 1][i := s[|s| - 1]]
  }

  /** What `heapify_up` leaves in `items` when it starts at `idx`: the value
      climbs while it outranks its parent, and stops below the root. */
  function SiftedUp<T(!new)>(s: seq<T>, idx: nat, cmp: (T, T) -> bool): (r: seq<T>)
    requires idx < |s|
    ensures |r| == |s|
    decreases idx
  {
    if Parent(idx) > 0 then
      if cmp(s[idx], s[Parent(idx)]) then SiftedUp(Swap(s, idx, Parent(idx)), Parent(idx), cmp)
      else s
    else
      s
  }

  /** What the sift-down loop of `next` leaves in `items` when it starts at
      `idx`: the value sinks while its favoured child outranks it. */
  function SiftedDown<T(!new)>(s: seq<T>, count: nat, idx: nat, cmp: (T, T) -> bool): (r: seq<T>)
    requires count < |s| && idx >= 1
    ensures |r| == |s|
    decreases count - idx
  {
    if ChildrenArePresent(count, idx) then
      var c := SmallestChild(s, count, idx, cmp);
      if cmp(s[c], s[idx]) then SiftedDown(Swap(s, c, idx), count, c, cmp)
      else s
    else
      s
  }

  // Properties of the sift operations.

  /** Two rearrangements of each other that keep the same placeholder hold
      the same live elements. */
  lemma LiveElementsAgree<T(!new)>(s: seq<T>, t: seq<T>)
    requires |s| >= 1 && |t| >= 1 && multiset(s) == multiset(t) && s[0] == t[0]
    ensures multiset(s[1..]) == multiset(t[1..])
  {
    assert s == [s[0]] + s[1..];
    assert t == [t[0]] + t[1..];
    assert multiset(s[1..]) == multiset(s) - multiset{s[0]};
    assert multiset(t[1..]) == multiset(t) - multiset{t[0]};
  }

  /** Sifting up only rearranges the sequence, and never touches the placeholder. */
  lemma {:induction false} SiftedUpPermutes<T(!new)>(s: seq<T>, idx: nat, cmp: (T, T) -> bool)
    requires idx < |s|
    ensures multiset(SiftedUp(s, idx, cmp)) == multiset(s)
    ensures SiftedUp(s, idx, cmp)[0] == s[0]
    decreases idx
  {
    if Parent(idx) > 0 && cmp(s[idx], s[Parent(idx)]) {
      SwapPermutes(s, idx, Parent(idx));
      SiftedUpPermutes(Swap(s, idx, Parent(idx)), Parent(idx), cmp);
    }
  }

  /** Sifting down only rearranges the sequence, and never touches the placeholder. */
  lemma {:induction false} SiftedDownPermutes<T(!new)>(s: seq<T>, count: nat, idx: nat, cmp: (T, T) -> bool)
    requires count < |s| && idx >= 1
    ensures multiset(SiftedDown(s, count, idx, cmp)) == multiset(s)
    ensures SiftedDown(s, count, idx, cmp)[0] == s[0]
    decreases count - idx
  {
    if ChildrenArePresent(count, idx) {
      var c := SmallestChild(s, count, idx, cmp);
      if cmp(s[c], s[idx]) {
        SwapPermutes(s, c, idx);
        SiftedDownPermutes(Swap(s, c, idx), count, c, cmp);
      }
    }
  }

  /** One swap of the sift-up loop keeps its invariant, now standing at the parent. */
  lemma SiftUpStep<T(!new)>(s: seq<T>, count: nat, idx: nat, cmp: (T, T) -> bool)
    requires count < |s| && 2 <= idx <= count && StrictWeakOrder(cmp)
    requires HeapExceptUp(s, count, idx, cmp) && cmp(s[idx], s[Parent(idx)])
    ensures HeapExceptUp(Swap(s, idx, Parent(idx)), count, Parent(idx), cmp)
  {
  }

  /** The sift-up loop ends with the heap property. */
  lemma {:induction false} SiftedUpRestores<T(!new)>(s: seq<T>, count: nat, idx: nat, cmp: (T, T) -> bool)
    requires count < |s| && 1 <= idx <= count && StrictWeakOrder(cmp)
    requires HeapExceptUp(s, count, idx, cmp)
    ensures HeapOrdered(SiftedUp(s, idx, cmp), count, cmp)
    decreases idx
  {
    if Parent(idx) > 0 && cmp(s[idx], s[Parent(idx)]) {
      SiftUpStep(s, count, idx, cmp);
      SiftedUpRestores(Swap(s, idx, Parent(idx)), count, Parent(idx), cmp);
    }
  }

  /** `add`: pushing a value behind the live elements and sifting it up
      leaves the old live elements plus the new value, and the same placeholder. */
  lemma AddElements<T(!new)>(s: seq<T>, x: T, cmp: (T, T) -> bool)
    requires |s| >= 1
    ensures var r := SiftedUp(s + [x], |s|, cmp);
            multiset(r[1..]) == multiset(s[1..]) + multiset{x} && r[0] == s[0]
  {
    var t := s + [x];
    PushLive(s, x);
    SiftedUpPermutes(t, |s|, cmp);
    LiveElementsAgree(SiftedUp(t, |s|, cmp), t);
  }

  /** Pushing a value adds it to the live elements. */
  lemma PushLive<T(!new)>(s: seq<T>, x: T)
    requires |s| >= 1
    ensures multiset((s + [x])[1..]) == multiset(s[1..]) + multiset{x}
  {
    assert (s + [x])[1..] == s[1..] + [x];
  }

  /** `add`: pushing a value behind a heap and sifting it up gives a heap
      with one more live element. */
  lemma AddKeepsHeap<T(!new)>(s: seq<T>, count: nat, x: T, cmp: (T, T) -> bool)
    requires |s| == count + 1 && StrictWeakOrder(cmp) && HeapOrdered(s, count, cmp)
    ensures HeapOrdered(SiftedUp(s + [x], count + 1, cmp), count + 1, cmp)
  {
    var t := s + [x];
    forall i | 2 <= i <= count + 1 && i != count + 1
      ensures !cmp(t[i], t[Parent(i)])
    {
      assert t[i] == s[i] && t[Parent(i)] == s[Parent(i)];
    }
    SiftedUpRestores(t, count + 1, count + 1, cmp);
  }

  /** One swap of the sift-down loop keeps its invariant, now standing at the
      chosen child. */
  lemma SiftDownStep<T(!new)>(s: seq<T>, count: nat, idx: nat, cmp: (T, T) -> bool)
    requires count < |s| && 1 <= idx && ChildrenArePresent(count, idx) && StrictWeakOrder(cmp)
    requires HeapExceptDown(s, count, idx, cmp)
    requires cmp(s[SmallestChild(s, count, idx, cmp)], s[idx])
    ensures var c := SmallestChild(s, count, idx, cmp);
            HeapExceptDown(Swap(s, c, idx), count, c, cmp)
  {
    var c := SmallestChild(s, count, idx, cmp);
    var t := Swap(s, c, idx);
    forall i | 2 <= i <= count && Parent(i) != c
      ensures !cmp(t[i], t[Parent(i)])
    {
      if i == c {
        assert t[i] == s[idx] && t[idx] == s[c];
      } else if Parent(i) == idx {
        // The sibling of the chosen child does not outrank it.
        assert t[i] == s[i] && t[idx] == s[c];
        assert i == Left(idx) || i == Right(idx);
      } else if i == idx {
        assert t[i] == s[c] && t[Parent(i)] == s[Parent(i)];
        assert c == Left(idx) || c == Right(idx);
      } else {
        assert i != c && i != idx && Parent(i) != idx;
        assert Parent(i) != c ==> t[Parent(i)] == s[Parent(i)];
        assert t[i] == s[i];
      }
    }
    if Left(c) <= count {
      assert t[Left(c)] == s[Left(c)] && t[idx] == s[c];
    }
    if Right(c) <= count {
      assert t[Right(c)] == s[Right(c)] && t[idx] == s[c];
    }
  }

  /** The sift-down loop ends with the heap property. */
  lemma {:induction false} SiftedDownRestores<T(!new)>(s: seq<T>, count: nat, idx: nat, cmp: (T, T) -> bool)
    requires count < |s| && 1 <= idx <= count && StrictWeakOrder(cmp)
    requires HeapExceptDown(s, count, idx, cmp)
    ensures HeapOrdered(SiftedDown(s, count, idx, cmp), count, cmp)
    decreases count - idx
  {
    var c := SmallestChild(s, count, idx, cmp);
    if ChildrenArePresent(count, idx) && cmp(s[c], s[idx]) {
      SiftDownStep(s, count, idx, cmp);
      SiftedDownRestores(Swap(s, c, idx), count, c, cmp);
    } else if ChildrenArePresent(count, idx) {
      // The favoured child does not outrank `idx`, so neither does its sibling.
      forall i | 2 <= i <= count && Parent(i) == idx
        ensures !cmp(s[i], s[idx])
      {
        assert i == Left(idx) || i == Right(idx);
        assert !cmp(s[i], s[c]);
      }
    }
  }

  /** No live element of a heap outranks the root. */
  lemma {:induction false} RootIsTop<T(!new)>(s: seq<T>, count: nat, k: nat, cmp: (T, T) -> bool)
    requires count < |s| && 1 <= k <= count && StrictWeakOrder(cmp) && HeapOrdered(s, count, cmp)
    ensures !cmp(s[k], s[1])
    decreases k
  {
    if k >= 2 {
      RootIsTop(s, count, Parent(k), cmp);
      assert !cmp(s[k], s[Parent(k)]);
    }
  }

  /** `next` on a non-empty heap: after `swap_remove(1)` and the sift-down,
      the live elements are the old ones less the old root, and the
      placeholder stays. */
  lemma RemoveTopElements<T(!new)>(s: seq<T>, cmp: (T, T) -> bool)
    requires |s| >= 2
    ensures var r := SiftedDown(SwapRemove(s, 1), |s| - 2, 1, cmp);
            multiset(r[1..]) == multiset(s[1..]) - multiset{s[1]} && r[0] == s[0]
  {
    var t := SwapRemove(s, 1);
    var r := SiftedDown(t, |s| - 2, 1, cmp);
    SwapRemoveFirst(s);
    DropFirst(s);
    SiftedDownPermutes(t, |s| - 2, 1, cmp);
    LiveElementsAgree(r, t);
  }

  /** `next` on a non-empty heap: the result of `swap_remove(1)` and the
      sift-down is a heap again. */
  lemma RemoveTopKeepsHeap<T(!new)>(s: seq<T>, count: nat, cmp: (T, T) -> bool)
    requires |s| == count + 1 && count >= 1 && StrictWeakOrder(cmp) && HeapOrdered(s, count, cmp)
    ensures HeapOrdered(SiftedDown(SwapRemove(s, 1), count - 1, 1, cmp), count - 1, cmp)
  {
    var t := SwapRemove(s, 1);
    if count >= 2 {
      forall i | 2 <= i <= count - 1 && Parent(i) != 1
        ensures !cmp(t[i], t[Parent(i)])
      {
        assert t[i] == s[i] && t[Parent(i)] == s[Parent(i)];
      }
      SiftedDownRestores(t, count - 1, 1, cmp);
    }
  }

  /** `next` on a heap returns an element that no remaining element outranks. */
  lemma RemoveTopIsTop<T(!new)>(s: seq<T>, count: nat, cmp: (T, T) -> bool)
    requires |s| == count + 1 && count >= 1 && StrictWeakOrder(cmp) && HeapOrdered(s, count, cmp)
    ensures var r := SiftedDown(SwapRemove(s, 1), count - 1, 1, cmp);
            forall y :: y in multiset(r[1..]) ==> !cmp(y, s[1])
  {
    var r := SiftedDown(SwapRemove(s, 1), count - 1, 1, cmp);
    RemoveTopElements(s, cmp);
    DropFirst(s);
    forall y | y in multiset(r[1..])
      ensures !cmp(y, s[1])
    {
      assert y in multiset(s[2..]);
      var k :| 0 <= k < |s[2..]| && s[2..][k] == y;
      RootIsTop(s, count, k + 2, cmp);
    }
  }

  /** Successive calls of `next` on a heap hand out values in order: the
      root after a removal does not outrank the value removed. */
  lemma ExtractionOrder<T(!new)>(s: seq<T>, count: nat, cmp: (T, T) -> bool)
    requires |s| == count + 1 && count >= 2 && StrictWeakOrder(cmp) && HeapOrdered(s, count, cmp)
    ensures var r := SiftedDown(SwapRemove(s, 1), count - 1, 1, cmp);
            !cmp(r[1], s[1])
  {
    var r := SiftedDown(SwapRemove(s, 1), count - 1, 1, cmp);
    RemoveTopIsTop(s, count, cmp);
    assert r[1..][0] in multiset(r[1..]);
  }

  /** After `swap_remove(1)` the live elements are the old ones from the
      second on. */
  lemma SwapRemoveFirst<T(!new)>(s: seq<T>)
    requires |s| >= 2
    ensures multiset(SwapRemove(s, 1)[1..]) == multiset(s[2..])
  {
    var r := SwapRemove(s, 1);
    if |s| > 2 {
      assert r[1..] == [s[|s| - 1]] + s[2..|s| - 1];
      assert s[2..] == s[2..|s| - 1] + [s[|s| - 1]];
    } else {
      assert r[1..] == [];
    }
  }

  /** The live elements less the first one are those from the second on. */
  lemma DropFirst<T(!new)>(s: seq<T>)
    requires |s| >= 2
    ensures multiset(s[1..]) - multiset{s[1]} == multiset(s[2..])
  {
    assert s[1..] == [s[1]] + s[2..];
  }

  /** `Heap<T>`: the live-element count, the backing vector with its
      placeholder in slot 0, and the comparator chosen at construction. */
  class Heap<T(!new)> {
    var count: nat
    var items: seq<T>
    const comparator: (T, T) -> bool

    /** The representation invariant: one slot per live element plus the placeholder. */
    ghost predicate Valid()
      reads this
    {
      |items| == count + 1
    }

    /** The live elements, as a multiset. */
    ghost function Elements(): multiset<T>
      reads this
      requires Valid()
    {
      multiset(items[1..])
    }

    /** The heap property over the live elements. */
    ghost predicate IsHeap()
      reads this
      requires Valid()
    {
      HeapOrdered(items, count, comparator)
    }

    /** `Heap::new(comparator)`: an empty heap whose slot 0 holds `placeholder`,
        standing for `Default::default()`. */
    constructor (comparator: (T, T) -> bool, placeholder: T)
      ensures Valid() && count == 0 && items == [placeholder] && this.comparator == comparator
      ensures Elements() == multiset{} && IsHeap()
    {
      count := 0;
      items := [placeholder];
      this.comparator := comparator;
    }

    /** `len`: the number of live elements. */
    function Len(): (n: nat)
      reads this
      requires Valid()
      ensures n == |Elements()|
    {
      count
    }

    /** `is_empty`: whether there is no live element. */
    function IsEmpty(): (b: bool)
      reads this
      requires Valid()
      ensures b <==> Elements() == multiset{}
    {
      Len() == 0
    }

    /** `add`: push the value behind the last live element and sift it up. */
    method Add(item: T)
      requires Valid()
      modifies this
      ensures Valid() && count == old(count) + 1
      ensures items == SiftedUp(old(items) + [item], count, comparator)
      ensures Elements() == old(Elements()) + multiset{item} && items[0] == old(items[0])
      ensures StrictWeakOrder(comparator) && old(IsHeap()) ==> IsHeap()
    {
      AddElements(items, item, comparator);
      if StrictWeakOrder(comparator) && HeapOrdered(items, count, comparator) {
        AddKeepsHeap(items, count, item, comparator);
      }
      count := count + 1;
      items := items + [item];
      HeapifyUp();
    }

    /** `heapify_up`: move the last live element up while it outranks its parent. */
    method HeapifyUp()
      requires Valid()
      modifies this
      ensures Valid() && count == old(count)
      ensures items == SiftedUp(old(items), count, comparator)
    {
      var idx: nat := count;
      while Parent(idx) > 0
        invariant count == old(count) && |items| == count + 1 && idx <= count
        invariant SiftedUp(items, idx, comparator) == SiftedUp(old(items), count, comparator)
        decreases idx
      {
        var pdx := Parent(idx);
        if comparator(items[idx], items[pdx]) {
          items := Swap(items, idx, pdx);
        } else {
          break;
        }
        idx := pdx;
      }
    }

    /** `Iterator::next`: `None` on an empty heap, which stays as it is (so
        every later call is `None` too); otherwise take out the root, put the
        last live element in its place and sift it down. */
    method Next() returns (next: Option<T>)
      requires Valid()
      modifies this
      ensures Valid()
      ensures old(count) == 0 ==> next == None && count == 0 && items == old(items)
      ensures old(count) > 0 ==>
                && next == Some(old(items[1]))
                && count == old(count) - 1
                && items == SiftedDown(SwapRemove(old(items), 1), count, 1, comparator)
      ensures next.Some? ==> next.value in old(Elements())
      ensures next.Some? ==> Elements() == old(Elements()) - multiset{next.value} && items[0] == old(items[0])
      ensures next.Some? && StrictWeakOrder(comparator) && old(IsHeap()) ==>
                && IsHeap()
                && forall y :: y in Elements() ==> !comparator(y, next.value)
    {
      if count == 0 {
        return None;
      }
      RemoveTopElements(items, comparator);
      assert items[1..][0] in multiset(items[1..]);
      if StrictWeakOrder(comparator) && HeapOrdered(items, count, comparator) {
        RemoveTopKeepsHeap(items, count, comparator);
        RemoveTopIsTop(items, count, comparator);
      }
      next := Some(items[1]);
      items := SwapRemove(items, 1);
      count := count - 1;
      if count > 0 {
        SiftDown();
      }
    }

    /** The sift-down loop of `next`: starting at the root, swap the value
        with its favoured child while that child outranks it. */
    method SiftDown()
      requires Valid() && count >= 1
      modifies this
      ensures Valid() && count == old(count)
      ensures items == SiftedDown(old(items), count, 1, comparator)
    {
      var idx: nat := 1;
      while ChildrenArePresent(count, idx)
        invariant count == old(count) && |items| == count + 1 && 1 <= idx <= count
        invariant SiftedDown(items, count, idx, comparator) == SiftedDown(old(items), count, 1, comparator)
        decreases count - idx
      {
        var childIdx := SmallestChild(items, count, idx, comparator);
        if comparator(items[childIdx], items[idx]) {
          items := Swap(items, childIdx, idx);
        } else {
          break;
        }
        idx := childIdx;
      }
    }
  }

  /** `>` on integers is a strict weak order. */
  lemma GreaterIsStrictWeakOrder()
    ensures StrictWeakOrder((x: int, y: int) => x > y)
  {
  }

  /** `<` on integers is a strict weak order. */
  lemma LessIsStrictWeakOrder()
    ensures StrictWeakOrder((x: int, y: int) => x < y)
  {
  }

  /** `Heap::new_max`, for integers (whose default value is 0): the root is
      the largest element. */
  method NewMax() returns (heap: Heap<int>)
    ensures fresh(heap) && heap.Valid() && heap.count == 0 && heap.items == [0]
    ensures forall x, y :: heap.comparator(x, y) <==> x > y
    ensures StrictWeakOrder(heap.comparator)
  {
    heap := new Heap((x: int, y: int) => x > y, 0);
    GreaterIsStrictWeakOrder();
  }

  /** `Heap::new_min`, for integers: the root is the smallest element. */
  method NewMin() returns (heap: Heap<int>)
    ensures fresh(heap) && heap.Valid() && heap.count == 0 && heap.items == [0]
    ensures forall x, y :: heap.comparator(x, y) <==> x < y
    ensures StrictWeakOrder(heap.comparator)
  {
    heap := new Heap((x: int, y: int) => x < y, 0);
    LessIsStrictWeakOrder();
  }

  /** What `add` and `next` do to the vector of a max-heap in the two
      examples below, step by step. */
  lemma MaxHeapTrace(cmp: (int, int) -> bool)
    requires forall x, y :: cmp(x, y) <==> x > y
    ensures SiftedUp([0] + [14], 1, cmp) == [0, 14]
    ensures SiftedUp([0, 14] + [12], 2, cmp) == [0, 14, 12]
    ensures SiftedUp([0, 14, 12] + [13], 3, cmp) == [0, 14, 12, 13]
    ensures SiftedUp([0, 14, 12, 13] + [9], 4, cmp) == [0, 14, 12, 13, 9]
    ensures SiftedUp([0, 14, 12, 13, 9] + [9], 5, cmp) == [0, 14, 12, 13, 9, 9]
    ensures SiftedUp([0, 14, 12, 13, 9, 9] + [13], 6, cmp) == [0, 14, 12, 13, 9, 9, 13]
    ensures SiftedUp([0, 14, 12, 13, 9, 9, 13] + [12], 7, cmp) == [0, 14, 12, 13, 9, 9, 13, 12]
    ensures SiftedDown(SwapRemove([0, 14, 12], 1), 1, 1, cmp) == [0, 12]
    ensures SiftedDown(SwapRemove([0, 14, 12, 13, 9, 9, 13, 12], 1), 6, 1, cmp) == [0, 13, 12, 13, 9, 9, 12]
  {
  }

  /** A max-heap built from 14 and 12 hands out 14, then 12, then nothing. */
  method ItWorksExample() returns (first: Option<int>, second: Option<int>, third: Option<int>)
    ensures first == Some(14) && second == Some(12) && third == None
  {
    var heap := NewMax();
    MaxHeapTrace(heap.comparator);
    heap.Add(14);
    heap.Add(12);
    first := heap.Next();
    second := heap.Next();
    third := heap.Next();
  }

  /** Removing the root of the max-heap built from 14, 12, 13, 9, 9, 13, 12
      moves the last element (12) to the root, and the sift-down swaps it
      twice with a child holding 13. */
  method RemovingItemsExample() returns (next: Option<int>, items: seq<int>)
    ensures next == Some(14) && items == [0, 13, 12, 13, 9, 9, 12]
  {
    var heap := NewMax();
    MaxHeapTrace(heap.comparator);
    heap.Add(14);
    heap.Add(12);
    heap.Add(13);
    heap.Add(9);
    heap.Add(9);
    heap.Add(13);
    heap.Add(12);
    next := heap.Next();
    items := heap.items;
  }
}
