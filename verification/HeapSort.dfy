/** The heap sort and the binary search of the C library, for elements of any type and any
    comparison function. Indices of the heap count from 1, as in the source. */
module HeapSort {
  import opened Options
  import opened Rearrangement

  // What the source asks of a comparison function: the sign of the result orders the elements,
  // possibly with ties.
  ghost predicate TotalPreorder<T(!new)>(compare: (T, T) -> int)
  {
    && (forall a, b :: compare(a, b) < 0 <==> compare(b, a) > 0)
    && (forall a, b, c :: compare(a, b) <= 0 && compare(b, c) <= 0 ==> compare(a, c) <= 0)
  }

  predicate LE<T>(compare: (T, T) -> int, a: T, b: T) { compare(a, b) <= 0 }

  // Element i is no smaller than its children among the first n elements.
  predicate NodeOk<T>(compare: (T, T) -> int, s: seq<T>, n: nat, i: nat)
  {
    1 <= i && n <= |s| ==>
      && (2 * i <= n ==> LE(compare, s[2 * i - 1], s[i - 1]))
      && (2 * i + 1 <= n ==> LE(compare, s[2 * i], s[i - 1]))
  }

  // The heap property at all nodes from lo on.
  ghost predicate Heap<T>(compare: (T, T) -> int, s: seq<T>, n: nat, lo: nat)
  {
    forall i: nat {:trigger NodeOk(compare, s, n, i)} | i >= lo :: NodeOk(compare, s, n, i)
  }

  // The children of hole are no greater than its parent, if that is from lo on.
  ghost predicate Bridged<T>(compare: (T, T) -> int, s: seq<T>, n: nat, lo: nat, hole: nat)
  {
    n <= |s| && forall p: nat | p >= lo >= 1 && (hole == 2 * p || hole == 2 * p + 1) && p <= n ::
      && (2 * hole <= n ==> LE(compare, s[2 * hole - 1], s[p - 1]))
      && (2 * hole + 1 <= n ==> LE(compare, s[2 * hole], s[p - 1]))
  }

  // The heap property at all nodes from lo on except hole.
  ghost predicate HeapBut<T>(compare: (T, T) -> int, s: seq<T>, n: nat, lo: nat, hole: nat)
  {
    && (forall i: nat {:trigger NodeOk(compare, s, n, i)} | i >= lo && i != hole :: NodeOk(compare, s, n, i))
    && Bridged(compare, s, n, lo, hole)
  }

  // The larger of the children of i that are greater than element i, or i itself.
  ghost predicate IsMax<T>(compare: (T, T) -> int, s: seq<T>, n: nat, i: nat, max: nat)
  {
    && 1 <= i <= max <= n <= |s| && (max == i || max == 2 * i || max == 2 * i + 1)
    && LE(compare, s[i - 1], s[max - 1])
    && (2 * i <= n ==> LE(compare, s[2 * i - 1], s[max - 1]))
    && (2 * i + 1 <= n ==> LE(compare, s[2 * i], s[max - 1]))
  }

  lemma Settled<T(!new)>(compare: (T, T) -> int, s: seq<T>, n: nat, lo: nat, i: nat)
    requires HeapBut(compare, s, n, lo, i) && IsMax(compare, s, n, i, i)
    ensures Heap(compare, s, n, lo)
  {
    forall k: nat | k >= lo
      ensures NodeOk(compare, s, n, k)
    {
      if k == i {
        assert NodeOk(compare, s, n, i);
      }
    }
  }

  lemma SiftTop<T(!new)>(compare: (T, T) -> int, s: seq<T>, n: nat, i: nat, max: nat)
    requires IsMax(compare, s, n, i, max) && max != i
    ensures NodeOk(compare, Swapped(s, i - 1, max - 1), n, i)
  {}

  lemma SiftOther<T(!new)>(compare: (T, T) -> int, s: seq<T>, n: nat, lo: nat, i: nat, max: nat, k: nat)
    requires 1 <= lo <= k && k != i && k != max && NodeOk(compare, s, n, k)
    requires Bridged(compare, s, n, lo, i) && IsMax(compare, s, n, i, max) && max != i
    ensures NodeOk(compare, Swapped(s, i - 1, max - 1), n, k)
  {}

  lemma SiftBridge<T(!new)>(compare: (T, T) -> int, s: seq<T>, n: nat, lo: nat, i: nat, max: nat)
    requires IsMax(compare, s, n, i, max) && max != i && NodeOk(compare, s, n, max)
    ensures Bridged(compare, Swapped(s, i - 1, max - 1), n, lo, max)
  {}

  // One step down: the hole moves to the larger child.
  lemma SiftStep<T(!new)>(compare: (T, T) -> int, s: seq<T>, n: nat, lo: nat, i: nat, max: nat)
    requires 1 <= lo <= i && HeapBut(compare, s, n, lo, i) && IsMax(compare, s, n, i, max) && max != i
    ensures HeapBut(compare, Swapped(s, i - 1, max - 1), n, lo, max)
  {
    assert NodeOk(compare, s, n, max) && lo <= max;
    hide Swapped, NodeOk, Bridged, LE;
    SiftTop(compare, s, n, i, max);
    SiftBridge(compare, s, n, lo, i, max);
    var t := Swapped(s, i - 1, max - 1);
    forall k: nat | k >= lo && k != max
      ensures NodeOk(compare, t, n, k)
    {
      if k != i {
        SiftOther(compare, s, n, lo, i, max, k);
      }
    }
  }

  // do_swap, among the first hi elements
  method DoSwap<T>(a: array<T>, aIdx: nat, bIdx: nat, ghost before: seq<T>, ghost hi: nat)
    requires 1 <= aIdx <= hi <= a.Length && 1 <= bIdx <= hi && Rearranged(before, a[..], 0, hi)
    modifies a
    ensures a[..] == Swapped(old(a[..]), aIdx - 1, bIdx - 1) && Rearranged(before, a[..], 0, hi)
  {
    ghost var s := a[..];
    a[aIdx - 1], a[bIdx - 1] := a[bIdx - 1], a[aIdx - 1];
    SwapRearranges(s, aIdx - 1, bIdx - 1, 0, hi);
    assert a[..] == Swapped(s, aIdx - 1, bIdx - 1);
    hide Swapped;
    Chain(before, s, a[..], 0, hi);
  }

  // Lines 105-112 of heapify.
  method LargestOf<T(!new)>(a: array<T>, i: nat, cnt: nat, compare: (T, T) -> int) returns (max: nat)
    requires TotalPreorder(compare) && 1 <= i <= cnt <= a.Length
    ensures IsMax(compare, a[..], cnt, i, max)
  {
    var left := 2 * i;
    var right := 2 * i + 1;
    max := i;
    assert compare(a[i - 1], a[i - 1]) <= 0;
    if left <= cnt && compare(a[left - 1], a[max - 1]) > 0 {
      max := left;
    }
    if right <= cnt && compare(a[right - 1], a[max - 1]) > 0 {
      max := right;
    }
  }

  /** heapify: the heap property from lo on, except at i, becomes the heap property from lo on, by
      reordering the heap alone. */
  method Heapify<T(!new)>(a: array<T>, i0: nat, cnt: nat, compare: (T, T) -> int, ghost lo: nat)
    requires TotalPreorder(compare) && 1 <= lo <= i0 <= cnt <= a.Length
    requires HeapBut(compare, a[..], cnt, lo, i0)
    modifies a
    ensures Heap(compare, a[..], cnt, lo) && Rearranged(old(a[..]), a[..], 0, cnt)
  {
    ghost var before := a[..];
    Same(before, 0, cnt);
    var i := i0;
    hide *;
    while true
      invariant lo <= i <= cnt && HeapBut(compare, a[..], cnt, lo, i) && Rearranged(before, a[..], 0, cnt)
      decreases cnt - i
    {
      var max := LargestOf(a, i, cnt, compare);
      MaxBounds(compare, a[..], cnt, i, max);
      if max == i {
        Settled(compare, a[..], cnt, lo, i);
        break;
      }
      SiftStep(compare, a[..], cnt, lo, i, max);
      DoSwap(a, i, max, before, cnt);
      i := max;
    }
  }

  lemma MaxBounds<T>(compare: (T, T) -> int, s: seq<T>, n: nat, i: nat, max: nat)
    requires IsMax(compare, s, n, i, max)
    ensures i <= max <= n
  {}

  /* sort */

  ghost predicate Ordered<T>(compare: (T, T) -> int, s: seq<T>, lo: nat)
  {
    forall i, j | lo <= i < j < |s| :: LE(compare, s[i], s[j])
  }

  // The first n elements are no greater than the elements from there on.
  ghost predicate Below<T>(compare: (T, T) -> int, s: seq<T>, n: nat)
  {
    forall i, j | 0 <= i < n <= j < |s| :: LE(compare, s[i], s[j])
  }

  // Sorting so far: a heap, and behind it the largest elements in order.
  ghost predicate Sorting<T>(compare: (T, T) -> int, s: seq<T>, n: nat)
  {
    n <= |s| && Heap(compare, s, n, 1) && Below(compare, s, n) && Ordered(compare, s, n)
  }

  lemma {:induction false} RootIsMax<T(!new)>(compare: (T, T) -> int, s: seq<T>, n: nat, i: nat)
    requires TotalPreorder(compare) && Heap(compare, s, n, 1) && 1 <= i <= n <= |s|
    ensures LE(compare, s[i - 1], s[0])
  {
    if i > 1 {
      var p := i / 2;
      RootIsMax(compare, s, n, p);
      assert NodeOk(compare, s, n, p);
      assert i == 2 * p || i == 2 * p + 1;
      assert LE(compare, s[i - 1], s[p - 1]);
    } else {
      assert compare(s[0], s[0]) <= 0;
    }
  }

  // The largest element of the heap goes behind it.
  lemma Extract<T(!new)>(compare: (T, T) -> int, s: seq<T>, n: nat)
    requires TotalPreorder(compare) && Sorting(compare, s, n) && n > 1
    ensures var t := Swapped(s, 0, n - 1);
      HeapBut(compare, t, n - 1, 1, 1) && Below(compare, t, n - 1) && Ordered(compare, t, n - 1)
  {
    var t := Swapped(s, 0, n - 1);
    forall i | 0 <= i < n
      ensures LE(compare, s[i], s[0])
    {
      RootIsMax(compare, s, n, i + 1);
    }
    ExtractHeap(compare, s, n);
    hide Heap, HeapBut, NodeOk;
  }

  lemma ExtractHeap<T(!new)>(compare: (T, T) -> int, s: seq<T>, n: nat)
    requires Heap(compare, s, n, 1) && 1 < n <= |s|
    ensures HeapBut(compare, Swapped(s, 0, n - 1), n - 1, 1, 1)
  {
    var t := Swapped(s, 0, n - 1);
    var m := n - 1;
    forall i: nat | i > 1
      ensures NodeOk(compare, t, m, i)
    {
      assert NodeOk(compare, s, n, i);
    }
  }

  // Reordering the heap keeps it below the rest.
  lemma BelowKept<T(!new)>(compare: (T, T) -> int, s: seq<T>, t: seq<T>, n: nat)
    requires Rearranged(s, t, 0, n) && Below(compare, s, n) && Ordered(compare, s, n)
    ensures Below(compare, t, n) && Ordered(compare, t, n)
  {
    forall j | n <= j < |s|
      ensures t[j] == s[j]
    {
      Outside(s, t, 0, n, j);
    }
    forall i, j | 0 <= i < n <= j < |t|
      ensures LE(compare, t[i], t[j])
    {
      var k := Inside(s, t, 0, n, i);
    }
  }

  lemma LeavesAreHeap<T>(compare: (T, T) -> int, s: seq<T>, n: nat, lo: nat)
    requires n <= |s| && lo > n / 2
    ensures Heap(compare, s, n, lo)
  {}

  lemma OpenNode<T>(compare: (T, T) -> int, s: seq<T>, n: nat, i: nat)
    requires n <= |s| && Heap(compare, s, n, i + 1)
    ensures HeapBut(compare, s, n, i, i)
  {}

  /** sort: the result is ordered by the comparison function and holds the same elements. */
  method Sort<T(!new)>(a: array<T>, compare: (T, T) -> int)
    requires TotalPreorder(compare)
    modifies a
    ensures Ordered(compare, a[..], 0) && multiset(a[..]) == multiset(old(a[..]))
  {
    var cnt := a.Length;
    ghost var before := a[..];
    BuildHeap(a, compare);
    var i: nat := cnt;
    assert Sorting(compare, a[..], cnt);
    while i > 1
      invariant i <= cnt && Sorting(compare, a[..], i) && Rearranged(before, a[..], 0, cnt)
    {
      SortOne(a, i, compare, before);
      i := i - 1;
    }
    SortingDone(compare, a[..], i);
    assert a[0..cnt] == a[..] && before[0..cnt] == before;
  }

  // Lines 143-144.
  method BuildHeap<T(!new)>(a: array<T>, compare: (T, T) -> int)
    requires TotalPreorder(compare)
    modifies a
    ensures Heap(compare, a[..], a.Length, 1) && Rearranged(old(a[..]), a[..], 0, a.Length)
  {
    hide *;
    var cnt := a.Length;
    ghost var before := a[..];
    Same(before, 0, cnt);
    var i: nat := cnt / 2;
    LeavesAreHeap(compare, a[..], cnt, i + 1);
    while i > 0
      invariant i <= cnt && Heap(compare, a[..], cnt, i + 1) && Rearranged(before, a[..], 0, cnt)
    {
      ghost var s := a[..];
      OpenNode(compare, s, cnt, i);
      Heapify(a, i, cnt, compare, i);
      Chain(before, s, a[..], 0, cnt);
      i := i - 1;
    }
  }

  // Lines 149-150.
  method SortOne<T(!new)>(a: array<T>, i: nat, compare: (T, T) -> int, ghost before: seq<T>)
    requires TotalPreorder(compare) && 1 < i <= a.Length && Sorting(compare, a[..], i)
    requires Rearranged(before, a[..], 0, a.Length)
    modifies a
    ensures Sorting(compare, a[..], i - 1) && Rearranged(before, a[..], 0, a.Length)
  {
    ghost var s := a[..];
    Extract(compare, s, i);
    hide HeapBut, Heap, Below, Ordered, Rearranged, Swapped;
    DoSwap(a, 1, i, before, a.Length);
    ghost var t := a[..];
    Heapify(a, 1, i - 1, compare, 1);
    BelowKept(compare, t, a[..], i - 1);
    Widen(t, a[..], 0, i - 1, 0, a.Length);
    Chain(before, t, a[..], 0, a.Length);
  }

  lemma SortingDone<T(!new)>(compare: (T, T) -> int, s: seq<T>, n: nat)
    requires Sorting(compare, s, n) && n <= 1
    ensures Ordered(compare, s, 0)
  {}

  /** binary_search in an ordered array finds an element equal to the key exactly when there is one. */
  method BinarySearch<T(!new)>(key: T, a: array<T>, compare: (T, T) -> int) returns (found: Option<nat>)
    requires TotalPreorder(compare) && Ordered(compare, a[..], 0)
    ensures found.Some? ==> found.value < a.Length && compare(key, a[found.value]) == 0
    ensures found.None? ==> forall k | 0 <= k < a.Length :: compare(key, a[k]) != 0
  {
    var first, last := 0, a.Length;
    while first < last
      invariant first <= last <= a.Length
      invariant forall k | 0 <= k < first :: compare(key, a[k]) > 0
      invariant forall k | last <= k < a.Length :: compare(key, a[k]) < 0
    {
      var range := last - first;
      var middle := first + range / 2;
      var cmp := compare(key, a[middle]);
      assert forall k | middle < k < a.Length :: LE(compare, a[..][middle], a[..][k]);
      assert forall k | 0 <= k < middle :: LE(compare, a[..][k], a[..][middle]);
      if cmp < 0 {
        last := middle;
      } else if cmp > 0 {
        first := middle + 1;
      } else {
        return Some(middle);
      }
    }
    return None;
  }
}
