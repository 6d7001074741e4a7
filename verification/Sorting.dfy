/** The sorts of the sorting project: quicksort, merge sort, and the hybrid whose insertion sort
    scans down to the start of the array rather than to the start of its range. Ranges are given
    by their first and last index, as in the source; specifications use half-open ranges. */
module Sorting {
  import opened Rearrangement

  ghost predicate Sorted(s: seq<int>, lo: int, hi: int)
  {
    forall i, j | 0 <= lo <= i < j < hi <= |s| :: s[i] <= s[j]
  }

  ghost predicate AtMost(s: seq<int>, lo: int, hi: int, x: int)
  {
    forall k | 0 <= lo <= k < hi <= |s| :: s[k] <= x
  }

  ghost predicate AtLeast(s: seq<int>, lo: int, hi: int, x: int)
  {
    forall k | 0 <= lo <= k < hi <= |s| :: x <= s[k]
  }

  // Everything left of lo is no greater than anything in [lo, hi).
  ghost predicate LeftBelow(s: seq<int>, lo: int, hi: int)
  {
    forall i | 0 <= i < lo <= |s| :: AtLeast(s, lo, hi, s[i])
  }

  // Bounds on a range do not depend on the order.
  lemma BoundsKept(s: seq<int>, t: seq<int>, lo: int, hi: int, lo': int, hi': int, x: int)
    requires Rearranged(s, t, lo, hi) && 0 <= lo' <= lo && hi <= hi' <= |s|
    ensures AtMost(s, lo', hi', x) ==> AtMost(t, lo', hi', x)
    ensures AtLeast(s, lo', hi', x) ==> AtLeast(t, lo', hi', x)
  {
    forall k | lo' <= k < hi'
      ensures exists i | lo' <= i < hi' :: t[k] == s[i]
    {
      if lo <= k < hi {
        var i := Inside(s, t, lo, hi, k);
      } else {
        Outside(s, t, lo, hi, k);
        assert t[k] == s[k];
      }
    }
  }

  lemma LeftBelowKept(s: seq<int>, t: seq<int>, lo: int, hi: int)
    requires Rearranged(s, t, lo, hi) && LeftBelow(s, lo, hi)
    ensures LeftBelow(t, lo, hi)
  {
    forall i | 0 <= i < lo
      ensures AtLeast(t, lo, hi, t[i])
    {
      Outside(s, t, lo, hi, i);
      BoundsKept(s, t, lo, hi, lo, hi, s[i]);
    }
  }

  // SWAP, within a range that so far was only rearranged
  method Swap(a: array<int>, i: int, j: int, ghost before: seq<int>, ghost lo: int, ghost hi: int)
    requires 0 <= lo <= i < hi <= a.Length && lo <= j < hi && Rearranged(before, a[..], lo, hi)
    modifies a
    ensures a[..] == Swapped(old(a[..]), i, j) && Rearranged(before, a[..], lo, hi)
  {
    ghost var s := a[..];
    a[i], a[j] := a[j], a[i];
    SwapRearranges(s, i, j, lo, hi);
    assert a[..] == Swapped(s, i, j);
    hide Swapped;
    Chain(before, s, a[..], lo, hi);
  }

  /* Partition */

  ghost predicate Split(s: seq<int>, lo: int, pivot: int, i: int, right: int)
  {
    && 0 <= lo <= pivot <= i <= right < |s|
    && (forall k | lo <= k < pivot :: s[k] < s[right])
    && (forall k | pivot <= k < i :: s[k] >= s[right])
  }

  lemma SplitStep(s: seq<int>, lo: int, pivot: int, i: int, right: int)
    requires Split(s, lo, pivot, i, right) && i < right
    ensures s[i] < s[right] ==> Split(Swapped(s, i, pivot), lo, pivot + 1, i + 1, right)
    ensures s[i] >= s[right] ==> Split(s, lo, pivot, i + 1, right)
  {}

  // Smaller elements left of the pivot, the others right of it.
  ghost predicate Parted(s: seq<int>, lo: int, pivot: int, hi: int)
  {
    && 0 <= lo <= pivot < hi <= |s|
    && (forall k | lo <= k < pivot :: s[k] < s[pivot])
    && (forall k | pivot < k < hi :: s[k] >= s[pivot])
  }

  lemma SplitEnd(s: seq<int>, lo: int, pivot: int, right: int)
    requires Split(s, lo, pivot, right, right)
    ensures Parted(Swapped(s, right, pivot), lo, pivot, right + 1)
  {}

  // partition, and lines 98-107 of custom_partition
  method Partition(a: array<int>, left: int, right: int) returns (pivot: int)
    requires 0 <= left <= right < a.Length
    modifies a
    ensures Rearranged(old(a[..]), a[..], left, right + 1) && Parted(a[..], left, pivot, right + 1)
  {
    hide Rearranged, Swapped;
    ghost var before := a[..];
    Same(before, left, right + 1);
    pivot := left;
    for i := left to right
      invariant left <= pivot <= i
      invariant Split(a[..], left, pivot, i, right)
      invariant Rearranged(before, a[..], left, right + 1)
    {
      ghost var s := a[..];
      SplitStep(s, left, pivot, i, right);
      hide Split;
      if a[i] < a[right] {
        Swap(a, i, pivot, before, left, right + 1);
        pivot := pivot + 1;
      }
    }
    SplitEnd(a[..], left, pivot, right);
    Swap(a, right, pivot, before, left, right + 1);
  }

  /* Putting sorted parts together */

  // s is parted; its left part is sorted into t and then its right part into u.
  ghost predicate Joined(s: seq<int>, t: seq<int>, u: seq<int>, lo: int, pivot: int, hi: int)
  {
    && Parted(s, lo, pivot, hi)
    && Rearranged(s, t, lo, pivot) && Sorted(t, lo, pivot)
    && Rearranged(t, u, pivot + 1, hi) && Sorted(u, pivot + 1, hi)
  }

  lemma JoinedBounds(s: seq<int>, t: seq<int>, lo: int, pivot: int, hi: int)
    requires Parted(s, lo, pivot, hi) && Rearranged(s, t, lo, pivot)
    ensures t[pivot] == s[pivot] && AtMost(t, lo, pivot, s[pivot]) && AtLeast(t, pivot + 1, hi, s[pivot])
  {
    BoundsKept(s, t, lo, pivot, lo, pivot, s[pivot]);
    forall k | pivot <= k < hi
      ensures t[k] == s[k]
    {
      Outside(s, t, lo, pivot, k);
    }
  }

  lemma JoinedSorted(s: seq<int>, t: seq<int>, u: seq<int>, lo: int, pivot: int, hi: int)
    requires Joined(s, t, u, lo, pivot, hi)
    ensures Sorted(u, lo, hi)
  {
    JoinedBounds(s, t, lo, pivot, hi);
    BoundsKept(t, u, pivot + 1, hi, pivot + 1, hi, s[pivot]);
    forall k | lo <= k <= pivot
      ensures u[k] == t[k]
    {
      Outside(t, u, pivot + 1, hi, k);
    }
    hide Rearranged;
  }

  lemma JoinedRearranged(s: seq<int>, t: seq<int>, u: seq<int>, lo: int, pivot: int, hi: int)
    requires Joined(s, t, u, lo, pivot, hi)
    ensures Rearranged(s, u, lo, hi)
  {
    Widen(s, t, lo, pivot, lo, hi);
    Widen(t, u, pivot + 1, hi, lo, hi);
    Chain(s, t, u, lo, hi);
  }

  // What the sorts of a part may rely on.
  lemma PartsAbove(s: seq<int>, t: seq<int>, lo: int, pivot: int, hi: int)
    requires Parted(s, lo, pivot, hi) && Rearranged(s, t, lo, pivot) && LeftBelow(s, lo, hi)
    ensures LeftBelow(s, lo, pivot) && LeftBelow(t, pivot + 1, hi)
  {
    JoinedBounds(s, t, lo, pivot, hi);
    Widen(s, t, lo, pivot, lo, hi);
    LeftBelowKept(s, t, lo, hi);
    hide Rearranged, Parted;
    forall i | 0 <= i < lo
      ensures AtLeast(s, lo, pivot, s[i])
    {
      assert AtLeast(s, lo, hi, s[i]);
    }
    forall i | 0 <= i < pivot + 1
      ensures AtLeast(t, pivot + 1, hi, t[i])
    {
      if i < lo {
        assert AtLeast(t, lo, hi, t[i]);
      }
    }
  }

  /* Quicksort */

  method QuickSort(a: array<int>, left: int, right: int)
    requires 0 <= left <= right + 1 <= a.Length
    modifies a
    ensures Sorted(a[..], left, right + 1) && Rearranged(old(a[..]), a[..], left, right + 1)
    decreases right - left + 1
  {
    hide Rearranged, Sorted;
    if left < right {
      var pivot := Partition(a, left, right);
      ghost var s := a[..];
      QuickSort(a, left, pivot - 1);
      ghost var t := a[..];
      QuickSort(a, pivot + 1, right);
      JoinedSorted(s, t, a[..], left, pivot, right + 1);
      JoinedRearranged(s, t, a[..], left, pivot, right + 1);
      Chain(old(a[..]), s, a[..], left, right + 1);
    } else {
      TrivialRange(a[..], left, right + 1);
    }
  }

  lemma TrivialRange(s: seq<int>, lo: int, hi: int)
    requires 0 <= lo <= hi <= |s| && hi <= lo + 1
    ensures Sorted(s, lo, hi) && Rearranged(s, s, lo, hi)
  {}

  /* Merge sort */

  // out holds the elements of s from left to a and from mid + 1 to b.
  ghost predicate Counts(s: seq<int>, out: seq<int>, left: int, a: int, mid: int, b: int)
  {
    && 0 <= left <= a <= mid + 1 <= b <= |s|
    && |out| == (a - left) + (b - (mid + 1))
    && multiset(out) == multiset(s[left..a]) + multiset(s[mid + 1..b])
  }

  // out is sorted, and nothing of it is greater than what is still to come.
  ghost predicate Ordered(s: seq<int>, out: seq<int>, a: int, mid: int, b: int, right: int)
  {
    && 0 <= a <= mid + 1 <= b <= right + 1 <= |s|
    && Sorted(out, 0, |out|)
    && (out != [] && a <= mid ==> out[|out| - 1] <= s[a])
    && (out != [] && b <= right ==> out[|out| - 1] <= s[b])
  }

  ghost predicate Merging(s: seq<int>, out: seq<int>, left: int, a: int, mid: int, b: int, right: int)
  {
    Counts(s, out, left, a, mid, b) && Ordered(s, out, a, mid, b, right)
  }

  ghost predicate Halves(s: seq<int>, left: int, mid: int, right: int)
  {
    0 <= left <= mid <= right < |s| && Sorted(s, left, mid + 1) && Sorted(s, mid + 1, right + 1)
  }

  lemma CountLeft(s: seq<int>, out: seq<int>, left: int, a: int, mid: int, b: int)
    requires Counts(s, out, left, a, mid, b) && a <= mid
    ensures Counts(s, out + [s[a]], left, a + 1, mid, b)
  {
    assert s[left..a + 1] == s[left..a] + [s[a]];
  }

  lemma CountRight(s: seq<int>, out: seq<int>, left: int, a: int, mid: int, b: int)
    requires Counts(s, out, left, a, mid, b) && b < |s|
    ensures Counts(s, out + [s[b]], left, a, mid, b + 1)
  {
    assert s[mid + 1..b + 1] == s[mid + 1..b] + [s[b]];
  }

  lemma TakeLeft(s: seq<int>, out: seq<int>, left: int, a: int, mid: int, b: int, right: int)
    requires Merging(s, out, left, a, mid, b, right) && Halves(s, left, mid, right)
    requires a <= mid && (b <= right ==> s[a] < s[b])
    ensures Merging(s, out + [s[a]], left, a + 1, mid, b, right)
  {
    CountLeft(s, out, left, a, mid, b);
    assert left <= a;
    hide Counts;
    assert a < mid ==> s[a] <= s[a + 1];
  }

  lemma TakeRight(s: seq<int>, out: seq<int>, left: int, a: int, mid: int, b: int, right: int)
    requires Merging(s, out, left, a, mid, b, right) && Halves(s, left, mid, right)
    requires b <= right && (a <= mid ==> s[a] >= s[b])
    ensures Merging(s, out + [s[b]], left, a, mid, b + 1, right)
  {
    CountRight(s, out, left, a, mid, b);
    hide Counts;
    assert b < right ==> s[b] <= s[b + 1];
  }

  lemma MergeDone(s: seq<int>, out: seq<int>, t: seq<int>, left: int, mid: int, right: int)
    requires Merging(s, out, left, mid + 1, mid, right + 1, right) && right < |s|
    requires t == Spliced(s, left, out, right)
    ensures Sorted(t, left, right + 1) && Rearranged(s, t, left, right + 1)
  {
    assert t[left..right + 1] == out;
    forall i, j | left <= i < j < right + 1
      ensures t[i] <= t[j]
    {
      assert t[i] == out[i - left] && t[j] == out[j - left];
    }
    assert s[left..right + 1] == s[left..mid + 1] + s[mid + 1..right + 1];
    assert t[..left] == s[..left] && t[right + 1..] == s[right + 1..];
  }

  ghost predicate Is(list: array<int>, s: seq<int>)
    reads list
  {
    list[..] == s
  }

  lemma IsNow(list: array<int>)
    ensures Is(list, list[..])
  {}

  lemma IsAt(list: array<int>, s: seq<int>, i: int)
    requires Is(list, s) && 0 <= i < |s|
    ensures i < list.Length && list[i] == s[i]
  {}

  // The buffer list2 from index left on.
  ghost predicate Holds(tmp: array<int>, left: int, out: seq<int>)
    reads tmp
  {
    0 <= left && left + |out| <= tmp.Length && tmp[left..left + |out|] == out
  }

  lemma HoldsNone(tmp: array<int>, left: int)
    requires 0 <= left <= tmp.Length
    ensures Holds(tmp, left, [])
  {}

  // list2[c] = x
  method Put(tmp: array<int>, left: int, c: int, x: int, ghost out: seq<int>)
    requires Holds(tmp, left, out) && c == left + |out| < tmp.Length
    modifies tmp
    ensures Holds(tmp, left, out + [x])
  {
    tmp[c] := x;
    assert tmp[left..c + 1] == tmp[left..c] + [x];
  }

  lemma MergeStart(s: seq<int>, left: int, mid: int, right: int)
    requires Halves(s, left, mid, right)
    ensures 0 <= left <= mid <= right < |s| && Merging(s, [], left, left, mid, mid + 1, right)
  {}

  lemma MergedLength(s: seq<int>, out: seq<int>, left: int, a: int, mid: int, b: int, right: int)
    requires Merging(s, out, left, a, mid, b, right)
    ensures |out| == (a - left) + (b - (mid + 1))
  {}

  method Merge(list: array<int>, left: int, mid: int, right: int, n: int)
    requires right <= n && Halves(list[..], left, mid, right)
    modifies list
    ensures Sorted(list[..], left, right + 1) && Rearranged(old(list[..]), list[..], left, right + 1)
  {
    hide *;
    ghost var s := list[..];
    MergeStart(s, left, mid, right);
    IsNow(list);
    var tmp := new int[n + 1];
    var a, b, c;
    ghost var out;
    a, b, c, out := Interleave(list, tmp, left, mid, right, s);
    if a > mid {
      out := CopyRight(list, tmp, left, a, mid, b, right, c, s, out);
    } else {
      out := CopyLeft(list, tmp, left, a, mid, b, right, c, s, out);
    }
    MergedLength(s, out, left, mid + 1, mid, right + 1, right);
    CopyBack(list, tmp, left, right, s, out);
    MergeDone(s, out, list[..], left, mid, right);
  }

  // Lines 31-42 of merge.
  method Interleave(list: array<int>, tmp: array<int>, left: int, mid: int, right: int, ghost s: seq<int>)
      returns (a: int, b: int, c: int, ghost out: seq<int>)
    requires right < tmp.Length && list != tmp && Is(list, s) && Halves(s, left, mid, right)
    modifies tmp
    ensures 0 <= left <= a <= mid + 1 <= b <= right + 1 && (a > mid || b > right)
    ensures Merging(s, out, left, a, mid, b, right) && Holds(tmp, left, out) && c == left + |out|
  {
    hide *;
    MergeStart(s, left, mid, right);
    HoldsNone(tmp, left);
    a, b, c, out := left, mid + 1, left, [];
    while a <= mid && b <= right
      invariant 0 <= left <= a <= mid + 1 <= b <= right + 1 && c == left + |out|
      invariant Merging(s, out, left, a, mid, b, right) && Holds(tmp, left, out)
    {
      MergedLength(s, out, left, a, mid, b, right);
      IsAt(list, s, a);
      IsAt(list, s, b);
      if list[a] < list[b] {
        TakeLeft(s, out, left, a, mid, b, right);
        Put(tmp, left, c, list[a], out);
        out := out + [s[a]];
        a, c := a + 1, c + 1;
      } else {
        TakeRight(s, out, left, a, mid, b, right);
        Put(tmp, left, c, list[b], out);
        out := out + [s[b]];
        b, c := b + 1, c + 1;
      }
    }
  }

  // Lines 45-47 of merge: what is left of the right half.
  method CopyRight(list: array<int>, tmp: array<int>, left: int, a: int, mid: int, b: int, right: int, c0: int,
                   ghost s: seq<int>, ghost out0: seq<int>) returns (ghost out: seq<int>)
    requires 0 <= left <= a <= mid + 1 <= b <= right + 1 && a > mid && right < tmp.Length && right < |s|
    requires Is(list, s) && list != tmp
    requires Halves(s, left, mid, right)
    requires Merging(s, out0, left, a, mid, b, right) && Holds(tmp, left, out0) && c0 == left + |out0|
    modifies tmp
    ensures Merging(s, out, left, mid + 1, mid, right + 1, right) && Holds(tmp, left, out)
  {
    hide *;
    var c := c0;
    out := out0;
    for i := b to right + 1
      invariant c == left + |out| && Merging(s, out, left, a, mid, i, right) && Holds(tmp, left, out)
    {
      MergedLength(s, out, left, a, mid, i, right);
      TakeRight(s, out, left, a, mid, i, right);
      IsAt(list, s, i);
      Put(tmp, left, c, list[i], out);
      out := out + [s[i]];
      c := c + 1;
    }
  }

  // Lines 50-52 of merge: what is left of the left half.
  method CopyLeft(list: array<int>, tmp: array<int>, left: int, a: int, mid: int, b: int, right: int, c0: int,
                  ghost s: seq<int>, ghost out0: seq<int>) returns (ghost out: seq<int>)
    requires 0 <= left <= a <= mid + 1 <= b <= right + 1 && b > right && right < tmp.Length && right < |s|
    requires Is(list, s) && list != tmp
    requires Halves(s, left, mid, right)
    requires Merging(s, out0, left, a, mid, b, right) && Holds(tmp, left, out0) && c0 == left + |out0|
    modifies tmp
    ensures Merging(s, out, left, mid + 1, mid, right + 1, right) && Holds(tmp, left, out)
  {
    hide *;
    var c := c0;
    out := out0;
    for i := a to mid + 1
      invariant c == left + |out| && Merging(s, out, left, i, mid, b, right) && Holds(tmp, left, out)
    {
      MergedLength(s, out, left, i, mid, b, right);
      TakeLeft(s, out, left, i, mid, b, right);
      IsAt(list, s, i);
      Put(tmp, left, c, list[i], out);
      out := out + [s[i]];
      c := c + 1;
    }
  }

  function Spliced(s: seq<int>, left: int, out: seq<int>, right: int): seq<int>
    requires 0 <= left <= right + 1 <= |s|
  {
    s[..left] + out + s[right + 1..]
  }

  // Lines 55-57 of merge.
  method CopyBack(list: array<int>, tmp: array<int>, left: int, right: int, ghost s: seq<int>, ghost out: seq<int>)
    requires 0 <= left <= right + 1 <= list.Length == |s| && list != tmp
    requires Holds(tmp, left, out) && |out| == right + 1 - left && Is(list, s)
    modifies list
    ensures list[..] == Spliced(s, left, out, right)
  {
    for i := left to right + 1
      invariant list[..] == s[..left] + out[..i - left] + s[i..]
    {
      assert tmp[i] == out[i - left];
      list[i] := tmp[i];
      assert out[..i + 1 - left] == out[..i - left] + [out[i - left]];
    }
  }

  method MergeSort(list: array<int>, left: int, right: int, n: int)
    requires 0 <= left <= right + 1 <= list.Length && right <= n
    modifies list
    ensures Sorted(list[..], left, right + 1) && Rearranged(old(list[..]), list[..], left, right + 1)
    decreases right - left + 1
  {
    hide *;
    if left < right {
      var mid := (left + right) / 2;
      ghost var s := list[..];
      MergeSort(list, left, mid, n);
      ghost var t := list[..];
      MergeSort(list, mid + 1, right, n);
      ghost var u := list[..];
      HalvesSorted(s, t, u, left, mid, right);
      Merge(list, left, mid, right, n);
      Chain(s, u, list[..], left, right + 1);
    } else {
      TrivialRange(list[..], left, right + 1);
    }
  }

  lemma HalvesSorted(s: seq<int>, t: seq<int>, u: seq<int>, left: int, mid: int, right: int)
    requires 0 <= left <= mid <= right < |s| && Rearranged(s, t, left, mid + 1) && Sorted(t, left, mid + 1)
    requires Rearranged(t, u, mid + 1, right + 1) && Sorted(u, mid + 1, right + 1)
    ensures Halves(u, left, mid, right) && Rearranged(s, u, left, right + 1)
  {
    assert |s| == |t| == |u|;
    Widen(s, t, left, mid + 1, left, right + 1);
    Widen(t, u, mid + 1, right + 1, left, right + 1);
    Chain(s, t, u, left, right + 1);
    hide Rearranged;
    forall k | left <= k <= mid
      ensures u[k] == t[k]
    {
      Outside(t, u, mid + 1, right + 1, k);
    }
  }

  /* The hybrid sort */

  function Median(x: int, y: int, z: int): int
  {
    if x <= y then (if y <= z then y else if x <= z then z else x)
    else if x <= z then x
    else if y <= z then z else y
  }

  // middle. The value it picks is the median of the three except in one family of inputs: there
  // the source tests the same condition twice and falls through to the smallest of the three.
  method Middle(a: array<int>, left: int, right: int) returns (index: int)
    requires 0 <= left <= right < a.Length
    ensures left <= index <= right
    ensures var m := (left + right) / 2;
      a[index] == Median(a[left], a[m], a[right]) <==> !(a[left] < a[m] <= a[right])
  {
    var middle := (left + right) / 2;
    if a[left] > a[right] {
      if a[middle] > a[left] {
        return left;
      } else if a[middle] > a[right] {
        return middle;
      } else {
        return right;
      }
    } else if a[middle] > a[right] {
      return right;
    } else if a[middle] > a[right] {
      return middle;
    } else {
      return left;
    }
  }

  method CustomPartition(a: array<int>, left: int, right: int) returns (pivot: int)
    requires 0 <= left <= right < a.Length
    modifies a
    ensures Rearranged(old(a[..]), a[..], left, right + 1) && Parted(a[..], left, pivot, right + 1)
  {
    hide Rearranged, Parted;
    ghost var before := a[..];
    Same(before, left, right + 1);
    var m := Middle(a, left, right);
    Swap(a, m, right, before, left, right + 1);
    ghost var s := a[..];
    pivot := Partition(a, left, right);
    Chain(before, s, a[..], left, right + 1);
  }

  // The element at index k moved down to index b.
  function Inserted(s: seq<int>, b: int, k: int): seq<int>
    requires 0 <= b <= k < |s|
  {
    s[..b] + [s[k]] + s[b..k] + s[k + 1..]
  }

  lemma InsertRearranges(s: seq<int>, b: int, k: int, lo: int, hi: int)
    requires 0 <= lo <= b <= k < hi <= |s|
    ensures Rearranged(s, Inserted(s, b, k), lo, hi)
  {
    var t := Inserted(s, b, k);
    assert s[b..k + 1] == s[b..k] + [s[k]];
    assert t[b..k + 1] == [s[k]] + s[b..k];
    assert Rearranged(s, t, b, k + 1);
    Widen(s, t, b, k + 1, lo, hi);
  }

  lemma InsertSorts(s: seq<int>, lo: int, b: int, k: int)
    requires 0 <= lo <= b <= k < |s| && Sorted(s, lo, k)
    requires forall i | b <= i < k :: s[i] > s[k]
    requires b > lo ==> s[b - 1] <= s[k]
    ensures Sorted(Inserted(s, b, k), lo, k + 1)
  {}

  lemma InsertedIs(s: seq<int>, t: seq<int>, b: int, k: int)
    requires 0 <= b <= k < |s| == |t| && t[b] == s[k]
    requires forall i | 0 <= i < b || k < i < |s| :: t[i] == s[i]
    requires forall i | b < i <= k :: t[i] == s[i - 1]
    ensures t == Inserted(s, b, k)
  {}

  lemma BelowFits(s: seq<int>, lo: int, hi: int, b: int, k: int)
    requires LeftBelow(s, lo, hi) && 0 <= b < |s| && 0 <= lo <= k < hi <= |s|
    ensures b < lo ==> s[b] <= s[k]
  {
    assert b < lo ==> AtLeast(s, lo, hi, s[b]);
  }

  // One round of insertion_sort: the inner loop stops by itself at the left end of the range,
  // although its own bound is index 0.
  method InsertOne(a: array<int>, k: int, ghost lo: int, ghost hi: int) returns (ghost at: int)
    requires 0 <= lo <= k < hi <= a.Length && LeftBelow(a[..], lo, hi)
    modifies a
    ensures lo <= at <= k && a[..] == Inserted(old(a[..]), at, k)
    ensures forall i | at <= i < k :: old(a[i]) > old(a[k])
    ensures at > lo ==> old(a[at - 1]) <= old(a[k])
  {
    hide *;
    ghost var s := a[..];
    var c, b := a[k], k - 1;
    while b >= 0 && a[b] > c
      invariant lo - 1 <= b < k
      invariant forall i | 0 <= i <= b + 1 :: a[i] == s[i]
      invariant forall i | b + 1 < i <= k :: a[i] == s[i - 1]
      invariant forall i | k < i < a.Length :: a[i] == s[i]
      invariant forall i | b < i < k :: s[i] > c
      decreases b
    {
      BelowFits(s, lo, hi, b, k);
      a[b + 1] := a[b];
      b := b - 1;
    }
    a[b + 1] := c;
    at := b + 1;
    InsertedIs(s, a[..], at, k);
  }

  /** insertion_sort on a range whose left neighbours are no greater than its elements. */
  method InsertionSort(a: array<int>, left: int, right: int)
    requires 0 <= left <= right + 1 <= a.Length && LeftBelow(a[..], left, right + 1)
    modifies a
    ensures Sorted(a[..], left, right + 1) && Rearranged(old(a[..]), a[..], left, right + 1)
  {
    hide Rearranged, LeftBelow, Inserted;
    ghost var before := a[..];
    Same(before, left, right + 1);
    for k := left to right + 1
      invariant Sorted(a[..], left, k)
      invariant Rearranged(before, a[..], left, right + 1)
    {
      ghost var s := a[..];
      LeftBelowKept(before, s, left, right + 1);
      ghost var at := InsertOne(a, k, left, right + 1);
      InsertSorts(s, left, at, k);
      InsertRearranges(s, at, k, left, right + 1);
      Chain(before, s, a[..], left, right + 1);
    }
  }

  /** custom_sort, on every range it calls itself on. */
  method CustomSort(a: array<int>, left: int, right: int)
    requires 0 <= left <= right + 1 <= a.Length && LeftBelow(a[..], left, right + 1)
    modifies a
    ensures Sorted(a[..], left, right + 1) && Rearranged(old(a[..]), a[..], left, right + 1)
    decreases right - left + 1
  {
    hide Rearranged, Sorted, LeftBelow;
    if left < right {
      if right - left < 10 {
        InsertionSort(a, left, right);
      } else {
        var pivot := CustomPartition(a, left, right);
        ghost var s := a[..];
        LeftBelowKept(old(a[..]), s, left, right + 1);
        Same(s, left, pivot);
        PartsAbove(s, s, left, pivot, right + 1);
        CustomSort(a, left, pivot - 1);
        ghost var t := a[..];
        PartsAbove(s, t, left, pivot, right + 1);
        CustomSort(a, pivot + 1, right);
        JoinedSorted(s, t, a[..], left, pivot, right + 1);
        JoinedRearranged(s, t, a[..], left, pivot, right + 1);
        Chain(old(a[..]), s, a[..], left, right + 1);
      }
    } else {
      TrivialRange(a[..], left, right + 1);
    }
  }

  /** custom_sort of the whole array needs nothing of its caller: it sorts any array. */
  method CustomSortAll(a: array<int>)
    modifies a
    ensures Sorted(a[..], 0, a.Length) && multiset(a[..]) == multiset(old(a[..]))
  {
    CustomSort(a, 0, a.Length - 1);
    assert a[0..a.Length] == a[..] && old(a[0..a.Length]) == old(a[..]);
  }
}
