/** What list_sort computes, on sequences: natural runs, merging two of them, one
    pass over all of them, and passes until one run is left. */
module NaturalMerge {

  // Less is a strict weak order on the elements of s.
  ghost predicate StrictWeakOn<X>(less: (X, X) -> bool, s: seq<X>)
  {
    && (forall a | a in s :: !less(a, a))
    && (forall a, b | a in s && b in s :: less(a, b) ==> !less(b, a))
    && (forall a, b, c | a in s && b in s && c in s :: !less(a, b) && !less(b, c) ==> !less(a, c))
  }

  ghost predicate Sorted<X>(less: (X, X) -> bool, s: seq<X>)
  {
    forall i, j | 0 <= i < j < |s| :: !less(s[j], s[i])
  }

  // The end of the nondecreasing run that contains position i - 1.
  ghost function RunEnd<X>(less: (X, X) -> bool, s: seq<X>, i: nat): (e: nat)
    requires 1 <= i <= |s|
    ensures i <= e <= |s|
    decreases |s| - i
  {
    if i == |s| || less(s[i], s[i - 1]) then i else RunEnd(less, s, i + 1)
  }

  ghost function FirstRun<X>(less: (X, X) -> bool, s: seq<X>): (e: nat)
    requires s != []
    ensures 1 <= e <= |s|
  {
    RunEnd(less, s, 1)
  }

  // The number of natural runs.
  ghost function Runs<X>(less: (X, X) -> bool, s: seq<X>): nat
    decreases |s|
  {
    if s == [] then 0 else 1 + Runs(less, s[FirstRun(less, s)..])
  }

  // Stable merge: the left element goes first unless the right one is smaller.
  ghost function Merge<X>(less: (X, X) -> bool, x: seq<X>, y: seq<X>): (m: seq<X>)
    ensures |m| == |x| + |y|
    decreases |x| + |y|
  {
    if x == [] then y
    else if y == [] then x
    else if !less(y[0], x[0]) then [x[0]] + Merge(less, x[1..], y)
    else [y[0]] + Merge(less, x, y[1..])
  }

  // One pass: merge neighbouring runs two by two.
  ghost function Pass<X>(less: (X, X) -> bool, s: seq<X>): (p: seq<X>)
    ensures |p| == |s|
    decreases |s|
  {
    if s == [] then []
    else
      var i := FirstRun(less, s);
      if i == |s| then s
      else
        var j := i + FirstRun(less, s[i..]);
        Merge(less, s[..i], s[i..j]) + Pass(less, s[j..])
  }

  // The number of runs that a pass counts as its output.
  ghost function PassCount<X>(less: (X, X) -> bool, s: seq<X>): nat
    decreases |s|
  {
    if s == [] then 0
    else
      var i := FirstRun(less, s);
      if i == |s| then 1 else 1 + PassCount(less, s[i + FirstRun(less, s[i..])..])
  }

  /* Order */

  lemma {:induction false} RunEndSorted<X>(less: (X, X) -> bool, s: seq<X>, i: nat)
    requires StrictWeakOn(less, s) && 1 <= i <= |s| && Sorted(less, s[..i])
    ensures Sorted(less, s[..RunEnd(less, s, i)])
    decreases |s| - i
  {
    if i < |s| && !less(s[i], s[i - 1]) {
      forall k | 0 <= k < i
        ensures !less(s[i], s[k])
      {
        assert !less(s[..i][i - 1], s[..i][k]) || k == i - 1;
      }
      var t := s[..i + 1];
      forall a, b | 0 <= a < b < |t|
        ensures !less(t[b], t[a])
      {
        assert b < i ==> s[..i][a] == s[a] && s[..i][b] == s[b];
      }
      RunEndSorted(less, s, i + 1);
    }
  }

  lemma FirstRunSorted<X>(less: (X, X) -> bool, s: seq<X>)
    requires StrictWeakOn(less, s) && s != []
    ensures Sorted(less, s[..FirstRun(less, s)])
  {
    RunEndSorted(less, s, 1);
  }

  lemma StrictWeakPart<X>(less: (X, X) -> bool, s: seq<X>, t: seq<X>)
    requires StrictWeakOn(less, s) && forall e | e in t :: e in s
    ensures StrictWeakOn(less, t)
  {}

  lemma ConsElements<X>(s: seq<X>)
    requires s != []
    ensures multiset(s) == multiset{s[0]} + multiset(s[1..])
  {
    assert s == [s[0]] + s[1..];
  }

  lemma {:induction false} MergeElements<X>(less: (X, X) -> bool, x: seq<X>, y: seq<X>)
    ensures multiset(Merge(less, x, y)) == multiset(x) + multiset(y)
    decreases |x| + |y|
  {
    if x != [] && y != [] {
      ConsElements(Merge(less, x, y));
      if !less(y[0], x[0]) {
        MergeElements(less, x[1..], y);
        ConsElements(x);
      } else {
        MergeElements(less, x, y[1..]);
        ConsElements(y);
      }
    }
  }

  lemma MergeMember<X>(less: (X, X) -> bool, x: seq<X>, y: seq<X>, e: X)
    requires e in Merge(less, x, y)
    ensures e in x || e in y
  {
    MergeElements(less, x, y);
    assert e in multiset(Merge(less, x, y));
  }

  // Everything in a sorted sequence is at least its head, and at least what the head is at least.
  lemma HeadLeast<X>(less: (X, X) -> bool, z: seq<X>, s: seq<X>, h: X)
    requires StrictWeakOn(less, z) && Sorted(less, s) && s != []
    requires h in z && !less(s[0], h) && forall e | e in s :: e in z
    ensures forall e | e in s :: !less(e, h)
  {
    forall e | e in s
      ensures !less(e, h)
    {
      var k :| 0 <= k < |s| && s[k] == e;
      assert s[0] in s;
      assert k > 0 ==> !less(s[k], s[0]);
    }
  }

  lemma SortedCons<X>(less: (X, X) -> bool, h: X, x: seq<X>, y: seq<X>)
    requires Sorted(less, Merge(less, x, y))
    requires forall e | e in x :: !less(e, h)
    requires forall e | e in y :: !less(e, h)
    ensures Sorted(less, [h] + Merge(less, x, y))
  {
    var t := Merge(less, x, y);
    forall i, j | 0 <= i < j < |t| + 1
      ensures !less(([h] + t)[j], ([h] + t)[i])
    {
      var e := t[j - 1];
      MergeMember(less, x, y, e);
      assert ([h] + t)[j] == e;
      if i > 0 {
        assert ([h] + t)[i] == t[i - 1] && !less(t[j - 1], t[i - 1]);
      }
    }
  }

  lemma {:induction false} MergeSorted<X>(less: (X, X) -> bool, x: seq<X>, y: seq<X>)
    requires StrictWeakOn(less, x + y) && Sorted(less, x) && Sorted(less, y)
    ensures Sorted(less, Merge(less, x, y))
    decreases |x| + |y|
  {
    if x != [] && y != [] {
      var z := x + y;
      assert x[0] in z && y[0] in z;
      if !less(y[0], x[0]) {
        StrictWeakPart(less, z, x[1..] + y);
        MergeSorted(less, x[1..], y);
        HeadLeast(less, z, x, x[0]);
        HeadLeast(less, z, y, x[0]);
        SortedCons(less, x[0], x[1..], y);
      } else {
        StrictWeakPart(less, z, x + y[1..]);
        MergeSorted(less, x, y[1..]);
        HeadLeast(less, z, x, y[0]);
        HeadLeast(less, z, y, y[0]);
        SortedCons(less, y[0], x, y[1..]);
      }
    }
  }

  /* Stability */

  predicate Equivalent<X>(less: (X, X) -> bool, a: X, b: X)
  {
    !less(a, b) && !less(b, a)
  }

  // The elements equivalent to e, in order.
  ghost function Class<X>(less: (X, X) -> bool, s: seq<X>, e: X): seq<X>
  {
    if s == [] then []
    else (if Equivalent(less, s[0], e) then [s[0]] else []) + Class(less, s[1..], e)
  }

  // Sorting kept the order of equivalent elements.
  ghost predicate StableOf<X>(less: (X, X) -> bool, s: seq<X>, t: seq<X>)
  {
    forall e {:trigger Class(less, s, e)} | e in s :: Class(less, t, e) == Class(less, s, e)
  }

  lemma {:induction false} ClassConcat<X>(less: (X, X) -> bool, s: seq<X>, t: seq<X>, e: X)
    ensures Class(less, s + t, e) == Class(less, s, e) + Class(less, t, e)
  {
    if s == [] {
      assert s + t == t;
    } else {
      ClassConcat(less, s[1..], t, e);
      assert (s + t)[1..] == s[1..] + t && (s + t)[0] == s[0];
      var h := if Equivalent(less, s[0], e) then [s[0]] else [];
      assert h + (Class(less, s[1..], e) + Class(less, t, e)) == (h + Class(less, s[1..], e)) + Class(less, t, e);
    }
  }

  lemma {:induction false} ClassEmpty<X>(less: (X, X) -> bool, s: seq<X>, e: X)
    requires forall a | a in s :: !Equivalent(less, a, e)
    ensures Class(less, s, e) == []
  {
    if s != [] {
      ClassEmpty(less, s[1..], e);
    }
  }

  lemma NotLessChain<X>(less: (X, X) -> bool, z: seq<X>, a: X, b: X, c: X, d: X)
    requires StrictWeakOn(less, z) && a in z && b in z && c in z && d in z
    requires !less(a, b) && !less(b, c) && !less(c, d)
    ensures !less(a, d)
  {}

  // Merging two sorted runs keeps equivalent elements in order, those of the left run first.
  lemma {:induction false} MergeStable<X>(less: (X, X) -> bool, x: seq<X>, y: seq<X>, e: X)
    requires StrictWeakOn(less, x + y) && Sorted(less, x) && Sorted(less, y) && e in x + y
    ensures Class(less, Merge(less, x, y), e) == Class(less, x, e) + Class(less, y, e)
    decreases |x| + |y|
  {
    MergeStableWithin(less, x + y, x, y, e);
  }

  lemma {:induction false} MergeStableWithin<X>(less: (X, X) -> bool, z: seq<X>, x: seq<X>, y: seq<X>, e: X)
    requires StrictWeakOn(less, z) && Sorted(less, x) && Sorted(less, y) && e in z
    requires forall a | a in x || a in y :: a in z
    ensures Class(less, Merge(less, x, y), e) == Class(less, x, e) + Class(less, y, e)
    decreases |x| + |y|
  {
    MergeHead(less, x, y);
    if x != [] && y != [] {
      hide *;
      if !less(y[0], x[0]) {
        TailSorted(less, x);
        MergeStableWithin(less, z, x[1..], y, e);
        ClassCons(less, x[0], Merge(less, x[1..], y), e);
        ClassCons(less, x[0], x[1..], e);
        assert [x[0]] + x[1..] == x;
      } else {
        TailSorted(less, y);
        MergeStableWithin(less, z, x, y[1..], e);
        if Equivalent(less, y[0], e) {
          NoneInLeft(less, z, x, y[0], e);
        }
        ClassCons(less, y[0], Merge(less, x, y[1..]), e);
        ClassCons(less, y[0], y[1..], e);
        assert [y[0]] + y[1..] == y;
      }
    }
  }

  lemma MergeHead<X>(less: (X, X) -> bool, x: seq<X>, y: seq<X>)
    ensures Merge(less, x, y) ==
      if x == [] then y else if y == [] then x
      else if !less(y[0], x[0]) then [x[0]] + Merge(less, x[1..], y) else [y[0]] + Merge(less, x, y[1..])
  {}

  lemma ClassCons<X>(less: (X, X) -> bool, h: X, t: seq<X>, e: X)
    ensures Class(less, [h] + t, e) == if Equivalent(less, h, e) then [h] + Class(less, t, e) else Class(less, t, e)
  {
    assert ([h] + t)[1..] == t;
  }

  lemma TailSorted<X>(less: (X, X) -> bool, s: seq<X>)
    requires Sorted(less, s) && s != []
    ensures Sorted(less, s[1..])
  {}

  // When the right head is smaller than the left head, its class is absent on the left.
  lemma NoneInLeft<X>(less: (X, X) -> bool, z: seq<X>, x: seq<X>, h: X, e: X)
    requires StrictWeakOn(less, z) && Sorted(less, x) && x != [] && forall a | a in x :: a in z
    requires h in z && e in z && less(h, x[0]) && Equivalent(less, h, e)
    ensures Class(less, x, e) == []
  {
    HeadLeast(less, z, x, x[0]);
    forall a | a in x
      ensures !Equivalent(less, a, e)
    {
      assert !less(a, x[0]);
      if Equivalent(less, a, e) {
        NotLessChain(less, z, h, e, a, x[0]);
        assert false;
      }
    }
    ClassEmpty(less, x, e);
  }

  /* Counting runs */

  lemma {:induction false} RunEndConcat<X>(less: (X, X) -> bool, a: seq<X>, b: seq<X>, i: nat)
    requires 1 <= i <= |a|
    ensures RunEnd(less, a + b, i) ==
      if RunEnd(less, a, i) < |a| || b == [] || less(b[0], a[|a| - 1]) then RunEnd(less, a, i)
      else |a| + FirstRun(less, b)
    decreases |a| - i
  {
    if i < |a| {
      assert (a + b)[i] == a[i] && (a + b)[i - 1] == a[i - 1];
      if !less(a[i], a[i - 1]) {
        RunEndConcat(less, a, b, i + 1);
      }
    } else if b == [] {
      assert a + b == a;
    } else if !less(b[0], a[|a| - 1]) {
      RunEndShift(less, a, b, 1);
    }
  }

  lemma {:induction false} RunEndShift<X>(less: (X, X) -> bool, a: seq<X>, b: seq<X>, i: nat)
    requires 1 <= i <= |b|
    ensures RunEnd(less, a + b, |a| + i) == |a| + RunEnd(less, b, i)
    decreases |b| - i
  {
    if i < |b| && !less(b[i], b[i - 1]) {
      RunEndShift(less, a, b, i + 1);
    }
  }

  // Putting two sequences together creates no new run.
  lemma {:induction false} RunsConcat<X>(less: (X, X) -> bool, a: seq<X>, b: seq<X>)
    ensures Runs(less, a + b) <= Runs(less, a) + Runs(less, b)
    decreases |a|
  {
    if a == [] {
      assert a + b == b;
    } else {
      RunEndConcat(less, a, b, 1);
      var r := FirstRun(less, a);
      if r < |a| {
        assert (a + b)[r..] == a[r..] + b;
        RunsConcat(less, a[r..], b);
      } else if b == [] {
        assert a + b == a;
      } else if less(b[0], a[|a| - 1]) {
        assert (a + b)[r..] == b;
      } else {
        assert (a + b)[|a| + FirstRun(less, b)..] == b[FirstRun(less, b)..];
      }
    }
  }

  lemma {:induction false} SortedRunEnd<X>(less: (X, X) -> bool, s: seq<X>, i: nat)
    requires Sorted(less, s) && 1 <= i <= |s|
    ensures RunEnd(less, s, i) == |s|
    decreases |s| - i
  {
    if i < |s| {
      SortedRunEnd(less, s, i + 1);
    }
  }

  lemma SortedIsOneRun<X>(less: (X, X) -> bool, s: seq<X>)
    requires Sorted(less, s)
    ensures Runs(less, s) <= 1
  {
    if s != [] {
      SortedRunEnd(less, s, 1);
      assert s[|s|..] == [];
    }
  }

  lemma MergeRuns<X>(less: (X, X) -> bool, s: seq<X>, i: nat, j: nat)
    requires StrictWeakOn(less, s) && s != [] && i == FirstRun(less, s) < |s| && j == i + FirstRun(less, s[i..])
    ensures i < j <= |s| && Sorted(less, s[..i]) && Sorted(less, s[i..j]) && StrictWeakOn(less, s[..i] + s[i..j])
    ensures StrictWeakOn(less, s[i..]) && StrictWeakOn(less, s[j..])
    ensures s == s[..i] + s[i..j] + s[j..]
  {
    hide *;
    CutInThree(s, i, j);
    FirstRunSorted(less, s);
    StrictWeakPart(less, s, s[i..]);
    FirstRunSorted(less, s[i..]);
    StrictWeakPart(less, s, s[j..]);
    StrictWeakPart(less, s, s[..i] + s[i..j]);
  }

  lemma CutInThree<X>(s: seq<X>, i: nat, j: nat)
    requires i <= j <= |s|
    ensures s == s[..i] + s[i..j] + s[j..] && s[i..][..j - i] == s[i..j]
    ensures (forall e | e in s[i..] :: e in s) && (forall e | e in s[j..] :: e in s)
    ensures forall e | e in s[..i] + s[i..j] :: e in s
  {}

  // A pass at least halves the number of runs, rounding up.
  lemma {:induction false} PassHalves<X>(less: (X, X) -> bool, s: seq<X>)
    requires StrictWeakOn(less, s)
    ensures Runs(less, Pass(less, s)) <= PassCount(less, s) == (Runs(less, s) + 1) / 2
    decreases |s|
  {
    if s != [] {
      var i := FirstRun(less, s);
      if i == |s| {
        assert s[i..] == [];
      } else {
        var j := i + FirstRun(less, s[i..]);
        MergeRuns(less, s, i, j);
        assert s[i..][j - i..] == s[j..];
        PassHalves(less, s[j..]);
        MergeSorted(less, s[..i], s[i..j]);
        SortedIsOneRun(less, Merge(less, s[..i], s[i..j]));
        RunsConcat(less, Merge(less, s[..i], s[i..j]), Pass(less, s[j..]));
      }
    }
  }

  lemma {:induction false} PassElements<X>(less: (X, X) -> bool, s: seq<X>)
    ensures multiset(Pass(less, s)) == multiset(s)
    decreases |s|
  {
    hide *;
    if s == [] || FirstRun(less, s) == |s| {
      PassWhole(less, s);
    } else {
      PassUnfold(less, s);
      var i := FirstRun(less, s);
      var j := i + FirstRun(less, s[i..]);
      PassElements(less, s[j..]);
      PassPart(less, s, i, j, Pass(less, s[j..]));
    }
  }

  lemma PassWhole<X>(less: (X, X) -> bool, s: seq<X>)
    requires s == [] || FirstRun(less, s) == |s|
    ensures Pass(less, s) == s
  {}

  lemma PassPart<X>(less: (X, X) -> bool, s: seq<X>, i: nat, j: nat, rest: seq<X>)
    requires i <= j <= |s| && multiset(rest) == multiset(s[j..])
    ensures multiset(Merge(less, s[..i], s[i..j]) + rest) == multiset(s)
  {
    MergeElements(less, s[..i], s[i..j]);
    ThreeParts(s, i, j);
    hide *;
  }

  lemma PassUnfold<X>(less: (X, X) -> bool, s: seq<X>)
    requires s != [] && FirstRun(less, s) < |s|
    ensures var i := FirstRun(less, s);
      var j := i + FirstRun(less, s[i..]);
      Pass(less, s) == Merge(less, s[..i], s[i..j]) + Pass(less, s[j..])
  {
    hide Merge, RunEnd;
  }

  lemma ThreeParts<X>(s: seq<X>, i: nat, j: nat)
    requires i <= j <= |s|
    ensures multiset(s) == multiset(s[..i]) + multiset(s[i..j]) + multiset(s[j..])
  {
    assert s == s[..i] + s[i..j] + s[j..];
  }

  lemma {:induction false} PassStable<X>(less: (X, X) -> bool, z: seq<X>, s: seq<X>, e: X)
    requires StrictWeakOn(less, z) && e in z && forall a | a in s :: a in z
    ensures Class(less, Pass(less, s), e) == Class(less, s, e)
    decreases |s|
  {
    if s != [] && FirstRun(less, s) < |s| {
      var i := FirstRun(less, s);
      var j := i + FirstRun(less, s[i..]);
      StrictWeakPart(less, z, s);
      MergeRuns(less, s, i, j);
      PassStable(less, z, s[j..], e);
      MergeStableWithin(less, z, s[..i], s[i..j], e);
      var m := Merge(less, s[..i], s[i..j]);
      ClassConcat(less, m, Pass(less, s[j..]), e);
      ClassConcat(less, s[..i], s[i..j], e);
      ClassConcat(less, s[..i] + s[i..j], s[j..], e);
    }
  }

  /* The whole sort */

  lemma PassKeepsOrder<X>(less: (X, X) -> bool, s: seq<X>)
    requires StrictWeakOn(less, s)
    ensures StrictWeakOn(less, Pass(less, s)) && forall e | e in Pass(less, s) :: e in s
  {
    PassElements(less, s);
    SameMembers(s, Pass(less, s));
    StrictWeakPart(less, s, Pass(less, s));
  }

  // Passes until the last one produced a single run.
  ghost function SortPasses<X>(less: (X, X) -> bool, s: seq<X>): seq<X>
    requires StrictWeakOn(less, s)
    decreases Runs(less, s)
  {
    PassKeepsOrder(less, s);
    PassHalves(less, s);
    hide *;
    if PassCount(less, s) <= 1 then Pass(less, s) else SortPasses(less, Pass(less, s))
  }

  lemma SameMembers<X>(s: seq<X>, t: seq<X>)
    requires multiset(s) == multiset(t)
    ensures forall e | e in t :: e in s
  {
    forall e | e in t
      ensures e in s
    {
      assert e in multiset(t);
    }
  }

  lemma OneRunIsSorted<X>(less: (X, X) -> bool, s: seq<X>)
    requires StrictWeakOn(less, s) && Runs(less, s) <= 1
    ensures Sorted(less, s)
  {
    if s != [] {
      var r := FirstRun(less, s);
      FirstRunSorted(less, s);
      assert Runs(less, s[r..]) == 0;
      assert s[..r] == s;
    }
  }

  // The result is sorted, holds the same elements, and keeps equivalent ones in order.
  lemma {:induction false} SortCorrect<X>(less: (X, X) -> bool, s: seq<X>)
    requires StrictWeakOn(less, s)
    ensures Sorted(less, SortPasses(less, s))
    ensures multiset(SortPasses(less, s)) == multiset(s)
    ensures StableOf(less, s, SortPasses(less, s))
    decreases Runs(less, s)
  {
    var p := Pass(less, s);
    PassHalves(less, s);
    PassElements(less, s);
    PassKeepsOrder(less, s);
    assert StableOf(less, s, p) by {
      forall e | e in s
        ensures Class(less, p, e) == Class(less, s, e)
      {
        PassStable(less, s, s, e);
      }
    }
    SortUnfold(less, s);
    if PassCount(less, s) <= 1 {
      hide *;
      OneRunIsSorted(less, p);
    } else {
      hide *;
      SortCorrect(less, p);
      SameMembers(p, s);
      StableTrans(less, s, p, SortPasses(less, p));
    }
  }

  lemma SortUnfold<X>(less: (X, X) -> bool, s: seq<X>)
    requires StrictWeakOn(less, s)
    ensures StrictWeakOn(less, Pass(less, s))
    ensures SortPasses(less, s) == if PassCount(less, s) <= 1 then Pass(less, s) else SortPasses(less, Pass(less, s))
    ensures PassCount(less, s) > 1 ==> Runs(less, Pass(less, s)) < Runs(less, s)
  {
    PassKeepsOrder(less, s);
    PassHalves(less, s);
    hide StrictWeakOn, Pass, PassCount, Runs;
  }

  lemma StableTrans<X>(less: (X, X) -> bool, s: seq<X>, t: seq<X>, u: seq<X>)
    requires StableOf(less, s, t) && StableOf(less, t, u) && forall e | e in s :: e in t
    ensures StableOf(less, s, u)
  {
    forall e | e in s
      ensures Class(less, u, e) == Class(less, s, e)
    {
      assert Class(less, t, e) == Class(less, s, e);
    }
  }
}
