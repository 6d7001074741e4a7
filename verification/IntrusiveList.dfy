/** The intrusive doubly linked list of Project_01/list.c. Elements carry their own
    links; a list owns a head and a tail element that are never removed. The
    comparison function looks only at what an element stands for, so it is a
    pure function of two elements. */
module IntrusiveList {
  import opened NaturalMerge

  class Elem {
    var prev: Elem?
    var next: Elem?

    constructor ()
      ensures prev == null && next == null
    {
      prev, next := null, null;
    }
  }

  ghost predicate Link(ns: seq<Elem>, i: nat)
    requires i + 1 < |ns|
    reads ns
  {
    ns[i].next == ns[i + 1] && ns[i + 1].prev == ns[i]
  }

  // Distinct elements, each linked to its neighbours in both directions.
  ghost predicate Chain(ns: seq<Elem>)
    reads ns
  {
    && (forall i: nat {:trigger Link(ns, i)} | i + 1 < |ns| :: Link(ns, i))
    && Distinct(ns)
  }

  ghost predicate Distinct(ns: seq<Elem>)
  {
    forall i, j | 0 <= i < j < |ns| :: ns[i] != ns[j]
  }

  // ns with the stretch [j, k) moved in front of position i.
  ghost function SpliceOf<X>(ns: seq<X>, i: nat, j: nat, k: nat): (r: seq<X>)
    requires i <= j <= k <= |ns|
    ensures |r| == |ns|
  {
    ns[..i] + ns[j..k] + ns[i..j] + ns[k..]
  }

  // Where position t of the spliced sequence comes from.
  ghost function Source(i: nat, j: nat, k: nat, t: nat): nat
    requires i <= j <= k
  {
    if t < i || t >= k then t else if t < i + (k - j) then j + (t - i) else t - (k - j)
  }

  lemma SpliceAt<X>(ns: seq<X>, i: nat, j: nat, k: nat, t: nat)
    requires i <= j <= k <= |ns| && t < |ns|
    ensures Source(i, j, k, t) < |ns| && SpliceOf(ns, i, j, k)[t] == ns[Source(i, j, k, t)]
  {}

  lemma SpliceDistinct(ns: seq<Elem>, i: nat, j: nat, k: nat)
    requires i <= j <= k <= |ns| && Distinct(ns)
    ensures Distinct(SpliceOf(ns, i, j, k))
  {
    var r := SpliceOf(ns, i, j, k);
    forall a, b | 0 <= a < b < |r|
      ensures r[a] != r[b]
    {
      SpliceAt(ns, i, j, k, a);
      SpliceAt(ns, i, j, k, b);
    }
  }

  // All nodes lie in the footprint repr.
  ghost predicate Inside(ns: seq<Elem>, repr: set<Elem>)
  {
    forall i | 0 <= i < |ns| :: ns[i] in repr
  }

  lemma SpliceInside(ns: seq<Elem>, i: nat, j: nat, k: nat, repr: set<Elem>)
    requires i <= j <= k <= |ns| && Inside(ns, repr)
    ensures Inside(SpliceOf(ns, i, j, k), repr)
  {}

  // list_splice within one chain: [first, last) moves in front of an earlier element.
  method Splice(before: Elem, first: Elem, last0: Elem,
                ghost ns: seq<Elem>, ghost i: nat, ghost j: nat, ghost k: nat, ghost repr: set<Elem>)
    requires Chain(ns) && Inside(ns, repr) && 1 <= i < j <= k < |ns|
    requires before == ns[i] && first == ns[j] && last0 == ns[k]
    modifies repr
    ensures Chain(SpliceOf(ns, i, j, k)) && Inside(SpliceOf(ns, i, j, k), repr)
    ensures ns[0].prev == old(ns[0].prev) && ns[|ns| - 1].next == old(ns[|ns| - 1].next)
  {
    if first == last0 {
      assert SpliceOf(ns, i, j, k) == ns;
      return;
    }
    assert Link(ns, k - 1) && Link(ns, j - 1) && Link(ns, i - 1);
    hide SpliceOf;
    var last := last0.prev;
    first.prev.next := last.next;
    last.next.prev := first.prev;
    first.prev := before.prev;
    last.next := before;
    before.prev.next := first;
    before.prev := last;
    SpliceInside(ns, i, j, k, repr);
    forall u: nat | u + 1 < |ns|
      ensures Relinked(ns, i, j, k, u)
    {
      assert old(Link(ns, u));
    }
    SpliceLinks(ns, i, j, k);
  }

  // The links between u and u + 1 after [j, k) moved in front of i: where the changed ones lead, or as in ns.
  ghost predicate Relinked(ns: seq<Elem>, i: nat, j: nat, k: nat, u: nat)
    reads ns
  {
    && 1 <= i < j < k < |ns| && u + 1 < |ns|
    && ns[u].next == ns[if u == i - 1 then j else if u == j - 1 then k else if u == k - 1 then i else u + 1]
    && ns[u + 1].prev == ns[if u + 1 == j then i - 1 else if u + 1 == i then k - 1 else if u + 1 == k then j - 1 else u]
  }

  lemma SpliceLinks(ns: seq<Elem>, i: nat, j: nat, k: nat)
    requires Distinct(ns) && 1 <= i < j < k < |ns|
    requires forall u: nat | u + 1 < |ns| :: Relinked(ns, i, j, k, u)
    ensures Chain(SpliceOf(ns, i, j, k))
  {
    var r := SpliceOf(ns, i, j, k);
    SpliceDistinct(ns, i, j, k);
    hide SpliceOf, Distinct;
    forall t: nat | t + 1 < |r|
      ensures Link(r, t)
    {
      SpliceAt(ns, i, j, k, t);
      SpliceAt(ns, i, j, k, t + 1);
      var u, v := Source(i, j, k, t), Source(i, j, k, t + 1);
      assert u + 1 < |ns| ==> Relinked(ns, i, j, k, u);
      assert v > 0 ==> Relinked(ns, i, j, k, v - 1);
    }
  }

  // list_next and list_prev along a chain.
  lemma Along(ns: seq<Elem>, i: nat)
    requires Chain(ns) && i + 1 < |ns|
    ensures ns[i].next == ns[i + 1] && ns[i + 1].prev == ns[i]
  {
    assert Link(ns, i);
  }

  lemma SameElem(ns: seq<Elem>, i: nat, j: nat)
    requires Distinct(ns) && i < |ns| && j < |ns|
    ensures ns[i] == ns[j] <==> i == j
  {}

  // find_end_of_run on the stretch [i, e) of a chain.
  method FindEndOfRun(a0: Elem, b: Elem, less: (Elem, Elem) -> bool, ghost ns: seq<Elem>, ghost i: nat, ghost e: nat)
      returns (a: Elem, ghost r: nat)
    requires Chain(ns) && i < e < |ns| && a0 == ns[i] && b == ns[e]
    ensures r == i + FirstRun(less, ns[i..e]) && i < r <= e && a == ns[r]
  {
    ghost var s := ns[i..e];
    Along(ns, i);
    a, r := a0.next, i + 1;
    SameElem(ns, r, e);
    while a != b && !less(a, a.prev)
      invariant i < r <= e && a == ns[r] && (a == b <==> r == e) && a.prev == ns[r - 1]
      invariant RunEnd(less, s, 1) == RunEnd(less, s, r - i)
      decreases e - r
    {
      assert s[r - i] == ns[r] && s[r - i - 1] == ns[r - 1];
      Along(ns, r);
      a, r := a.next, r + 1;
      SameElem(ns, r, e);
    }
    assert r < e ==> s[r - i] == ns[r] && s[r - i - 1] == ns[r - 1];
  }

  // One step of the merge that takes the right head: it moves in front of the left run.
  lemma MergeMove<X>(less: (X, X) -> bool, ns: seq<X>, i: nat, m: nat, e: nat)
    requires i < m < e <= |ns| && less(ns[m], ns[i])
    ensures var r := SpliceOf(ns, i, m, m + 1);
      && r[..i] == ns[..i] && r[i] == ns[m] && r[e..] == ns[e..]
      && [r[i]] + Merge(less, r[i + 1..m + 1], r[m + 1..e]) == Merge(less, ns[i..m], ns[m..e])
  {
    var r := SpliceOf(ns, i, m, m + 1);
    assert r[i + 1..m + 1] == ns[i..m] && r[m + 1..e] == ns[m + 1..e] == ns[m..e][1..];
  }

  lemma MergeStay<X>(less: (X, X) -> bool, ns: seq<X>, i: nat, m: nat, e: nat)
    requires i < m < e <= |ns| && !less(ns[m], ns[i])
    ensures [ns[i]] + Merge(less, ns[i + 1..m], ns[m..e]) == Merge(less, ns[i..m], ns[m..e])
  {
    assert ns[i..m][1..] == ns[i + 1..m];
  }

  // The nodes after merging the stretches [i, m) and [m, e).
  ghost function Merged<X>(less: (X, X) -> bool, ns: seq<X>, i: nat, m: nat, e: nat): (r: seq<X>)
    requires i <= m <= e <= |ns|
    ensures |r| == |ns|
  {
    ns[..i] + Merge(less, ns[i..m], ns[m..e]) + ns[e..]
  }

  lemma MergedMove<X>(less: (X, X) -> bool, ns: seq<X>, i: nat, m: nat, e: nat)
    requires i < m < e <= |ns| && less(ns[m], ns[i])
    ensures Merged(less, SpliceOf(ns, i, m, m + 1), i + 1, m + 1, e) == Merged(less, ns, i, m, e)
  {
    MergeMove(less, ns, i, m, e);
    var r := SpliceOf(ns, i, m, m + 1);
    assert r[..i + 1] == ns[..i] + [r[i]];
    var t := Merge(less, r[i + 1..m + 1], r[m + 1..e]);
    assert (ns[..i] + [r[i]]) + t + ns[e..] == ns[..i] + ([r[i]] + t) + ns[e..];
  }

  lemma MergedStay<X>(less: (X, X) -> bool, ns: seq<X>, i: nat, m: nat, e: nat)
    requires i < m < e <= |ns| && !less(ns[m], ns[i])
    ensures Merged(less, ns, i + 1, m, e) == Merged(less, ns, i, m, e)
  {
    MergeStay(less, ns, i, m, e);
    var t := Merge(less, ns[i + 1..m], ns[m..e]);
    assert ns[..i + 1] == ns[..i] + [ns[i]];
    assert (ns[..i] + [ns[i]]) + t + ns[e..] == ns[..i] + ([ns[i]] + t) + ns[e..];
  }

  lemma MergedDone<X>(less: (X, X) -> bool, ns: seq<X>, i: nat, m: nat, e: nat)
    requires i <= m <= e <= |ns| && (i == m || m == e)
    ensures Merged(less, ns, i, m, e) == ns
  {
    assert i == m ==> ns[i..m] == [];
    assert m == e ==> ns[m..e] == [];
    assert ns[..i] + ns[i..e] + ns[e..] == ns;
  }

  // Positions after one element moved from m to i.
  lemma MovedOne<X>(ns: seq<X>, i: nat, m: nat, e: nat)
    requires 1 <= i < m < e < |ns|
    ensures var r := SpliceOf(ns, i, m, m + 1);
      r[0] == ns[0] && r[|ns| - 1] == ns[|ns| - 1] && r[i + 1] == ns[i] && r[m + 1] == ns[m + 1] && r[e] == ns[e]
  {}

  // inplace_merge of the stretches [i, m) and [m, e) of a chain.
  method InplaceMerge(a: Elem, ab: Elem, b1: Elem, less: (Elem, Elem) -> bool,
                      ghost ns0: seq<Elem>, ghost i0: nat, ghost m0: nat, ghost e: nat, ghost repr: set<Elem>)
      returns (ghost ns: seq<Elem>)
    requires Chain(ns0) && Inside(ns0, repr) && 1 <= i0 < m0 < e < |ns0| && a == ns0[i0] && ab == ns0[m0]
    requires b1 == ns0[e]
    modifies repr
    ensures ns == Merged(less, ns0, i0, m0, e) && Chain(ns) && Inside(ns, repr)
    ensures ns0[0].prev == old(ns0[0].prev) && ns0[|ns0| - 1].next == old(ns0[|ns0| - 1].next)
  {
    var a0, a1b0 := a, ab;
    ghost var i, m := i0, m0;
    ns := ns0;
    hide SpliceOf, Merged, Distinct, Inside;
    while a0 != a1b0 && a1b0 != b1
      invariant 1 <= i <= m <= e < |ns| == |ns0| && a0 == ns[i] && a1b0 == ns[m] && b1 == ns[e]
      invariant Chain(ns) && Inside(ns, repr)
      invariant ns[0] == ns0[0] && ns[|ns| - 1] == ns0[|ns| - 1]
      invariant Merged(less, ns, i, m, e) == Merged(less, ns0, i0, m0, e)
      invariant ns0[0].prev == old(ns0[0].prev) && ns0[|ns0| - 1].next == old(ns0[|ns0| - 1].next)
      decreases e - i
    {
      SameElem(ns, i, m);
      SameElem(ns, m, e);
      if !less(a1b0, a0) {
        MergedStay(less, ns, i, m, e);
        Along(ns, i);
        a0, i := a0.next, i + 1;
      } else {
        MergedMove(less, ns, i, m, e);
        Along(ns, m);
        MovedOne(ns, i, m, e);
        a1b0 := a1b0.next;
        Splice(a0, a1b0.prev, a1b0, ns, i, m, m + 1, repr);
        ns := SpliceOf(ns, i, m, m + 1);
        i, m := i + 1, m + 1;
      }
    }
    SameElem(ns, i, m);
    SameElem(ns, m, e);
    MergedDone(less, ns, i, m, e);
  }

  ghost function Framed(h: Elem, done: seq<Elem>, rest: seq<Elem>, t: Elem): seq<Elem>
  {
    [h] + (done + rest) + [t]
  }

  lemma FramedAt(h: Elem, done: seq<Elem>, rest: seq<Elem>, t: Elem, r: nat)
    requires r <= |rest|
    ensures var ns := Framed(h, done, rest, t);
      && |ns| == |done| + |rest| + 2 && ns[0] == h && ns[|ns| - 1] == t
      && (r < |rest| ==> ns[|done| + 1 + r] == rest[r])
      && (r == |rest| ==> ns[|done| + 1 + r] == t)
  {}

  // The part of the nodes that is still to be merged.
  lemma FramedRest(h: Elem, done: seq<Elem>, rest: seq<Elem>, t: Elem, r: nat)
    requires r <= |rest|
    ensures |Framed(h, done, rest, t)| == |done| + |rest| + 2
    ensures Framed(h, done, rest, t)[|done| + 1 + r..|done| + |rest| + 1] == rest[r..]
    ensures r == 0 ==> rest[r..] == rest
  {}

  lemma FramedMerge(less: (Elem, Elem) -> bool, h: Elem, done: seq<Elem>, rest: seq<Elem>, t: Elem, i: nat, j: nat)
    requires i <= j <= |rest|
    ensures var p := |done| + 1;
      Merged(less, Framed(h, done, rest, t), p, p + i, p + j)
      == Framed(h, done + Merge(less, rest[..i], rest[i..j]), rest[j..], t)
  {
    var ns, p := Framed(h, done, rest, t), |done| + 1;
    assert ns[..p] == [h] + done;
    assert ns[p..p + i] == rest[..i] && ns[p + i..p + j] == rest[i..j];
    assert ns[p + j..] == rest[j..] + [t];
    hide Merge;
    Regroup([h], done, Merge(less, rest[..i], rest[i..j]), rest[j..], [t]);
  }

  lemma Regroup<X>(a: seq<X>, b: seq<X>, c: seq<X>, d: seq<X>, e: seq<X>)
    ensures (a + b) + c + (d + e) == a + ((b + c) + d) + e
  {}

  lemma ChainEnd(ns: seq<Elem>, m: nat)
    requires Chain(ns) && m < |ns|
    ensures ns[m] == ns[|ns| - 1] <==> m == |ns| - 1
  {}

  lemma DoneAll(h: Elem, done: seq<Elem>, rest: seq<Elem>, t: Elem)
    ensures Framed(h, done + rest, [], t) == Framed(h, done, rest, t)
  {}

  lemma PassStep(less: (Elem, Elem) -> bool, all: seq<Elem>, done: seq<Elem>, rest: seq<Elem>,
                 m: seq<Elem>, rest': seq<Elem>)
    requires all == done + Pass(less, rest) && Pass(less, rest) == m + Pass(less, rest')
    ensures all == (done + m) + Pass(less, rest')
  {
    hide *;
    Associative(done, m, Pass(less, rest'));
  }

  lemma NothingLeft(less: (Elem, Elem) -> bool, s: seq<Elem>)
    ensures s + Pass(less, []) == s && PassCount(less, []) == 0
  {}

  lemma Associative<X>(a: seq<X>, b: seq<X>, c: seq<X>)
    ensures a + (b + c) == (a + b) + c
  {}

  lemma PassCountUnfold(less: (Elem, Elem) -> bool, rest: seq<Elem>)
    requires rest != []
    ensures var i := FirstRun(less, rest);
      PassCount(less, rest) == if i == |rest| then 1 else 1 + PassCount(less, rest[i + FirstRun(less, rest[i..])..])
  {
    hide RunEnd;
  }

  class List {
    const head: Elem
    const tail: Elem
    ghost var elems: seq<Elem>

    ghost function Nodes(): seq<Elem>
      reads this
    {
      [head] + elems + [tail]
    }

    ghost predicate Valid()
      reads this, head, tail, Nodes()
    {
      Chain(Nodes()) && head.prev == null && tail.next == null
    }

    // list_init
    constructor ()
      ensures Valid() && elems == [] && fresh(head) && fresh(tail)
    {
      var h := new Elem();
      var t := new Elem();
      h.next := t;
      t.prev := h;
      head, tail, elems := h, t, [];
      new;
      assert Nodes() == [head, tail];
    }

    // The list while a pass runs: done is merged, rest is not.
    ghost predicate Passing(done: seq<Elem>, rest: seq<Elem>, repr: set<Elem>)
      reads head, tail, Framed(head, done, rest, tail)
    {
      && Chain(Framed(head, done, rest, tail)) && Inside(Framed(head, done, rest, tail), repr)
      && head.prev == null && tail.next == null
    }

    // One round of a pass: the first run of the rest, and the run behind it merged into it.
    method MergeNextRuns(a0: Elem, less: (Elem, Elem) -> bool, ghost done0: seq<Elem>, ghost rest0: seq<Elem>,
                         ghost repr: set<Elem>)
        returns (b1: Elem, last: bool, ghost part: seq<Elem>, ghost rest: seq<Elem>)
      requires Passing(done0, rest0, repr) && rest0 != [] && a0 == rest0[0]
      modifies repr
      ensures Passing(done0 + part, rest, repr)
      ensures last == (FirstRun(less, rest0) == |rest0|)
      ensures last ==> part == rest0 && rest == []
      ensures !last ==>
        var i := FirstRun(less, rest0);
        var j := i + FirstRun(less, rest0[i..]);
        && part == Merge(less, rest0[..i], rest0[i..j]) && rest == rest0[j..]
      ensures b1 == (if rest == [] then tail else rest[0])
    {
      hide *;
      var a1b0;
      ghost var i, j;
      a1b0, b1, last, i, j := FindTwoRuns(a0, less, done0, rest0, repr);
      if last {
        part, rest := rest0, [];
        AllDone(done0, rest0, repr);
      } else {
        MergeAt(b1, a0, a1b0, less, done0, rest0, i, j, repr);
        part, rest := Merge(less, rest0[..i], rest0[i..j]), rest0[j..];
      }
    }

    // find_end_of_run from position k of what is not merged yet.
    method NextRunEnd(a: Elem, less: (Elem, Elem) -> bool, ghost done: seq<Elem>, ghost rest: seq<Elem>,
                      ghost k: nat, ghost repr: set<Elem>)
        returns (b: Elem, ghost r: nat)
      requires Passing(done, rest, repr) && k < |rest| && a == rest[k]
      ensures Passing(done, rest, repr) && r == k + FirstRun(less, rest[k..]) && k < r <= |rest|
      ensures b == (if r == |rest| then tail else rest[r]) && (b == tail <==> r == |rest|)
    {
      ghost var ns, p := Framed(head, done, rest, tail), |done| + 1;
      assert Chain(ns);
      hide *;
      FramedAt(head, done, rest, tail, k);
      FramedRest(head, done, rest, tail, k);
      b, r := FindEndOfRun(a, tail, less, ns, p + k, |ns| - 1);
      ChainEnd(ns, r);
      r := r - p;
      FramedAt(head, done, rest, tail, r);
    }

    // Lines 386-388: the ends of the next two runs.
    method FindTwoRuns(a0: Elem, less: (Elem, Elem) -> bool, ghost done: seq<Elem>, ghost rest: seq<Elem>,
                       ghost repr: set<Elem>)
        returns (a1b0: Elem, b1: Elem, last: bool, ghost i: nat, ghost j: nat)
      requires Passing(done, rest, repr) && rest != [] && a0 == rest[0]
      ensures Passing(done, rest, repr)
      ensures i == FirstRun(less, rest) && last == (i == |rest|)
      ensures last ==> b1 == tail
      ensures !last ==>
        && j == i + FirstRun(less, rest[i..]) && i < j <= |rest| && a1b0 == rest[i]
        && b1 == (if j == |rest| then tail else rest[j])
    {
      hide *;
      assert rest[0..] == rest;
      a1b0, i := NextRunEnd(a0, less, done, rest, 0, repr);
      if a1b0 == tail {
        return a1b0, tail, true, i, i;
      }
      b1, j := NextRunEnd(a1b0, less, done, rest, i, repr);
      last := false;
    }

    lemma AllDone(done: seq<Elem>, rest: seq<Elem>, repr: set<Elem>)
      requires Passing(done, rest, repr)
      ensures Passing(done + rest, [], repr)
    {
      DoneAll(head, done, rest, tail);
    }

    // Line 391, in terms of what is merged and what is not.
    method MergeAt(b1: Elem, a0: Elem, a1b0: Elem, less: (Elem, Elem) -> bool,
                   ghost done: seq<Elem>, ghost rest: seq<Elem>, ghost i: nat, ghost j: nat, ghost repr: set<Elem>)
      requires Passing(done, rest, repr) && 0 < i < j <= |rest|
      requires a0 == rest[0] && a1b0 == rest[i] && b1 == (if j == |rest| then tail else rest[j])
      modifies repr
      ensures Passing(done + Merge(less, rest[..i], rest[i..j]), rest[j..], repr)
    {
      ghost var ns, p := Framed(head, done, rest, tail), |done| + 1;
      assert Chain(ns) && Inside(ns, repr) && head.prev == null && tail.next == null;
      hide *;
      FramedAt(head, done, rest, tail, 0);
      FramedAt(head, done, rest, tail, i);
      FramedAt(head, done, rest, tail, j);
      ghost var r := InplaceMerge(a0, a1b0, b1, less, ns, p, p + i, p + j, repr);
      MergedPassing(less, r, done, rest, i, j, repr);
    }

    lemma MergedPassing(less: (Elem, Elem) -> bool, r: seq<Elem>, done: seq<Elem>, rest: seq<Elem>, i: nat, j: nat,
                        repr: set<Elem>)
      requires i <= j <= |rest| && |Framed(head, done, rest, tail)| == |done| + |rest| + 2
      requires r == Merged(less, Framed(head, done, rest, tail), |done| + 1, |done| + 1 + i, |done| + 1 + j)
      requires Chain(r) && Inside(r, repr) && head.prev == null && tail.next == null
      ensures Passing(done + Merge(less, rest[..i], rest[i..j]), rest[j..], repr)
    {
      FramedMerge(less, head, done, rest, tail, i, j);
      hide Framed, Merged, Merge, Chain, Inside;
    }

    // One pass of list_sort over the list.
    method SortPass(less: (Elem, Elem) -> bool, ghost repr: set<Elem>) returns (outputRunCnt: nat)
      requires Valid() && Inside(Nodes(), repr)
      modifies this, repr
      ensures Valid() && elems == Pass(less, old(elems)) && outputRunCnt == PassCount(less, old(elems))
      ensures Inside(Nodes(), repr)
    {
      ghost var s := elems;
      ghost var done: seq<Elem>, rest: seq<Elem> := [], s;
      outputRunCnt := 0;
      FramedAt(head, [], s, tail, 0);
      assert Link(Nodes(), 0) && Nodes() == Framed(head, [], s, tail);
      assert Passing([], s, repr);
      assert [] + Pass(less, s) == Pass(less, s);
      var a0 := head.next;
      var last;
      hide *;
      while a0 != tail
        invariant Passing(done, rest, repr)
        invariant a0 == (if rest == [] then tail else rest[0])
        invariant Pass(less, s) == done + Pass(less, rest)
        invariant PassCount(less, s) == outputRunCnt + PassCount(less, rest)
        decreases |rest|
      {
        ghost var rest0 := rest;
        ghost var part;
        outputRunCnt := outputRunCnt + 1;
        a0, last, part, rest := MergeNextRuns(a0, less, done, rest, repr);
        PassCountUnfold(less, rest0);
        if last {
          PassWhole(less, rest0);
        } else {
          PassUnfold(less, rest0);
        }
        NothingLeft(less, rest0);
        PassStep(less, Pass(less, s), done, rest0, part, rest);
        done := done + part;
        if last {
          break;
        }
      }
      PassDone(less, done, rest, repr);
      elems := done;
      IsValid(done, repr);
    }

    lemma PassDone(less: (Elem, Elem) -> bool, done: seq<Elem>, rest: seq<Elem>, repr: set<Elem>)
      requires Passing(done, rest, repr) && (rest == [] || rest[0] == tail)
      ensures rest == [] && Pass(less, rest) == [] && PassCount(less, rest) == 0
    {
      if rest != [] {
        FramedAt(head, done, rest, tail, 0);
        ChainEnd(Framed(head, done, rest, tail), |done| + 1);
      }
    }

    lemma IsValid(done: seq<Elem>, repr: set<Elem>)
      requires Passing(done, [], repr) && elems == done
      ensures Valid() && Inside(Nodes(), repr)
    {
      assert Framed(head, done, [], tail) == Nodes();
    }

    // list_sort: passes until one of them produced at most one run.
    method ListSort(less: (Elem, Elem) -> bool)
      requires Valid() && StrictWeakOn(less, elems)
      modifies this, Nodes()
      ensures Valid() && elems == SortPasses(less, old(elems))
      ensures Sorted(less, elems) && multiset(elems) == multiset(old(elems)) && StableOf(less, old(elems), elems)
    {
      ghost var s, s0 := elems, elems;
      ghost var repr := set n | n in Nodes();
      SortCorrect(less, s);
      SortUnfold(less, s);
      assert Inside(Nodes(), repr);
      hide *;
      var outputRunCnt := SortPass(less, repr);
      while outputRunCnt > 1
        invariant Valid() && Inside(Nodes(), repr)
        invariant StrictWeakOn(less, s) && elems == Pass(less, s) && outputRunCnt == PassCount(less, s)
        invariant SortPasses(less, s) == SortPasses(less, s0)
        decreases Runs(less, s)
      {
        SortUnfold(less, s);
        s := elems;
        outputRunCnt := SortPass(less, repr);
      }
      SortUnfold(less, s);
    }
  }
}
