/** More operations of Project_01/list.c on the lists of IntrusiveList. */
module ListOperations {
  import opened IntrusiveList
  import opened NaturalMerge
  import R = Rearrangement

  /* list_swap */

  lemma SwapDistinct(ns: seq<Elem>, p: nat, q: nat)
    requires Distinct(ns) && p < |ns| && q < |ns|
    ensures Distinct(R.Swapped(ns, p, q))
  {}

  lemma Neighbours(ns: seq<Elem>, p: nat)
    requires Chain(ns) && 1 <= p < |ns| - 1
    ensures ns[p].next == ns[p + 1] && ns[p + 1].prev == ns[p] && ns[p].prev == ns[p - 1] && ns[p - 1].next == ns[p]
  {
    assert Link(ns, p) && Link(ns, p - 1);
  }

  // The links between u and u + 1 after a swap with b at q directly before a: the two elements point at each other in
  // both directions, and their neighbours at the wrong one of them. All other links are as in ns.
  ghost predicate Looped(ns: seq<Elem>, q: nat, u: nat)
    reads ns
  {
    && 1 <= q && q + 2 < |ns| && u + 1 < |ns|
    && ns[u].next == ns[if u == q - 1 then q + 1 else if u == q + 1 then q else u + 1]
    && ns[u + 1].prev == ns[if u + 1 == q then q + 1 else if u + 1 == q + 2 then q else u]
  }

  ghost predicate AllLooped(ns: seq<Elem>, q: nat)
    reads ns
  {
    forall u: nat | u + 1 < |ns| :: Looped(ns, q, u)
  }

  lemma LoopedPair(ns: seq<Elem>, q: nat)
    requires AllLooped(ns, q) && 1 <= q && q + 2 < |ns|
    ensures ns[q].next == ns[q + 1] && ns[q + 1].next == ns[q]
  {
    assert Looped(ns, q, q) && Looped(ns, q, q + 1);
  }

  // list_swap, on a chain. It exchanges the two elements unless b comes directly before a.
  method SwapNodes(a: Elem, b: Elem, ghost ns: seq<Elem>, ghost p: nat, ghost q: nat)
    requires Chain(ns) && 1 <= p < |ns| - 1 && 1 <= q < |ns| - 1 && a == ns[p] && b == ns[q]
    modifies ns
    ensures q + 1 != p ==> Chain(R.Swapped(ns, p, q))
    ensures q + 1 == p ==> AllLooped(ns, q)
    ensures ns[0].prev == old(ns[0].prev) && ns[|ns| - 1].next == old(ns[|ns| - 1].next)
  {
    Neighbours(ns, p);
    Neighbours(ns, q);
    var aPrev := a.prev;
    var aNext := a.next;
    var bPrev := b.prev;
    var bNext := b.next;
    if a.next == b {
      a.prev := b;
      a.next := bNext;
      b.prev := aPrev;
      b.next := a;
      if aPrev != null {
        aPrev.next := b;
      }
      if bNext != null {
        bNext.prev := a;
      }
    } else if b.next == a {
      b.prev := a;
      b.next := bNext;
      a.prev := aPrev;
      a.next := b;
      if bPrev != null {
        bPrev.next := a;
      }
      if aNext != null {
        aNext.prev := b;
      }
    } else {
      a.prev := bPrev;
      a.next := bNext;
      b.prev := aPrev;
      b.next := aNext;
      if aPrev != null {
        aPrev.next := b;
      }
      if aNext != null {
        aNext.prev := b;
      }
      if bPrev != null {
        bPrev.next := a;
      }
      if bNext != null {
        bNext.prev := a;
      }
    }
    SwapDistinct(ns, p, q);
    ghost var r := R.Swapped(ns, p, q);
    if q + 1 == p {
      forall u: nat | u + 1 < |ns|
        ensures Looped(ns, q, u)
      {
        assert old(Link(ns, u));
      }
    } else {
      forall t: nat | t + 1 < |r|
        ensures Link(r, t)
      {
        assert old(Link(ns, t));
      }
    }
  }

  // The nodes of l are well linked when its elements are those of s: Valid, for the elements s.
  ghost predicate ValidWith(l: List, s: seq<Elem>)
    reads l.head, l.tail, s
  {
    Chain([l.head] + s + [l.tail]) && l.head.prev == null && l.tail.next == null
  }

  lemma NextNotBack(l: List, s: seq<Elem>, p: nat)
    requires ValidWith(l, s) && p < |s|
    ensures s[p].next != null && s[p].next.next != s[p]
  {
    var ns := [l.head] + s + [l.tail];
    assert ns[p + 1] == s[p] && Link(ns, p + 1);
    assert p + 3 < |ns| ==> Link(ns, p + 2);
  }

  /** Two elements that point at each other are in no list, whatever its elements are. */
  lemma NoLoop(l: List, a: Elem, b: Elem, s: seq<Elem>)
    requires a.next == b && b.next == a && a in s
    ensures !ValidWith(l, s)
  {
    if ValidWith(l, s) {
      var p :| 0 <= p < |s| && s[p] == a;
      NextNotBack(l, s, p);
    }
  }

  lemma ListNodes(l: List)
    requires l.Valid()
    ensures |l.Nodes()| == |l.elems| + 2 && l.Nodes()[0] == l.head && l.Nodes()[|l.elems| + 1] == l.tail
    ensures forall i | 0 <= i < |l.elems| :: l.Nodes()[i + 1] == l.elems[i]
  {}

  /** list_swap exchanges the two elements, unless b comes directly before a: then no elements that include a
      make a well-linked list of what is left. */
  method ListSwap(l: List, a: Elem, b: Elem, ghost i: nat, ghost j: nat)
    requires l.Valid() && i < |l.elems| && j < |l.elems| && a == l.elems[i] && b == l.elems[j]
    modifies l, l.Nodes()
    ensures j + 1 != i ==> l.Valid() && l.elems == R.Swapped(old(l.elems), i, j)
    ensures j + 1 == i ==>
      && l.elems == old(l.elems) && a.next == b && b.next == a
      && AllLooped(l.Nodes(), j + 1)
    ensures j + 1 == i ==> forall s {:trigger ValidWith(l, s)} | a in s :: !ValidWith(l, s)
    ensures l.Valid() <==> j + 1 != i
  {
    ListNodes(l);
    ghost var ns := l.Nodes();
    SwapNodes(a, b, ns, i + 1, j + 1);
    hide *;
    if j + 1 != i {
      ghost var s := l.elems;
      l.elems := R.Swapped(l.elems, i, j);
      SwappedValid(l, ns, s, i, j);
    } else {
      LoopedPair(ns, j + 1);
      LoopedInvalid(l, a, b);
    }
  }

  lemma SwappedValid(l: List, ns: seq<Elem>, s: seq<Elem>, i: nat, j: nat)
    requires i < |s| && j < |s| && l.elems == R.Swapped(s, i, j) && ns == [l.head] + s + [l.tail]
    requires Chain(R.Swapped(ns, i + 1, j + 1)) && l.head.prev == null && l.tail.next == null
    ensures l.Valid()
  {
    assert l.Nodes() == R.Swapped(ns, i + 1, j + 1);
    hide Chain;
  }

  lemma LoopedInvalid(l: List, a: Elem, b: Elem)
    requires a.next == b && b.next == a && a in l.elems
    ensures !l.Valid()
    ensures forall s {:trigger ValidWith(l, s)} | a in s :: !ValidWith(l, s)
  {
    forall s | a in s
      ensures !ValidWith(l, s)
    {
      NoLoop(l, a, b, s);
    }
    assert l.Valid() == ValidWith(l, l.elems);
  }

  /* list_reverse */

  ghost function ReverseOf(s: seq<Elem>): (r: seq<Elem>)
    ensures |r| == |s| && forall i | 0 <= i < |s| :: r[i] == s[|s| - 1 - i]
  {
    if s == [] then [] else ReverseOf(s[1..]) + [s[0]]
  }

  // The chain ns with the links of its first k interior nodes exchanged.
  ghost predicate HalfReversed(ns: seq<Elem>, k: nat)
    requires k + 2 <= |ns|
    reads ns
  {
    && ns[0].next == ns[1] && ns[|ns| - 1].prev == ns[|ns| - 2]
    && (forall t | 1 <= t <= k :: ns[t].prev == ns[t + 1] && ns[t].next == ns[t - 1])
    && (forall t | k < t < |ns| - 1 :: ns[t].next == ns[t + 1] && ns[t].prev == ns[t - 1])
  }

  lemma NotReversed(l: List)
    requires l.Valid()
    ensures HalfReversed(l.Nodes(), 0)
  {
    var ns := l.Nodes();
    forall t | 1 <= t < |ns| - 1
      ensures ns[t].next == ns[t + 1] && ns[t].prev == ns[t - 1]
    {
      Neighbours(ns, t);
    }
    assert Link(ns, 0) && Link(ns, |ns| - 2);
  }

  // Line 299, for the element at position k + 1.
  method ExchangeLinks(e: Elem, ghost ns: seq<Elem>, ghost k: nat)
    requires Distinct(ns) && k + 2 < |ns| && e == ns[k + 1] && HalfReversed(ns, k)
    modifies e
    ensures HalfReversed(ns, k + 1) && e.prev == ns[k + 2]
  {
    e.prev, e.next := e.next, e.prev;
  }

  // Lines 300-301.
  method ExchangeEnds(l: List, ghost ns: seq<Elem>)
    requires Distinct(ns) && |ns| > 2 && HalfReversed(ns, |ns| - 2) && ns[0] == l.head && ns[|ns| - 1] == l.tail
    modifies ns
    ensures l.head.next == ns[|ns| - 2] && l.tail.prev == ns[1]
    ensures l.head.prev == old(l.head.prev) && l.tail.next == old(l.tail.next)
    ensures forall t | 1 <= t < |ns| - 1 :: ns[t].prev == (if t == |ns| - 2 then l.head else ns[t + 1])
    ensures forall t | 1 <= t < |ns| - 1 :: ns[t].next == (if t == 1 then l.tail else ns[t - 1])
  {
    l.head.next, l.tail.prev := l.tail.prev, l.head.next;
    var first, last := l.head.next, l.tail.prev;
    first.prev, last.next := last.next, first.prev;
  }

  // Lines 298-299.
  method ReverseLinks(l: List, ghost ns: seq<Elem>)
    requires Distinct(ns) && |ns| > 2 && HalfReversed(ns, 0) && ns[0] == l.head && ns[|ns| - 1] == l.tail
    modifies ns
    ensures HalfReversed(ns, |ns| - 2)
    ensures l.head.prev == old(l.head.prev) && l.tail.next == old(l.tail.next)
  {
    FirstIs(l, ns);
    var e := l.head.next;
    ghost var k := 0;
    hide *;
    SameElem(ns, 1, |ns| - 1);
    while e != l.tail
      invariant k + 1 < |ns| && e == ns[k + 1] && HalfReversed(ns, k) && (e == l.tail <==> k + 1 == |ns| - 1)
      invariant l.head.prev == old(l.head.prev) && l.tail.next == old(l.tail.next)
      decreases |ns| - k
    {
      SameElem(ns, k + 1, 0);
      SameElem(ns, k + 2, |ns| - 1);
      ExchangeLinks(e, ns, k);
      e := e.prev;
      k := k + 1;
    }
  }

  method ListReverse(l: List)
    requires l.Valid()
    modifies l, l.Nodes()
    ensures l.Valid() && l.elems == ReverseOf(old(l.elems))
  {
    ListNodes(l);
    NotReversed(l);
    ghost var ns := l.Nodes();
    SameElem(ns, 1, |ns| - 1);
    FirstIs(l, ns);
    if l.head.next != l.tail {
      assert ns[1..|ns| - 1] == l.elems;
      hide HalfReversed, ReverseOf;
      ReverseNodes(l, ns, l.elems);
      l.elems := ReverseOf(l.elems);
    }
  }

  method ReverseNodes(l: List, ghost ns: seq<Elem>, ghost s: seq<Elem>)
    requires Distinct(ns) && |ns| > 2 && HalfReversed(ns, 0) && ns[0] == l.head && ns[|ns| - 1] == l.tail
    requires s == ns[1..|ns| - 1]
    modifies ns
    ensures Chain([l.head] + ReverseOf(s) + [l.tail])
    ensures l.head.prev == old(l.head.prev) && l.tail.next == old(l.tail.next)
  {
    hide HalfReversed, ReverseOf, Distinct, Chain;
    ReverseLinks(l, ns);
    ExchangeEnds(l, ns);
    ReversedChain(ns, s);
  }

  lemma FirstIs(l: List, ns: seq<Elem>)
    requires |ns| >= 2 && HalfReversed(ns, 0) && l.head == ns[0]
    ensures l.head.next == ns[1]
  {}

  // Where position t of the reversed chain comes from.
  function Mirror(n: nat, t: nat): nat
    requires t < n
  {
    if t == 0 || t == n - 1 then t else n - 1 - t
  }

  lemma ReversedChain(ns: seq<Elem>, s: seq<Elem>)
    requires |ns| > 2 && Distinct(ns) && s == ns[1..|ns| - 1]
    requires ns[0].next == ns[|ns| - 2] && ns[|ns| - 1].prev == ns[1]
    requires forall t | 1 <= t < |ns| - 1 :: ns[t].prev == (if t == |ns| - 2 then ns[0] else ns[t + 1])
    requires forall t | 1 <= t < |ns| - 1 :: ns[t].next == (if t == 1 then ns[|ns| - 1] else ns[t - 1])
    ensures Chain([ns[0]] + ReverseOf(s) + [ns[|ns| - 1]])
  {
    var r := [ns[0]] + ReverseOf(s) + [ns[|ns| - 1]];
    hide ReverseOf, Distinct, Chain;
    forall t: nat | t + 1 < |r|
      ensures Link(r, t)
    {
      ReversedAt(ns, s, t);
      ReversedAt(ns, s, t + 1);
    }
    forall i: nat, j: nat | i < j < |r|
      ensures r[i] != r[j]
    {
      ReversedAt(ns, s, i);
      ReversedAt(ns, s, j);
      SameElem(ns, Mirror(|ns|, i), Mirror(|ns|, j));
    }
    hide *;
    ChainIs(r);
  }

  lemma ChainIs(r: seq<Elem>)
    requires forall t: nat | t + 1 < |r| :: Link(r, t)
    requires forall i: nat, j: nat | i < j < |r| :: r[i] != r[j]
    ensures Chain(r)
  {}

  lemma ReversedAt(ns: seq<Elem>, s: seq<Elem>, t: nat)
    requires |ns| > 2 && s == ns[1..|ns| - 1] && t < |ns|
    ensures |ReverseOf(s)| == |ns| - 2
    ensures ([ns[0]] + ReverseOf(s) + [ns[|ns| - 1]])[t] == ns[Mirror(|ns|, t)]
  {
    if 0 < t < |ns| - 1 {
      assert ReverseOf(s)[t - 1] == s[|s| - t] == ns[|s| - t + 1];
    }
  }

  /* list_insert and list_remove */

  ghost function InsertedAt(s: seq<Elem>, i: nat, e: Elem): (r: seq<Elem>)
    requires i <= |s|
    ensures |r| == |s| + 1
  {
    s[..i] + [e] + s[i..]
  }

  ghost function RemovedAt(s: seq<Elem>, i: nat): (r: seq<Elem>)
    requires i < |s|
    ensures |r| == |s| - 1
  {
    s[..i] + s[i + 1..]
  }

  lemma InsertDistinct(ns: seq<Elem>, i: nat, e: Elem)
    requires Distinct(ns) && i <= |ns| && e !in ns
    ensures Distinct(InsertedAt(ns, i, e))
  {}

  // list_insert
  method InsertNode(before: Elem, elem: Elem, ghost ns: seq<Elem>, ghost i: nat)
    requires Chain(ns) && 1 <= i < |ns| && before == ns[i] && elem !in ns
    modifies ns, elem
    ensures Chain(InsertedAt(ns, i, elem))
    ensures ns[0].prev == old(ns[0].prev) && ns[|ns| - 1].next == old(ns[|ns| - 1].next)
  {
    assert Link(ns, i - 1);
    elem.prev := before.prev;
    elem.next := before;
    before.prev.next := elem;
    before.prev := elem;
    InsertDistinct(ns, i, elem);
    ghost var r := InsertedAt(ns, i, elem);
    forall t: nat | t + 1 < |r|
      ensures Link(r, t)
    {
      assert t + 1 < |ns| ==> old(Link(ns, t));
      assert 0 < t < |ns| ==> old(Link(ns, t - 1));
    }
  }

  // list_remove
  method RemoveNode(elem: Elem, ghost ns: seq<Elem>, ghost i: nat) returns (next: Elem)
    requires Chain(ns) && 1 <= i < |ns| - 1 && elem == ns[i]
    modifies ns
    ensures Chain(RemovedAt(ns, i)) && next == ns[i + 1]
    ensures ns[0].prev == old(ns[0].prev) && ns[|ns| - 1].next == old(ns[|ns| - 1].next)
  {
    Neighbours(ns, i);
    elem.prev.next := elem.next;
    elem.next.prev := elem.prev;
    next := elem.next;
    ghost var r := RemovedAt(ns, i);
    forall t: nat | t + 1 < |r|
      ensures Link(r, t)
    {
      assert old(Link(ns, t));
      assert t + 2 < |ns| ==> old(Link(ns, t + 1));
    }
    assert Distinct(r);
  }

  lemma NodesInserted(h: Elem, s: seq<Elem>, t: Elem, k: nat, e: Elem)
    requires k <= |s|
    ensures [h] + InsertedAt(s, k, e) + [t] == InsertedAt([h] + s + [t], k + 1, e)
  {}

  lemma NodesRemoved(h: Elem, s: seq<Elem>, t: Elem, k: nat)
    requires k < |s|
    ensures [h] + RemovedAt(s, k) + [t] == RemovedAt([h] + s + [t], k + 1)
  {}

  method InsertBefore(l: List, before: Elem, elem: Elem, ghost k: nat)
    requires l.Valid() && k <= |l.elems| && before == l.Nodes()[k + 1] && elem !in l.Nodes()
    modifies l, l.Nodes(), elem
    ensures l.Valid() && l.elems == InsertedAt(old(l.elems), k, elem)
  {
    hide Chain, InsertedAt;
    ghost var ns, s := l.Nodes(), l.elems;
    ListNodes(l);
    NodesInserted(l.head, s, l.tail, k, elem);
    InsertNode(before, elem, ns, k + 1);
    l.elems := InsertedAt(s, k, elem);
  }

  method Remove(l: List, elem: Elem, ghost k: nat)
    requires l.Valid() && k < |l.elems| && elem == l.elems[k]
    modifies l, l.Nodes()
    ensures l.Valid() && l.elems == RemovedAt(old(l.elems), k)
  {
    hide Chain, RemovedAt;
    ghost var ns, s := l.Nodes(), l.elems;
    ListNodes(l);
    NodesRemoved(l.head, s, l.tail, k);
    var _ := RemoveNode(elem, ns, k + 1);
    l.elems := RemovedAt(s, k);
  }

  /* list_insert_ordered */

  // Before the first element that e is less than.
  ghost function Place(less: (Elem, Elem) -> bool, s: seq<Elem>, e: Elem): (k: nat)
    ensures k <= |s| && (k < |s| ==> less(e, s[k]))
    ensures forall t | 0 <= t < k :: !less(e, s[t])
  {
    if s == [] || less(e, s[0]) then 0 else 1 + Place(less, s[1..], e)
  }

  /** Inserting in order keeps a sorted list sorted, and puts the new element behind its equals. */
  lemma PlaceSorted(less: (Elem, Elem) -> bool, s: seq<Elem>, e: Elem)
    requires StrictWeakOn(less, s + [e]) && Sorted(less, s)
    ensures Sorted(less, InsertedAt(s, Place(less, s, e), e))
    ensures forall t | 0 <= t < |s| && Equivalent(less, s[t], e) :: t < Place(less, s, e)
  {
    var k := Place(less, s, e);
    forall t | k <= t < |s|
      ensures less(e, s[t]) && !less(s[t], e)
    {
      assert less(e, s[k]) && (t == k || !less(s[t], s[k]));
      Transitive(less, s + [e], e, s[k], s[t]);
    }
    hide StrictWeakOn, Place;
    SortedWith(less, s, k, e);
  }

  lemma Transitive(less: (Elem, Elem) -> bool, s: seq<Elem>, a: Elem, b: Elem, c: Elem)
    requires StrictWeakOn(less, s) && a in s && b in s && c in s && less(a, b) && !less(c, b)
    ensures less(a, c) && !less(c, a)
  {}

  lemma SortedWith(less: (Elem, Elem) -> bool, s: seq<Elem>, k: nat, e: Elem)
    requires Sorted(less, s) && k <= |s|
    requires forall t | 0 <= t < k :: !less(e, s[t])
    requires forall t | k <= t < |s| :: !less(s[t], e)
    ensures Sorted(less, InsertedAt(s, k, e))
  {}

  // The loop of lines 409-410.
  method FindPlace(l: List, elem: Elem, less: (Elem, Elem) -> bool) returns (e: Elem, ghost k: nat)
    requires l.Valid()
    ensures k == Place(less, l.elems, elem) && e == l.Nodes()[k + 1]
  {
    ListNodes(l);
    ghost var ns, s := l.Nodes(), l.elems;
    assert Link(ns, 0);
    e, k := l.head.next, 0;
    assert s[0..] == s;
    while e != l.tail && !less(elem, e)
      invariant k <= |s| && e == ns[k + 1] && Place(less, s, elem) == k + Place(less, s[k..], elem)
      decreases |s| - k
    {
      SameElem(ns, k + 1, |ns| - 1);
      Along(ns, k + 1);
      assert s[k..][1..] == s[k + 1..];
      e := e.next;
      k := k + 1;
    }
    SameElem(ns, k + 1, |ns| - 1);
  }

  method ListInsertOrdered(l: List, elem: Elem, less: (Elem, Elem) -> bool)
    requires l.Valid() && elem !in l.Nodes()
    modifies l, l.Nodes(), elem
    ensures l.Valid() && l.elems == InsertedAt(old(l.elems), Place(less, old(l.elems), elem), elem)
  {
    hide Link, Distinct, Place, InsertedAt;
    ghost var k;
    var e;
    e, k := FindPlace(l, elem, less);
    InsertBefore(l, e, elem, k);
  }

  /* list_unique */

  // What stays of rest behind an element cur that stays, and what goes.
  ghost function Kept(less: (Elem, Elem) -> bool, cur: Elem, rest: seq<Elem>): seq<Elem>
  {
    if rest == [] then []
    else if Equivalent(less, cur, rest[0]) then Kept(less, cur, rest[1..])
    else [rest[0]] + Kept(less, rest[0], rest[1..])
  }

  ghost function Dropped(less: (Elem, Elem) -> bool, cur: Elem, rest: seq<Elem>): seq<Elem>
  {
    if rest == [] then []
    else if Equivalent(less, cur, rest[0]) then [rest[0]] + Dropped(less, cur, rest[1..])
    else Dropped(less, rest[0], rest[1..])
  }

  ghost function Unique(less: (Elem, Elem) -> bool, s: seq<Elem>): seq<Elem>
  {
    if s == [] then [] else [s[0]] + Kept(less, s[0], s[1..])
  }

  ghost function Duplicates(less: (Elem, Elem) -> bool, s: seq<Elem>): seq<Elem>
  {
    if s == [] then [] else Dropped(less, s[0], s[1..])
  }

  lemma {:induction false} KeptAll(less: (Elem, Elem) -> bool, cur: Elem, rest: seq<Elem>)
    ensures multiset(Kept(less, cur, rest)) + multiset(Dropped(less, cur, rest)) == multiset(rest)
  {
    if rest != [] {
      assert rest == [rest[0]] + rest[1..];
      KeptAll(less, if Equivalent(less, cur, rest[0]) then cur else rest[0], rest[1..]);
    }
  }

  ghost predicate Increasing(less: (Elem, Elem) -> bool, s: seq<Elem>)
  {
    forall i, j | 0 <= i < j < |s| :: less(s[i], s[j])
  }

  lemma {:induction false} KeptApart(less: (Elem, Elem) -> bool, cur: Elem, rest: seq<Elem>)
    requires StrictWeakOn(less, [cur] + rest) && Sorted(less, [cur] + rest)
    ensures forall x | x in Kept(less, cur, rest) :: x in rest
    ensures Increasing(less, [cur] + Kept(less, cur, rest))
  {
    if rest != [] {
      var s := [cur] + rest;
      assert s[0] == cur && s[1] == rest[0];
      var next := if Equivalent(less, cur, rest[0]) then cur else rest[0];
      Tail(less, cur, rest, next);
      KeptApart(less, next, rest[1..]);
      if !Equivalent(less, cur, rest[0]) {
        assert !less(s[1], s[0]) && less(cur, next);
        Above(less, cur, next, Kept(less, next, rest[1..]), s);
      }
    }
  }

  lemma Tail(less: (Elem, Elem) -> bool, cur: Elem, rest: seq<Elem>, next: Elem)
    requires rest != [] && (next == cur || next == rest[0])
    requires StrictWeakOn(less, [cur] + rest) && Sorted(less, [cur] + rest)
    ensures StrictWeakOn(less, [next] + rest[1..]) && Sorted(less, [next] + rest[1..])
  {
    var s, t := [cur] + rest, [next] + rest[1..];
    assert forall x | x in t :: x in s;
    forall i, j | 0 <= i < j < |t|
      ensures !less(t[j], t[i])
    {
      assert t[j] == s[j + 1];
      assert t[i] == if i == 0 && next == cur then s[0] else s[i + 1];
    }
  }

  // cur is below next, which is below everything kept behind it.
  lemma Above(less: (Elem, Elem) -> bool, cur: Elem, next: Elem, kept: seq<Elem>, s: seq<Elem>)
    requires StrictWeakOn(less, s) && cur in s && next in s && less(cur, next)
    requires forall x | x in kept :: x in s
    requires Increasing(less, [next] + kept)
    ensures Increasing(less, [cur] + ([next] + kept))
  {
    var q, r := [next] + kept, [cur] + ([next] + kept);
    forall i, j | 0 <= i < j < |r|
      ensures less(r[i], r[j])
    {
      if i > 0 {
        assert less(q[i - 1], q[j - 1]);
      } else if j > 1 {
        assert less(q[0], q[j - 1]) && r[j] == kept[j - 2];
        assert !less(kept[j - 2], next);
      }
    }
  }

  /** On a sorted list list_unique leaves strictly increasing elements, and loses none of the others. */
  lemma UniqueOfSorted(less: (Elem, Elem) -> bool, s: seq<Elem>)
    requires StrictWeakOn(less, s) && Sorted(less, s)
    ensures Increasing(less, Unique(less, s))
    ensures multiset(Unique(less, s)) + multiset(Duplicates(less, s)) == multiset(s)
  {
    if s != [] {
      assert s == [s[0]] + s[1..];
      KeptApart(less, s[0], s[1..]);
      KeptAll(less, s[0], s[1..]);
    }
  }

  ghost predicate Apart(ns: seq<Elem>, ds: seq<Elem>)
  {
    forall n | n in ds :: n !in ns
  }

  // The nodes of the list that takes the duplicates, with e at its end; no nodes if there is no such list.
  ghost function Pushed(ds: seq<Elem>, e: Elem): seq<Elem>
  {
    if |ds| < 2 then ds else InsertedAt(ds, |ds| - 1, e)
  }

  ghost predicate TwoChains(ns: seq<Elem>, ds: seq<Elem>)
    reads ns, ds
  {
    Chain(ns) && Chain(ds) && Apart(ns, ds) && |ds| != 1
  }

  lemma DropApart(ns: seq<Elem>, ds: seq<Elem>, k: nat)
    requires Distinct(ns) && Apart(ns, ds) && k < |ns|
    ensures Apart(RemovedAt(ns, k), ds) && Apart(RemovedAt(ns, k), Pushed(ds, ns[k])) && ns[k] !in RemovedAt(ns, k)
  {}

  ghost function Ends(ns: seq<Elem>): (Elem?, Elem?)
    reads ns
  {
    if ns == [] then (null, null) else (ns[0].prev, ns[|ns| - 1].next)
  }

  // Lines 429-430 of list_unique: next leaves its list, for the end of the other list if there is one.
  method DropNext(next: Elem, end: Elem?, ghost ns: seq<Elem>, ghost ds: seq<Elem>, ghost k: nat, ghost repr: set<Elem>)
    requires Inside(ns, repr) && Inside(ds, repr)
    requires TwoChains(ns, ds) && 1 <= k < |ns| - 1 && next == ns[k]
    requires if end == null then ds == [] else ds != [] && end == ds[|ds| - 1]
    modifies repr
    ensures TwoChains(RemovedAt(ns, k), Pushed(ds, next))
    ensures Ends(ns) == old(Ends(ns)) && Ends(ds) == old(Ends(ds))
  {
    DropApart(ns, ds, k);
    Elsewhere(ns, ds);
    var _ := RemoveNode(next, ns, k);
    if end != null {
      hide Chain;
      InsertNode(end, next, ds, |ds| - 1);
    }
  }

  lemma Elsewhere(ns: seq<Elem>, ds: seq<Elem>)
    requires Apart(ns, ds)
    ensures forall i, j | 0 <= i < |ns| && 0 <= j < |ds| :: ns[i] != ds[j]
  {
    forall i, j | 0 <= i < |ns| && 0 <= j < |ds|
      ensures ns[i] != ds[j]
    {
      assert ds[j] in ds && ns[i] in ns;
    }
  }

  // The elements between the two ends of a chain.
  ghost function Interior(ns: seq<Elem>): seq<Elem>
  {
    if |ns| < 2 then [] else ns[1..|ns| - 1]
  }

  // list_unique at position k: what stays and what goes, from here on, completes the two lists.
  ghost predicate Comparing(less: (Elem, Elem) -> bool, ns: seq<Elem>, ds: seq<Elem>, k: nat, unique: seq<Elem>,
                            dups: seq<Elem>)
  {
    && 1 <= k < |ns| - 1
    && unique == ns[1..k] + ([ns[k]] + Kept(less, ns[k], ns[k + 1..|ns| - 1]))
    && (|ds| >= 2 ==> dups == Interior(ds) + Dropped(less, ns[k], ns[k + 1..|ns| - 1]))
  }

  lemma CompareDrop(less: (Elem, Elem) -> bool, ns: seq<Elem>, ds: seq<Elem>, k: nat, unique: seq<Elem>,
                    dups: seq<Elem>)
    requires Comparing(less, ns, ds, k, unique, dups) && k + 2 < |ns| && Equivalent(less, ns[k], ns[k + 1])
    ensures Comparing(less, RemovedAt(ns, k + 1), Pushed(ds, ns[k + 1]), k, unique, dups)
  {
    var rest, ns' := ns[k + 1..|ns| - 1], RemovedAt(ns, k + 1);
    assert rest[1..] == ns'[k + 1..|ns'| - 1] && rest[0] == ns[k + 1];
    assert ns'[1..k] == ns[1..k] && ns'[k] == ns[k];
    if |ds| >= 2 {
      assert Interior(Pushed(ds, ns[k + 1])) == Interior(ds) + [rest[0]];
      Associative(Interior(ds), [rest[0]], Dropped(less, ns[k], rest[1..]));
    }
  }

  lemma CompareKeep(less: (Elem, Elem) -> bool, ns: seq<Elem>, ds: seq<Elem>, k: nat, unique: seq<Elem>,
                    dups: seq<Elem>)
    requires Comparing(less, ns, ds, k, unique, dups) && k + 2 < |ns| && !Equivalent(less, ns[k], ns[k + 1])
    ensures Comparing(less, ns, ds, k + 1, unique, dups)
  {
    var rest := ns[k + 1..|ns| - 1];
    assert rest[1..] == ns[k + 2..|ns| - 1] && rest[0] == ns[k + 1];
    assert ns[1..k + 1] == ns[1..k] + [ns[k]];
    Associative(ns[1..k], [ns[k]], [rest[0]] + Kept(less, rest[0], rest[1..]));
  }

  lemma CompareEnd(less: (Elem, Elem) -> bool, ns: seq<Elem>, ds: seq<Elem>, k: nat, unique: seq<Elem>, dups: seq<Elem>)
    requires Comparing(less, ns, ds, k, unique, dups) && k + 2 == |ns|
    ensures unique == Interior(ns) && (|ds| >= 2 ==> dups == Interior(ds))
  {
    assert ns[k + 1..|ns| - 1] == [];
    assert ns[1..k] + [ns[k]] == ns[1..|ns| - 1];
  }

  lemma CompareStart(less: (Elem, Elem) -> bool, s: seq<Elem>, h: Elem, t: Elem, ds: seq<Elem>)
    requires s != []
    ensures Comparing(less, [h] + s + [t], ds, 1, Unique(less, s), Interior(ds) + Duplicates(less, s))
  {
    var ns := [h] + s + [t];
    assert ns[1] == s[0] && ns[2..|ns| - 1] == s[1..] && ns[1..1] == [];
  }

  lemma StaysInside(ns: seq<Elem>, ds: seq<Elem>, k: nat, repr: set<Elem>)
    requires Inside(ns, repr) && Inside(ds, repr) && k < |ns|
    ensures Inside(RemovedAt(ns, k), repr) && Inside(Pushed(ds, ns[k]), repr)
  {}

  predicate SameEnds(ns: seq<Elem>, ms: seq<Elem>)
  {
    if |ms| < 2 then ns == ms else |ns| >= 2 && ns[0] == ms[0] && ns[|ns| - 1] == ms[|ms| - 1]
  }

  lemma EndsStay(ns: seq<Elem>, ds: seq<Elem>, k: nat)
    requires 1 <= k < |ns| - 1
    ensures var ns', ds' := RemovedAt(ns, k), Pushed(ds, ns[k]);
      && ns'[0] == ns[0] && ns'[|ns'| - 1] == ns[|ns| - 1] && ns'[k - 1] == ns[k - 1]
      && SameEnds(ns', ns) && SameEnds(ds', ds)
      && |ns'| == |ns| - 1 && (ds' == [] <==> ds == [])
      && (ds != [] ==> ds'[|ds'| - 1] == ds[|ds| - 1])
      && (forall ms :: SameEnds(ns, ms) ==> SameEnds(ns', ms)) && (forall ms :: SameEnds(ds, ms) ==> SameEnds(ds', ms))
  {}

  lemma SameLinksOut(ns: seq<Elem>, ms: seq<Elem>)
    requires SameEnds(ns, ms) && |ms| != 1
    ensures Ends(ns) == Ends(ms)
  {}

  lemma NextOf(ns: seq<Elem>, ds: seq<Elem>, k: nat)
    requires TwoChains(ns, ds) && 1 <= k < |ns| - 1
    ensures ns[k].next == ns[k + 1] && (ns[k + 1] == ns[|ns| - 1] <==> k + 2 == |ns|) && |ds| != 1
  {
    assert Link(ns, k);
    SameElem(ns, k + 1, |ns| - 1);
  }

  lemma SizeIs(less: (Elem, Elem) -> bool, ns: seq<Elem>, ds: seq<Elem>, k: nat, unique: seq<Elem>, dups: seq<Elem>)
    requires Comparing(less, ns, ds, k, unique, dups)
    ensures 1 <= k < |ns| - 1 && SameEnds(ns, ns) && SameEnds(ds, ds)
  {}

  // The loop of list_unique over the chain ns0; end is the tail of the list for the duplicates.
  method UniqueLoop(first: Elem, tail: Elem, end: Elem?, less: (Elem, Elem) -> bool,
                    ghost ns0: seq<Elem>, ghost ds0: seq<Elem>, ghost unique: seq<Elem>, ghost dups: seq<Elem>,
                    ghost repr: set<Elem>)
      returns (ghost ns: seq<Elem>, ghost ds: seq<Elem>)
    requires TwoChains(ns0, ds0) && Comparing(less, ns0, ds0, 1, unique, dups) && first == ns0[1]
    requires tail == ns0[|ns0| - 1]
    requires if end == null then ds0 == [] else ds0 != [] && end == ds0[|ds0| - 1]
    requires Inside(ns0, repr) && Inside(ds0, repr)
    modifies repr
    ensures TwoChains(ns, ds) && |ns| >= 2 && SameEnds(ns, ns0) && SameEnds(ds, ds0)
    ensures Ends(ns) == old(Ends(ns0)) && Ends(ds) == old(Ends(ds0))
    ensures unique == Interior(ns) && (|ds| >= 2 ==> dups == Interior(ds))
  {
    var elem := first;
    ghost var k := 1;
    ns, ds := ns0, ds0;
    hide *;
    SizeIs(less, ns, ds, k, unique, dups);
    while true
      invariant TwoChains(ns, ds) && Comparing(less, ns, ds, k, unique, dups) && 1 <= k < |ns| - 1 && elem == ns[k]
      invariant tail == ns[|ns| - 1] && SameEnds(ns, ns0) && SameEnds(ds, ds0)
      invariant if end == null then ds == [] else ds != [] && end == ds[|ds| - 1]
      invariant Ends(ns) == old(Ends(ns0)) && Ends(ds) == old(Ends(ds0))
      invariant Inside(ns, repr) && Inside(ds, repr)
      decreases |ns| - k
    {
      NextOf(ns, ds, k);
      var next: Elem := elem.next;
      if next == tail {
        break;
      }
      if Equivalent(less, elem, next) {
        CompareDrop(less, ns, ds, k, unique, dups);
        StaysInside(ns, ds, k + 1, repr);
        EndsStay(ns, ds, k + 1);
        DropNext(next, end, ns, ds, k + 1, repr);
        SameLinksOut(RemovedAt(ns, k + 1), ns);
        SameLinksOut(Pushed(ds, next), ds);
        ns, ds := RemovedAt(ns, k + 1), Pushed(ds, next);
        SizeIs(less, ns, ds, k, unique, dups);
      } else {
        CompareKeep(less, ns, ds, k, unique, dups);
        elem := next;
        k := k + 1;
        SizeIs(less, ns, ds, k, unique, dups);
      }
    }
    CompareEnd(less, ns, ds, k, unique, dups);
  }

  ghost function NodesOf(d: List?): seq<Elem>
    reads d
  {
    if d == null then [] else d.Nodes()
  }

  lemma UniqueStart(l: List, d: List?, less: (Elem, Elem) -> bool)
    requires l.Valid() && (d != null ==> d.Valid()) && Apart(l.Nodes(), NodesOf(d)) && l.elems != []
    ensures var ns, ds := l.Nodes(), NodesOf(d);
      && TwoChains(ns, ds) && |ns| > 2 && l.head.next == ns[1] && l.tail == ns[|ns| - 1]
      && Comparing(less, ns, ds, 1, Unique(less, l.elems), Interior(ds) + Duplicates(less, l.elems))
      && Ends(ns) == (null, null) && Ends(ds) == (null, null)
      && (d != null ==> ds != [] && d.tail == ds[|ds| - 1] && Interior(ds) == d.elems)
  {
    assert Link(l.Nodes(), 0);
    CompareStart(less, l.elems, l.head, l.tail, NodesOf(d));
  }

  lemma InsideSelf(ns: seq<Elem>, ds: seq<Elem>)
    ensures Inside(ns, set n | n in ns + ds) && Inside(ds, set n | n in ns + ds)
  {
    assert forall i | 0 <= i < |ns| :: ns[i] == (ns + ds)[i];
    assert forall i | 0 <= i < |ds| :: ds[i] == (ns + ds)[|ns| + i];
  }

  // The list takes the elements of the chain ns, which has the list's own ends.
  ghost method Adopt(l: List, ns: seq<Elem>, ms: seq<Elem>)
    requires |ms| >= 2 && ms[0] == l.head && ms[|ms| - 1] == l.tail && SameEnds(ns, ms)
    requires Chain(ns) && Ends(ns) == (null, null)
    modifies l
    ensures l.Valid() && l.elems == Interior(ns)
  {
    l.elems := Interior(ns);
    assert l.Nodes() == ns;
  }

  lemma ListEnds(l: List)
    ensures |l.Nodes()| >= 2 && l.Nodes()[0] == l.head && l.Nodes()[|l.Nodes()| - 1] == l.tail
  {}

  lemma BothChains(ns: seq<Elem>, ds: seq<Elem>, ds0: seq<Elem>)
    requires TwoChains(ns, ds) && SameEnds(ds, ds0)
    ensures Chain(ns) && Chain(ds) && (|ds0| >= 2 ==> |ds| >= 2)
  {}

  // list_unique on a list that is not empty, without and with a list for the duplicates
  method UniqueOnly(l: List, less: (Elem, Elem) -> bool)
    requires l.Valid() && l.elems != []
    modifies l, l.Nodes()
    ensures l.Valid() && l.elems == Unique(less, old(l.elems))
  {
    hide Chain, Comparing, Unique, Duplicates, Interior, Inside, SameEnds, TwoChains;
    ghost var ns0, s := l.Nodes(), l.elems;
    UniqueStart(l, null, less);
    InsideSelf(ns0, []);
    ListEnds(l);
    ghost var dups := Interior([]) + Duplicates(less, s);
    ghost var ns, ds := UniqueLoop(l.head.next, l.tail, null, less, ns0, [], Unique(less, s), dups,
                                   set n | n in ns0 + []);
    BothChains(ns, ds, []);
    Adopt(l, ns, ns0);
  }

  method UniqueInto(l: List, d: List, less: (Elem, Elem) -> bool)
    requires l.Valid() && d != l && d.Valid() && Apart(l.Nodes(), d.Nodes()) && l.elems != []
    modifies l, l.Nodes(), d, d.Nodes()
    ensures l.Valid() && l.elems == Unique(less, old(l.elems))
    ensures d.Valid() && d.elems == old(d.elems) + Duplicates(less, old(l.elems))
  {
    hide Chain, Comparing, Unique, Duplicates, Interior, Inside, SameEnds, TwoChains, Apart;
    ghost var ns0, ds0, s := l.Nodes(), d.Nodes(), l.elems;
    UniqueStart(l, d, less);
    InsideSelf(ns0, ds0);
    ListEnds(l);
    ListEnds(d);
    ghost var dups := Interior(ds0) + Duplicates(less, s);
    ghost var ns, ds := UniqueLoop(l.head.next, l.tail, d.tail, less, ns0, ds0, Unique(less, s), dups,
                                   set n | n in ns0 + ds0);
    BothChains(ns, ds, ds0);
    Adopt(d, ds, ds0);
    Adopt(l, ns, ns0);
  }

  /** list_unique: the list keeps the first of each group of adjacent equal elements, and the other
      elements move, in order, to the end of the second list if there is one. */
  method ListUnique(l: List, d: List?, less: (Elem, Elem) -> bool)
    requires l.Valid() && (d != null ==> d != l && d.Valid()) && Apart(l.Nodes(), NodesOf(d))
    modifies l, l.Nodes(), d, NodesOf(d)
    ensures l.Valid() && l.elems == Unique(less, old(l.elems))
    ensures d != null ==> d.Valid() && d.elems == old(d.elems) + Duplicates(less, old(l.elems))
  {
    EmptyList(l);
    if l.head.next == l.tail {
      return;
    }
    if d == null {
      UniqueOnly(l, less);
    } else {
      UniqueInto(l, d, less);
    }
  }

  // list_empty
  lemma EmptyList(l: List)
    requires l.Valid()
    ensures l.head.next == l.tail <==> l.elems == []
  {
    ListNodes(l);
    assert Link(l.Nodes(), 0);
    SameElem(l.Nodes(), 1, |l.Nodes()| - 1);
  }
}
