/** The chained hash table. A bucket is the sequence of elements on its list, first element
    first; the table works on any hash and comparison functions that go together. */
module HashTable {
  import opened Options
  import Bits

  /* Ordering and hashing */

  predicate Eq<T>(less: (T, T) -> bool, a: T, b: T)
  {
    !less(a, b) && !less(b, a)
  }

  // Elements that are not ordered count as equal; equality is an equivalence and keeps the hash.
  ghost predicate Matching<T(!new)>(hash: T -> nat, less: (T, T) -> bool)
  {
    && (forall a {:trigger hash(a)} :: Eq(less, a, a))
    && (forall a, b, c :: Eq(less, a, b) && Eq(less, b, c) ==> Eq(less, a, c))
    && (forall a, b :: Eq(less, a, b) ==> hash(a) == hash(b))
  }

  /* Bucket arrays as values */

  ghost function Elems<T>(bs: seq<seq<T>>): set<T>
  {
    set i, x | 0 <= i < |bs| && x in bs[i] :: x
  }

  ghost predicate NoDup<T>(b: seq<T>)
  {
    forall i, j | 0 <= i < j < |b| :: b[i] != b[j]
  }

  // Bucket i holds only elements whose hash is i modulo the number of buckets, each once.
  ghost predicate Placed<T>(hash: T -> nat, bs: seq<seq<T>>)
  {
    |bs| > 0 && forall i | 0 <= i < |bs| :: Bucket(hash, bs[i], i, |bs|)
  }

  ghost predicate Bucket<T>(hash: T -> nat, b: seq<T>, i: nat, n: nat)
    requires n > 0
  {
    NoDup(b) && forall x | x in b :: hash(x) % n == i
  }

  // No two elements are equal under the ordering.
  ghost predicate Distinct<T>(less: (T, T) -> bool, es: set<T>)
  {
    forall a, b | a in es && b in es && Eq(less, a, b) :: a == b
  }

  function Pushed<T>(bs: seq<seq<T>>, k: nat, x: T): seq<seq<T>>
    requires k < |bs|
  {
    bs[k := [x] + bs[k]]
  }

  lemma PushFront<T>(hash: T -> nat, bs: seq<seq<T>>, k: nat, x: T)
    requires Placed(hash, bs) && k == hash(x) % |bs| && x !in Elems(bs)
    ensures Placed(hash, Pushed(bs, k, x)) && Elems(Pushed(bs, k, x)) == Elems(bs) + {x}
  {
    var bs' := Pushed(bs, k, x);
    assert bs'[k] == [x] + bs[k] && x !in bs[k];
    assert Bucket(hash, bs[k], k, |bs|) && Bucket(hash, bs'[k], k, |bs|);
    forall y
      ensures y in Elems(bs') <==> y in Elems(bs) || y == x
    {
      if y in Elems(bs) {
        var i :| 0 <= i < |bs| && y in bs[i];
        assert y in bs'[i];
      }
      assert x in bs'[k];
    }
  }

  // Taking out the element at position j of bucket k.
  lemma TakeOut<T>(hash: T -> nat, bs: seq<seq<T>>, k: nat, j: nat)
    requires Placed(hash, bs) && k < |bs| && j < |bs[k]|
    ensures var bs' := bs[k := bs[k][..j] + bs[k][j + 1..]];
      Placed(hash, bs') && Elems(bs') == Elems(bs) - {bs[k][j]} && bs[k][j] in Elems(bs)
  {
    var b, x := bs[k], bs[k][j];
    var b' := b[..j] + b[j + 1..];
    var bs' := bs[k := b'];
    assert Bucket(hash, b, k, |bs|) && x in bs[k];
    assert forall y | y in b' :: y in b && y != x;
    assert forall y | y in b && y != x :: y in b';
    assert Bucket(hash, b', k, |bs|);
    forall y
      ensures y in Elems(bs') <==> y in Elems(bs) && y != x
    {
      if y in Elems(bs) && y != x {
        var i :| 0 <= i < |bs| && y in bs[i];
        assert y in bs'[i];
      }
      if y in Elems(bs') {
        var i :| 0 <= i < |bs'| && y in bs'[i];
        assert y in bs[i];
        assert Bucket(hash, bs[i], i, |bs|);
      }
    }
  }

  lemma InBucket<T>(hash: T -> nat, bs: seq<seq<T>>, x: T)
    requires Placed(hash, bs)
    ensures x in Elems(bs) <==> x in bs[hash(x) % |bs|]
  {
    if x in Elems(bs) {
      var i :| 0 <= i < |bs| && x in bs[i];
      assert Bucket(hash, bs[i], i, |bs|);
    }
  }

  // Between two bucket arrays: together they hold the elements es, none of them twice.
  ghost predicate Moving<T>(hash: T -> nat, from: seq<seq<T>>, to: seq<seq<T>>, es: set<T>)
  {
    Placed(hash, from) && Placed(hash, to) && Elems(from) + Elems(to) == es && Elems(from) !! Elems(to)
  }

  lemma MoveOne<T>(hash: T -> nat, from: seq<seq<T>>, to: seq<seq<T>>, es: set<T>, i: nat)
    requires Moving(hash, from, to, es) && i < |from| && from[i] != []
    ensures Moving(hash, from[i := from[i][1..]], Pushed(to, hash(from[i][0]) % |to|, from[i][0]), es)
  {
    assert |to| > 0;
    hide Placed, Elems, Pushed;
    var x := from[i][0];
    assert from[i][1..] == from[i][..0] + from[i][1..];
    TakeOut(hash, from, i, 0);
    PushFront(hash, to, hash(x) % |to|, x);
    MovedSets(Elems(from), Elems(to), x);
  }

  lemma MovedSets<T>(a: set<T>, b: set<T>, x: T)
    requires a !! b && x in a
    ensures (a - {x}) + (b + {x}) == a + b && (a - {x}) !! (b + {x}) && x !in b
  {}

  /* The table as a finite map: a set of elements no two of which are equal is a map from
     classes of equal elements to the element that stands for the class. */

  ghost function Lookup<T>(less: (T, T) -> bool, es: set<T>, e: T): (r: Option<T>)
    ensures r.Some? ==> r.value in es && Eq(less, r.value, e)
    ensures r.None? ==> forall x | x in es :: !Eq(less, x, e)
  {
    if exists x | x in es :: Eq(less, x, e) then
      var x :| x in es && Eq(less, x, e);
      Some(x)
    else None
  }

  // The map after new takes the place of whatever was equal to it.
  ghost function Put<T>(less: (T, T) -> bool, es: set<T>, e: T): set<T>
  {
    Gone(less, es, e) + {e}
  }

  ghost function Gone<T>(less: (T, T) -> bool, es: set<T>, e: T): set<T>
  {
    match Lookup(less, es, e) {
      case Some(x) => es - {x}
      case None => es
    }
  }

  lemma LookupIs<T(!new)>(hash: T -> nat, less: (T, T) -> bool, es: set<T>, e: T, x: T)
    requires Matching(hash, less) && Distinct(less, es) && x in es && Eq(less, x, e)
    ensures Lookup(less, es, e) == Some(x)
  {
    var y := Lookup(less, es, e).value;
    assert Eq(less, y, e) && Eq(less, e, x);
    assert Eq(less, y, x);
  }

  /** Replacing and deleting follow the laws of a map keyed by equality under the ordering. */
  lemma PutLaw<T(!new)>(hash: T -> nat, less: (T, T) -> bool, es: set<T>, k: T, e: T)
    requires Matching(hash, less) && Distinct(less, es)
    ensures Distinct(less, Put(less, es, k))
    ensures Lookup(less, Put(less, es, k), e) == if Eq(less, k, e) then Some(k) else Lookup(less, es, e)
  {
    var es' := Put(less, es, k);
    GoneLaw(hash, less, es, k, e);
    forall a, b | a in es' && b in es' && Eq(less, a, b)
      ensures a == b
    {
      if a == k && b != k {
        assert Eq(less, b, k);
        LookupIs(hash, less, es, k, b);
      } else if b == k && a != k {
        LookupIs(hash, less, es, k, a);
      }
    }
    if Eq(less, k, e) {
      LookupIs(hash, less, es', e, k);
    } else if Lookup(less, es', e).Some? {
      var x := Lookup(less, es', e).value;
      LookupIs(hash, less, Gone(less, es, k), e, x);
    }
  }

  lemma GoneLaw<T(!new)>(hash: T -> nat, less: (T, T) -> bool, es: set<T>, k: T, e: T)
    requires Matching(hash, less) && Distinct(less, es)
    ensures Distinct(less, Gone(less, es, k))
    ensures Lookup(less, Gone(less, es, k), e) == if Eq(less, k, e) then None else Lookup(less, es, e)
  {
    var es' := Gone(less, es, k);
    if Lookup(less, es', e).Some? {
      var x := Lookup(less, es', e).value;
      LookupIs(hash, less, es, e, x);
      if Eq(less, k, e) {
        assert Eq(less, e, k) && Eq(less, x, k);
        LookupIs(hash, less, es, k, x);
      }
    } else if Lookup(less, es, e).Some? && !Eq(less, k, e) {
      var x := Lookup(less, es, e).value;
      assert Eq(less, k, x) && Eq(less, x, e) ==> Eq(less, k, e);
    }
  }

  /* Bucket counts */

  // The number of buckets that rehash aims at.
  function Ideal(elemCnt: nat): nat
  {
    var n := elemCnt / 2;
    Bits.TopBit(if n < 4 then 4 else n)
  }

  /** A table that was rehashed holds two to four elements per bucket once it holds eight. */
  lemma IdealRatio(elemCnt: nat)
    ensures Bits.PowerOf2(Ideal(elemCnt)) && Ideal(elemCnt) >= 4
    ensures elemCnt >= 8 ==> 2 * Ideal(elemCnt) <= elemCnt < 4 * Ideal(elemCnt)
    ensures elemCnt < 8 ==> Ideal(elemCnt) == 4
  {
    var n := if elemCnt / 2 < 4 then 4 else elemCnt / 2;
    if elemCnt < 8 {
      Bits.TopBitUnique(4, 4);
    }
  }

  // Lines 331-334 of rehash.
  method NewBucketCnt(elemCnt: nat) returns (n: nat)
    ensures n == Ideal(elemCnt)
  {
    n := elemCnt / 2;
    if n < 4 {
      n := 4;
    }
    ghost var p := Bits.TopBit(n);
    while !Bits.IsPowerOf2(n)
      invariant n > 0 && p <= n < 2 * p && Bits.PowerOf2(p) && p == Ideal(elemCnt)
      decreases n
    {
      Bits.TurnOffFacts(n);
      Bits.TurnOffKeepsTopBit(n, p);
      n := Bits.TurnOffLeast1Bit(n);
    }
    Bits.TurnOffFacts(n);
    if n > p {
      Bits.TopBitUnique(n, n);
      Bits.TopBitUnique(n, p);
    }
  }

  class Table<T(==, !new)> {
    const hash: T -> nat
    const less: (T, T) -> bool
    var elemCnt: nat
    var bucketCnt: nat
    var buckets: array<seq<T>>

    ghost predicate Valid()
      reads this, buckets
    {
      && Matching(hash, less)
      && bucketCnt == buckets.Length >= 4 && Bits.PowerOf2(bucketCnt)
      && Placed(hash, buckets[..]) && Distinct(less, Contents()) && |Contents()| == elemCnt
    }

    // The abstract state: a set that holds at most one of equal elements.
    ghost function Contents(): set<T>
      reads this, buckets
    {
      Elems(buckets[..])
    }

    // hash_init, when the allocation of the buckets succeeds
    constructor (hash: T -> nat, less: (T, T) -> bool)
      requires Matching(hash, less)
      ensures Valid() && fresh(buckets) && Contents() == {} && this.hash == hash && this.less == less
    {
      this.hash, this.less := hash, less;
      elemCnt, bucketCnt := 0, 4;
      buckets := new seq<T>[4](_ => []);
      new;
      assert buckets[..] == [[], [], [], []];
      assert Elems(buckets[..]) == {};
      assert Bits.PowerOf2(2);
    }

    method FindBucket(e: T) returns (idx: nat)
      requires Bits.PowerOf2(bucketCnt)
      ensures idx == hash(e) % bucketCnt
    {
      Bits.MaskIsRemainder(hash(e), bucketCnt);
      return Bits.And(hash(e), bucketCnt - 1);
    }

    // find_elem: the first position in the bucket of an element equal to e
    method FindElem(bucket: seq<T>, e: T) returns (pos: Option<nat>)
      ensures pos.Some? ==> pos.value < |bucket| && Eq(less, bucket[pos.value], e)
      ensures pos.Some? ==> forall j | 0 <= j < pos.value :: !Eq(less, bucket[j], e)
      ensures pos.None? ==> forall x | x in bucket :: !Eq(less, x, e)
    {
      for i := 0 to |bucket|
        invariant forall j | 0 <= j < i :: !Eq(less, bucket[j], e)
      {
        if !less(bucket[i], e) && !less(e, bucket[i]) {
          return Some(i);
        }
      }
      return None;
    }

    // insert_elem
    method InsertElem(idx: nat, e: T)
      requires idx < buckets.Length
      modifies this`elemCnt, buckets
      ensures elemCnt == old(elemCnt) + 1 && buckets[..] == Pushed(old(buckets[..]), idx, e)
    {
      elemCnt := elemCnt + 1;
      buckets[idx] := [e] + buckets[idx];
    }

    // remove_elem
    method RemoveElem(idx: nat, pos: nat)
      requires idx < buckets.Length && pos < |buckets[idx]| && elemCnt > 0
      modifies this`elemCnt, buckets
      ensures elemCnt == old(elemCnt) - 1
      ensures buckets[..] == old(buckets[..])[idx := old(buckets[idx])[..pos] + old(buckets[idx])[pos + 1..]]
    {
      elemCnt := elemCnt - 1;
      buckets[idx] := buckets[idx][..pos] + buckets[idx][pos + 1..];
    }

    // rehash; allocOk tells whether allocating new buckets would succeed.
    method Rehash(allocOk: bool)
      requires Valid()
      modifies this`buckets, this`bucketCnt, buckets
      ensures Valid() && Contents() == old(Contents())
      ensures bucketCnt == if allocOk then Ideal(elemCnt) else old(bucketCnt)
      ensures buckets == old(buckets) || fresh(buckets)
    {
      var newBucketCnt := NewBucketCnt(elemCnt);
      IdealRatio(elemCnt);
      if newBucketCnt == bucketCnt || !allocOk {
        return;
      }
      ghost var es := Contents();
      var oldBuckets := buckets;
      buckets := new seq<T>[newBucketCnt](_ => []);
      bucketCnt := newBucketCnt;
      assert Moving(hash, oldBuckets[..], buckets[..], es) by {
        assert Elems(buckets[..]) == {};
      }
      MoveAll(oldBuckets, es);
    }

    // Lines 353-366 of rehash.
    method MoveAll(oldBuckets: array<seq<T>>, ghost es: set<T>)
      requires oldBuckets != buckets && bucketCnt == buckets.Length && Bits.PowerOf2(bucketCnt)
      requires Moving(hash, oldBuckets[..], buckets[..], es)
      modifies oldBuckets, buckets
      ensures Placed(hash, buckets[..]) && Elems(buckets[..]) == es
    {
      for i := 0 to oldBuckets.Length
        invariant Moving(hash, oldBuckets[..], buckets[..], es)
        invariant forall j | 0 <= j < i :: oldBuckets[j] == []
      {
        while oldBuckets[i] != []
          invariant Moving(hash, oldBuckets[..], buckets[..], es)
          invariant forall j | 0 <= j < i :: oldBuckets[j] == []
          decreases |oldBuckets[i]|
        {
          ghost var from, to := oldBuckets[..], buckets[..];
          var x := oldBuckets[i][0];
          var idx := FindBucket(x);
          hide Moving;
          MoveOne(hash, from, to, es, i);
          oldBuckets[i] := oldBuckets[i][1..];
          buckets[idx] := [x] + buckets[idx];
          assert oldBuckets[..] == from[i := from[i][1..]];
          assert buckets[..] == Pushed(to, idx, x);
        }
      }
      assert Elems(oldBuckets[..]) == {};
    }

    // find_bucket followed by find_elem
    method Search(e: T) returns (idx: nat, pos: Option<nat>)
      requires Valid()
      ensures idx == hash(e) % bucketCnt && idx < buckets.Length
      ensures pos.Some? ==> pos.value < |buckets[idx]| && Lookup(less, Contents(), e) == Some(buckets[idx][pos.value])
      ensures pos.None? ==> Lookup(less, Contents(), e) == None
    {
      idx := FindBucket(e);
      pos := FindElem(buckets[idx], e);
      if pos.Some? {
        assert buckets[idx][pos.value] in buckets[..][idx];
        LookupIs(hash, less, Contents(), e, buckets[idx][pos.value]);
      } else if Lookup(less, Contents(), e).Some? {
        InBucket(hash, buckets[..], Lookup(less, Contents(), e).value);
      }
    }

    // hash_find
    method HashFind(e: T) returns (found: Option<T>)
      requires Valid()
      ensures found == Lookup(less, Contents(), e)
    {
      var idx, pos := Search(e);
      return if pos.Some? then Some(buckets[idx][pos.value]) else None;
    }

    // hash_insert
    method HashInsert(e: T, allocOk: bool) returns (before: Option<T>)
      requires Valid()
      modifies this`elemCnt, this`bucketCnt, this`buckets, buckets
      ensures Valid() && before == Lookup(less, old(Contents()), e)
      ensures Contents() == if before.Some? then old(Contents()) else Put(less, old(Contents()), e)
      ensures bucketCnt == if allocOk then Ideal(elemCnt) else old(bucketCnt)
      ensures buckets == old(buckets) || fresh(buckets)
    {
      var idx, pos := Search(e);
      before := if pos.Some? then Some(buckets[idx][pos.value]) else None;
      if pos.None? {
        Insert(idx, e);
      }
      Rehash(allocOk);
    }

    // insert_elem into its own bucket, of an element that nothing in the table equals
    method Insert(idx: nat, e: T)
      requires Valid() && idx == hash(e) % bucketCnt && Lookup(less, Contents(), e) == None
      modifies this`elemCnt, buckets
      ensures Valid() && Contents() == Put(less, old(Contents()), e)
    {
      PutLaw(hash, less, Contents(), e, e);
      PushFront(hash, buckets[..], idx, e);
      InsertElem(idx, e);
    }

    // remove_elem of the element that equals e
    method Remove(idx: nat, pos: nat, ghost e: T)
      requires Valid() && idx < buckets.Length && pos < |buckets[idx]|
      requires Lookup(less, Contents(), e) == Some(buckets[idx][pos])
      modifies this`elemCnt, buckets
      ensures Valid() && Contents() == Gone(less, old(Contents()), e)
    {
      GoneLaw(hash, less, Contents(), e, e);
      TakeOut(hash, buckets[..], idx, pos);
      RemoveElem(idx, pos);
    }

    // hash_replace
    method HashReplace(e: T, allocOk: bool) returns (before: Option<T>)
      requires Valid()
      modifies this`elemCnt, this`bucketCnt, this`buckets, buckets
      ensures Valid() && before == Lookup(less, old(Contents()), e) && Contents() == Put(less, old(Contents()), e)
      ensures bucketCnt == if allocOk then Ideal(elemCnt) else old(bucketCnt)
      ensures buckets == old(buckets) || fresh(buckets)
    {
      var idx, pos := Search(e);
      before := if pos.Some? then Some(buckets[idx][pos.value]) else None;
      GoneLaw(hash, less, Contents(), e, e);
      if pos.Some? {
        Remove(idx, pos.value, e);
      }
      Insert(idx, e);
      Rehash(allocOk);
    }

    // hash_delete: the bucket count is adjusted only if something was deleted.
    method HashDelete(e: T, allocOk: bool) returns (found: Option<T>)
      requires Valid()
      modifies this`elemCnt, this`bucketCnt, this`buckets, buckets
      ensures Valid() && found == Lookup(less, old(Contents()), e) && Contents() == Gone(less, old(Contents()), e)
      ensures bucketCnt == if allocOk && found.Some? then Ideal(elemCnt) else old(bucketCnt)
      ensures buckets == old(buckets) || fresh(buckets)
    {
      var idx, pos := Search(e);
      if pos.None? {
        return None;
      }
      found := Some(buckets[idx][pos.value]);
      Remove(idx, pos.value, e);
      Rehash(allocOk);
    }

    // hash_clear; destroyed are the elements that the destructor is called for, if there is one.
    method HashClear(destructor: bool) returns (destroyed: seq<T>)
      requires Valid()
      modifies this`elemCnt, buckets
      ensures Valid() && Contents() == {}
      ensures destroyed == if destructor then Rest(old(buckets[..]), 0, 0) else []
      ensures destructor ==>
        NoDup(destroyed) && |destroyed| == old(elemCnt) && forall x :: x in destroyed <==> x in old(Contents())
    {
      RestFacts(hash, buckets[..], 0);
      if destructor {
        Cardinality(Rest(buckets[..], 0, 0), Contents());
      }
      destroyed := ClearBuckets(destructor);
      elemCnt := 0;
      NoElems(hash, buckets[..]);
    }

    method ClearBuckets(destructor: bool) returns (destroyed: seq<T>)
      requires bucketCnt == buckets.Length
      modifies buckets
      ensures forall j | 0 <= j < buckets.Length :: buckets[j] == []
      ensures destroyed == if destructor then Rest(old(buckets[..]), 0, 0) else []
    {
      hide Rest;
      destroyed := [];
      for i := 0 to bucketCnt
        invariant forall j | 0 <= j < i :: buckets[j] == []
        invariant if destructor then destroyed + Rest(buckets[..], i, 0) == Rest(old(buckets[..]), 0, 0)
                  else destroyed == []
      {
        destroyed := ClearBucket(i, destructor, destroyed);
      }
      RestEnd(buckets[..]);
    }

    // One bucket: the destructor takes its elements from the front, then list_init.
    method ClearBucket(i: nat, destructor: bool, destroyed0: seq<T>) returns (destroyed: seq<T>)
      requires i < buckets.Length
      modifies buckets
      ensures buckets[i] == [] && forall j | 0 <= j < buckets.Length && j != i :: buckets[j] == old(buckets[j])
      ensures if destructor then
                destroyed + Rest(buckets[..], i + 1, 0) == destroyed0 + Rest(old(buckets[..]), i, 0)
              else destroyed == destroyed0
    {
      hide Rest;
      destroyed := destroyed0;
      if destructor {
        ghost var rest := buckets[i];
        while buckets[i] != []
          invariant forall j | 0 <= j < buckets.Length && j != i :: buckets[j] == old(buckets[j])
          invariant destroyed + buckets[i] == destroyed0 + rest
          decreases |buckets[i]|
        {
          destroyed := destroyed + [buckets[i][0]];
          buckets[i] := buckets[i][1..];
        }
      }
      buckets[i] := [];
      RestSame(old(buckets[..]), buckets[..], i + 1);
      RestStep(old(buckets[..]), i, destroyed0);
    }

    method Do(call: Call<T>, allocOk: bool)
      requires Valid()
      modifies this`elemCnt, this`bucketCnt, this`buckets, buckets
      ensures Valid() && Contents() == Step(less, old(Contents()), call)
      ensures buckets == old(buckets) || fresh(buckets)
    {
      match call {
        case Insert(e) =>
          var _ := HashInsert(e, allocOk);
        case Replace(e) =>
          var _ := HashReplace(e, allocOk);
        case Delete(e) =>
          var _ := HashDelete(e, allocOk);
      }
    }

    // Any sequence of insertions, replacements and deletions, whatever the allocations do.
    method Run(calls: seq<(Call<T>, bool)>)
      requires Valid()
      modifies this`elemCnt, this`bucketCnt, this`buckets, buckets
      ensures Valid() && Contents() == After(less, old(Contents()), calls)
      ensures buckets == old(buckets) || fresh(buckets)
    {
      for i := 0 to |calls|
        invariant Valid() && Contents() == After(less, old(Contents()), calls[..i])
        invariant buckets == old(buckets) || fresh(buckets)
      {
        Do(calls[i].0, calls[i].1);
        assert calls[..i + 1][..i] == calls[..i];
      }
      assert calls[..|calls|] == calls;
    }
  }

  datatype Call<T> = Insert(e: T) | Replace(e: T) | Delete(e: T)

  // The same calls on a finite map.
  ghost function Step<T>(less: (T, T) -> bool, es: set<T>, call: Call<T>): set<T>
  {
    match call {
      case Insert(e) => if Lookup(less, es, e).Some? then es else Put(less, es, e)
      case Replace(e) => Put(less, es, e)
      case Delete(e) => Gone(less, es, e)
    }
  }

  ghost function After<T>(less: (T, T) -> bool, es: set<T>, calls: seq<(Call<T>, bool)>): set<T>
  {
    if calls == [] then es
    else Step(less, After(less, es, calls[..|calls| - 1]), calls[|calls| - 1].0)
  }

  /* Iteration */

  // The elements from position at of bucket b on.
  function Rest<T>(bs: seq<seq<T>>, b: nat, at: nat): seq<T>
    requires b < |bs| ==> at <= |bs[b]|
    decreases |bs| - b
  {
    if b >= |bs| then [] else bs[b][at..] + Rest(bs, b + 1, 0)
  }

  lemma RestStep<T>(bs: seq<seq<T>>, b: nat, done: seq<T>)
    requires b < |bs|
    ensures done + Rest(bs, b, 0) == (done + bs[b]) + Rest(bs, b + 1, 0)
  {
    assert bs[b][0..] == bs[b];
  }

  lemma RestEnd<T>(bs: seq<seq<T>>)
    ensures Rest(bs, |bs|, 0) == []
  {}

  lemma NoElems<T>(hash: T -> nat, bs: seq<seq<T>>)
    requires |bs| > 0 && forall i | 0 <= i < |bs| :: bs[i] == []
    ensures Placed(hash, bs) && Elems(bs) == {}
  {}

  lemma {:induction false} RestSame<T>(bs: seq<seq<T>>, bs': seq<seq<T>>, b: nat)
    requires |bs'| == |bs| && forall i | b <= i < |bs| :: bs'[i] == bs[i]
    ensures Rest(bs', b, 0) == Rest(bs, b, 0)
    decreases |bs| - b
  {
    if b < |bs| {
      RestSame(bs, bs', b + 1);
    }
  }

  // hash_init; allocOk tells whether the buckets can be allocated.
  method HashInit<T(==, !new)>(hash: T -> nat, less: (T, T) -> bool, allocOk: bool) returns (table: Option<Table<T>>)
    requires Matching(hash, less)
    ensures table.Some? <==> allocOk
    ensures table.Some? ==> table.value.Valid() && fresh(table.value) && fresh(table.value.buckets)
    ensures table.Some? ==> table.value.Contents() == {} && table.value.hash == hash && table.value.less == less
  {
    if !allocOk {
      return None;
    }
    var t := new Table(hash, less);
    return Some(t);
  }

  class Iterator<T(==, !new)> {
    const table: Table<T>
    var bucket: nat
    var at: nat                     // one past the current element of the bucket

    // hash_first
    constructor (table: Table<T>)
      requires table.Valid()
      ensures this.table == table && InTable() && ToCome() == Rest(table.buckets[..], 0, 0)
    {
      this.table := table;
      bucket, at := 0, 0;
    }

    predicate InTable()
      reads this, table, table.buckets
    {
      bucket < table.buckets.Length && at <= |table.buckets[bucket]|
    }

    ghost function ToCome(): seq<T>
      requires bucket < table.buckets.Length ==> InTable()
      reads this, table, table.buckets
    {
      Rest(table.buckets[..], bucket, at)
    }

    // hash_next, up to the end of the table
    method Next() returns (elem: Option<T>)
      requires table.Valid() && InTable()
      modifies this`bucket, this`at
      ensures elem.None? <==> old(ToCome()) == []
      ensures elem.Some? ==> InTable() && old(ToCome()) == [elem.value] + ToCome()
    {
      while at == |table.buckets[bucket]|
        invariant InTable() && ToCome() == old(ToCome())
        decreases table.buckets.Length - bucket
      {
        assert table.buckets[..][bucket][at..] == [];
        bucket := bucket + 1;
        assert Rest(table.buckets[..], bucket, 0) == old(ToCome());
        if bucket >= table.bucketCnt {
          return None;
        }
        at := 0;
      }
      elem := Some(table.buckets[bucket][at]);
      at := at + 1;
    }
  }

  // The iteration idiom.
  method Walk<T(==, !new)>(table: Table<T>) returns (visited: seq<T>)
    requires table.Valid()
    ensures NoDup(visited) && |visited| == table.elemCnt
    ensures forall x :: x in visited <==> x in table.Contents()
  {
    var i := new Iterator(table);
    visited := [];
    var elem := i.Next();
    ghost var all := Rest(table.buckets[..], 0, 0);
    while elem.Some?
      invariant elem.Some? ==> i.InTable() && all == visited + [elem.value] + i.ToCome()
      invariant elem.None? ==> all == visited
      invariant i.table == table
      decreases |all| - |visited|
    {
      visited := visited + [elem.value];
      elem := i.Next();
    }
    RestFacts(table.hash, table.buckets[..], 0);
    Cardinality(visited, table.Contents());
  }

  // What is left from bucket b on: each element once, none from an earlier bucket.
  lemma {:induction false} RestFacts<T>(hash: T -> nat, bs: seq<seq<T>>, b: nat)
    requires Placed(hash, bs) && b <= |bs|
    ensures NoDup(Rest(bs, b, 0))
    ensures forall x :: x in Rest(bs, b, 0) <==> exists i | b <= i < |bs| :: x in bs[i]
    decreases |bs| - b
  {
    if b < |bs| {
      RestFacts(hash, bs, b + 1);
      assert Rest(bs, b, 0) == bs[b] + Rest(bs, b + 1, 0);
      forall x | x in bs[b]
        ensures x !in Rest(bs, b + 1, 0)
      {
        assert Bucket(hash, bs[b], b, |bs|);
        forall i | b + 1 <= i < |bs|
          ensures x !in bs[i]
        {
          assert Bucket(hash, bs[i], i, |bs|);
        }
      }
      assert Bucket(hash, bs[b], b, |bs|);
      NoDupConcat(bs[b], Rest(bs, b + 1, 0));
    }
  }

  lemma NoDupConcat<T>(s: seq<T>, t: seq<T>)
    requires NoDup(s) && NoDup(t) && forall x | x in s :: x !in t
    ensures NoDup(s + t)
  {
    forall i, j | 0 <= i < j < |s + t|
      ensures (s + t)[i] != (s + t)[j]
    {
      assert i < |s| ==> (s + t)[i] in s;
      assert j >= |s| ==> (s + t)[j] in t;
    }
  }

  lemma {:induction false} Cardinality<T>(s: seq<T>, es: set<T>)
    requires NoDup(s) && forall x | x in es :: x in s
    requires forall x | x in s :: x in es
    ensures |s| == |es|
  {
    if s == [] {
      assert es == {};
    } else {
      var x, t := s[|s| - 1], s[..|s| - 1];
      assert s == t + [x];
      Cardinality(t, es - {x});
    }
  }
}
