/** Three searches for the largest sum of a rectangle of a matrix: by brute force, by prefix
    sums, and by a one-dimensional search over sums of columns. */
module MaxRectangle {
  // Sum of row[j1..j2].
  function RowSum(row: seq<int>, j1: nat, j2: nat): int
    requires j1 <= j2 <= |row|
    decreases j2
  {
    if j1 == j2 then 0 else RowSum(row, j1, j2 - 1) + row[j2 - 1]
  }

  ghost predicate Matrix(m: seq<seq<int>>, rows: nat, columns: nat)
  {
    |m| == rows && forall k | 0 <= k < rows :: |m[k]| == columns
  }

  // Sum over the rows i1..i2 of the columns j1..j2.
  function RectSum(m: seq<seq<int>>, i1: nat, i2: nat, j1: nat, j2: nat): int
    requires i1 <= i2 <= |m| && j1 <= j2 && forall k | i1 <= k < i2 :: j2 <= |m[k]|
    decreases i2
  {
    if i1 == i2 then 0 else RectSum(m, i1, i2 - 1, j1, j2) + RowSum(m[i2 - 1], j1, j2)
  }

  // A rectangle by its first and last row and its first and last column.
  datatype Rect = Rect(i1: nat, i2: nat, j1: nat, j2: nat)

  predicate In(r: Rect, rows: nat, columns: nat)
  {
    r.i1 <= r.i2 < rows && r.j1 <= r.j2 < columns
  }

  ghost function Sum(m: seq<seq<int>>, rows: nat, columns: nat, r: Rect): int
    requires Matrix(m, rows, columns)
  {
    if In(r, rows, columns) then RectSum(m, r.i1, r.i2 + 1, r.j1, r.j2 + 1) else 0
  }

  // v is zero or the sum of some rectangle.
  ghost predicate Attained(m: seq<seq<int>>, rows: nat, columns: nat, v: int)
    requires Matrix(m, rows, columns)
  {
    v == 0 || exists r :: In(r, rows, columns) && Sum(m, rows, columns, r) == v
  }

  // The maximum of zero and the largest rectangle sum.
  ghost predicate Maximum(m: seq<seq<int>>, rows: nat, columns: nat, v: int)
    requires Matrix(m, rows, columns)
  {
    && v >= 0 && Attained(m, rows, columns, v)
    && forall r | In(r, rows, columns) :: Sum(m, rows, columns, r) <= v
  }

  /** There is one maximum, so all three searches return the same number. */
  lemma MaximumUnique(m: seq<seq<int>>, rows: nat, columns: nat, v: int, w: int)
    requires Matrix(m, rows, columns) && Maximum(m, rows, columns, v) && Maximum(m, rows, columns, w)
    ensures v == w
  {
    if v > 0 {
      var r :| In(r, rows, columns) && Sum(m, rows, columns, r) == v;
    }
    if w > 0 {
      var r :| In(r, rows, columns) && Sum(m, rows, columns, r) == w;
    }
  }

  /* Trying rectangles in a fixed order */

  predicate Before(r: Rect, c: Rect)
  {
    || r.i1 < c.i1
    || (r.i1 == c.i1 && r.i2 < c.i2)
    || (r.i1 == c.i1 && r.i2 == c.i2 && r.j1 < c.j1)
    || (r.i1 == c.i1 && r.i2 == c.i2 && r.j1 == c.j1 && r.j2 < c.j2)
  }

  // maxsum after all rectangles before c were tried.
  ghost predicate Tried(m: seq<seq<int>>, rows: nat, columns: nat, v: int, c: Rect)
  {
    && Matrix(m, rows, columns) && v >= 0 && Attained(m, rows, columns, v)
    && forall r | In(r, rows, columns) && Before(r, c) :: Sum(m, rows, columns, r) <= v
  }

  // No rectangle lies between two places where the loops stand.
  lemma Move(m: seq<seq<int>>, rows: nat, columns: nat, v: int, c: Rect, c': Rect)
    requires Tried(m, rows, columns, v, c)
    requires (
      || (c' == Rect(c.i1, c.i1, 0, 0) && c.i2 == c.j1 == c.j2 == 0)
      || (c' == Rect(c.i1, c.i2, c.j1, c.j1) && c.j2 == 0)
      || (c' == Rect(c.i1, c.i2, c.j1 + 1, 0) && c.j2 == columns)
      || (c' == Rect(c.i1, c.i2 + 1, 0, 0) && c.j1 == columns && c.j2 == 0)
      || (c' == Rect(c.i1 + 1, 0, 0, 0) && c.i2 == rows && c.j1 == c.j2 == 0))
    ensures Tried(m, rows, columns, v, c')
  {}

  lemma Try(m: seq<seq<int>>, rows: nat, columns: nat, v: int, c: Rect)
    requires Tried(m, rows, columns, v, c) && In(c, rows, columns)
    ensures var s := Sum(m, rows, columns, c);
      Tried(m, rows, columns, if s > v then s else v, c.(j2 := c.j2 + 1))
  {
    assert forall r | In(r, rows, columns) && Before(r, c.(j2 := c.j2 + 1)) :: Before(r, c) || r == c;
  }

  lemma AllTried(m: seq<seq<int>>, rows: nat, columns: nat, v: int)
    requires Tried(m, rows, columns, v, Rect(rows, 0, 0, 0))
    ensures Maximum(m, rows, columns, v)
  {}

  lemma NoneTried(m: seq<seq<int>>, rows: nat, columns: nat)
    requires Matrix(m, rows, columns)
    ensures Tried(m, rows, columns, 0, Rect(0, 0, 0, 0))
  {}

  /* Brute force */

  // Lines 52-57 of index1 and lines 107-113 of index2.
  method AddUp(list: seq<seq<int>>, i1: nat, i2: nat, j1: nat, j2: nat) returns (thissum: int)
    requires i1 <= i2 < |list| && j1 <= j2 && forall k | i1 <= k <= i2 :: j2 < |list[k]|
    ensures thissum == RectSum(list, i1, i2 + 1, j1, j2 + 1)
  {
    thissum := 0;
    for k1 := i1 to i2 + 1
      invariant thissum == RectSum(list, i1, k1, j1, j2 + 1)
    {
      for k2 := j1 to j2 + 1
        invariant thissum == RectSum(list, i1, k1, j1, j2 + 1) + RowSum(list[k1], j1, k2)
      {
        thissum := thissum + list[k1][k2];
      }
    }
  }

  method Index1(list: seq<seq<int>>, row: nat, column: nat) returns (maxsum: int)
    requires Matrix(list, row, column)
    ensures Maximum(list, row, column, maxsum)
  {
    hide Tried, Maximum;
    maxsum := 0;
    NoneTried(list, row, column);
    for i1 := 0 to row
      invariant Tried(list, row, column, maxsum, Rect(i1, 0, 0, 0))
    {
      Move(list, row, column, maxsum, Rect(i1, 0, 0, 0), Rect(i1, i1, 0, 0));
      for i2 := i1 to row
        invariant Tried(list, row, column, maxsum, Rect(i1, i2, 0, 0))
      {
        for j1 := 0 to column
          invariant Tried(list, row, column, maxsum, Rect(i1, i2, j1, 0))
        {
          Move(list, row, column, maxsum, Rect(i1, i2, j1, 0), Rect(i1, i2, j1, j1));
          for j2 := j1 to column
            invariant Tried(list, row, column, maxsum, Rect(i1, i2, j1, j2))
          {
            var thissum := AddUp(list, i1, i2, j1, j2);
            Try(list, row, column, maxsum, Rect(i1, i2, j1, j2));
            if thissum > maxsum {
              maxsum := thissum;
            }
          }
          Move(list, row, column, maxsum, Rect(i1, i2, j1, column), Rect(i1, i2, j1 + 1, 0));
        }
        Move(list, row, column, maxsum, Rect(i1, i2, column, 0), Rect(i1, i2 + 1, 0, 0));
      }
      Move(list, row, column, maxsum, Rect(i1, row, 0, 0), Rect(i1 + 1, 0, 0, 0));
    }
    AllTried(list, row, column, maxsum);
  }

  /* Prefix sums */

  lemma {:induction false} RowSplit(row: seq<int>, j1: nat, j2: nat)
    requires j1 <= j2 <= |row|
    ensures RowSum(row, 0, j2) == RowSum(row, 0, j1) + RowSum(row, j1, j2)
    decreases j2
  {
    if j1 < j2 {
      RowSplit(row, j1, j2 - 1);
    }
  }

  lemma {:induction false} ColumnSplit(m: seq<seq<int>>, i1: nat, i2: nat, j1: nat, j2: nat)
    requires i1 <= i2 <= |m| && j1 <= j2 && forall k | i1 <= k < i2 :: j2 <= |m[k]|
    ensures RectSum(m, i1, i2, 0, j2) == RectSum(m, i1, i2, 0, j1) + RectSum(m, i1, i2, j1, j2)
    decreases i2
  {
    if i1 < i2 {
      ColumnSplit(m, i1, i2 - 1, j1, j2);
      RowSplit(m[i2 - 1], j1, j2);
    }
  }

  lemma {:induction false} BandSplit(m: seq<seq<int>>, i1: nat, i2: nat, j: nat)
    requires i1 <= i2 <= |m| && forall k | 0 <= k < i2 :: j <= |m[k]|
    ensures RectSum(m, 0, i2, 0, j) == RectSum(m, 0, i1, 0, j) + RectSum(m, i1, i2, 0, j)
    decreases i2
  {
    if i1 < i2 {
      BandSplit(m, i1, i2 - 1, j);
    }
  }

  lemma {:induction false} NoColumns(m: seq<seq<int>>, i1: nat, i2: nat)
    requires i1 <= i2 <= |m|
    ensures RectSum(m, i1, i2, 0, 0) == 0
    decreases i2
  {
    if i1 < i2 {
      NoColumns(m, i1, i2 - 1);
    }
  }

  /** A rectangle from four prefix sums. */
  lemma InclusionExclusion(m: seq<seq<int>>, i1: nat, i2: nat, j1: nat, j2: nat)
    requires i1 <= i2 <= |m| && j1 <= j2 && forall k | 0 <= k < i2 :: j2 <= |m[k]|
    ensures RectSum(m, i1, i2, j1, j2) ==
      RectSum(m, 0, i2, 0, j2) - RectSum(m, 0, i1, 0, j2) - RectSum(m, 0, i2, 0, j1) + RectSum(m, 0, i1, 0, j1)
  {
    ColumnSplit(m, i1, i2, j1, j2);
    BandSplit(m, i1, i2, j2);
    BandSplit(m, i1, i2, j1);
  }

  ghost predicate Prefixes(m: seq<seq<int>>, rows: nat, columns: nat, p: array2<int>)
    reads p
  {
    && Matrix(m, rows, columns) && p.Length0 == rows && p.Length1 == columns
    && forall i, j | 0 <= i < rows && 0 <= j < columns :: p[i, j] == RectSum(m, 0, i + 1, 0, j + 1)
  }

  // Lines 100-115 of index2.
  method PrefixSums(list1: seq<seq<int>>, row: nat, column: nat) returns (list2: array2<int>)
    requires Matrix(list1, row, column)
    ensures fresh(list2) && Prefixes(list1, row, column, list2)
  {
    list2 := new int[row, column];
    for i1 := 0 to row
      invariant forall i, j | 0 <= i < i1 && 0 <= j < column :: list2[i, j] == RectSum(list1, 0, i + 1, 0, j + 1)
    {
      for j1 := 0 to column
        invariant forall i, j | 0 <= i < i1 && 0 <= j < column :: list2[i, j] == RectSum(list1, 0, i + 1, 0, j + 1)
        invariant forall j | 0 <= j < j1 :: list2[i1, j] == RectSum(list1, 0, i1 + 1, 0, j + 1)
      {
        var temp := AddUp(list1, 0, i1, 0, j1);
        list2[i1, j1] := temp;
      }
    }
  }

  // Lines 121-132 of index2.
  method FromPrefixes(list2: array2<int>, i1: nat, i2: nat, j1: nat, j2: nat, ghost m: seq<seq<int>>)
      returns (thissum: int)
    requires Prefixes(m, list2.Length0, list2.Length1, list2) && In(Rect(i1, i2, j1, j2), list2.Length0, list2.Length1)
    ensures thissum == RectSum(m, i1, i2 + 1, j1, j2 + 1)
  {
    InclusionExclusion(m, i1, i2 + 1, j1, j2 + 1);
    NoColumns(m, 0, i1);
    NoColumns(m, 0, i2 + 1);
    if i1 == 0 && j1 == 0 {
      thissum := list2[i2, j2];
    } else if i1 == 0 {
      thissum := list2[i2, j2] - list2[i2, j1 - 1];
    } else if j1 == 0 {
      thissum := list2[i2, j2] - list2[i1 - 1, j2];
    } else {
      thissum := list2[i2, j2] - list2[i1 - 1, j2] - list2[i2, j1 - 1] + list2[i1 - 1, j1 - 1];
    }
  }

  method Index2(list1: seq<seq<int>>, row: nat, column: nat) returns (maxsum: int)
    requires Matrix(list1, row, column)
    ensures Maximum(list1, row, column, maxsum)
  {
    hide Tried, Maximum, Prefixes;
    var list2 := PrefixSums(list1, row, column);
    maxsum := 0;
    NoneTried(list1, row, column);
    for i1 := 0 to row
      invariant Prefixes(list1, row, column, list2)
      invariant Tried(list1, row, column, maxsum, Rect(i1, 0, 0, 0))
    {
      Move(list1, row, column, maxsum, Rect(i1, 0, 0, 0), Rect(i1, i1, 0, 0));
      for i2 := i1 to row
        invariant Prefixes(list1, row, column, list2)
        invariant Tried(list1, row, column, maxsum, Rect(i1, i2, 0, 0))
      {
        for j1 := 0 to column
          invariant Prefixes(list1, row, column, list2)
          invariant Tried(list1, row, column, maxsum, Rect(i1, i2, j1, 0))
        {
          Move(list1, row, column, maxsum, Rect(i1, i2, j1, 0), Rect(i1, i2, j1, j1));
          for j2 := j1 to column
            invariant Prefixes(list1, row, column, list2)
            invariant Tried(list1, row, column, maxsum, Rect(i1, i2, j1, j2))
          {
            PrefixSize(list1, row, column, list2);
            var thissum := FromPrefixes(list2, i1, i2, j1, j2, list1);
            Try(list1, row, column, maxsum, Rect(i1, i2, j1, j2));
            if thissum > maxsum {
              maxsum := thissum;
            }
          }
          Move(list1, row, column, maxsum, Rect(i1, i2, j1, column), Rect(i1, i2, j1 + 1, 0));
        }
        Move(list1, row, column, maxsum, Rect(i1, i2, column, 0), Rect(i1, i2 + 1, 0, 0));
      }
      Move(list1, row, column, maxsum, Rect(i1, row, 0, 0), Rect(i1 + 1, 0, 0, 0));
    }
    AllTried(list1, row, column, maxsum);
  }

  lemma PrefixSize(m: seq<seq<int>>, rows: nat, columns: nat, p: array2<int>)
    requires Prefixes(m, rows, columns, p)
    ensures p.Length0 == rows && p.Length1 == columns
  {}

  /* One dimension */

  // Sum of s[a..b].
  function SegSum(s: seq<int>, a: nat, b: nat): int
    requires a <= b <= |s|
    decreases b
  {
    if a == b then 0 else SegSum(s, a, b - 1) + s[b - 1]
  }

  // v is the largest sum of a segment of s[..n], an empty one included.
  ghost predicate SegMax(s: seq<int>, n: nat, v: int)
    requires n <= |s|
  {
    && (exists a, b | 0 <= a <= b <= n :: SegSum(s, a, b) == v)
    && forall a, b | 0 <= a <= b <= n :: SegSum(s, a, b) <= v
  }

  // v is the largest sum of a segment that ends at n.
  ghost predicate EndMax(s: seq<int>, n: nat, v: int)
    requires n <= |s|
  {
    && (exists a | 0 <= a <= n :: SegSum(s, a, n) == v)
    && forall a | 0 <= a <= n :: SegSum(s, a, n) <= v
  }

  lemma EndMore(s: seq<int>, n: nat, v: int)
    requires n < |s| && EndMax(s, n, v)
    ensures EndMax(s, n + 1, if v + s[n] < 0 then 0 else v + s[n])
  {
    var m := n + 1;
    assert SegSum(s, m, m) == 0;
    forall a | 0 <= a <= m
      ensures SegSum(s, a, m) <= if v + s[n] < 0 then 0 else v + s[n]
    {
      assert a <= n ==> SegSum(s, a, m) == SegSum(s, a, n) + s[n];
    }
    var a :| 0 <= a <= n && SegSum(s, a, n) == v;
    assert SegSum(s, a, m) == v + s[n];
  }

  lemma SegMore(s: seq<int>, n: nat, v: int, w: int)
    requires n < |s| && SegMax(s, n, v) && EndMax(s, n + 1, w)
    ensures SegMax(s, n + 1, if w > v then w else v)
  {
    forall a, b | 0 <= a <= b <= n + 1
      ensures SegSum(s, a, b) <= if w > v then w else v
    {
    }
  }

  // maxsubsequencesum
  method MaxSubsequenceSum(list: array<int>, n: nat) returns (maxsum: int)
    requires n == list.Length
    ensures SegMax(list[..], n, maxsum) && maxsum >= 0
  {
    hide EndMax, SegMax;
    var thissum := 0;
    maxsum := 0;
    ghost var s := list[..];
    SegStart(s);
    for i := 0 to n
      invariant EndMax(s, i, thissum) && SegMax(s, i, maxsum) && 0 <= thissum <= maxsum
    {
      EndMore(s, i, thissum);
      thissum := thissum + list[i];
      if thissum < 0 {
        thissum := 0;
        SegMore(s, i, maxsum, 0);
      } else {
        SegMore(s, i, maxsum, thissum);
        if thissum > maxsum {
          maxsum := thissum;
        }
      }
    }
  }

  lemma SegStart(s: seq<int>)
    ensures EndMax(s, 0, 0) && SegMax(s, 0, 0)
  {
    assert SegSum(s, 0, 0) == 0;
  }

  /* Sums of columns */

  // temp[k] is the sum of the columns j1..j2 of row k.
  ghost predicate ColumnSums(m: seq<seq<int>>, rows: nat, columns: nat, t: seq<int>, j1: nat, j2: nat)
  {
    && Matrix(m, rows, columns) && |t| == rows && j1 <= j2 <= columns
    && forall k | 0 <= k < rows :: t[k] == RowSum(m[k], j1, j2)
  }

  lemma {:induction false} SegIsRect(m: seq<seq<int>>, rows: nat, columns: nat, t: seq<int>, j1: nat, j2: nat,
                                     a: nat, b: nat)
    requires ColumnSums(m, rows, columns, t, j1, j2) && a <= b <= rows
    ensures SegSum(t, a, b) == RectSum(m, a, b, j1, j2)
    decreases b
  {
    if a < b {
      SegIsRect(m, rows, columns, t, j1, j2, a, b - 1);
    }
  }

  // maxsum after all rectangles with the columns before (j1, j2) were tried.
  ghost predicate TriedColumns(m: seq<seq<int>>, rows: nat, columns: nat, v: int, j1: nat, j2: nat)
  {
    && Matrix(m, rows, columns) && v >= 0 && Attained(m, rows, columns, v)
    && forall r | In(r, rows, columns) && (r.j1 < j1 || (r.j1 == j1 && r.j2 < j2)) :: Sum(m, rows, columns, r) <= v
  }

  lemma MoveColumns(m: seq<seq<int>>, rows: nat, columns: nat, v: int, j: nat)
    ensures TriedColumns(m, rows, columns, v, j, 0) ==> TriedColumns(m, rows, columns, v, j, j)
    ensures TriedColumns(m, rows, columns, v, j, columns) ==> TriedColumns(m, rows, columns, v, j + 1, 0)
    ensures TriedColumns(m, rows, columns, v, columns, 0) ==> Maximum(m, rows, columns, v)
    ensures Matrix(m, rows, columns) ==> TriedColumns(m, rows, columns, 0, 0, 0)
  {}

  lemma TryColumns(m: seq<seq<int>>, rows: nat, columns: nat, t: seq<int>, v: int, w: int, j1: nat, j2: nat)
    requires TriedColumns(m, rows, columns, v, j1, j2) && j1 <= j2 < columns
    requires ColumnSums(m, rows, columns, t, j1, j2 + 1) && SegMax(t, rows, w)
    ensures TriedColumns(m, rows, columns, if w > v then w else v, j1, j2 + 1)
  {
    forall r | In(r, rows, columns) && r.j1 == j1 && r.j2 == j2
      ensures Sum(m, rows, columns, r) <= w
    {
      SegIsRect(m, rows, columns, t, j1, j2 + 1, r.i1, r.i2 + 1);
    }
    if w > v {
      var a, b :| 0 <= a <= b <= rows && SegSum(t, a, b) == w;
      SegIsRect(m, rows, columns, t, j1, j2 + 1, a, b);
      var r := Rect(a, b - 1, j1, j2);
      assert In(r, rows, columns) && Sum(m, rows, columns, r) == w;
    }
  }

  // Lines 184-186 of index3: one more column.
  method AddColumn(list: seq<seq<int>>, row: nat, column: nat, temp: array<int>, i: nat, j: nat)
    requires ColumnSums(list, row, column, temp[..], i, j) && j < column
    modifies temp
    ensures ColumnSums(list, row, column, temp[..], i, j + 1)
  {
    for k := 0 to row
      invariant forall t | 0 <= t < k :: temp[t] == RowSum(list[t], i, j + 1)
      invariant forall t | k <= t < row :: temp[t] == RowSum(list[t], i, j)
    {
      temp[k] := temp[k] + list[k][j];
    }
  }

  // memset
  method Clear(list: seq<seq<int>>, row: nat, column: nat, temp: array<int>, ghost i: nat)
    requires Matrix(list, row, column) && temp.Length == row && i <= column
    modifies temp
    ensures ColumnSums(list, row, column, temp[..], i, i)
  {
    for k := 0 to row
      invariant forall t | 0 <= t < k :: temp[t] == 0
    {
      temp[k] := 0;
    }
  }

  method Index3(list: seq<seq<int>>, row: nat, column: nat) returns (maxsum: int)
    requires Matrix(list, row, column)
    ensures Maximum(list, row, column, maxsum)
  {
    hide *;
    maxsum := 0;
    var temp := new int[row];
    MoveColumns(list, row, column, maxsum, 0);
    for i := 0 to column
      invariant TriedColumns(list, row, column, maxsum, i, 0)
    {
      Clear(list, row, column, temp, i);
      MoveColumns(list, row, column, maxsum, i);
      for j := i to column
        invariant ColumnSums(list, row, column, temp[..], i, j)
        invariant TriedColumns(list, row, column, maxsum, i, j)
      {
        AddColumn(list, row, column, temp, i, j);
        var thissum := MaxSubsequenceSum(temp, row);
        TryColumns(list, row, column, temp[..], maxsum, thissum, i, j);
        if thissum > maxsum {
          maxsum := thissum;
        }
      }
      MoveColumns(list, row, column, maxsum, i);
    }
    MoveColumns(list, row, column, maxsum, column);
  }

  /** The three searches agree on every matrix. */
  method AllAgree(list: seq<seq<int>>, row: nat, column: nat) returns (a: int, b: int, c: int)
    requires Matrix(list, row, column)
    ensures a == b == c && Maximum(list, row, column, a)
  {
    a := Index1(list, row, column);
    b := Index2(list, row, column);
    c := Index3(list, row, column);
    MaximumUnique(list, row, column, a, b);
    MaximumUnique(list, row, column, b, c);
  }
}
