/** The two searches for a pattern in a string: nfind, which compares the last character first,
    and KMP with its failure table. Both also count their steps. */
module StringSearch {
  import A = IntegerFacts

  predicate OccursAt(s: string, p: string, t: nat)
  {
    t + |p| <= |s| && s[t..t + |p|] == p
  }

  predicate Occurs(s: string, p: string)
  {
    exists t | 0 <= t <= |s| :: OccursAt(s, p, t)
  }

  /* Borders */

  // The first b characters of the prefix of length m are also its last b, and b < m.
  predicate Border(p: string, m: nat, b: nat)
  {
    b < m <= |p| && p[..b] == p[m - b..m]
  }

  ghost predicate NoneLonger(p: string, m: nat, b: nat)
  {
    forall c | b < c < m :: !Border(p, m, c)
  }

  ghost predicate LongestBorder(p: string, m: nat, b: nat)
  {
    Border(p, m, b) && NoneLonger(p, m, b)
  }

  lemma BorderStep(p: string, m: nat, b: nat)
    requires 0 < b <= m < |p|
    ensures Border(p, m + 1, b) <==> Border(p, m, b - 1) && p[b - 1] == p[m]
  {
    assert p[..b] == p[..b - 1] + [p[b - 1]];
    assert p[m + 1 - b..m + 1] == p[m + 1 - b..m] + [p[m]];
  }

  lemma BorderOfBorder(p: string, m: nat, b: nat, c: nat)
    requires Border(p, m, b) && c < b
    ensures Border(p, m, c) <==> Border(p, b, c)
  {
    assert p[m - c..m] == p[m - b..m][b - c..];
    assert p[b - c..b] == p[..b][b - c..];
  }

  // The end of the longest border of the first j + 1 characters, for every j before n.
  ghost predicate Table(p: string, f: seq<int>, n: nat)
  {
    n <= |f| && n <= |p| && forall j | 0 <= j < n :: f[j] >= -1 && LongestBorder(p, j + 1, f[j] + 1)
  }

  // A border of length i + 1 of the first j characters, and no border of one more character is longer than i + 2.
  ghost predicate Candidate(p: string, j: nat, i: int)
  {
    -1 <= i && Border(p, j, i + 1) && NoneLonger(p, j + 1, i + 2)
  }

  lemma FirstCandidate(p: string, j: nat, i: int)
    requires 0 < j < |p| && i >= -1 && LongestBorder(p, j, i + 1)
    ensures Candidate(p, j, i)
  {
    var m := j + 1;
    forall b | i + 2 < b < m
      ensures !Border(p, m, b)
    {
      BorderStep(p, j, b);
    }
  }

  lemma NextCandidate(p: string, j: nat, i: int, i': int)
    requires 0 < j < |p| && i >= 0 && Candidate(p, j, i) && p[j] != p[i + 1]
    requires i' >= -1 && LongestBorder(p, i + 1, i' + 1)
    ensures Candidate(p, j, i') && i' < i
  {
    BorderOfBorder(p, j, i + 1, i' + 1);
    assert i' < i;
    hide Border;
    var m := j + 1;
    forall b | i' + 2 < b < m
      ensures !Border(p, m, b)
    {
      NotLonger(p, j, i, i', b);
    }
  }

  lemma NotLonger(p: string, j: nat, i: int, i': int, b: nat)
    requires 0 < j < |p| && 0 <= i < j && Candidate(p, j, i) && p[j] != p[i + 1]
    requires -1 <= i' && NoneLonger(p, i + 1, i' + 1) && i' + 2 < b < j + 1
    ensures !Border(p, j + 1, b)
  {
    hide Border;
    BorderStep(p, j, b);
    if b <= i + 1 {
      BorderOfBorder(p, j, i + 1, b - 1);
    }
  }

  lemma LastCandidate(p: string, j: nat, i: int)
    requires 0 < j < |p| && Candidate(p, j, i) && (p[j] == p[i + 1] || i < 0)
    ensures LongestBorder(p, j + 1, if p[j] == p[i + 1] then i + 2 else 0)
  {
    BorderStep(p, j, i + 2);
  }

  // How often the inner loop goes round for character j, from i on, with the entries f.
  ghost function Falls(p: string, f: seq<int>, j: nat, i: int): nat
    requires j < |p|
  {
    if i < 0 || i + 1 >= |p| || i >= |f| || f[i] >= i || p[j] == p[i + 1] then 0 else 1 + Falls(p, f, j, f[i])
  }

  // The same for all characters before m.
  ghost function AllFalls(p: string, f: seq<int>, m: nat): nat
    requires m <= |p| && m <= |f|
  {
    if m <= 1 then 0 else AllFalls(p, f, m - 1) + Falls(p, f[..m - 1], m - 1, f[m - 2])
  }

  lemma {:induction false} AllFallsSame(p: string, f: seq<int>, g: seq<int>, m: nat)
    requires m <= |p| && m <= |f| && m <= |g| && f[..m] == g[..m]
    ensures AllFalls(p, f, m) == AllFalls(p, g, m)
  {
    if m > 1 {
      assert f[..m - 1] == f[..m][..m - 1] == g[..m][..m - 1] == g[..m - 1] && f[m - 2] == f[..m][m - 2];
      AllFallsSame(p, f, g, m - 1);
    }
  }

  // The loop of lines 44-56; steps counts the iterations of its inner loop.
  method FailureTable(p: string) returns (failure: array<int>, k: nat, ghost steps: nat)
    ensures fresh(failure) && failure.Length == (if p == "" then 1 else |p|)
    ensures Table(p, failure[..], |p|)
    ensures k == (if p == "" then 0 else |p| - 1) && steps == AllFalls(p, failure[..], |p|) <= k
  {
    failure := new int[if p == "" then 1 else |p|];
    failure[0] := -1;
    k, steps := 0, 0;
    if p != "" {
      assert Table(p, failure[..], 1);
    }
    hide Candidate, LongestBorder, Table;
    var j := 1;
    while j < |p|
      invariant p != "" ==> 1 <= j <= |p| && k == j - 1 && Table(p, failure[..], j)
      invariant p == "" ==> k == 0
      invariant p != "" ==> steps + failure[j - 1] + 1 <= k
      invariant p != "" ==> steps == AllFalls(p, failure[..], j)
      invariant p == "" ==> steps == 0
    {
      k := k + 1;
      var i, n := FallBack(p, failure, j);
      steps := steps + n;
      ghost var before := failure[..];
      Enter(p, failure, j, i);
      EnteredFalls(p, before, failure[..], j);
      j := j + 1;
    }
  }

  lemma EnteredFalls(p: string, f: seq<int>, g: seq<int>, j: nat)
    requires 0 < j < |p| && j < |f| == |g| && f[..j] == g[..j]
    ensures AllFalls(p, g, j + 1) == AllFalls(p, f, j) + Falls(p, f[..j], j, f[j - 1])
  {
    AllFallsSame(p, f, g, j);
    assert g[j - 1] == g[..j][j - 1] == f[..j][j - 1];
  }

  // Lines 50-55.
  method Enter(p: string, failure: array<int>, j: nat, i: int)
    requires 0 < j < |p| == failure.Length && Table(p, failure[..], j)
    requires Candidate(p, j, i) && (p[j] == p[i + 1] || i < 0)
    modifies failure
    ensures Table(p, failure[..], j + 1) && failure[j] == if p[j] == p[i + 1] then i + 1 else -1
    ensures failure[..j] == old(failure[..j])
  {
    LastCandidate(p, j, i);
    hide Candidate, LongestBorder;
    ghost var before := failure[..];
    if p[j] == p[i + 1] {
      failure[j] := i + 1;
    } else {
      failure[j] := -1;
    }
    assert forall t | 0 <= t < j :: failure[..][t] == before[t];
  }

  // The inner loop of lines 46-49.
  method FallBack(p: string, failure: array<int>, j: nat) returns (i: int, ghost steps: nat)
    requires 0 < j < |p| == failure.Length && Table(p, failure[..], j)
    ensures Candidate(p, j, i) && (p[j] == p[i + 1] || i < 0) && steps <= failure[j - 1] - i
    ensures steps == Falls(p, failure[..j], j, failure[j - 1])
  {
    hide *;
    ghost var f, first := failure[..j], failure[j - 1];
    TableBefore(p, failure, j);
    i, steps := failure[j - 1], 0;
    TableAt(p, f, j, j - 1);
    FirstCandidate(p, j, i);
    while p[j] != p[i + 1] && i >= 0
      invariant -1 <= i < j - 1 && Candidate(p, j, i) && steps <= first - i
      invariant Falls(p, f, j, first) == steps + Falls(p, f, j, i)
      decreases i
    {
      var next := failure[i];
      TableAt(p, f, j, i);
      NextFall(p, f, j, i, next);
      i := next;
      steps := steps + 1;
    }
    NoFall(p, f, j, i);
  }

  lemma TableAt(p: string, f: seq<int>, n: nat, i: nat)
    requires Table(p, f, n) && i < n
    ensures i < |f| && f[i] >= -1 && LongestBorder(p, i + 1, f[i] + 1) && f[i] < i
  {}

  lemma NextFall(p: string, f: seq<int>, j: nat, i: nat, next: int)
    requires 0 < j < |p| && Candidate(p, j, i) && i + 1 < |p| && p[j] != p[i + 1] && i < |f| && next == f[i] < i
    requires next >= -1 && LongestBorder(p, i + 1, next + 1)
    ensures Candidate(p, j, next) && Falls(p, f, j, i) == 1 + Falls(p, f, j, next)
  {
    hide *;
    NextCandidate(p, j, i, next);
    OneFall(p, f, j, i);
  }

  lemma TableBefore(p: string, failure: array<int>, n: nat)
    requires Table(p, failure[..], n) && n <= failure.Length
    ensures Table(p, failure[..n], n) && forall i | 0 <= i < n :: failure[..n][i] == failure[i]
  {
    assert failure[..n] == failure[..][..n];
  }

  lemma OneFall(p: string, f: seq<int>, j: nat, i: nat)
    requires j < |p| && i + 1 < |p| && i < |f| && f[i] < i && p[j] != p[i + 1]
    ensures Falls(p, f, j, i) == 1 + Falls(p, f, j, f[i])
  {}

  lemma NoFall(p: string, f: seq<int>, j: nat, i: int)
    requires j < |p| && -1 <= i && i + 1 < |p| && (i < 0 || p[j] == p[i + 1])
    ensures Falls(p, f, j, i) == 0
  {}

  /* The search */

  // The last j characters before i match, and the pattern occurs nowhere before them.
  ghost predicate Searching(s: string, p: string, i: nat, j: nat)
  {
    && j <= i <= |s| && j <= |p| && s[i - j..i] == p[..j]
    && forall t | 0 <= t < i - j :: !OccursAt(s, p, t)
  }

  lemma NoOccurrence(s: string, p: string, t: nat, i: nat)
    requires t <= i < |s| && i - t < |p| && s[i] != p[i - t]
    ensures !OccursAt(s, p, t)
  {
    assert t + |p| <= |s| ==> s[t..t + |p|][i - t] == s[i];
  }

  lemma OccurrenceIsBorder(s: string, p: string, i: nat, j: nat, t: nat)
    requires j <= i <= |s| && j <= |p| && s[i - j..i] == p[..j]
    requires i - j < t < i && OccursAt(s, p, t)
    ensures Border(p, j, i - t)
  {
    var c := i - t;
    assert p[..c] == s[t..t + |p|][..c] == s[t..i];
    assert s[t..i] == s[i - j..i][j - c..];
    assert p[..j][j - c..] == p[j - c..j];
  }

  lemma Shift(s: string, p: string, i: nat, j: nat, b: nat)
    requires Searching(s, p, i, j) && i < |s| && 0 < j < |p| && s[i] != p[j] && LongestBorder(p, j, b)
    ensures Searching(s, p, i, b)
  {
    assert s[i - b..i] == s[i - j..i][j - b..];
    assert p[j - b..j] == p[..j][j - b..];
    forall t | 0 <= t < i - b
      ensures !OccursAt(s, p, t)
    {
      if t == i - j {
        NoOccurrence(s, p, t, i);
      } else if t > i - j && OccursAt(s, p, t) {
        OccurrenceIsBorder(s, p, i, j, t);
      }
    }
  }

  lemma Match(s: string, p: string, i: nat, j: nat)
    requires Searching(s, p, i, j) && i < |s| && j < |p| && s[i] == p[j]
    ensures Searching(s, p, i + 1, j + 1)
  {
    assert s[i - j..i + 1] == s[i - j..i] + [s[i]];
    assert p[..j + 1] == p[..j] + [p[j]];
  }

  lemma Skip(s: string, p: string, i: nat)
    requires Searching(s, p, i, 0) && i < |s| && 0 < |p| && s[i] != p[0]
    ensures Searching(s, p, i + 1, 0)
  {
    NoOccurrence(s, p, i, i);
  }

  lemma SearchStart(s: string, p: string)
    ensures Searching(s, p, 0, 0)
  {}

  lemma SearchEnd(s: string, p: string, i: nat, j: nat)
    requires Searching(s, p, i, j) && (i == |s| || j == |p|)
    ensures j == |p| <==> Occurs(s, p)
  {
    if j == |p| {
      assert s[i - j..(i - j) + |p|] == p;
      assert OccursAt(s, p, i - j);
    }
  }

  // The longest proper border of the first m characters, of at most b.
  ghost function BorderUpTo(p: string, m: nat, b: nat): nat
  {
    if b == 0 || Border(p, m, b) then b else BorderUpTo(p, m, b - 1)
  }

  lemma {:induction false} BorderUpToIs(p: string, m: nat, b: nat, c: nat)
    requires LongestBorder(p, m, b) && b <= c < m
    ensures BorderUpTo(p, m, c) == b
    decreases c
  {
    if c != b {
      BorderUpToIs(p, m, b, c - 1);
    }
  }

  /** How many comparisons a search for p in s makes from character i of s and j of p on: after a mismatch it goes on
      with the longest proper border of what matched, and with the next character of s if nothing did. */
  ghost function Comparisons(s: string, p: string, i: nat, j: nat): nat
    requires i <= |s| && j <= |p|
    decreases 2 * |s| + |p| + j - 2 * i
  {
    if i == |s| || j == |p| then 0
    else if s[i] == p[j] then 1 + Comparisons(s, p, i + 1, j + 1)
    else if j == 0 then 1 + Comparisons(s, p, i + 1, 0)
    else 1 + if BorderUpTo(p, j, j - 1) < j then Comparisons(s, p, i, BorderUpTo(p, j, j - 1)) else 0
  }

  lemma OneComparison(s: string, p: string, i: nat, j: nat, b: nat)
    requires i < |s| && j < |p| && (s[i] != p[j] && j > 0 ==> LongestBorder(p, j, b) && b < j)
    ensures s[i] == p[j] ==> Comparisons(s, p, i, j) == 1 + Comparisons(s, p, i + 1, j + 1)
    ensures s[i] != p[j] && j == 0 ==> Comparisons(s, p, i, j) == 1 + Comparisons(s, p, i + 1, 0)
    ensures s[i] != p[j] && j > 0 ==> Comparisons(s, p, i, j) == 1 + Comparisons(s, p, i, b)
  {
    if s[i] != p[j] && j > 0 {
      BorderUpToIs(p, j, b, j - 1);
    }
    hide LongestBorder, BorderUpTo;
  }

  lemma NoComparison(s: string, p: string, i: nat, j: nat)
    requires i <= |s| && j <= |p| && (i == |s| || j == |p|)
    ensures Comparisons(s, p, i, j) == 0
  {}

  // The entry for the first j characters.
  lemma EntryIs(p: string, f: seq<int>, j: nat)
    requires Table(p, f, |p|) && 0 < j < |p| <= |f|
    ensures 0 <= f[j - 1] + 1 < j && LongestBorder(p, j, f[j - 1] + 1)
  {}

  // Lines 62-71: one comparison of the search.
  method SearchStep(s: string, p: string, failure: array<int>, i0: nat, j0: nat) returns (i: nat, j: nat)
    requires i0 < |s| && j0 < |p| <= failure.Length
    requires Searching(s, p, i0, j0) && Table(p, failure[..], |p|)
    ensures i <= |s| && j <= |p| && Searching(s, p, i, j)
    ensures Comparisons(s, p, i0, j0) == 1 + Comparisons(s, p, i, j) && 2 * i - j > 2 * i0 - j0
  {
    hide *;
    i, j := i0, j0;
    if s[i] == p[j] {
      OneComparison(s, p, i, j, 0);
      Match(s, p, i, j);
      i := i + 1;
      j := j + 1;
    } else if j == 0 {
      OneComparison(s, p, i, j, 0);
      Skip(s, p, i);
      i := i + 1;
    } else {
      EntryIs(p, failure[..], j);
      assert failure[..][j - 1] == failure[j - 1];
      OneComparison(s, p, i, j, failure[j - 1] + 1);
      Shift(s, p, i, j, failure[j - 1] + 1);
      j := failure[j - 1] + 1;
    }
  }

  /** KMP: the answer is right, and what it counts are the comparisons of the search and one step for each character of
      the pattern behind the first; they are linear in the two lengths. */
  method KMP(s: string, p: string) returns (yes: bool, k: nat)
    ensures yes <==> Occurs(s, p)
    ensures k == (if p == "" then 0 else |p| - 1) + Comparisons(s, p, 0, 0)
    ensures k <= (if p == "" then 0 else |p| - 1) + 2 * |s|
  {
    var failure;
    ghost var n;
    failure, k, n := FailureTable(p);
    ghost var k0 := k;
    var i: nat, j: nat := 0, 0;
    SearchStart(s, p);
    hide *;
    while i < |s| && j < |p|
      invariant i <= |s| && j <= |p| && Searching(s, p, i, j) && k <= k0 + 2 * i - j
      invariant k + Comparisons(s, p, i, j) == k0 + Comparisons(s, p, 0, 0)
      invariant Table(p, failure[..], |p|)
      decreases 2 * |s| - 2 * i + j
    {
      k := k + 1;
      i, j := SearchStep(s, p, failure, i, j);
    }
    NoComparison(s, p, i, j);
    SearchEnd(s, p, i, j);
    yes := j == |p|;
  }

  /* nfind */

  datatype Printed = Yes | No | Nothing

  // The inner loop of lines 19-21.
  method Compare(s: string, p: string, start: nat, k0: nat) returns (j: nat, k: nat)
    requires 0 < |p| && start + |p| <= |s|
    ensures j <= |p| - 1 && k == k0 + j && j == Agreeing(s, p, start, 0)
    ensures j == |p| - 1 <==> s[start..start + |p| - 1] == p[..|p| - 1]
  {
    j, k := 0, k0;
    var i := start;
    while j < |p| - 1 && s[i] == p[j]
      invariant j <= |p| - 1 && i == start + j && k == k0 + j
      invariant Agreeing(s, p, start, 0) == j + Agreeing(s, p, start, j)
      invariant forall t | 0 <= t < j :: s[start + t] == p[t]
    {
      k := k + 1;
      i, j := i + 1, j + 1;
    }
    if j < |p| - 1 {
      assert s[start..start + |p| - 1][j] != p[..|p| - 1][j];
    }
  }

  // How many characters of p agree with s from position start on, before the last one.
  ghost function Agreeing(s: string, p: string, start: nat, j: nat): nat
    requires start + |p| <= |s|
    decreases |p| - j
  {
    if j + 1 >= |p| || s[start + j] != p[j] then 0 else 1 + Agreeing(s, p, start, j + 1)
  }

  /** What nfind counts from position start on: one for each position, and where the last characters agree, one for
      each character in front that does. It ends at an occurrence, and at once for a pattern of one character. */
  ghost function Tries(s: string, p: string, start: nat): nat
    requires p != ""
    decreases |s| - start
  {
    if start + |p| > |s| then 0
    else
      1 + (if s[start + |p| - 1] == p[|p| - 1] then Agreeing(s, p, start, 0) else 0)
      + if |p| == 1 || OccursAt(s, p, start) then 0 else Tries(s, p, start + 1)
  }

  lemma MatchIff(s: string, p: string, start: nat, j: nat)
    requires p != "" && start + |p| <= |s| && s[start + |p| - 1] == p[|p| - 1]
    requires j == |p| - 1 <==> s[start..start + |p| - 1] == p[..|p| - 1]
    ensures j == |p| - 1 <==> OccursAt(s, p, start)
  {
    assert s[start..start + |p|] == s[start..start + |p| - 1] + [s[start + |p| - 1]];
    assert p == p[..|p| - 1] + [p[|p| - 1]];
    assert s[start..start + |p|][..|p| - 1] == s[start..start + |p| - 1];
  }

  lemma Found(s: string, p: string, start: nat)
    ensures OccursAt(s, p, start) && start <= |s| ==> Occurs(s, p)
  {}

  lemma NoneFound(s: string, p: string, start: nat)
    ensures start + |p| > |s| && (forall t | 0 <= t < start :: !OccursAt(s, p, t)) ==> !Occurs(s, p)
  {}

  lemma OneTry(s: string, p: string, start: nat)
    requires p != ""
    ensures start + |p| > |s| ==> Tries(s, p, start) == 0
    ensures start + |p| <= |s| ==>
      var rest := if |p| == 1 || OccursAt(s, p, start) then 0 else Tries(s, p, start + 1);
      Tries(s, p, start) ==
      1 + (if s[start + |p| - 1] == p[|p| - 1] then Agreeing(s, p, start, 0) else 0) + rest
  {}

  /** nfind: for a pattern of two characters or more the answer is right. For one character
      nothing is compared, and nothing is printed on the empty string. */
  method Nfind(s: string, p: string) returns (printed: Printed, k: nat)
    requires p != ""
    ensures |p| >= 2 ==> printed == if Occurs(s, p) then Yes else No
    ensures |p| == 1 ==> printed == if s == "" then Nothing else Yes
    ensures k == Tries(s, p, 0) <= |s| * |p|
  {
    var lasts, lastp := |s|, |p| - 1;
    var endmatch, start, j := lastp, 0, 0;
    k := 0;
    printed := Nothing;
    while endmatch < lasts
      invariant endmatch == start + lastp && (endmatch <= lasts || start == 0) && printed == Nothing
      invariant forall t | 0 <= t < start :: !OccursAt(s, p, t)
      invariant if lastp == 0 then j == 0 && start == 0 else j < lastp
      invariant k <= start * |p| && k + Tries(s, p, start) == Tries(s, p, 0)
    {
      OneTry(s, p, start);
      hide *;
      k := k + 1;
      if s[endmatch] == p[lastp] {
        j, k := Compare(s, p, start, k);
        MatchIff(s, p, start, j);
      } else {
        NoOccurrence(s, p, start, endmatch);
      }
      A.MulDist(start, 1, |p|);
      if j == lastp {
        printed := Yes;
        Found(s, p, start);
        A.MulMono(start + 1, |s|, |p|);
        break;
      }
      endmatch, start := endmatch + 1, start + 1;
    }
    if printed == Nothing {
      OneTry(s, p, start);
      NoneFound(s, p, start);
      A.MulMono(start, |s|, |p|);
    }
    if j != lastp {
      printed := No;
    }
  }

  /** nfind prints the right answer exactly when the pattern has two characters, or its one character is in the
      text. */
  lemma NfindRightIff(s: string, p: string, printed: Printed)
    requires p != ""
    requires |p| >= 2 ==> printed == if Occurs(s, p) then Yes else No
    requires |p| == 1 ==> printed == if s == "" then Nothing else Yes
    ensures (printed == if Occurs(s, p) then Yes else No) <==> |p| >= 2 || p[0] in s
  {
    if |p| == 1 {
      OneCharacter(s, p);
    }
  }

  lemma OneCharacter(s: string, p: string)
    requires |p| == 1
    ensures Occurs(s, p) <==> p[0] in s
  {
    if p[0] in s {
      var t :| 0 <= t < |s| && s[t] == p[0];
      assert OccursAt(s, p, t);
    }
    if Occurs(s, p) {
      var t :| 0 <= t <= |s| && OccursAt(s, p, t);
      assert p[0] == s[t..t + |p|][0] == s[t];
    }
  }
}
