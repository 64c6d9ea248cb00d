/** Two columns of location ids. The total distance pairs the columns
    after sorting each ascending; the similarity score weights every left
    id by how often it occurs in the right column. */
module LocationLists {
  import opened Basics

  ghost predicate Sorted(s: seq<int>) {
    forall i, j :: 0 <= i < j < |s| ==> s[i] <= s[j]
  }

  /** Inserts `x` into a sorted sequence before its first larger-or-equal element. */
  function Insert(x: int, s: seq<int>): (r: seq<int>)
    requires Sorted(s)
    ensures Sorted(r)
    ensures multiset(r) == multiset(s) + multiset{x}
    ensures r[0] == x || (s != [] && r[0] == s[0])
  {
    if s == [] || x <= s[0] then
      SortedCons(x, s);
      [x] + s
    else
      assert s == [s[0]] + s[1..];
      SortedTail(s);
      var t := Insert(x, s[1..]);
      assert |s| > 1 ==> s[0] <= s[1];
      SortedCons(s[0], t);
      [s[0]] + t
  }

  lemma {:induction false} SortedCons(a: int, t: seq<int>)
    requires Sorted(t) && (t == [] || a <= t[0])
    ensures Sorted([a] + t)
  {
    forall i, j | 0 <= i < j < |[a] + t|
      ensures ([a] + t)[i] <= ([a] + t)[j]
    {
      if i == 0 {
        assert t[0] <= t[j - 1];
      } else {
        assert ([a] + t)[i] == t[i - 1] && ([a] + t)[j] == t[j - 1];
      }
    }
  }

  lemma {:induction false} SortedTail(s: seq<int>)
    requires Sorted(s) && s != []
    ensures Sorted(s[1..])
  {
    forall i, j | 0 <= i < j < |s| - 1
      ensures s[1..][i] <= s[1..][j]
    {
      assert s[1..][i] == s[i + 1] && s[1..][j] == s[j + 1];
    }
  }

  /** Ascending order of a column. */
  function Sort(s: seq<int>): (r: seq<int>)
    ensures Sorted(r)
    ensures multiset(r) == multiset(s)
  {
    if s == [] then []
    else
      assert s == [s[0]] + s[1..];
      Insert(s[0], Sort(s[1..]))
  }

  /** Sum of |x[k] - y[k]| over the pairs `zip` forms: it stops at the
      end of the shorter sequence. */
  function PairDistance(x: seq<int>, y: seq<int>): nat {
    if x == [] || y == [] then 0
    else Abs(x[0] - y[0]) + PairDistance(x[1..], y[1..])
  }

  /** The total distance between two columns. */
  function Distance(a0: seq<int>, a1: seq<int>): nat {
    PairDistance(Sort(a0), Sort(a1))
  }

  /** Sum over the left ids n of n times the occurrences of n on the right. */
  function Similarity(a0: seq<int>, a1: seq<int>): int {
    if a0 == [] then 0
    else Similarity(a0[..|a0| - 1], a1) + a0[|a0| - 1] * multiset(a1)[a0[|a0| - 1]]
  }

  /** The left column of the rows. */
  function Left(rows: seq<(int, int)>): (r: seq<int>)
    ensures |r| == |rows| && forall k :: 0 <= k < |rows| ==> r[k] == rows[k].0
  {
    seq(|rows|, k requires 0 <= k < |rows| => rows[k].0)
  }

  /** The right column of the rows. */
  function Right(rows: seq<(int, int)>): (r: seq<int>)
    ensures |r| == |rows| && forall k :: 0 <= k < |rows| ==> r[k] == rows[k].1
  {
    seq(|rows|, k requires 0 <= k < |rows| => rows[k].1)
  }

  /** Splits the rows into the two columns, sums the distances of the
      sorted pairs, then accumulates the similarity score with the right
      column's counts. */
  method Solve(rows: seq<(int, int)>) returns (result1: nat, result2: int)
    ensures result1 == Distance(Left(rows), Right(rows))
    ensures result2 == Similarity(Left(rows), Right(rows))
  {
    var a0, a1 := Columns(rows);
    result1 := PairDistance(Sort(a0), Sort(a1));
    result2 := SimilarityScore(a0, a1);
  }

  /** Appends each row's two ids to the two columns. */
  method Columns(rows: seq<(int, int)>) returns (a0: seq<int>, a1: seq<int>)
    ensures a0 == Left(rows) && a1 == Right(rows)
  {
    a0, a1 := [], [];
    for k := 0 to |rows|
      invariant a0 == Left(rows)[..k]
      invariant a1 == Right(rows)[..k]
    {
      assert Left(rows)[..k + 1] == Left(rows)[..k] + [rows[k].0];
      assert Right(rows)[..k + 1] == Right(rows)[..k] + [rows[k].1];
      a0 := a0 + [rows[k].0];
      a1 := a1 + [rows[k].1];
    }
    assert Left(rows)[..|rows|] == Left(rows) && Right(rows)[..|rows|] == Right(rows);
  }

  /** Counts the right column once, then adds n times its count for every
      left id n that occurs there. */
  method SimilarityScore(a0: seq<int>, a1: seq<int>) returns (result2: int)
    ensures result2 == Similarity(a0, a1)
  {
    result2 := 0;
    var count1 := multiset(a1);
    for i := 0 to |a0|
      invariant result2 == Similarity(a0[..i], a1)
    {
      assert a0[..i + 1][..i] == a0[..i];
      var n := a0[i];
      var occurrences := count1[n];
      if occurrences != 0 {
        result2 := result2 + n * occurrences;
      }
    }
    assert a0[..|a0|] == a0;
  }

  /** Two sorted sequences with the same elements are equal: the sorted
      order of a column does not depend on the sorting algorithm. */
  lemma {:induction false} SortedUnique(x: seq<int>, y: seq<int>)
    requires Sorted(x) && Sorted(y) && multiset(x) == multiset(y)
    ensures x == y
  {
    if x != [] {
      assert x[0] in multiset(y);
      SortedHeadIsLeast(y, x[0]);
      SortedHeadIsLeast(x, y[0]);
      SameTails(x, y);
      SortedTail(x);
      SortedTail(y);
      SortedUnique(x[1..], y[1..]);
    }
  }

  /** Sequences with the same elements and the same first element have
      tails with the same elements. */
  lemma {:induction false} SameTails(x: seq<int>, y: seq<int>)
    requires x != [] && y != [] && x[0] == y[0] && multiset(x) == multiset(y)
    ensures multiset(x[1..]) == multiset(y[1..])
  {
    assert x == [x[0]] + x[1..] && y == [y[0]] + y[1..];
    assert multiset(x) == multiset{x[0]} + multiset(x[1..]);
    assert multiset(y) == multiset{y[0]} + multiset(y[1..]);
    assert multiset(x[1..]) == multiset(x) - multiset{x[0]};
    assert multiset(y[1..]) == multiset(y) - multiset{y[0]};
  }

  /** The first element of a sorted sequence is at most each of its elements. */
  lemma {:induction false} SortedHeadIsLeast(s: seq<int>, e: int)
    requires Sorted(s) && e in multiset(s)
    ensures s != [] && s[0] <= e
  {
    assert e in s;
    var i :| 0 <= i < |s| && s[i] == e;
    assert i == 0 || s[0] <= s[i];
  }

  /** Sorting a reordered column gives the same sequence. */
  lemma {:induction false} SortOfPermutation(a: seq<int>, b: seq<int>)
    requires multiset(a) == multiset(b)
    ensures Sort(a) == Sort(b)
  {
    SortedUnique(Sort(a), Sort(b));
  }

  /** Reordering the rows within either column leaves the distance unchanged. */
  lemma {:induction false} DistanceReorder(a0: seq<int>, a1: seq<int>, b0: seq<int>, b1: seq<int>)
    requires multiset(a0) == multiset(b0) && multiset(a1) == multiset(b1)
    ensures Distance(a0, a1) == Distance(b0, b1)
  {
    SortOfPermutation(a0, b0);
    SortOfPermutation(a1, b1);
  }

  lemma {:induction false} PairDistanceSelf(x: seq<int>)
    ensures PairDistance(x, x) == 0
  {
    if x != [] {
      PairDistanceSelf(x[1..]);
    }
  }

  /** Two columns holding the same ids are at distance 0. */
  lemma {:induction false} DistanceOfSameIds(a0: seq<int>, a1: seq<int>)
    requires multiset(a0) == multiset(a1)
    ensures Distance(a0, a1) == 0
  {
    SortOfPermutation(a0, a1);
    PairDistanceSelf(Sort(a0));
  }

  /** A left id that does not occur on the right adds nothing. */
  lemma {:induction false} SimilarityOfAbsent(a0: seq<int>, n: int, a1: seq<int>)
    requires n !in a1
    ensures Similarity(a0 + [n], a1) == Similarity(a0, a1)
  {
    assert (a0 + [n])[..|a0|] == a0;
    assert n !in multiset(a1);
  }

  /** Appending an id to the right column adds, for each of its copies on
      the left, the id itself. */
  lemma {:induction false} SimilarityAppendRight(a0: seq<int>, a1: seq<int>, m: int)
    ensures Similarity(a0, a1 + [m]) == Similarity(a0, a1) + m * multiset(a0)[m]
  {
    if a0 != [] {
      var p, n := a0[..|a0| - 1], a0[|a0| - 1];
      assert a0 == p + [n];
      SimilarityAppendRight(p, a1, m);
      var c, c' := multiset(a1)[n], multiset(a1 + [m])[n];
      var d, d' := multiset(p)[m], multiset(a0)[m];
      assert multiset(a1 + [m]) == multiset(a1) + multiset{m};
      assert multiset(a0) == multiset(p) + multiset{n};
      assert c' == c + (if n == m then 1 else 0);
      assert d' == d + (if n == m then 1 else 0);
      AddOneCopy(n, m, c, d);
    }
  }

  /** The arithmetic of one more matching copy on each side. */
  lemma {:induction false} AddOneCopy(n: int, m: int, c: int, d: int)
    ensures m * d + n * (c + (if n == m then 1 else 0)) == n * c + m * (d + (if n == m then 1 else 0))
  {
    if n == m {
      assert n * (c + 1) == n * c + n;
      assert m * (d + 1) == m * d + m;
    }
  }

  /** The score is symmetric: weighting the left ids by their right counts
      equals weighting the right ids by their left counts. */
  lemma {:induction false} SimilaritySymmetric(a0: seq<int>, a1: seq<int>)
    ensures Similarity(a0, a1) == Similarity(a1, a0)
  {
    if a1 == [] {
      SimilarityOfEmpty(a0);
    } else {
      var p, m := a1[..|a1| - 1], a1[|a1| - 1];
      assert a1 == p + [m];
      SimilaritySymmetric(a0, p);
      SimilarityAppendRight(a0, p, m);
    }
  }

  lemma {:induction false} SimilarityOfEmpty(a0: seq<int>)
    ensures Similarity(a0, []) == 0
  {
    if a0 != [] {
      SimilarityOfEmpty(a0[..|a0| - 1]);
    }
  }
}
