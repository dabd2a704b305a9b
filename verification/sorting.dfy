/** The sort of the note table by its start column (`argsort` on column 1)
    and the start list read off the sorted table. NumPy's default sort is not
    stable, so rows with equal starts may come out in any order; what the rest
    of the program reads, the start column, is proved not to depend on it. */
module Sorting {
  import opened Notes

  function Insert(r: Row, s: seq<Row>): (t: seq<Row>)
    requires SortedByStart(s)
    ensures SortedByStart(t)
    ensures multiset(t) == multiset(s) + multiset{r}
    ensures forall x :: x in t ==> x == r || x in s
  {
    if |s| == 0 then [r]
    else if r.start <= s[0].start then [r] + s
    else
      var rest := Insert(r, s[1..]);
      InsertBehind(r, s, rest);
      [s[0]] + rest
  }

  /** The recursive case of `Insert`: the head of `s` stays in front of the
      insertion into the tail. */
  lemma InsertBehind(r: Row, s: seq<Row>, rest: seq<Row>)
    requires |s| > 0 && SortedByStart(s) && s[0].start < r.start
    requires SortedByStart(rest)
    requires multiset(rest) == multiset(s[1..]) + multiset{r}
    requires forall x :: x in rest ==> x == r || x in s[1..]
    ensures SortedByStart([s[0]] + rest)
    ensures multiset([s[0]] + rest) == multiset(s) + multiset{r}
    ensures forall x :: x in [s[0]] + rest ==> x == r || x in s
  {
    var t := [s[0]] + rest;
    assert s == [s[0]] + s[1..];
    forall j | 0 < j < |t|
      ensures s[0].start <= t[j].start
    {
      assert t[j] == rest[j - 1] && rest[j - 1] in rest;
      if t[j] != r {
        var k :| 0 <= k < |s[1..]| && s[1..][k] == t[j];
        assert t[j] == s[k + 1];
      }
    }
  }

  /** The table reordered by start time: sorted, and a permutation of the
      rows given. */
  function SortByStart(s: seq<Row>): (t: seq<Row>)
    ensures SortedByStart(t)
    ensures multiset(t) == multiset(s)
  {
    if |s| == 0 then []
    else
      assert s == [s[0]] + s[1..];
      Insert(s[0], SortByStart(s[1..]))
  }

  lemma StartsAppend(a: seq<Row>, b: seq<Row>)
    ensures Starts(a + b) == Starts(a) + Starts(b)
  {
  }

  /** Rows that are permutations of each other have the same starts, counted
      with multiplicity. */
  lemma {:induction false} StartsOfPermutation(a: seq<Row>, b: seq<Row>)
    requires multiset(a) == multiset(b)
    ensures multiset(Starts(a)) == multiset(Starts(b))
    decreases |a|
  {
    if |a| == 0 {
      assert |b| == |multiset(b)| == 0;
    } else {
      assert a[0] in multiset(b);
      var j :| 0 <= j < |b| && b[j] == a[0];
      var rest := b[..j] + b[j + 1..];
      assert b == b[..j] + [b[j]] + b[j + 1..];
      assert a == [a[0]] + a[1..];
      assert multiset(b) == multiset(b[..j]) + multiset{b[j]} + multiset(b[j + 1..]);
      assert multiset(a) == multiset{a[0]} + multiset(a[1..]);
      assert multiset(rest) == multiset(b[..j]) + multiset(b[j + 1..]);
      assert multiset(a[1..]) == multiset(a) - multiset{a[0]};
      assert multiset(rest) == multiset(b) - multiset{b[j]};
      StartsOfPermutation(a[1..], rest);
      StartsAppend([a[0]], a[1..]);
      StartsAppend(b[..j] + [b[j]], b[j + 1..]);
      StartsAppend(b[..j], [b[j]]);
      StartsAppend(b[..j], b[j + 1..]);
    }
  }

  /** A sorted list of numbers is determined by its multiset. */
  lemma {:induction false} SortedUnique(x: seq<real>, y: seq<real>)
    requires Sorted(x) && Sorted(y)
    requires multiset(x) == multiset(y)
    ensures x == y
    decreases |x|
  {
    if |x| == 0 {
      assert |y| == |multiset(y)| == 0;
    } else {
      assert |y| == |multiset(y)| > 0;
      assert x[0] in multiset(y);
      assert y[0] in multiset(x);
      assert x[0] == y[0];
      assert x == [x[0]] + x[1..];
      assert y == [y[0]] + y[1..];
      assert multiset(x) == multiset{x[0]} + multiset(x[1..]);
      assert multiset(y) == multiset{y[0]} + multiset(y[1..]);
      assert multiset(x[1..]) == multiset(x) - multiset{x[0]};
      assert multiset(y[1..]) == multiset(y) - multiset{y[0]};
      SortedUnique(x[1..], y[1..]);
    }
  }

  /** Whatever order an unstable sort leaves rows with equal starts in, the
      start list read off the sorted table is the same. */
  lemma StartColumnIndependentOfTies(a: seq<Row>, b: seq<Row>)
    requires SortedByStart(a) && SortedByStart(b)
    requires multiset(a) == multiset(b)
    ensures Starts(a) == Starts(b)
  {
    StartsOfPermutation(a, b);
    SortedUnique(Starts(a), Starts(b));
  }
}
