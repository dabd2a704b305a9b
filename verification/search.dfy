/** Python's `bisect.bisect_left` and `bisect.bisect_right` over the sorted
    start list, with the counts they compute stated independently. */
module Search {
  import opened Notes

  /** How many elements of `xs` are below `x`. */
  function CountBelow(xs: seq<real>, x: real): nat {
    if |xs| == 0 then 0 else (if xs[0] < x then 1 else 0) + CountBelow(xs[1..], x)
  }

  /** How many elements of `xs` are at most `x`. */
  function CountAtMost(xs: seq<real>, x: real): nat {
    if |xs| == 0 then 0 else (if xs[0] <= x then 1 else 0) + CountAtMost(xs[1..], x)
  }

  /** If the first `i` elements pass a threshold test and the rest fail it,
      the count below the threshold is `i`. */
  lemma {:induction false} CountBelowSplit(xs: seq<real>, x: real, i: nat)
    requires i <= |xs|
    requires forall k :: 0 <= k < i ==> xs[k] < x
    requires forall k :: i <= k < |xs| ==> x <= xs[k]
    ensures CountBelow(xs, x) == i
  {
    if |xs| > 0 {
      CountBelowSplit(xs[1..], x, if i == 0 then 0 else i - 1);
    }
  }

  lemma {:induction false} CountAtMostSplit(xs: seq<real>, x: real, i: nat)
    requires i <= |xs|
    requires forall k :: 0 <= k < i ==> xs[k] <= x
    requires forall k :: i <= k < |xs| ==> x < xs[k]
    ensures CountAtMost(xs, x) == i
  {
    if |xs| > 0 {
      CountAtMostSplit(xs[1..], x, if i == 0 then 0 else i - 1);
    }
  }

  /** `bisect_left(a, x)`: the insertion point before any entries equal to
      `x`, which for a sorted list is the number of entries below `x`. */
  method BisectLeft(a: seq<real>, x: real) returns (lo: nat)
    requires Sorted(a)
    ensures lo <= |a|
    ensures forall k :: 0 <= k < lo ==> a[k] < x
    ensures forall k :: lo <= k < |a| ==> x <= a[k]
    ensures lo == CountBelow(a, x)
  {
    lo := 0;
    var hi := |a|;
    while lo < hi
      invariant 0 <= lo <= hi <= |a|
      invariant forall k :: 0 <= k < lo ==> a[k] < x
      invariant forall k :: hi <= k < |a| ==> x <= a[k]
    {
      var mid := (lo + hi) / 2;
      if a[mid] < x {
        lo := mid + 1;
      } else {
        hi := mid;
      }
    }
    CountBelowSplit(a, x, lo);
  }

  /** `bisect_right(a, x)`: the insertion point after any entries equal to
      `x`, which for a sorted list is the number of entries at most `x`. */
  method BisectRight(a: seq<real>, x: real) returns (lo: nat)
    requires Sorted(a)
    ensures lo <= |a|
    ensures forall k :: 0 <= k < lo ==> a[k] <= x
    ensures forall k :: lo <= k < |a| ==> x < a[k]
    ensures lo == CountAtMost(a, x)
  {
    lo := 0;
    var hi := |a|;
    while lo < hi
      invariant 0 <= lo <= hi <= |a|
      invariant forall k :: 0 <= k < lo ==> a[k] <= x
      invariant forall k :: hi <= k < |a| ==> x < a[k]
    {
      var mid := (lo + hi) / 2;
      if x < a[mid] {
        hi := mid;
      } else {
        lo := mid + 1;
      }
    }
    CountAtMostSplit(a, x, lo);
  }
}
