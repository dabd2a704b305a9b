/** The recent-files list update of `SynthesiaApp.save_history`: the opened
    path moves to the front, its earlier entry goes, and only ten entries are
    kept. Reading and writing the JSON file is left out. The list operations
    are generic in the entry type; the program stores path strings. */
module History {

  /** `history[:10]`. */
  const MaxEntries: nat := 10

  predicate NoDuplicates<T(==)>(s: seq<T>) {
    forall i, j :: 0 <= i < j < |s| ==> s[i] != s[j]
  }

  /** Position of the first `p` in `h`, or `|h|` when there is none. */
  function IndexOf<T(==)>(h: seq<T>, p: T): (i: nat)
    ensures i <= |h|
    ensures i < |h| ==> h[i] == p
    ensures forall k :: 0 <= k < i ==> h[k] != p
  {
    if |h| == 0 then 0 else if h[0] == p then 0 else 1 + IndexOf(h[1..], p)
  }

  /** `list.remove(p)` when `p` is present: deletes the first occurrence. */
  function RemoveFirst<T(==)>(h: seq<T>, p: T): seq<T> {
    var i := IndexOf(h, p);
    if i < |h| then h[..i] + h[i + 1..] else h
  }

  /** Removing takes out one `p` when there is one and keeps every other
      entry with its multiplicity. */
  lemma RemoveFirstCounts<T>(h: seq<T>, p: T)
    ensures multiset(RemoveFirst(h, p)) == multiset(h) - multiset{p}
    ensures p !in h ==> RemoveFirst(h, p) == h
  {
    var i := IndexOf(h, p);
    if i < |h| {
      RemoveAtCounts(h, i);
    } else {
      AbsentCounts(h, p);
    }
  }

  lemma RemoveAtCounts<T>(h: seq<T>, i: nat)
    requires i < |h|
    ensures multiset(h[..i] + h[i + 1..]) == multiset(h) - multiset{h[i]}
  {
    var a, b := h[..i], h[i + 1..];
    assert h == a + [h[i]] + b;
    assert multiset(h) == multiset(a) + multiset{h[i]} + multiset(b);
  }

  lemma AbsentCounts<T>(h: seq<T>, p: T)
    requires p !in h
    ensures multiset(h) - multiset{p} == multiset(h)
  {
    assert multiset(h)[p] == 0;
  }

  /** The list written back after opening `p`: `p` first, then the old list
      without its first `p`, in the old order, cut to ten entries. */
  function Save<T(==)>(h: seq<T>, p: T): (r: seq<T>)
    ensures 1 <= |r| <= MaxEntries && r[0] == p
    ensures |r| == if |RemoveFirst(h, p)| < MaxEntries then |RemoveFirst(h, p)| + 1 else MaxEntries
    ensures r[1..] == RemoveFirst(h, p)[..|r| - 1]
  {
    var rest := if p in h then RemoveFirst(h, p) else h;
    var inserted := [p] + rest;
    if |inserted| <= MaxEntries then inserted else inserted[..MaxEntries]
  }

  lemma RemoveFirstKeepsDistinct<T>(h: seq<T>, p: T)
    requires NoDuplicates(h)
    ensures NoDuplicates(RemoveFirst(h, p))
    ensures p !in RemoveFirst(h, p)
  {
    var r := RemoveFirst(h, p);
    var i := IndexOf(h, p);
    if i < |h| {
      forall a, b | 0 <= a < b < |r|
        ensures r[a] != r[b]
      {
        var a', b' := if a < i then a else a + 1, if b < i then b else b + 1;
        assert r[a] == h[a'] && r[b] == h[b'];
      }
      forall k | 0 <= k < |r|
        ensures r[k] != p
      {
        var k' := if k < i then k else k + 1;
        assert r[k] == h[k'];
      }
    }
  }

  /** A list without duplicates stays without duplicates. */
  lemma SaveKeepsDistinct<T>(h: seq<T>, p: T)
    requires NoDuplicates(h)
    ensures NoDuplicates(Save(h, p))
  {
    var rest := RemoveFirst(h, p);
    RemoveFirstKeepsDistinct(h, p);
    var r := Save(h, p);
    forall a, b | 0 <= a < b < |r|
      ensures r[a] != r[b]
    {
      assert r[b] == rest[b - 1];
      if a > 0 {
        assert r[a] == rest[a - 1];
      } else {
        assert rest[b - 1] in rest;
      }
    }
  }

  /** `remove` drops only the first copy of the path: a stored list that
      already holds it twice keeps the later copy. */
  lemma SaveRemovesOnlyFirst()
    ensures Save([1, 2, 1], 1) == [1, 2, 1]
  {
    assert IndexOf([1, 2, 1], 1) == 0;
    assert RemoveFirst([1, 2, 1], 1) == [2, 1];
  }

  /** Opening the same file twice in a row leaves the list as opening it
      once did. */
  lemma SaveIdempotent<T>(h: seq<T>, p: T)
    ensures Save(Save(h, p), p) == Save(h, p)
  {
    var once := Save(h, p);
    assert IndexOf(once, p) == 0;
    assert RemoveFirst(once, p) == once[1..];
  }
}
