/** The sort that `prep` runs on the listing before its loop:
    `tree.sort((a, b) => a.path.length - b.path.length)`. Array.prototype.sort
    is stable, so with this comparator its result is fixed: entries in
    ascending order of path length, entries of equal length in their
    original order. `SortByLength` defines that result as an insertion sort. */
module LengthSort {
  import opened Model
  import opened Paths

  /** The comparator's key: `path.length`, in UTF-16 code units. */
  function PathLength(e: Entry): (n: nat)
    ensures |e.path| <= n <= 2 * |e.path|
    ensures n == 0 <==> e.path == ""
  {
    Utf16Length(e.path)
  }

  predicate SortedByLength(s: seq<Entry>) {
    forall i, j :: 0 <= i < j < |s| ==> PathLength(s[i]) <= PathLength(s[j])
  }

  /** Places `e` after every entry of `t` that is not longer than it. */
  function Insert(t: seq<Entry>, e: Entry): (r: seq<Entry>)
    ensures |r| == |t| + 1
    decreases |t|
  {
    if t == [] || PathLength(t[|t| - 1]) <= PathLength(e) then t + [e]
    else Insert(t[..|t| - 1], e) + [t[|t| - 1]]
  }

  /** The stable sort by path length, element by element from the left. */
  function SortByLength(s: seq<Entry>): (r: seq<Entry>)
    ensures |r| == |s|
    decreases |s|
  {
    if s == [] then []
    else Insert(SortByLength(s[..|s| - 1]), s[|s| - 1])
  }

  /** Inserting adds `e` and loses nothing. */
  lemma {:induction false} InsertPermutes(t: seq<Entry>, e: Entry)
    ensures multiset(Insert(t, e)) == multiset(t) + multiset{e}
    decreases |t|
  {
    if t != [] && PathLength(t[|t| - 1]) > PathLength(e) {
      InsertPermutes(t[..|t| - 1], e);
      assert t == t[..|t| - 1] + [t[|t| - 1]];
    }
  }

  /** The sort is a permutation of the listing: no entry is lost, added or changed. */
  lemma {:induction false} SortByLengthPermutes(s: seq<Entry>)
    ensures multiset(SortByLength(s)) == multiset(s)
    decreases |s|
  {
    if s != [] {
      SortByLengthPermutes(s[..|s| - 1]);
      InsertPermutes(SortByLength(s[..|s| - 1]), s[|s| - 1]);
      assert s == s[..|s| - 1] + [s[|s| - 1]];
    }
  }

  /** The entries of `s` whose path is `n` UTF-16 units long, in order. */
  function WithLength(s: seq<Entry>, n: nat): seq<Entry>
    decreases |s|
  {
    if s == [] then []
    else WithLength(s[..|s| - 1], n) + (if PathLength(s[|s| - 1]) == n then [s[|s| - 1]] else [])
  }

  lemma {:induction false} InsertSorted(t: seq<Entry>, e: Entry)
    requires SortedByLength(t)
    ensures SortedByLength(Insert(t, e))
    decreases |t|
  {
    if t != [] && PathLength(t[|t| - 1]) > PathLength(e) {
      var init, last := t[..|t| - 1], t[|t| - 1];
      assert SortedByLength(init);
      InsertSorted(init, e);
      var r := Insert(init, e);
      forall k | 0 <= k < |r|
        ensures PathLength(r[k]) <= PathLength(last)
      {
        BoundedByLast(t, e, r[k]);
      }
      assert Insert(t, e) == r + [last];
    }
  }

  /** Every entry of `Insert(init, e)` is at most as long as the last entry of `t`. */
  lemma BoundedByLast(t: seq<Entry>, e: Entry, x: Entry)
    requires SortedByLength(t) && t != [] && PathLength(t[|t| - 1]) > PathLength(e)
    requires x in multiset(Insert(t[..|t| - 1], e))
    ensures PathLength(x) <= PathLength(t[|t| - 1])
  {
    InsertPermutes(t[..|t| - 1], e);
    if x != e {
      assert x in multiset(t[..|t| - 1]);
      var i :| 0 <= i < |t| - 1 && t[..|t| - 1][i] == x;
      assert t[i] == x;
    }
  }

  /** The sort's result is in ascending order of path length. */
  lemma {:induction false} SortByLengthSorted(s: seq<Entry>)
    ensures SortedByLength(SortByLength(s))
    decreases |s|
  {
    if s != [] {
      SortByLengthSorted(s[..|s| - 1]);
      InsertSorted(SortByLength(s[..|s| - 1]), s[|s| - 1]);
    }
  }

  lemma {:induction false} InsertStable(t: seq<Entry>, e: Entry, n: nat)
    ensures WithLength(Insert(t, e), n) == WithLength(t, n) + (if PathLength(e) == n then [e] else [])
    decreases |t|
  {
    if t == [] || PathLength(t[|t| - 1]) <= PathLength(e) {
      assert (t + [e])[..|t|] == t;
    } else {
      var init, last := t[..|t| - 1], t[|t| - 1];
      InsertStable(init, e, n);
      var r := Insert(init, e);
      assert (r + [last])[..|r|] == r;
    }
  }

  /** Stability: for every length, the entries of that length keep their
      original relative order. */
  lemma {:induction false} SortByLengthStable(s: seq<Entry>, n: nat)
    ensures WithLength(SortByLength(s), n) == WithLength(s, n)
    decreases |s|
  {
    if s != [] {
      SortByLengthStable(s[..|s| - 1], n);
      InsertStable(SortByLength(s[..|s| - 1]), s[|s| - 1], n);
    }
  }

  /** Sorting an already sorted listing changes nothing. */
  lemma {:induction false} SortByLengthOfSorted(s: seq<Entry>)
    requires SortedByLength(s)
    ensures SortByLength(s) == s
    decreases |s|
  {
    if s != [] {
      var init := s[..|s| - 1];
      assert SortedByLength(init);
      SortByLengthOfSorted(init);
      assert s == init + [s[|s| - 1]];
    }
  }

  /** Sorting twice is sorting once. */
  lemma SortByLengthIdempotent(s: seq<Entry>)
    ensures SortByLength(SortByLength(s)) == SortByLength(s)
  {
    SortByLengthSorted(s);
    SortByLengthOfSorted(SortByLength(s));
  }

  /** `e` goes right after the last entry of `t` that is not longer than it. */
  lemma {:induction false} InsertSplit(t: seq<Entry>, e: Entry, j: nat)
    requires j <= |t| && (j == 0 || PathLength(t[j - 1]) <= PathLength(e))
    requires forall k :: j <= k < |t| ==> PathLength(t[k]) > PathLength(e)
    ensures Insert(t, e) == t[..j] + [e] + t[j..]
    decreases |t|
  {
    if j < |t| {
      var init := t[..|t| - 1];
      InsertSplit(init, e, j);
      assert init[..j] == t[..j];
      assert t[j..] == init[j..] + [t[|t| - 1]];
    }
  }

  /** The inner loop of the insertion sort: moves `a[i]` left past every
      longer entry of `a[..i]`. */
  method InsertAt(a: array<Entry>, i: nat)
    requires i < a.Length
    modifies a
    ensures a[..i + 1] == Insert(old(a[..i]), old(a[i]))
    ensures a[i + 1..] == old(a[i + 1..])
  {
    ghost var t := a[..i];
    ghost var rest := a[i + 1..];
    var e := a[i];
    var j := i;
    while j > 0 && PathLength(a[j - 1]) > PathLength(e)
      invariant 0 <= j <= i
      invariant forall k :: 0 <= k < j ==> a[k] == t[k]
      invariant forall k :: j < k <= i ==> a[k] == t[k - 1]
      invariant a[i + 1..] == rest
      invariant forall k :: j <= k < i ==> PathLength(t[k]) > PathLength(e)
    {
      a[j] := a[j - 1];
      j := j - 1;
    }
    a[j] := e;
    assert a[..i + 1] == Insert(t, e) by {
      InsertSplit(t, e, j);
      ghost var r := t[..j] + [e] + t[j..];
      forall k | 0 <= k <= i
        ensures a[k] == r[k]
      {
        if k < j {
          assert r[k] == t[k];
        } else if k > j {
          assert r[k] == t[k - 1];
        }
      }
    }
  }

  /** The in-place sort of the listing's array: an insertion sort that
      shifts longer entries one place to the right. */
  method SortByPathLength(a: array<Entry>)
    modifies a
    ensures a[..] == SortByLength(old(a[..]))
  {
    ghost var orig := a[..];
    var i := 0;
    while i < a.Length
      invariant 0 <= i <= a.Length
      invariant a[..i] == SortByLength(orig[..i])
      invariant a[i..] == orig[i..]
    {
      ghost var before := a[..];
      assert before[..i] == SortByLength(orig[..i]);
      assert before[i] == orig[i] && before[i + 1..] == orig[i + 1..];
      InsertAt(a, i);
      ghost var done := orig[..i + 1];
      assert done[..i] == orig[..i] && done[i] == orig[i];
      assert SortByLength(done) == Insert(SortByLength(orig[..i]), orig[i]);
      i := i + 1;
    }
    assert orig[..a.Length] == orig;
  }
}
