/**
 * The sequential baseline sort that both quicksorts fall back to below their
 * granularity threshold. In the C sources it is the C library's `qsort`
 * called with `compare`; here it is an insertion sort on values, copied back
 * into the array region, proved against the contract the callers rely on:
 * the region ends sorted and a permutation of what it held.
 */
module BaselineSort {
  import opened Keys

  /** A key no larger than the head of a sorted sequence can go in front of it. */
  lemma SortedCons(h: Key, t: seq<Key>)
    requires Sorted(t)
    requires t != [] ==> h <= t[0]
    ensures Sorted([h] + t)
  {
    var r := [h] + t;
    forall i, j | 0 <= i < j < |r|
      ensures r[i] <= r[j]
    {
      if i == 0 {
        assert r[j] == t[j - 1];
        assert t[0] <= t[j - 1];
      } else {
        assert r[i] == t[i - 1] && r[j] == t[j - 1];
      }
    }
  }

  /** Inserts `x` into the sorted sequence `s`. */
  function Insert(x: Key, s: seq<Key>): (r: seq<Key>)
    requires Sorted(s)
    ensures |r| == |s| + 1
    ensures Sorted(r)
    ensures multiset(r) == multiset(s) + multiset{x}
    ensures r[0] == if s == [] || x <= s[0] then x else s[0]
    decreases |s|
  {
    if s == [] then [x]
    else if x <= s[0] then
      SortedCons(x, s);
      [x] + s
    else
      assert s == [s[0]] + s[1..];
      var rest := Insert(x, s[1..]);
      SortedCons(s[0], rest);
      [s[0]] + rest
  }

  /** Sorts a sequence of keys by repeated insertion. */
  function InsertionSort(s: seq<Key>): (r: seq<Key>)
    ensures |r| == |s|
    ensures Sorted(r)
    ensures multiset(r) == multiset(s)
    decreases |s|
  {
    if s == [] then []
    else
      assert s == [s[0]] + s[1..];
      Insert(s[0], InsertionSort(s[1..]))
  }

  /** Writes `src` over the region a[lo..lo+n), n = |src|; the rest of `a` is untouched. */
  method CopyInto(a: array<Key>, lo: nat, n: nat, src: seq<Key>)
    requires |src| == n && lo + n <= a.Length
    modifies a
    ensures a[lo..lo + n] == src
    ensures a[..lo] == old(a[..lo]) && a[lo + n..] == old(a[lo + n..])
  {
    for i := 0 to n
      invariant a[lo..lo + i] == src[..i]
      invariant a[..lo] == old(a[..lo]) && a[lo + n..] == old(a[lo + n..])
    {
      a[lo + i] := src[i];
    }
    assert src[..n] == src;
  }

  /**
   * Sorts the region a[lo..lo+n) in place: afterwards it is sorted, holds
   * the keys it held, and the rest of `a` is untouched.
   */
  method SequentialSort(a: array<Key>, lo: nat, n: nat)
    requires lo + n <= a.Length
    modifies a
    ensures Sorted(a[lo..lo + n])
    ensures PermutedIn(old(a[..]), a[..], lo, lo + n)
  {
    ghost var s := a[..];
    var region := a[lo..lo + n];
    assert region == s[lo..lo + n];
    var sorted := InsertionSort(region);
    CopyInto(a, lo, n, sorted);
    RegionPermutedIn(s, a[..], lo, lo + n);
  }
}
