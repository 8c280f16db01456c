/**
 * Sort keys, their three-way comparison and the orderings that the sorting
 * routines promise: ascending order, the less / equal / greater layout of a
 * three-way partition around a pivot, and "a permutation of the keys that
 * touches nothing outside a region", which is what every in-place routine on
 * a sub-array `A + lo` of length n guarantees to its caller.
 */
module Keys {

  /** The sort key. The C sources use `unsigned long`; only its order matters. */
  type Key = int

  /** Three-way comparison of two keys, as the `qsort` comparator does it. */
  function Compare(ka: Key, kb: Key): (r: int)
    ensures r == -1 <==> ka < kb
    ensures r == 0 <==> ka == kb
    ensures r == 1 <==> ka > kb
  {
    if ka < kb then -1
    else if ka == kb then 0
    else 1
  }

  /** Every pair of positions is in ascending order. */
  ghost predicate Sorted(s: seq<Key>)
  {
    forall i, j :: 0 <= i < j < |s| ==> s[i] <= s[j]
  }

  /** Every key of s[lo..hi) compares to `pivot` as `side` says (-1 less, 0 equal, 1 greater). */
  ghost predicate Band(s: seq<Key>, lo: nat, hi: nat, pivot: Key, side: int)
  {
    && lo <= hi <= |s|
    && forall j | lo <= j < hi :: Compare(s[j], pivot) == side
  }

  /**
   * The region s[lo..hi) is three-way partitioned around `pivot`: its first
   * `nlt` keys are less than the pivot, the next `neq` equal to it, and the
   * rest greater.
   */
  ghost predicate Partitioned(s: seq<Key>, lo: nat, hi: nat, pivot: Key, nlt: nat, neq: nat)
  {
    && lo + nlt + neq <= hi
    && Band(s, lo, lo + nlt, pivot, -1)
    && Band(s, lo + nlt, lo + nlt + neq, pivot, 0)
    && Band(s, lo + nlt + neq, hi, pivot, 1)
  }

  /** `t` differs from `s` only inside [lo, hi). */
  ghost predicate AgreeOutside(s: seq<Key>, t: seq<Key>, lo: nat, hi: nat)
  {
    && |t| == |s|
    && forall j | 0 <= j < |s| && !(lo <= j < hi) :: t[j] == s[j]
  }

  /**
   * `t` holds the keys of `s`, and differs from `s` only inside [lo, hi): the
   * contract of an in-place routine handed the sub-array s[lo..hi).
   */
  ghost predicate PermutedIn(s: seq<Key>, t: seq<Key>, lo: nat, hi: nat)
  {
    && lo <= hi <= |s|
    && AgreeOutside(s, t, lo, hi)
    && multiset(t) == multiset(s)
  }

  /**
   * When two sequences agree outside [lo, hi) and hold the same keys, they
   * hold the same keys inside [lo, hi).
   */
  lemma RegionMultiset(s: seq<Key>, t: seq<Key>, lo: nat, hi: nat)
    requires lo <= hi <= |s| == |t|
    requires t[..lo] == s[..lo] && t[hi..] == s[hi..]
    requires multiset(t) == multiset(s)
    ensures multiset(t[lo..hi]) == multiset(s[lo..hi])
  {
    assert s == s[..lo] + s[lo..hi] + s[hi..];
    assert t == t[..lo] + t[lo..hi] + t[hi..];
    var a, b, x, y := multiset(s[..lo]), multiset(s[hi..]), multiset(s[lo..hi]), multiset(t[lo..hi]);
    forall k
      ensures x[k] == y[k]
    {
      assert (a + x + b)[k] == (a + y + b)[k];
    }
  }

  /** PermutedIn read region by region: a permuted region, and everything else equal. */
  lemma PermutedInRegion(s: seq<Key>, t: seq<Key>, lo: nat, hi: nat)
    requires PermutedIn(s, t, lo, hi)
    ensures t[..lo] == s[..lo] && t[hi..] == s[hi..]
    ensures multiset(t[lo..hi]) == multiset(s[lo..hi])
  {
    assert t[..lo] == s[..lo];
    assert t[hi..] == s[hi..];
    RegionMultiset(s, t, lo, hi);
  }

  /** The converse: a permuted region with everything else equal is PermutedIn. */
  lemma RegionPermutedIn(s: seq<Key>, t: seq<Key>, lo: nat, hi: nat)
    requires lo <= hi <= |s| == |t|
    requires t[..lo] == s[..lo] && t[hi..] == s[hi..]
    requires multiset(t[lo..hi]) == multiset(s[lo..hi])
    ensures PermutedIn(s, t, lo, hi)
  {
    assert s == s[..lo] + s[lo..hi] + s[hi..];
    assert t == t[..lo] + t[lo..hi] + t[hi..];
    forall j | 0 <= j < |s| && !(lo <= j < hi)
      ensures t[j] == s[j]
    {
      if j < lo {
        assert t[..lo][j] == s[..lo][j];
      } else {
        assert t[hi..][j - hi] == s[hi..][j - hi];
      }
    }
  }

  /** Two steps that each change only a part of [lo, hi) change only [lo, hi). */
  lemma AgreeOutsideTrans(s: seq<Key>, t: seq<Key>, u: seq<Key>, lo: nat, hi: nat, lo1: nat, hi1: nat, lo2: nat, hi2: nat)
    requires AgreeOutside(s, t, lo1, hi1) && AgreeOutside(t, u, lo2, hi2)
    requires lo <= lo1 && hi1 <= hi && lo <= lo2 && hi2 <= hi
    ensures AgreeOutside(s, u, lo, hi)
  {
  }

  /** A slice outside the region a step works on is the same slice afterwards. */
  lemma SliceFrame(s: seq<Key>, t: seq<Key>, lo: nat, hi: nat, x: nat, y: nat)
    requires AgreeOutside(s, t, lo, hi) && x <= y <= |s|
    requires y <= lo || hi <= x
    ensures t[x..y] == s[x..y]
  {
    forall j | 0 <= j < y - x
      ensures t[x..y][j] == s[x..y][j]
    {
      assert t[x + j] == s[x + j];
    }
  }

  /** Two in-place steps inside [lo, hi) make one. */
  lemma PermutedInTrans(s: seq<Key>, t: seq<Key>, u: seq<Key>, lo: nat, hi: nat, lo1: nat, hi1: nat, lo2: nat, hi2: nat)
    requires PermutedIn(s, t, lo1, hi1) && PermutedIn(t, u, lo2, hi2)
    requires lo <= lo1 && hi1 <= hi && lo <= lo2 && hi2 <= hi && hi <= |s|
    ensures PermutedIn(s, u, lo, hi)
  {
  }

  /** A band outside a region that an in-place step works on survives the step. */
  lemma BandFrame(s: seq<Key>, t: seq<Key>, lo: nat, hi: nat, x: nat, y: nat, pivot: Key, side: int)
    requires AgreeOutside(s, t, lo, hi) && Band(s, x, y, pivot, side)
    requires y <= lo || hi <= x
    ensures Band(t, x, y, pivot, side)
  {
    forall j | x <= j < y
      ensures Compare(t[j], pivot) == side
    {
      assert t[j] == s[j];
    }
  }

  /** A band whose keys are permuted among themselves is still a band on the same side. */
  lemma BandPerm(s: seq<Key>, t: seq<Key>, lo: nat, hi: nat, pivot: Key, side: int)
    requires Band(s, lo, hi, pivot, side) && hi <= |t|
    requires multiset(t[lo..hi]) == multiset(s[lo..hi])
    ensures Band(t, lo, hi, pivot, side)
  {
    forall j | lo <= j < hi
      ensures Compare(t[j], pivot) == side
    {
      assert t[lo..hi][j - lo] == t[j];
      assert t[j] in multiset(s[lo..hi]);
      var k :| 0 <= k < hi - lo && s[lo..hi][k] == t[j];
      assert s[lo + k] == t[j];
    }
  }

  /** Two adjacent bands on the same side form one band. */
  lemma BandJoin(s: seq<Key>, lo: nat, mid: nat, hi: nat, pivot: Key, side: int)
    requires Band(s, lo, mid, pivot, side) && Band(s, mid, hi, pivot, side)
    ensures Band(s, lo, hi, pivot, side)
  {
  }

  /**
   * A partitioned region whose less and greater blocks are each sorted is
   * sorted: the equal block needs no further work.
   */
  lemma SortedFromBands(s: seq<Key>, lo: nat, hi: nat, pivot: Key, nlt: nat, neq: nat)
    requires Partitioned(s, lo, hi, pivot, nlt, neq)
    requires Sorted(s[lo..lo + nlt]) && Sorted(s[lo + nlt + neq..hi])
    ensures Sorted(s[lo..hi])
  {
    var r, m := s[lo..hi], nlt + neq;
    forall i, j | 0 <= i < j < |r|
      ensures r[i] <= r[j]
    {
      assert r[i] == s[lo + i] && r[j] == s[lo + j];
      if j < nlt {
        assert s[lo..lo + nlt][i] == s[lo + i] && s[lo..lo + nlt][j] == s[lo + j];
      } else if m <= i {
        assert s[lo + m..hi][i - m] == s[lo + i] && s[lo + m..hi][j - m] == s[lo + j];
      } else {
        // s[lo + i] <= pivot <= s[lo + j]
        assert Compare(s[lo + i], pivot) <= 0;
        assert Compare(s[lo + j], pivot) >= 0;
      }
    }
  }

  /** Swaps two entries of an array, as `std::swap (A[i], A[j])` does. */
  method Swap(a: array<Key>, i: nat, j: nat)
    requires i < a.Length && j < a.Length
    modifies a
    ensures a[..] == old(a[..])[i := old(a[j])][j := old(a[i])]
  {
    a[i], a[j] := a[j], a[i];
  }

  /** Swapping two entries keeps the multiset of keys. */
  lemma SwapMultiset(t: seq<Key>, i: nat, j: nat)
    requires i < |t| && j < |t|
    ensures multiset(t[i := t[j]][j := t[i]]) == multiset(t)
  {
    var u := t[i := t[j]];
    assert multiset(u) == multiset(t) - multiset{t[i]} + multiset{t[j]};
  }

  /** A swap applied to a permutation of `s` is a permutation of `s`. */
  lemma SwapStep(s: seq<Key>, t: seq<Key>, u: seq<Key>, i: nat, j: nat)
    requires i < |t| && j < |t|
    requires u == t[i := t[j]][j := t[i]] && multiset(t) == multiset(s)
    ensures multiset(u) == multiset(s)
  {
    SwapMultiset(t, i, j);
  }

  /** Swapping two positions inside [lo, hi) keeps an in-place permutation of that region one. */
  lemma SwapPermutedIn(s: seq<Key>, t: seq<Key>, u: seq<Key>, lo: nat, hi: nat, i: nat, j: nat)
    requires PermutedIn(s, t, lo, hi)
    requires lo <= i < hi && lo <= j < hi
    requires u == t[i := t[j]][j := t[i]]
    ensures PermutedIn(s, u, lo, hi)
  {
    SwapStep(s, t, u, i, j);
  }
}
