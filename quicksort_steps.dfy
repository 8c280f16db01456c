/**
 * The proof steps shared by both quicksorts of the repository (the Cilk lab
 * and the threads lab use the same recursion): a pivot drawn from the region
 * leaves a non-empty equal block, sorting the less and the greater block in
 * place keeps the three-way layout, and then the region is sorted.
 */
module QuickSortSteps {
  import opened Keys

  /**
   * A pivot drawn from the region is among the keys equal to it after the
   * partition, so the equal block is not empty and both blocks left to sort
   * are strictly shorter than the region.
   */
  lemma PivotInEqualBlock(s: seq<Key>, t: seq<Key>, lo: nat, n: nat, r: nat, nlt: nat, neq: nat)
    requires r < n && PermutedIn(s, t, lo, lo + n)
    requires Partitioned(t, lo, lo + n, s[lo + r], nlt, neq)
    ensures neq >= 1
  {
    var pivot := s[lo + r];
    PermutedInRegion(s, t, lo, lo + n);
    assert s[lo..lo + n][r] == pivot;
    assert pivot in multiset(t[lo..lo + n]);
    var j :| 0 <= j < n && t[lo..lo + n][j] == pivot;
    assert t[lo + j] == pivot;
    assert Compare(t[lo + j], pivot) == 0;
  }

  /**
   * Sorting the less block in place keeps the three-way layout of the
   * region: the less block still holds less keys, and nothing else moves.
   */
  lemma LessBlockSorted(s: seq<Key>, t: seq<Key>, lo: nat, hi: nat, pivot: Key, nlt: nat, neq: nat)
    requires Partitioned(s, lo, hi, pivot, nlt, neq) && hi <= |s|
    requires PermutedIn(s, t, lo, lo + nlt)
    ensures Partitioned(t, lo, hi, pivot, nlt, neq)
  {
    PermutedInRegion(s, t, lo, lo + nlt);
    BandPerm(s, t, lo, lo + nlt, pivot, -1);
    BandFrame(s, t, lo, lo + nlt, lo + nlt, lo + nlt + neq, pivot, 0);
    BandFrame(s, t, lo, lo + nlt, lo + nlt + neq, hi, pivot, 1);
  }

  /**
   * Sorting the greater block in place keeps the three-way layout of the
   * region and leaves the less block as it was.
   */
  lemma GreaterBlockSorted(s: seq<Key>, t: seq<Key>, lo: nat, hi: nat, pivot: Key, nlt: nat, neq: nat)
    requires Partitioned(s, lo, hi, pivot, nlt, neq) && hi <= |s|
    requires PermutedIn(s, t, lo + nlt + neq, hi)
    ensures Partitioned(t, lo, hi, pivot, nlt, neq)
    ensures t[lo..lo + nlt] == s[lo..lo + nlt]
  {
    PermutedInRegion(s, t, lo + nlt + neq, hi);
    BandFrame(s, t, lo + nlt + neq, hi, lo, lo + nlt, pivot, -1);
    BandFrame(s, t, lo + nlt + neq, hi, lo + nlt, lo + nlt + neq, pivot, 0);
    BandPerm(s, t, lo + nlt + neq, hi, pivot, 1);
    SliceFrame(s, t, lo + nlt + neq, hi, lo, lo + nlt);
  }

  /**
   * After the partition and the two recursive sorts, whose blocks are
   * disjoint, the region is sorted and holds the keys it started with.
   */
  lemma SortedAfterRecursion(s0: seq<Key>, s1: seq<Key>, s2: seq<Key>, t: seq<Key>, lo: nat, n: nat,
                             pivot: Key, nlt: nat, neq: nat, ngt: nat)
    requires nlt + neq + ngt == n
    requires Partitioned(s1, lo, lo + n, pivot, nlt, neq) && PermutedIn(s0, s1, lo, lo + n)
    requires PermutedIn(s1, s2, lo, lo + nlt) && Sorted(s2[lo..lo + nlt])
    requires PermutedIn(s2, t, lo + nlt + neq, lo + nlt + neq + ngt)
    requires Sorted(t[lo + nlt + neq..lo + nlt + neq + ngt])
    ensures Sorted(t[lo..lo + n])
    ensures PermutedIn(s0, t, lo, lo + n)
  {
    assert lo + nlt + neq + ngt == lo + n;
    LessBlockSorted(s1, s2, lo, lo + n, pivot, nlt, neq);
    GreaterBlockSorted(s2, t, lo, lo + n, pivot, nlt, neq);
    SortedFromBands(t, lo, lo + n, pivot, nlt, neq);
    PermutedInTrans(s1, s2, t, lo, lo + n, lo, lo + nlt, lo + nlt + neq, lo + n);
    PermutedInTrans(s0, s1, t, lo, lo + n, lo, lo + n, lo, lo + n);
  }
}
