/**
 * The quicksort of the Cilk lab: below a size threshold it sorts with the
 * baseline sort; above it, it partitions the region three ways around a key
 * of the region and sorts the less and greater blocks, which the source does
 * in parallel (`_Cilk_spawn`). Here the two calls run one after the other;
 * their contracts show that each touches only its own block.
 */
module CilkQuickSort {
  import opened Keys
  import opened BaselineSort
  import opened CilkPartition
  import opened QuickSortSteps

  /** Below this region length the quicksort calls the baseline sort. */
  const QuickSortGrain: nat := 1024

  /** Sorts the region a[lo..lo+n) in place. */
  method QuickSort(a: array<Key>, lo: nat, n: nat)
    requires lo + n <= a.Length
    modifies a
    ensures Sorted(a[lo..lo + n])
    ensures PermutedIn(old(a[..]), a[..], lo, lo + n)
    decreases n
  {
    if n < QuickSortGrain {
      SequentialSort(a, lo, n);
      return;
    }
    // the source draws the pivot position as rand() % N
    var r :| 0 <= r < n;
    var pivot := a[lo + r];
    var nlt, neq, ngt := Partition(pivot, a, lo, n);
    PivotInEqualBlock(old(a[..]), a[..], lo, n, r, nlt, neq);
    ghost var s1 := a[..];
    // the two calls work on the disjoint blocks [lo, lo+nlt) and [lo+nlt+neq, lo+n)
    QuickSort(a, lo, nlt);
    ghost var s2 := a[..];
    QuickSort(a, lo + nlt + neq, ngt);
    SortedAfterRecursion(old(a[..]), s1, s2, a[..], lo, n, pivot, nlt, neq, ngt);
  }

  /** Sorts a[0..n) in place. */
  method ParallelSort(a: array<Key>, n: nat)
    requires n <= a.Length
    modifies a
    ensures Sorted(a[..n])
    ensures PermutedIn(old(a[..]), a[..], 0, n)
  {
    QuickSort(a, 0, n);
    assert a[..n] == a[0..n];
  }
}
