/**
 * The three-way partition of the Cilk quicksort: the sequential Dutch
 * National Flag pass with its fix-up loop, the merge of two partitioned
 * halves by two regroups, and the divide-and-conquer partition that splits
 * above a size threshold. The two recursive calls of the source run in
 * parallel (`_Cilk_spawn`); here they run one after the other, and their
 * contracts show that each touches only its own half.
 */
module CilkPartition {
  import opened Keys
  import opened CilkRegroup

  /**
   * The array `s` after `mergePartitions (s + lo, n1a, n1b, n1c, n2a, n2b, n2c)`:
   * A1 | B1 | C1 | A2 | B2 | C2 becomes A1 | {A2} | {C1} | {B1} | B2 | C2 by
   * the first regroup, then A1 | {A2} | {B2} | {{B1}} | {{C1}} | C2 by the second.
   * The length n2c of C2 plays no part: C2 stays where it is.
   */
  ghost function Merged(s: seq<Key>, lo: nat, n1a: nat, n1b: nat, n1c: nat, n2a: nat, n2b: nat): seq<Key>
    requires lo + n1a + n1b + n1c + n2a + n2b <= |s|
  {
    var s1 := Regrouped(s, lo + n1a, n1b, n1c, n2a);
    Regrouped(s1, lo + n1a + n2a, n1c, n1b, n2b)
  }

  /**
   * The bands of the array between the two regroups of a merge, A1 | {A2} |
   * {C1} | {B1} | B2 | C2, in the form the second regroup needs. Stated for
   * any `s1` that the first regroup could produce.
   */
  lemma MergeMidBands(s: seq<Key>, s1: seq<Key>, lo: nat, n1a: nat, n1b: nat, n1c: nat, n2a: nat, n2b: nat, n2c: nat, pivot: Key)
    requires lo + n1a + n1b + n1c + n2a + n2b + n2c <= |s|
    requires Partitioned(s, lo, lo + n1a + n1b + n1c, pivot, n1a, n1b)
    requires Partitioned(s, lo + n1a + n1b + n1c, lo + n1a + n1b + n1c + n2a + n2b + n2c, pivot, n2a, n2b)
    requires AgreeOutside(s, s1, lo + n1a, lo + n1a + n1b + n1c + n2a)
    requires Band(s1, lo + n1a + n2a + n1c, lo + n1a + n1b + n1c + n2a, pivot, 0)
    ensures Band(s1, lo, lo + n1a, pivot, -1)
    ensures Band(s1, lo + n1a + n2a + n1c, lo + n1a + n2a + n1c + n1b, pivot, 0)
    ensures Band(s1, lo + n1a + n2a + n1c + n1b, lo + n1a + n2a + n1c + n1b + n2b, pivot, 0)
    ensures Band(s1, lo + n1a + n2a + n1c + n1b + n2b, lo + n1a + n1b + n1c + n2a + n2b + n2c, pivot, 1)
  {
    var n1 := n1a + n1b + n1c;
    var hi1 := lo + n1a + n1b + n1c + n2a;
    assert lo + n1 + n2a == hi1 == lo + n1a + n2a + n1c + n1b;
    assert lo + n1 + n2a + n2b == lo + n1a + n2a + n1c + n1b + n2b;
    BandFrame(s, s1, lo + n1a, hi1, lo, lo + n1a, pivot, -1);
    BandFrame(s, s1, lo + n1a, hi1, lo + n1 + n2a, lo + n1 + n2a + n2b, pivot, 0);
    BandFrame(s, s1, lo + n1a, hi1, lo + n1 + n2a + n2b, lo + n1 + n2a + n2b + n2c, pivot, 1);
  }

  /**
   * The bands after both regroups, A1 | {A2} | {B2} | {{B1}} | {{C1}} | C2,
   * joined into the less, equal and greater bands of the whole region.
   * Stated for any `s1` and `t` that the two regroups could produce.
   */
  lemma MergeFinalBands(s1: seq<Key>, t: seq<Key>, lo: nat, n1a: nat, n1b: nat, n1c: nat, n2a: nat, n2b: nat, n2c: nat, pivot: Key)
    requires lo + n1a + n1b + n1c + n2a + n2b + n2c <= |s1|
    requires AgreeOutside(s1, t, lo + n1a + n2a, lo + n1a + n2a + n1c + n1b + n2b)
    requires Band(s1, lo, lo + n1a, pivot, -1)
    requires Band(s1, lo + n1a, lo + n1a + n2a, pivot, -1)
    requires Band(s1, lo + n1a + n2a + n1c + n1b + n2b, lo + n1a + n1b + n1c + n2a + n2b + n2c, pivot, 1)
    requires Band(t, lo + n1a + n2a, lo + n1a + n2a + n2b, pivot, 0)
    requires Band(t, lo + n1a + n2a + n2b, lo + n1a + n2a + n2b + n1b, pivot, 0)
    requires Band(t, lo + n1a + n2a + n2b + n1b, lo + n1a + n2a + n1c + n1b + n2b, pivot, 1)
    ensures Partitioned(t, lo, lo + n1a + n1b + n1c + n2a + n2b + n2c, pivot, n1a + n2a, n1b + n2b)
  {
    var lo2, hi2 := lo + n1a + n2a, lo + n1a + n2a + n1c + n1b + n2b;
    var hi := lo + n1a + n1b + n1c + n2a + n2b + n2c;
    BandFrame(s1, t, lo2, hi2, lo, lo + n1a, pivot, -1);
    BandFrame(s1, t, lo2, hi2, lo + n1a, lo2, pivot, -1);
    BandFrame(s1, t, lo2, hi2, hi2, hi, pivot, 1);
    BandJoin(t, lo, lo + n1a, lo2, pivot, -1);
    BandJoin(t, lo2, lo2 + n2b, lo2 + n2b + n1b, pivot, 0);
    BandJoin(t, lo2 + n2b + n1b, hi2, hi, pivot, 1);
    assert lo + (n1a + n2a) == lo2 && lo2 + n2b + n1b == lo + (n1a + n2a) + (n1b + n2b);
  }

  /** The bands after the first regroup of a merge: A1 | {A2} | {C1} | {B1} | B2 | C2. */
  lemma MergeFirstRegroup(s: seq<Key>, s1: seq<Key>, lo: nat, n1a: nat, n1b: nat, n1c: nat, n2a: nat, n2b: nat, n2c: nat, pivot: Key)
    requires lo + n1a + n1b + n1c + n2a + n2b + n2c <= |s|
    requires Partitioned(s, lo, lo + n1a + n1b + n1c, pivot, n1a, n1b)
    requires Partitioned(s, lo + n1a + n1b + n1c, lo + n1a + n1b + n1c + n2a + n2b + n2c, pivot, n2a, n2b)
    requires s1 == Regrouped(s, lo + n1a, n1b, n1c, n2a)
    ensures Band(s1, lo, lo + n1a, pivot, -1)
    ensures Band(s1, lo + n1a, lo + n1a + n2a, pivot, -1)
    ensures Band(s1, lo + n1a + n2a, lo + n1a + n2a + n1c, pivot, 1)
    ensures Band(s1, lo + n1a + n2a + n1c, lo + n1a + n2a + n1c + n1b, pivot, 0)
    ensures Band(s1, lo + n1a + n2a + n1c + n1b, lo + n1a + n2a + n1c + n1b + n2b, pivot, 0)
    ensures Band(s1, lo + n1a + n2a + n1c + n1b + n2b, lo + n1a + n1b + n1c + n2a + n2b + n2c, pivot, 1)
  {
    RegroupedAgreeOutside(s, lo + n1a, n1b, n1c, n2a);
    RegroupedBands(s, lo + n1a, n1b, n1c, n2a, pivot, 0, 1, -1);
    MergeMidBands(s, s1, lo, n1a, n1b, n1c, n2a, n2b, n2c, pivot);
  }

  /** The second regroup of a merge, {C1} | {B1} | B2  ==>  {B2} | {{B1}} | {{C1}}, completes the partition. */
  lemma MergeSecondRegroup(s1: seq<Key>, t: seq<Key>, lo: nat, n1a: nat, n1b: nat, n1c: nat, n2a: nat, n2b: nat, n2c: nat, pivot: Key)
    requires lo + n1a + n1b + n1c + n2a + n2b + n2c <= |s1|
    requires t == Regrouped(s1, lo + n1a + n2a, n1c, n1b, n2b)
    requires Band(s1, lo, lo + n1a, pivot, -1)
    requires Band(s1, lo + n1a, lo + n1a + n2a, pivot, -1)
    requires Band(s1, lo + n1a + n2a, lo + n1a + n2a + n1c, pivot, 1)
    requires Band(s1, lo + n1a + n2a + n1c, lo + n1a + n2a + n1c + n1b, pivot, 0)
    requires Band(s1, lo + n1a + n2a + n1c + n1b, lo + n1a + n2a + n1c + n1b + n2b, pivot, 0)
    requires Band(s1, lo + n1a + n2a + n1c + n1b + n2b, lo + n1a + n1b + n1c + n2a + n2b + n2c, pivot, 1)
    ensures Partitioned(t, lo, lo + n1a + n1b + n1c + n2a + n2b + n2c, pivot, n1a + n2a, n1b + n2b)
  {
    RegroupedAgreeOutside(s1, lo + n1a + n2a, n1c, n1b, n2b);
    RegroupedBands(s1, lo + n1a + n2a, n1c, n1b, n2b, pivot, 1, 0, 0);
    MergeFinalBands(s1, t, lo, n1a, n1b, n1c, n2a, n2b, n2c, pivot);
  }

  /**
   * Merging two partitioned halves gives a partitioned region, with
   * n1a + n2a keys less than the pivot and n1b + n2b equal to it.
   */
  lemma MergedPartitioned(s: seq<Key>, lo: nat, n1a: nat, n1b: nat, n1c: nat, n2a: nat, n2b: nat, n2c: nat, pivot: Key)
    requires lo + n1a + n1b + n1c + n2a + n2b + n2c <= |s|
    requires Partitioned(s, lo, lo + n1a + n1b + n1c, pivot, n1a, n1b)
    requires Partitioned(s, lo + n1a + n1b + n1c, lo + n1a + n1b + n1c + n2a + n2b + n2c, pivot, n2a, n2b)
    ensures Partitioned(Merged(s, lo, n1a, n1b, n1c, n2a, n2b), lo, lo + n1a + n1b + n1c + n2a + n2b + n2c,
                        pivot, n1a + n2a, n1b + n2b)
  {
    var s1 := Regrouped(s, lo + n1a, n1b, n1c, n2a);
    var t := Regrouped(s1, lo + n1a + n2a, n1c, n1b, n2b);
    MergeFirstRegroup(s, s1, lo, n1a, n1b, n1c, n2a, n2b, n2c, pivot);
    MergeSecondRegroup(s1, t, lo, n1a, n1b, n1c, n2a, n2b, n2c, pivot);
    assert Merged(s, lo, n1a, n1b, n1c, n2a, n2b) == t;
  }

  /** A merge keeps the keys of the array. */
  lemma MergedMultiset(s: seq<Key>, lo: nat, n1a: nat, n1b: nat, n1c: nat, n2a: nat, n2b: nat)
    requires lo + n1a + n1b + n1c + n2a + n2b <= |s|
    ensures multiset(Merged(s, lo, n1a, n1b, n1c, n2a, n2b)) == multiset(s)
  {
    var s1 := Regrouped(s, lo + n1a, n1b, n1c, n2a);
    RegroupedMultiset(s, lo + n1a, n1b, n1c, n2a);
    RegroupedMultiset(s1, lo + n1a + n2a, n1c, n1b, n2b);
    assert Merged(s, lo, n1a, n1b, n1c, n2a, n2b) == Regrouped(s1, lo + n1a + n2a, n1c, n1b, n2b);
  }

  /** A merge touches nothing outside its region. */
  lemma MergedAgreeOutside(s: seq<Key>, lo: nat, n1a: nat, n1b: nat, n1c: nat, n2a: nat, n2b: nat, n2c: nat)
    requires lo + n1a + n1b + n1c + n2a + n2b + n2c <= |s|
    ensures AgreeOutside(s, Merged(s, lo, n1a, n1b, n1c, n2a, n2b), lo, lo + n1a + n1b + n1c + n2a + n2b + n2c)
  {
    RegroupedAgreeOutside(s, lo + n1a, n1b, n1c, n2a);
    var s1 := Regrouped(s, lo + n1a, n1b, n1c, n2a);
    RegroupedAgreeOutside(s1, lo + n1a + n2a, n1c, n1b, n2b);
    var t := Regrouped(s1, lo + n1a + n2a, n1c, n1b, n2b);
    AgreeOutsideTrans(s, s1, t, lo, lo + n1a + n1b + n1c + n2a + n2b + n2c,
                      lo + n1a, lo + n1a + n1b + n1c + n2a, lo + n1a + n2a, lo + n1a + n2a + n1c + n1b + n2b);
  }

  /** A merge only moves keys around inside its region. */
  lemma MergedPermutedIn(s: seq<Key>, lo: nat, n1a: nat, n1b: nat, n1c: nat, n2a: nat, n2b: nat, n2c: nat)
    requires lo + n1a + n1b + n1c + n2a + n2b + n2c <= |s|
    ensures PermutedIn(s, Merged(s, lo, n1a, n1b, n1c, n2a, n2b), lo, lo + n1a + n1b + n1c + n2a + n2b + n2c)
  {
    MergedMultiset(s, lo, n1a, n1b, n1c, n2a, n2b);
    MergedAgreeOutside(s, lo, n1a, n1b, n1c, n2a, n2b, n2c);
  }

  /**
   * Merges two three-way partitioned halves of the region a[lo..lo+n1+n2),
   * n1 = n1a + n1b + n1c and n2 = n2a + n2b + n2c, into one.
   */
  method MergePartitions(a: array<Key>, lo: nat, n1a: nat, n1b: nat, n1c: nat, n2a: nat, n2b: nat, n2c: nat)
    requires lo + n1a + n1b + n1c + n2a + n2b + n2c <= a.Length
    modifies a
    ensures a[..] == Merged(old(a[..]), lo, n1a, n1b, n1c, n2a, n2b)
  {
    ghost var s := a[..];
    Regroup3(a, lo + n1a, n1b, n1c, n2a);
    ghost var s1 := a[..];
    assert s1 == Regrouped(s, lo + n1a, n1b, n1c, n2a);
    Regroup3(a, lo + n1a + n2a, n1c, n1b, n2b);
    ghost var t := a[..];
    assert t == Regrouped(s1, lo + n1a + n2a, n1c, n1b, n2b);
    MergedFromSteps(s, s1, t, lo, n1a, n1b, n1c, n2a, n2b);
  }

  /** The two array states `mergePartitions` passes through determine its result. */
  lemma MergedFromSteps(s: seq<Key>, s1: seq<Key>, t: seq<Key>, lo: nat, n1a: nat, n1b: nat, n1c: nat, n2a: nat, n2b: nat)
    requires lo + n1a + n1b + n1c + n2a + n2b <= |s|
    requires s1 == Regrouped(s, lo + n1a, n1b, n1c, n2a)
    requires t == Regrouped(s1, lo + n1a + n2a, n1c, n1b, n2b)
    ensures t == Merged(s, lo, n1a, n1b, n1c, n2a, n2b)
  {
  }

  /**
   * What the Dutch National Flag loop of the sequential partition keeps on
   * the region t[lo..lo+n), started from `s`: keys equal to the pivot at
   * offsets [0, p], less keys in (p, i), the unexamined keys in [i, q) and
   * greater keys in [q, n); the keys of the region only permuted.
   */
  ghost predicate DnfState(s: seq<Key>, t: seq<Key>, lo: nat, n: nat, p: int, i: nat, q: nat, pivot: Key)
  {
    && -1 <= p < i <= q <= n
    && Band(t, lo, lo + p + 1, pivot, 0)
    && Band(t, lo + p + 1, lo + i, pivot, -1)
    && Band(t, lo + q, lo + n, pivot, 1)
    && PermutedIn(s, t, lo, lo + n)
  }

  /** An equal key at offset i is swapped to offset p+1; both boundaries advance. */
  lemma DnfEqualStep(s: seq<Key>, t: seq<Key>, u: seq<Key>, lo: nat, n: nat, p: int, i: nat, q: nat, pivot: Key)
    requires DnfState(s, t, lo, n, p, i, q, pivot) && i < q && t[lo + i] == pivot
    requires u == t[lo + i := t[lo + p + 1]][lo + p + 1 := t[lo + i]]
    ensures DnfState(s, u, lo, n, p + 1, i + 1, q, pivot)
  {
    forall j | lo <= j < lo + i + 1
      ensures Compare(u[j], pivot) == if j < lo + p + 2 then 0 else -1
    {
      if j != lo + i && j != lo + p + 1 {
        assert u[j] == t[j];
      }
    }
    forall j | lo + q <= j < lo + n
      ensures Compare(u[j], pivot) == 1
    {
      assert u[j] == t[j];
    }
    SwapPermutedIn(s, t, u, lo, lo + n, lo + i, lo + p + 1);
  }

  /** A greater key at offset i is swapped to offset q-1, which joins the greater keys. */
  lemma DnfGreaterStep(s: seq<Key>, t: seq<Key>, u: seq<Key>, lo: nat, n: nat, p: int, i: nat, q: nat, pivot: Key)
    requires DnfState(s, t, lo, n, p, i, q, pivot) && i < q && t[lo + i] > pivot
    requires u == t[lo + i := t[lo + q - 1]][lo + q - 1 := t[lo + i]]
    ensures DnfState(s, u, lo, n, p, i, q - 1, pivot)
  {
    forall j | lo <= j < lo + i
      ensures Compare(u[j], pivot) == if j < lo + p + 1 then 0 else -1
    {
      assert u[j] == t[j];
    }
    forall j | lo + q - 1 <= j < lo + n
      ensures Compare(u[j], pivot) == 1
    {
      if j != lo + q - 1 {
        assert u[j] == t[j];
      }
    }
    SwapPermutedIn(s, t, u, lo, lo + n, lo + i, lo + q - 1);
  }

  /** A less key at offset i stays where it is and joins the less keys. */
  lemma DnfLessStep(s: seq<Key>, t: seq<Key>, lo: nat, n: nat, p: int, i: nat, q: nat, pivot: Key)
    requires DnfState(s, t, lo, n, p, i, q, pivot) && i < q && t[lo + i] < pivot
    ensures DnfState(s, t, lo, n, p, i + 1, q, pivot)
  {
    assert Compare(t[lo + i], pivot) == -1;
  }

  /**
   * The key layout after k rounds of the fix-up loop of the sequential
   * partition, for a region [lo, hi) that holds e keys equal to the pivot
   * followed by l = hi-lo-e less keys when the loop starts. Round k swaps
   * offset k with offset e+l-1-k. Afterwards the offsets below min(k, l) and
   * those from e up to e+l-k hold less keys (-1), all others the pivot (0):
   * once k reaches l both swapped positions hold the pivot and the swap
   * changes no key.
   */
  function FixUpSide(j: int, k: nat, e: nat, l: int): int
  {
    if (j < k && j < l) || e <= j < e + l - k then -1 else 0
  }

  /** The region s[lo..hi) after k rounds of the fix-up loop. */
  ghost predicate FixedUpTo(s: seq<Key>, lo: nat, hi: nat, e: nat, k: nat, pivot: Key)
  {
    && lo + e <= hi <= |s|
    && forall j | lo <= j < hi :: Compare(s[j], pivot) == FixUpSide(j - lo, k, e, hi - lo - e)
  }

  /** When the Dutch National Flag loop stops, the fix-up loop starts from its layout. */
  lemma DnfDone(s: seq<Key>, t: seq<Key>, lo: nat, n: nat, p: int, q: nat, pivot: Key)
    requires DnfState(s, t, lo, n, p, q, q, pivot)
    ensures FixUpState(s, t, lo, lo + q, n, p + 1, 0, pivot)
  {
  }

  /**
   * What the fix-up loop keeps on a[lo..lo+n), started from `s`: the region
   * [lo, hi) after k rounds, the greater keys past it untouched, and the keys
   * of the region only permuted.
   */
  ghost predicate FixUpState(s: seq<Key>, t: seq<Key>, lo: nat, hi: nat, n: nat, e: nat, k: nat, pivot: Key)
  {
    && FixedUpTo(t, lo, hi, e, k, pivot)
    && Band(t, hi, lo + n, pivot, 1)
    && PermutedIn(s, t, lo, lo + n)
  }

  /** One round of the fix-up loop. */
  lemma FixUpStep(s: seq<Key>, t: seq<Key>, u: seq<Key>, lo: nat, hi: nat, n: nat, e: nat, k: nat, pivot: Key)
    requires FixUpState(s, t, lo, hi, n, e, k, pivot) && k < e
    requires u == t[lo + k := t[hi - 1 - k]][hi - 1 - k := t[lo + k]]
    ensures FixUpState(s, u, lo, hi, n, e, k + 1, pivot)
  {
    var l := hi - lo - e;
    assert Compare(t[lo + k], pivot) == FixUpSide(k, k, e, l) == 0;
    assert Compare(t[hi - 1 - k], pivot) == FixUpSide(e + l - 1 - k, k, e, l) == if k < l then -1 else 0;
    forall j | lo <= j < hi
      ensures Compare(u[j], pivot) == FixUpSide(j - lo, k + 1, e, l)
    {
      if j != lo + k && j != hi - 1 - k {
        assert u[j] == t[j];
      }
    }
    forall j | hi <= j < lo + n
      ensures Compare(u[j], pivot) == 1
    {
      assert u[j] == t[j];
    }
    SwapPermutedIn(s, t, u, lo, lo + n, lo + k, hi - 1 - k);
  }

  /** After e rounds: the nlt less keys, then the e equal keys. */
  lemma FixUpDone(t: seq<Key>, lo: nat, hi: nat, nlt: nat, e: nat, pivot: Key)
    requires FixedUpTo(t, lo, hi, e, e, pivot) && lo + nlt + e == hi
    ensures Band(t, lo, lo + nlt, pivot, -1) && Band(t, lo + nlt, lo + nlt + e, pivot, 0)
  {
    forall j | lo <= j < lo + nlt + e
      ensures Compare(t[j], pivot) == if j < lo + nlt then -1 else 0
    {
      assert Compare(t[j], pivot) == FixUpSide(j - lo, e, e, nlt);
    }
  }

  /**
   * The Dutch National Flag loop of the sequential partition: equal keys
   * gather at the front of the region, greater keys at the back, and less
   * keys between them. Returns p and q: offsets [0, p] hold the equal keys,
   * (p, q) the less keys, [q, n) the greater keys.
   */
  method DutchFlag(pivot: Key, a: array<Key>, lo: nat, n: nat) returns (p: int, q: nat)
    requires lo + n <= a.Length
    modifies a
    ensures DnfState(old(a[..]), a[..], lo, n, p, q, q, pivot)
  {
    var i: nat;
    p, q, i := -1, n, 0;
    while i < q
      invariant DnfState(old(a[..]), a[..], lo, n, p, i, q, pivot)
      decreases q - i
    {
      ghost var prev := a[..];
      if a[lo + i] == pivot {
        Swap(a, lo + i, lo + p + 1);
        DnfEqualStep(old(a[..]), prev, a[..], lo, n, p, i, q, pivot);
        i, p := i + 1, p + 1;
      } else if a[lo + i] >= pivot {
        Swap(a, lo + i, lo + q - 1);
        DnfGreaterStep(old(a[..]), prev, a[..], lo, n, p, i, q, pivot);
        q := q - 1;
      } else {
        DnfLessStep(old(a[..]), prev, lo, n, p, i, q, pivot);
        i := i + 1;
      }
    }
  }

  /**
   * The fix-up loop of the sequential partition: swaps the p+1 equal keys at
   * the front of the region with the last of the less keys, which leaves the
   * less keys first, then the equal keys, then the greater keys.
   */
  method FixUp(pivot: Key, a: array<Key>, lo: nat, n: nat, ghost s: seq<Key>, p: int, q: nat)
    requires lo + n <= a.Length
    requires DnfState(s, a[..], lo, n, p, q, q, pivot)
    modifies a
    ensures Partitioned(a[..], lo, lo + n, pivot, q - 1 - p, p + 1)
    ensures PermutedIn(s, a[..], lo, lo + n)
  {
    DnfDone(s, a[..], lo, n, p, q, pivot);
    for k := 0 to p + 1
      invariant FixUpState(s, a[..], lo, lo + q, n, p + 1, k, pivot)
    {
      ghost var prev := a[..];
      Swap(a, lo + k, lo + q - 1 - k);
      FixUpStep(s, prev, a[..], lo, lo + q, n, p + 1, k, pivot);
    }
    FixUpDone(a[..], lo, lo + q, q - 1 - p, p + 1, pivot);
  }

  /**
   * Sequential three-way partition of a[lo..lo+n) around `pivot`, by the
   * Dutch National Flag method followed by the fix-up loop. Returns the
   * three counts.
   */
  method PartitionSeq(pivot: Key, a: array<Key>, lo: nat, n: nat) returns (nlt: nat, neq: nat, ngt: nat)
    requires lo + n <= a.Length
    modifies a
    ensures nlt + neq + ngt == n
    ensures Partitioned(a[..], lo, lo + n, pivot, nlt, neq)
    ensures PermutedIn(old(a[..]), a[..], lo, lo + n)
  {
    var p, q := DutchFlag(pivot, a, lo, n);
    FixUp(pivot, a, lo, n, old(a[..]), p, q);
    nlt, neq, ngt := q - 1 - p, p + 1, n - q;
  }

  /** Above this region length the partition splits the region in two. */
  const PartitionGrain: nat := 1024 * 1024

  /**
   * Three-way partition of a[lo..lo+n) around `pivot`: sequential up to
   * PartitionGrain keys; otherwise both halves are partitioned (in parallel
   * in the source) and merged. Returns the three counts.
   */
  method Partition(pivot: Key, a: array<Key>, lo: nat, n: nat) returns (nlt: nat, neq: nat, ngt: nat)
    requires lo + n <= a.Length
    modifies a
    ensures nlt + neq + ngt == n
    ensures Partitioned(a[..], lo, lo + n, pivot, nlt, neq)
    ensures PermutedIn(old(a[..]), a[..], lo, lo + n)
    decreases n
  {
    if n <= PartitionGrain {
      nlt, neq, ngt := PartitionSeq(pivot, a, lo, n);
      return;
    }
    var nMid := n / 2;
    ghost var s0 := a[..];
    var n1lt, n1eq, n1gt := Partition(pivot, a, lo, nMid);
    ghost var s1 := a[..];
    var n2lt, n2eq, n2gt := Partition(pivot, a, lo + nMid, n - nMid);
    ghost var s2 := a[..];
    BandFrame(s1, s2, lo + nMid, lo + n, lo, lo + n1lt, pivot, -1);
    BandFrame(s1, s2, lo + nMid, lo + n, lo + n1lt, lo + n1lt + n1eq, pivot, 0);
    BandFrame(s1, s2, lo + nMid, lo + n, lo + n1lt + n1eq, lo + nMid, pivot, 1);
    MergePartitions(a, lo, n1lt, n1eq, n1gt, n2lt, n2eq, n2gt);
    MergedPartitioned(s2, lo, n1lt, n1eq, n1gt, n2lt, n2eq, n2gt, pivot);
    MergedPermutedIn(s2, lo, n1lt, n1eq, n1gt, n2lt, n2eq, n2gt);
    PermutedInTrans(s0, s1, s2, lo, lo + n, lo, lo + nMid, lo + nMid, lo + n);
    nlt, neq, ngt := n1lt + n2lt, n1eq + n2eq, n1gt + n2gt;
  }
}
