/**
 * The sorting routines of the first lab: a copy routine, an out-of-place
 * stable three-way partition, the quicksort built on it, the merge of two
 * sorted runs, the mergesort built on it, and the two result checkers.
 * A C routine handed `A + lo` works here on the region a[lo..lo+n).
 */
module Lab1Sort {
  import opened Keys
  import opened BaselineSort
  import opened QuickSortSteps

  /** Returns a new array holding a copy of a[lo..lo+n), as `newCopy` does. */
  method NewCopy(a: array<Key>, lo: nat, n: nat) returns (c: array<Key>)
    requires lo + n <= a.Length
    ensures fresh(c) && c.Length == n
    ensures c[..] == a[lo..lo + n]
  {
    c := new Key[n];
    for i := 0 to n
      invariant c[..i] == a[lo..lo + i]
    {
      c[i] := a[lo + i];
    }
    assert c[..n] == c[..];
  }

  // ---------------------------------------------------------------------
  // The stable three-way partition

  /**
   * The keys of s[..i] that compare to `pivot` as `side` says (-1 less,
   * 0 equal, 1 greater), in the order they appear in `s`.
   */
  function KeysOnSide(s: seq<Key>, i: nat, pivot: Key, side: int): (r: seq<Key>)
    requires i <= |s|
    ensures |r| <= i
    decreases i
  {
    if i == 0 then []
    else if Compare(s[i - 1], pivot) == side then KeysOnSide(s, i - 1, pivot, side) + [s[i - 1]]
    else KeysOnSide(s, i - 1, pivot, side)
  }

  /** Every selected key is on the selected side. */
  lemma {:induction false} KeysOnSideSide(s: seq<Key>, i: nat, pivot: Key, side: int)
    requires i <= |s|
    ensures forall j | 0 <= j < |KeysOnSide(s, i, pivot, side)| :: Compare(KeysOnSide(s, i, pivot, side)[j], pivot) == side
    decreases i
  {
    if i > 0 {
      KeysOnSideSide(s, i - 1, pivot, side);
      var init, r := KeysOnSide(s, i - 1, pivot, side), KeysOnSide(s, i, pivot, side);
      if Compare(s[i - 1], pivot) == side {
        assert r == init + [s[i - 1]];
        forall j | 0 <= j < |r|
          ensures Compare(r[j], pivot) == side
        {
          if j < |init| {
            assert r[j] == init[j];
          }
        }
      } else {
        assert r == init;
      }
    }
  }

  /** Each key is on exactly one side, so the three selections count every key once. */
  lemma {:induction false} KeysOnSideCount(s: seq<Key>, i: nat, pivot: Key)
    requires i <= |s|
    ensures |KeysOnSide(s, i, pivot, -1)| + |KeysOnSide(s, i, pivot, 0)| + |KeysOnSide(s, i, pivot, 1)| == i
    decreases i
  {
    if i > 0 {
      KeysOnSideCount(s, i - 1, pivot);
    }
  }

  /** A prefix holds the keys of the next shorter prefix and its own last key. */
  lemma PrefixMultiset(s: seq<Key>, i: nat)
    requires 0 < i <= |s|
    ensures multiset(s[..i]) == multiset(s[..i - 1]) + multiset{s[i - 1]}
  {
    assert s[..i] == s[..i - 1] + [s[i - 1]];
  }

  /** The selection for `side` holds every occurrence in s[..i] of a key on that side, and no other key. */
  lemma {:induction false} KeysOnSideOccurrences(s: seq<Key>, i: nat, pivot: Key, side: int, v: Key)
    requires i <= |s|
    ensures multiset(KeysOnSide(s, i, pivot, side))[v] == if Compare(v, pivot) == side then multiset(s[..i])[v] else 0
    decreases i
  {
    if i > 0 {
      KeysOnSideOccurrences(s, i - 1, pivot, side, v);
      PrefixMultiset(s, i);
    } else {
      assert s[..i] == [];
    }
  }

  /** Each key is on exactly one side, so the three selections hold the keys of s[..i]. */
  lemma KeysOnSideMultiset(s: seq<Key>, i: nat, pivot: Key)
    requires i <= |s|
    ensures multiset(KeysOnSide(s, i, pivot, -1)) + multiset(KeysOnSide(s, i, pivot, 0))
          + multiset(KeysOnSide(s, i, pivot, 1)) == multiset(s[..i])
  {
    forall v
      ensures (multiset(KeysOnSide(s, i, pivot, -1)) + multiset(KeysOnSide(s, i, pivot, 0))
               + multiset(KeysOnSide(s, i, pivot, 1)))[v] == multiset(s[..i])[v]
    {
      KeysOnSideOccurrences(s, i, pivot, -1, v);
      KeysOnSideOccurrences(s, i, pivot, 0, v);
      KeysOnSideOccurrences(s, i, pivot, 1, v);
    }
  }

  /** A longer prefix selects at least as many keys. */
  lemma {:induction false} KeysOnSideGrows(s: seq<Key>, i: nat, j: nat, pivot: Key, side: int)
    requires i <= j <= |s|
    ensures |KeysOnSide(s, i, pivot, side)| <= |KeysOnSide(s, j, pivot, side)|
    decreases j
  {
    if i < j {
      KeysOnSideGrows(s, i, j - 1, pivot, side);
    }
  }

  /** The run t[b..e) has been written with exactly the keys `r`. */
  ghost predicate Written(t: seq<Key>, b: nat, e: nat, r: seq<Key>)
  {
    b <= e <= |t| && e - b == |r| && t[b..e] == r
  }

  /**
   * The state of the write loop of `partition` on a[lo..lo+n) after i keys
   * of the copy `s` of the region: the keys less than the pivot among them
   * fill [lo, lo+ilt), the equal ones [lo+nlt, lo+ieq) and the greater ones
   * [lo+nlt+neq, lo+igt), each in their original order; nothing outside the
   * region has changed since `s0`.
   */
  ghost predicate Scattered(s0: seq<Key>, t: seq<Key>, lo: nat, s: seq<Key>, pivot: Key, i: nat,
                            nlt: nat, neq: nat, ilt: nat, ieq: nat, igt: nat)
  {
    && i <= |s| && lo + |s| <= |s0|
    && AgreeOutside(s0, t, lo, lo + |s|)
    && ilt <= nlt && ieq <= nlt + neq && igt <= |s|
    && Written(t, lo, lo + ilt, KeysOnSide(s, i, pivot, -1))
    && Written(t, lo + nlt, lo + ieq, KeysOnSide(s, i, pivot, 0))
    && Written(t, lo + nlt + neq, lo + igt, KeysOnSide(s, i, pivot, 1))
  }

  /** Before the first write, the three runs are empty and sit at the starts of their blocks. */
  lemma ScatterStart(s0: seq<Key>, lo: nat, n: nat, s: seq<Key>, pivot: Key, nlt: nat, neq: nat)
    requires lo + n <= |s0| && s == s0[lo..lo + n] && nlt + neq <= n
    ensures |s| == n
    ensures Scattered(s0, s0, lo, s, pivot, 0, nlt, neq, 0, nlt, nlt + neq)
  {
    assert KeysOnSide(s, 0, pivot, -1) == [];
    assert KeysOnSide(s, 0, pivot, 0) == [];
    assert KeysOnSide(s, 0, pivot, 1) == [];
  }

  /** Writing `x` just past a written run extends the run by `x`. */
  lemma WrittenAppend(t: seq<Key>, u: seq<Key>, b: nat, e: nat, r: seq<Key>, x: Key)
    requires Written(t, b, e, r) && e < |t| && u == t[e := x]
    ensures Written(u, b, e + 1, r + [x])
  {
    assert u[b..e + 1] == t[b..e] + [x];
  }

  /** Writing outside a written run leaves the run as it was. */
  lemma WrittenFrame(t: seq<Key>, u: seq<Key>, b: nat, e: nat, r: seq<Key>, w: nat, x: Key)
    requires Written(t, b, e, r) && w < |t| && u == t[w := x]
    requires w < b || e <= w
    ensures Written(u, b, e, r)
  {
    assert u[b..e] == t[b..e];
  }

  /** Writing inside [lo, hi) keeps every position outside it. */
  lemma AgreeOutsideWrite(s0: seq<Key>, t: seq<Key>, u: seq<Key>, lo: nat, hi: nat, w: nat, x: Key)
    requires AgreeOutside(s0, t, lo, hi) && lo <= w < hi && w < |t| && u == t[w := x]
    ensures AgreeOutside(s0, u, lo, hi)
  {
  }

  /** The slot the next key of the scan goes to is still inside its block. */
  lemma ScatterRoom(s0: seq<Key>, t: seq<Key>, lo: nat, s: seq<Key>, pivot: Key, i: nat,
                    nlt: nat, neq: nat, ilt: nat, ieq: nat, igt: nat)
    requires Scattered(s0, t, lo, s, pivot, i, nlt, neq, ilt, ieq, igt) && i < |s|
    requires nlt == |KeysOnSide(s, |s|, pivot, -1)| && neq == |KeysOnSide(s, |s|, pivot, 0)|
    ensures s[i] < pivot ==> ilt < nlt
    ensures s[i] == pivot ==> ieq < nlt + neq
    ensures s[i] > pivot ==> igt < |s|
  {
    KeysOnSideGrows(s, i + 1, |s|, pivot, -1);
    KeysOnSideGrows(s, i + 1, |s|, pivot, 0);
    KeysOnSideGrows(s, i + 1, |s|, pivot, 1);
    KeysOnSideCount(s, |s|, pivot);
  }

  /** A key less than the pivot goes to the next open slot of the first block. */
  lemma ScatterLess(s0: seq<Key>, t: seq<Key>, u: seq<Key>, lo: nat, s: seq<Key>, pivot: Key, i: nat,
                    nlt: nat, neq: nat, ilt: nat, ieq: nat, igt: nat)
    requires Scattered(s0, t, lo, s, pivot, i, nlt, neq, ilt, ieq, igt) && i < |s|
    requires s[i] < pivot && ilt < nlt && u == t[lo + ilt := s[i]]
    ensures Scattered(s0, u, lo, s, pivot, i + 1, nlt, neq, ilt + 1, ieq, igt)
  {
    WrittenAppend(t, u, lo, lo + ilt, KeysOnSide(s, i, pivot, -1), s[i]);
    WrittenFrame(t, u, lo + nlt, lo + ieq, KeysOnSide(s, i, pivot, 0), lo + ilt, s[i]);
    WrittenFrame(t, u, lo + nlt + neq, lo + igt, KeysOnSide(s, i, pivot, 1), lo + ilt, s[i]);
    AgreeOutsideWrite(s0, t, u, lo, lo + |s|, lo + ilt, s[i]);
  }

  /** A key equal to the pivot goes to the next open slot of the middle block. */
  lemma ScatterEqual(s0: seq<Key>, t: seq<Key>, u: seq<Key>, lo: nat, s: seq<Key>, pivot: Key, i: nat,
                     nlt: nat, neq: nat, ilt: nat, ieq: nat, igt: nat)
    requires Scattered(s0, t, lo, s, pivot, i, nlt, neq, ilt, ieq, igt) && i < |s|
    requires s[i] == pivot && ieq < nlt + neq && u == t[lo + ieq := s[i]]
    ensures Scattered(s0, u, lo, s, pivot, i + 1, nlt, neq, ilt, ieq + 1, igt)
  {
    WrittenFrame(t, u, lo, lo + ilt, KeysOnSide(s, i, pivot, -1), lo + ieq, s[i]);
    WrittenAppend(t, u, lo + nlt, lo + ieq, KeysOnSide(s, i, pivot, 0), s[i]);
    WrittenFrame(t, u, lo + nlt + neq, lo + igt, KeysOnSide(s, i, pivot, 1), lo + ieq, s[i]);
    AgreeOutsideWrite(s0, t, u, lo, lo + |s|, lo + ieq, s[i]);
  }

  /** A key greater than the pivot goes to the next open slot of the last block. */
  lemma ScatterGreater(s0: seq<Key>, t: seq<Key>, u: seq<Key>, lo: nat, s: seq<Key>, pivot: Key, i: nat,
                       nlt: nat, neq: nat, ilt: nat, ieq: nat, igt: nat)
    requires Scattered(s0, t, lo, s, pivot, i, nlt, neq, ilt, ieq, igt) && i < |s|
    requires s[i] > pivot && igt < |s| && u == t[lo + igt := s[i]]
    ensures Scattered(s0, u, lo, s, pivot, i + 1, nlt, neq, ilt, ieq, igt + 1)
  {
    WrittenFrame(t, u, lo, lo + ilt, KeysOnSide(s, i, pivot, -1), lo + igt, s[i]);
    WrittenFrame(t, u, lo + nlt, lo + ieq, KeysOnSide(s, i, pivot, 0), lo + igt, s[i]);
    WrittenAppend(t, u, lo + nlt + neq, lo + igt, KeysOnSide(s, i, pivot, 1), s[i]);
    AgreeOutsideWrite(s0, t, u, lo, lo + |s|, lo + igt, s[i]);
  }

  /**
   * One step of the write loop: key i of the scan has been written to the
   * next open slot of its block, whose index moved on by one.
   */
  lemma ScatterStep(s0: seq<Key>, t: seq<Key>, u: seq<Key>, lo: nat, s: seq<Key>, pivot: Key, i: nat,
                    nlt: nat, neq: nat, ilt: nat, ieq: nat, igt: nat, ilt': nat, ieq': nat, igt': nat)
    requires Scattered(s0, t, lo, s, pivot, i, nlt, neq, ilt, ieq, igt) && i < |s|
    requires s[i] < pivot ==> ilt < nlt && u == t[lo + ilt := s[i]] && ilt' == ilt + 1 && ieq' == ieq && igt' == igt
    requires s[i] == pivot ==> ieq < nlt + neq && u == t[lo + ieq := s[i]] && ilt' == ilt && ieq' == ieq + 1 && igt' == igt
    requires s[i] > pivot ==> igt < |s| && u == t[lo + igt := s[i]] && ilt' == ilt && ieq' == ieq && igt' == igt + 1
    ensures Scattered(s0, u, lo, s, pivot, i + 1, nlt, neq, ilt', ieq', igt')
  {
    if s[i] < pivot {
      ScatterLess(s0, t, u, lo, s, pivot, i, nlt, neq, ilt, ieq, igt);
    } else if s[i] > pivot {
      ScatterGreater(s0, t, u, lo, s, pivot, i, nlt, neq, ilt, ieq, igt);
    } else {
      ScatterEqual(s0, t, u, lo, s, pivot, i, nlt, neq, ilt, ieq, igt);
    }
  }

  /** When the scan is complete each open-slot index stands at the end of its block. */
  lemma ScatterEnds(s0: seq<Key>, t: seq<Key>, lo: nat, s: seq<Key>, pivot: Key,
                    nlt: nat, neq: nat, ilt: nat, ieq: nat, igt: nat)
    requires Scattered(s0, t, lo, s, pivot, |s|, nlt, neq, ilt, ieq, igt)
    requires nlt == |KeysOnSide(s, |s|, pivot, -1)| && neq == |KeysOnSide(s, |s|, pivot, 0)|
    ensures ilt == nlt && ieq == nlt + neq && igt == |s|
  {
    KeysOnSideCount(s, |s|, pivot);
  }

  /** When the scan is complete the three blocks hold the three selections. */
  lemma ScatterDone(s0: seq<Key>, t: seq<Key>, lo: nat, s: seq<Key>, pivot: Key,
                    nlt: nat, neq: nat, ilt: nat, ieq: nat, igt: nat)
    requires Scattered(s0, t, lo, s, pivot, |s|, nlt, neq, ilt, ieq, igt)
    requires nlt == |KeysOnSide(s, |s|, pivot, -1)| && neq == |KeysOnSide(s, |s|, pivot, 0)|
    ensures ilt == nlt && ieq == nlt + neq && igt == |s|
    ensures t[lo..lo + nlt] == KeysOnSide(s, |s|, pivot, -1)
    ensures t[lo + nlt..lo + nlt + neq] == KeysOnSide(s, |s|, pivot, 0)
    ensures t[lo + nlt + neq..lo + |s|] == KeysOnSide(s, |s|, pivot, 1)
    ensures AgreeOutside(s0, t, lo, lo + |s|)
  {
    ScatterEnds(s0, t, lo, s, pivot, nlt, neq, ilt, ieq, igt);
  }

  /** A run holding the keys selected for one side is a band of that side. */
  lemma BandOfSide(t: seq<Key>, b: nat, e: nat, s: seq<Key>, i: nat, pivot: Key, side: int)
    requires i <= |s| && b <= e <= |t| && t[b..e] == KeysOnSide(s, i, pivot, side)
    ensures Band(t, b, e, pivot, side)
  {
    KeysOnSideSide(s, i, pivot, side);
    forall j | b <= j < e
      ensures Compare(t[j], pivot) == side
    {
      assert t[j] == KeysOnSide(s, i, pivot, side)[j - b];
    }
  }

  /** The stable layout of the region is a three-way partition of it. */
  lemma StablePartitioned(s: seq<Key>, t: seq<Key>, lo: nat, n: nat, pivot: Key, nlt: nat, neq: nat)
    requires |s| == n && nlt + neq <= n && lo + n <= |t|
    requires t[lo..lo + nlt] == KeysOnSide(s, n, pivot, -1)
    requires t[lo + nlt..lo + nlt + neq] == KeysOnSide(s, n, pivot, 0)
    requires t[lo + nlt + neq..lo + n] == KeysOnSide(s, n, pivot, 1)
    ensures Partitioned(t, lo, lo + n, pivot, nlt, neq)
  {
    BandOfSide(t, lo, lo + nlt, s, n, pivot, -1);
    BandOfSide(t, lo + nlt, lo + nlt + neq, s, n, pivot, 0);
    BandOfSide(t, lo + nlt + neq, lo + n, s, n, pivot, 1);
  }

  /** The three selections laid out one after another hold the keys of `s`. */
  lemma StableMultiset(t: seq<Key>, lo: nat, n: nat, s: seq<Key>, pivot: Key, nlt: nat, neq: nat)
    requires |s| == n && nlt + neq <= n && lo + n <= |t|
    requires t[lo..lo + nlt] == KeysOnSide(s, n, pivot, -1)
    requires t[lo + nlt..lo + nlt + neq] == KeysOnSide(s, n, pivot, 0)
    requires t[lo + nlt + neq..lo + n] == KeysOnSide(s, n, pivot, 1)
    ensures multiset(t[lo..lo + n]) == multiset(s)
  {
    KeysOnSideMultiset(s, n, pivot);
    assert s[..n] == s;
    assert t[lo..lo + n] == t[lo..lo + nlt] + t[lo + nlt..lo + nlt + neq] + t[lo + nlt + neq..lo + n];
  }

  /** The stable layout of the region holds the region's keys. */
  lemma StablePermuted(s0: seq<Key>, t: seq<Key>, lo: nat, n: nat, pivot: Key, nlt: nat, neq: nat)
    requires lo + n <= |s0| && AgreeOutside(s0, t, lo, lo + n) && nlt + neq <= n
    requires t[lo..lo + nlt] == KeysOnSide(s0[lo..lo + n], n, pivot, -1)
    requires t[lo + nlt..lo + nlt + neq] == KeysOnSide(s0[lo..lo + n], n, pivot, 0)
    requires t[lo + nlt + neq..lo + n] == KeysOnSide(s0[lo..lo + n], n, pivot, 1)
    ensures PermutedIn(s0, t, lo, lo + n)
  {
    StableMultiset(t, lo, n, s0[lo..lo + n], pivot, nlt, neq);
    SliceFrame(s0, t, lo, lo + n, 0, lo);
    SliceFrame(s0, t, lo, lo + n, lo + n, |s0|);
    RegionPermutedIn(s0, t, lo, lo + n);
  }

  /** The first pass of `partition`: counts the keys of a[lo..lo+n) on each side of `pivot`. */
  method CountSides(pivot: Key, a: array<Key>, lo: nat, n: nat) returns (nlt: nat, neq: nat, ngt: nat)
    requires lo + n <= a.Length
    ensures nlt == |KeysOnSide(a[lo..lo + n], n, pivot, -1)|
    ensures neq == |KeysOnSide(a[lo..lo + n], n, pivot, 0)|
    ensures ngt == |KeysOnSide(a[lo..lo + n], n, pivot, 1)|
  {
    ghost var s := a[lo..lo + n];
    nlt, neq, ngt := 0, 0, 0;
    for i := 0 to n
      invariant nlt == |KeysOnSide(s, i, pivot, -1)|
      invariant neq == |KeysOnSide(s, i, pivot, 0)|
      invariant ngt == |KeysOnSide(s, i, pivot, 1)|
    {
      assert a[lo + i] == s[i];
      if a[lo + i] < pivot {
        nlt := nlt + 1;
      } else if a[lo + i] == pivot {
        neq := neq + 1;
      } else {
        ngt := ngt + 1;
      }
    }
  }

  /**
   * One step of the second pass of `partition`: writes the key `ai` of
   * position i to the next open slot of its block and advances that slot.
   */
  method PlaceKey(ghost s0: seq<Key>, ghost s: seq<Key>, ghost i: nat, pivot: Key, a: array<Key>, lo: nat,
                  nlt: nat, neq: nat, ai: Key, ilt: nat, ieq: nat, igt: nat)
    returns (ilt': nat, ieq': nat, igt': nat)
    requires Scattered(s0, a[..], lo, s, pivot, i, nlt, neq, ilt, ieq, igt) && i < |s| && ai == s[i]
    requires nlt == |KeysOnSide(s, |s|, pivot, -1)| && neq == |KeysOnSide(s, |s|, pivot, 0)|
    modifies a
    ensures Scattered(s0, a[..], lo, s, pivot, i + 1, nlt, neq, ilt', ieq', igt')
  {
    ghost var prev := a[..];
    ScatterRoom(s0, prev, lo, s, pivot, i, nlt, neq, ilt, ieq, igt);
    ilt', ieq', igt' := ilt, ieq, igt;
    // the slot of A[i_lt++], A[i_gt++] or A[i_eq++]
    var w: nat;
    if ai < pivot {
      w, ilt' := lo + ilt, ilt + 1;
    } else if ai > pivot {
      w, igt' := lo + igt, igt + 1;
    } else {
      w, ieq' := lo + ieq, ieq + 1;
    }
    a[w] := ai;
    ScatterStep(s0, prev, a[..], lo, s, pivot, i, nlt, neq, ilt, ieq, igt, ilt', ieq', igt');
  }

  /**
   * t[lo..lo+|s|) holds the keys of s less than `pivot`, then those equal to
   * it, then the greater ones (nlt and neq keys in the first two blocks),
   * each block in the order the keys have in s.
   */
  ghost predicate StablySplit(s: seq<Key>, t: seq<Key>, lo: nat, pivot: Key, nlt: nat, neq: nat)
  {
    && lo + nlt + neq <= lo + |s| <= |t|
    && t[lo..lo + nlt] == KeysOnSide(s, |s|, pivot, -1)
    && t[lo + nlt..lo + nlt + neq] == KeysOnSide(s, |s|, pivot, 0)
    && t[lo + nlt + neq..lo + |s|] == KeysOnSide(s, |s|, pivot, 1)
  }

  /**
   * The second pass of `partition`: scans the copy `orig` of a[lo..lo+n)
   * and writes each key to the next open slot of its block, so each block
   * receives its keys in their original order. Returns the final open
   * slots of the three blocks.
   */
  method Scatter(pivot: Key, a: array<Key>, lo: nat, n: nat, orig: array<Key>, nlt: nat, neq: nat)
    returns (ilt: nat, ieq: nat, igt: nat)
    requires lo + n <= a.Length && orig != a && orig[..] == a[lo..lo + n]
    requires nlt == |KeysOnSide(a[lo..lo + n], n, pivot, -1)| && neq == |KeysOnSide(a[lo..lo + n], n, pivot, 0)|
    requires nlt + neq <= n
    modifies a
    ensures Scattered(old(a[..]), a[..], lo, old(a[lo..lo + n]), pivot, n, nlt, neq, ilt, ieq, igt)
  {
    ghost var s0, s := a[..], a[lo..lo + n];
    ScatterStart(s0, lo, n, s, pivot, nlt, neq);
    ilt, ieq, igt := 0, nlt, nlt + neq;
    for i := 0 to n
      invariant Scattered(s0, a[..], lo, s, pivot, i, nlt, neq, ilt, ieq, igt)
      invariant orig[..] == s
    {
      var ai := orig[i];
      assert ai == s[i];
      ilt, ieq, igt := PlaceKey(s0, s, i, pivot, a, lo, nlt, neq, ai, ilt, ieq, igt);
    }
  }

  /**
   * Three-way partition of a[lo..lo+n) around `pivot`, through a copy of the
   * region: the keys less than the pivot come first, then the equal ones,
   * then the greater ones, and each block keeps the relative order its keys
   * had in the region.
   */
  method Partition(pivot: Key, a: array<Key>, lo: nat, n: nat) returns (nlt: nat, neq: nat, ngt: nat)
    requires lo + n <= a.Length
    modifies a
    ensures nlt + neq + ngt == n
    ensures StablySplit(old(a[lo..lo + n]), a[..], lo, pivot, nlt, neq)
    ensures Partitioned(a[..], lo, lo + n, pivot, nlt, neq)
    ensures PermutedIn(old(a[..]), a[..], lo, lo + n)
  {
    nlt, neq, ngt := CountSides(pivot, a, lo, n);
    KeysOnSideCount(a[lo..lo + n], n, pivot);
    var orig := NewCopy(a, lo, n);
    var ilt, ieq, igt := Scatter(pivot, a, lo, n, orig, nlt, neq);
    ScatterDone(old(a[..]), a[..], lo, old(a[lo..lo + n]), pivot, nlt, neq, ilt, ieq, igt);
    // the three checks the source makes after the write loop
    assert ilt == nlt;
    assert ieq == nlt + neq;
    assert igt == n;
    StablePartitioned(old(a[lo..lo + n]), a[..], lo, n, pivot, nlt, neq);
    StablePermuted(old(a[..]), a[..], lo, n, pivot, nlt, neq);
  }

  // ---------------------------------------------------------------------
  // Quicksort

  /** Below this region length the quicksort and the mergesort call the baseline sort. */
  const SortGrain: nat := 100

  /** Sorts the region a[lo..lo+n) in place. */
  method QuickSort(a: array<Key>, lo: nat, n: nat)
    requires lo + n <= a.Length
    modifies a
    ensures Sorted(a[lo..lo + n])
    ensures PermutedIn(old(a[..]), a[..], lo, lo + n)
    decreases n
  {
    if n < SortGrain {
      SequentialSort(a, lo, n);
      return;
    }
    // the source draws the pivot position as rand() % N
    var r :| 0 <= r < n;
    var pivot := a[lo + r];
    var nlt, neq, ngt := Partition(pivot, a, lo, n);
    PivotInEqualBlock(old(a[..]), a[..], lo, n, r, nlt, neq);
    ghost var s1 := a[..];
    QuickSort(a, lo, nlt);
    ghost var s2 := a[..];
    QuickSort(a, lo + nlt + neq, ngt);
    SortedAfterRecursion(old(a[..]), s1, s2, a[..], lo, n, pivot, nlt, neq, ngt);
  }

  // ---------------------------------------------------------------------
  // Merge and mergesort

  /**
   * The merge of two runs: repeatedly the smaller head goes first, and on a
   * tie the head of `xs` does.
   */
  function MergeRuns(xs: seq<Key>, ys: seq<Key>): (r: seq<Key>)
    ensures |r| == |xs| + |ys|
    decreases |xs| + |ys|
  {
    if xs == [] then ys
    else if ys == [] then xs
    else if xs[0] <= ys[0] then [xs[0]] + MergeRuns(xs[1..], ys)
    else [ys[0]] + MergeRuns(xs, ys[1..])
  }

  /** A non-empty sequence holds its head and the keys of its tail. */
  lemma HeadMultiset(s: seq<Key>)
    requires s != []
    ensures multiset(s) == multiset{s[0]} + multiset(s[1..])
  {
    assert s == [s[0]] + s[1..];
  }

  /** The merge holds exactly the keys of both runs. */
  lemma {:induction false} MergeRunsMultiset(xs: seq<Key>, ys: seq<Key>)
    ensures multiset(MergeRuns(xs, ys)) == multiset(xs) + multiset(ys)
    decreases |xs| + |ys|
  {
    if xs != [] && ys != [] {
      if xs[0] <= ys[0] {
        MergeRunsMultiset(xs[1..], ys);
        HeadMultiset(xs);
      } else {
        MergeRunsMultiset(xs, ys[1..]);
        HeadMultiset(ys);
      }
    }
  }

  /** The first key of a merge is the first key of one of the runs. */
  lemma MergeRunsHead(xs: seq<Key>, ys: seq<Key>)
    requires xs != [] || ys != []
    ensures var r := MergeRuns(xs, ys); (xs != [] && r[0] == xs[0]) || (ys != [] && r[0] == ys[0])
  {
  }

  /** The merge of two sorted runs is sorted. */
  lemma {:induction false} MergeRunsSorted(xs: seq<Key>, ys: seq<Key>)
    requires Sorted(xs) && Sorted(ys)
    ensures Sorted(MergeRuns(xs, ys))
    decreases |xs| + |ys|
  {
    if xs != [] && ys != [] {
      if xs[0] <= ys[0] {
        var rest := MergeRuns(xs[1..], ys);
        MergeRunsSorted(xs[1..], ys);
        MergeRunsHead(xs[1..], ys);
        SortedCons(xs[0], rest);
      } else {
        var rest := MergeRuns(xs, ys[1..]);
        MergeRunsSorted(xs, ys[1..]);
        MergeRunsHead(xs, ys[1..]);
        SortedCons(ys[0], rest);
      }
    }
  }

  /** The head of xs[i..] goes first when it is not greater than the head of ys[j..]. */
  lemma MergeRunsTakeX(xs: seq<Key>, ys: seq<Key>, i: nat, j: nat)
    requires i < |xs| && j < |ys| && xs[i] <= ys[j]
    ensures MergeRuns(xs[i..], ys[j..]) == [xs[i]] + MergeRuns(xs[i + 1..], ys[j..])
  {
    assert xs[i..][1..] == xs[i + 1..];
  }

  /** The head of ys[j..] goes first when it is less than the head of xs[i..]. */
  lemma MergeRunsTakeY(xs: seq<Key>, ys: seq<Key>, i: nat, j: nat)
    requires i < |xs| && j < |ys| && xs[i] > ys[j]
    ensures MergeRuns(xs[i..], ys[j..]) == [ys[j]] + MergeRuns(xs[i..], ys[j + 1..])
  {
    assert ys[j..][1..] == ys[j + 1..];
  }

  /**
   * The state of the merge loop after ix keys of `xs` and iy keys of `ys`
   * have been written: t[clo..clo+ix+iy) holds `out`, and `out` followed by
   * the merge of what is left of the runs is the merge of the whole runs;
   * nothing outside the output region has changed since `c0`.
   */
  ghost predicate Merging(c0: seq<Key>, t: seq<Key>, clo: nat, xs: seq<Key>, ys: seq<Key>,
                          ix: nat, iy: nat, out: seq<Key>)
  {
    && ix <= |xs| && iy <= |ys| && clo + |xs| + |ys| <= |c0|
    && Written(t, clo, clo + ix + iy, out)
    && out + MergeRuns(xs[ix..], ys[iy..]) == MergeRuns(xs, ys)
    && AgreeOutside(c0, t, clo, clo + |xs| + |ys|)
  }

  /** The head of `xs` is not greater than the head of `ys`, so it is written next. */
  lemma MergeTakeX(c0: seq<Key>, t: seq<Key>, u: seq<Key>, clo: nat, xs: seq<Key>, ys: seq<Key>,
                   ix: nat, iy: nat, out: seq<Key>)
    requires Merging(c0, t, clo, xs, ys, ix, iy, out) && ix < |xs| && iy < |ys|
    requires xs[ix] <= ys[iy] && u == t[clo + ix + iy := xs[ix]]
    ensures Merging(c0, u, clo, xs, ys, ix + 1, iy, out + [xs[ix]])
  {
    MergeRunsTakeX(xs, ys, ix, iy);
    assert (out + [xs[ix]]) + MergeRuns(xs[ix + 1..], ys[iy..]) == out + MergeRuns(xs[ix..], ys[iy..]);
    WrittenAppend(t, u, clo, clo + ix + iy, out, xs[ix]);
    AgreeOutsideWrite(c0, t, u, clo, clo + |xs| + |ys|, clo + ix + iy, xs[ix]);
  }

  /** The head of `ys` is less than the head of `xs`, so it is written next. */
  lemma MergeTakeY(c0: seq<Key>, t: seq<Key>, u: seq<Key>, clo: nat, xs: seq<Key>, ys: seq<Key>,
                   ix: nat, iy: nat, out: seq<Key>)
    requires Merging(c0, t, clo, xs, ys, ix, iy, out) && ix < |xs| && iy < |ys|
    requires xs[ix] > ys[iy] && u == t[clo + ix + iy := ys[iy]]
    ensures Merging(c0, u, clo, xs, ys, ix, iy + 1, out + [ys[iy]])
  {
    MergeRunsTakeY(xs, ys, ix, iy);
    assert (out + [ys[iy]]) + MergeRuns(xs[ix..], ys[iy + 1..]) == out + MergeRuns(xs[ix..], ys[iy..]);
    WrittenAppend(t, u, clo, clo + ix + iy, out, ys[iy]);
    AgreeOutsideWrite(c0, t, u, clo, clo + |xs| + |ys|, clo + ix + iy, ys[iy]);
  }

  /** Once one run is used up, the merge of what is left is the other run. */
  lemma MergeRunsRest(xs: seq<Key>, ys: seq<Key>)
    requires xs == [] || ys == []
    ensures MergeRuns(xs, ys) == xs + ys
  {
  }

  /** A written run followed by a copied block of `rest` is the run `out + rest`. */
  lemma WrittenCopy(t: seq<Key>, u: seq<Key>, b: nat, m: nat, e: nat, out: seq<Key>, rest: seq<Key>)
    requires Written(t, b, m, out) && m <= e <= |u| && |u| == |t|
    requires u[..m] == t[..m] && u[m..e] == rest
    ensures u[b..e] == out + rest
  {
    assert u[b..m] == t[..m][b..m];
    assert u[b..e] == u[b..m] + u[m..e];
  }

  /** Changing only [m, e) inside [lo, hi) keeps every position outside [lo, hi). */
  lemma AgreeOutsideCopy(c0: seq<Key>, t: seq<Key>, u: seq<Key>, lo: nat, hi: nat, m: nat, e: nat)
    requires AgreeOutside(c0, t, lo, hi) && lo <= m <= e <= hi <= |t| == |u|
    requires u[..m] == t[..m] && u[e..] == t[e..]
    ensures AgreeOutside(c0, u, lo, hi)
  {
    forall j | 0 <= j < |c0| && !(lo <= j < hi)
      ensures u[j] == c0[j]
    {
      if j < lo {
        assert u[j] == u[..m][j];
      } else {
        assert u[j] == u[e..][j - e];
      }
    }
  }

  /**
   * Once one run is used up, copying the rest of the other one after what
   * has been written completes the merge.
   */
  lemma MergeTail(c0: seq<Key>, t: seq<Key>, u: seq<Key>, clo: nat, xs: seq<Key>, ys: seq<Key>,
                  ix: nat, iy: nat, out: seq<Key>, m: nat, rest: seq<Key>)
    requires Merging(c0, t, clo, xs, ys, ix, iy, out) && m == clo + ix + iy
    requires rest == MergeRuns(xs[ix..], ys[iy..])
    requires |u| == |t| && u[..m] == t[..m] && u[m..m + |rest|] == rest
    requires u[m + |rest|..] == t[m + |rest|..]
    ensures u[clo..clo + |xs| + |ys|] == MergeRuns(xs, ys)
    ensures AgreeOutside(c0, u, clo, clo + |xs| + |ys|)
  {
    WrittenCopy(t, u, clo, m, m + |rest|, out, rest);
    AgreeOutsideCopy(c0, t, u, clo, clo + |xs| + |ys|, m, m + |rest|);
  }

  /**
   * The main loop of `merge`: while both runs have keys left, writes the
   * smaller head (the head of x on a tie) to the next output slot. Stops
   * when one run is used up, with the keys written so far a prefix of the
   * merge.
   */
  method MergeHeads(c: array<Key>, clo: nat, nx: nat, x: array<Key>, xlo: nat, ny: nat, y: array<Key>, ylo: nat)
    returns (ix: nat, iy: nat, ghost out: seq<Key>)
    requires clo + nx + ny <= c.Length && xlo + nx <= x.Length && ylo + ny <= y.Length
    requires c != x && c != y
    modifies c
    ensures Merging(old(c[..]), c[..], clo, old(x[xlo..xlo + nx]), old(y[ylo..ylo + ny]), ix, iy, out)
    ensures ix == nx || iy == ny
  {
    ghost var xs, ys := x[xlo..xlo + nx], y[ylo..ylo + ny];
    ghost var c0 := c[..];
    out := [];
    ix, iy := 0, 0;
    var ic := 0;
    while ix < nx && iy < ny
      invariant ic == ix + iy
      invariant Merging(c0, c[..], clo, xs, ys, ix, iy, out)
      decreases nx + ny - ic
    {
      ghost var prev := c[..];
      var xv, yv := x[xlo + ix], y[ylo + iy];
      assert xv == xs[ix] && yv == ys[iy];
      if xv <= yv {
        c[clo + ic] := xv;
        MergeTakeX(c0, prev, c[..], clo, xs, ys, ix, iy, out);
        out := out + [xv];
        ix := ix + 1;
      } else {
        c[clo + ic] := yv;
        MergeTakeY(c0, prev, c[..], clo, xs, ys, ix, iy, out);
        out := out + [yv];
        iy := iy + 1;
      }
      ic := ic + 1;
    }
  }

  /**
   * The merge is complete: t[clo..clo+|xs|+|ys|) holds the merge of the two
   * runs, and nothing outside it has changed since `c0`.
   */
  ghost predicate MergeComplete(c0: seq<Key>, t: seq<Key>, clo: nat, xs: seq<Key>, ys: seq<Key>)
  {
    && clo + |xs| + |ys| <= |t|
    && t[clo..clo + |xs| + |ys|] == MergeRuns(xs, ys)
    && AgreeOutside(c0, t, clo, clo + |xs| + |ys|)
  }

  /**
   * Copies the block src[slo..slo+n), which is what is left of the merge,
   * behind the keys already written: one `memcpy` of the tail of `merge`.
   */
  method CopyRest(ghost c0: seq<Key>, c: array<Key>, clo: nat, chi: nat, ghost xs: seq<Key>, ghost ys: seq<Key>,
                  ix: nat, iy: nat, ghost out: seq<Key>, src: array<Key>, slo: nat, n: nat)
    requires chi == clo + |xs| + |ys| <= c.Length && slo + n <= src.Length && c != src
    requires Merging(c0, c[..], clo, xs, ys, ix, iy, out)
    requires src[slo..slo + n] == MergeRuns(xs[ix..], ys[iy..])
    modifies c
    ensures MergeComplete(c0, c[..], clo, xs, ys)
  {
    ghost var t := c[..];
    var rest := src[slo..slo + n];
    CopyInto(c, clo + ix + iy, n, rest);
    MergeTail(c0, t, c[..], clo, xs, ys, ix, iy, out, clo + ix + iy, rest);
  }

  /** A slice of a slice is a slice. */
  lemma SliceOfSlice(s: seq<Key>, lo: nat, hi: nat, i: nat)
    requires lo + i <= hi <= |s|
    ensures s[lo..hi][i..] == s[lo + i..hi]
  {
  }

  /** When both runs are used up, what was written is the whole merge. */
  lemma MergeDone(c0: seq<Key>, t: seq<Key>, clo: nat, chi: nat, xs: seq<Key>, ys: seq<Key>, out: seq<Key>)
    requires Merging(c0, t, clo, xs, ys, |xs|, |ys|, out) && chi == clo + |xs| + |ys| <= |t|
    ensures MergeComplete(c0, t, clo, xs, ys)
  {
    assert xs[|xs|..] == [] && ys[|ys|..] == [];
  }

  /**
   * The tail of `merge`: once one run is used up, the rest of the other run
   * is copied as a block behind the keys already written.
   */
  method MergeRest(ghost c0: seq<Key>, c: array<Key>, clo: nat, nx: nat, x: array<Key>, xlo: nat,
                   ny: nat, y: array<Key>, ylo: nat, ix: nat, iy: nat, ghost xs: seq<Key>, ghost ys: seq<Key>,
                   ghost out: seq<Key>)
    requires clo + nx + ny <= c.Length && xlo + nx <= x.Length && ylo + ny <= y.Length
    requires c != x && c != y && xs == x[xlo..xlo + nx] && ys == y[ylo..ylo + ny]
    requires Merging(c0, c[..], clo, xs, ys, ix, iy, out)
    requires ix == nx || iy == ny
    modifies c
    ensures MergeComplete(c0, c[..], clo, xs, ys)
  {
    MergeRunsRest(xs[ix..], ys[iy..]);
    if ix < nx {
      SliceOfSlice(x[..], xlo, xlo + nx, ix);
      CopyRest(c0, c, clo, clo + nx + ny, xs, ys, ix, iy, out, x, xlo + ix, nx - ix);
    } else if iy < ny {
      SliceOfSlice(y[..], ylo, ylo + ny, iy);
      CopyRest(c0, c, clo, clo + nx + ny, xs, ys, ix, iy, out, y, ylo + iy, ny - iy);
    } else {
      MergeDone(c0, c[..], clo, clo + nx + ny, xs, ys, out);
    }
  }

  /**
   * Merges the sorted runs x[xlo..xlo+nx) and y[ylo..ylo+ny) into
   * c[clo..clo+nx+ny). The runs may lie in the same array; the output may
   * not overlap them. Once one run is used up the rest of the other is
   * copied as a block.
   */
  method Merge(c: array<Key>, clo: nat, nx: nat, x: array<Key>, xlo: nat, ny: nat, y: array<Key>, ylo: nat)
    requires clo + nx + ny <= c.Length && xlo + nx <= x.Length && ylo + ny <= y.Length
    requires c != x && c != y
    modifies c
    ensures MergeComplete(old(c[..]), c[..], clo, old(x[xlo..xlo + nx]), old(y[ylo..ylo + ny]))
  {
    ghost var c0 := c[..];
    ghost var xs, ys := x[xlo..xlo + nx], y[ylo..ylo + ny];
    var ix, iy, out := MergeHeads(c, clo, nx, x, xlo, ny, y, ylo);
    MergeRest(c0, c, clo, nx, x, xlo, ny, y, ylo, ix, iy, xs, ys, out);
  }

  /** A sequence holds the keys of its two parts on either side of k. */
  lemma SplitMultiset(s: seq<Key>, k: nat)
    requires k <= |s|
    ensures multiset(s) == multiset(s[..k]) + multiset(s[k..])
  {
    assert s == s[..k] + s[k..];
  }

  /**
   * Sorting the two halves of `s` in turn, each in place, leaves both halves
   * sorted and the keys of `s` unchanged as a whole.
   */
  lemma HalvesSorted(s: seq<Key>, t1: seq<Key>, t2: seq<Key>, half: nat)
    requires half <= |s|
    requires PermutedIn(s, t1, 0, half) && Sorted(t1[0..half])
    requires PermutedIn(t1, t2, half, |s|) && Sorted(t2[half..|s|])
    ensures Sorted(t2[..half]) && Sorted(t2[half..])
    ensures multiset(t2) == multiset(s)
  {
    SliceFrame(t1, t2, half, |s|, 0, half);
    assert t2[..half] == t2[0..half] && t2[half..] == t2[half..|s|];
  }

  /**
   * The mergesort step on values, first half: the merge of the two sorted
   * halves of t, written over u[lo..lo+|t|), leaves that region sorted.
   */
  lemma MergeSortSorted(s0: seq<Key>, t: seq<Key>, u: seq<Key>, lo: nat, half: nat)
    requires half <= |t|
    requires Sorted(t[..half]) && Sorted(t[half..])
    requires MergeComplete(s0, u, lo, t[..half], t[half..])
    ensures lo + |t| <= |u| && Sorted(u[lo..lo + |t|])
  {
    var xs, ys := t[..half], t[half..];
    assert lo + |xs| + |ys| == lo + |t|;
    MergeRunsSorted(xs, ys);
  }

  /** The merge of the two halves of t, written over u[lo..lo+|t|), holds the keys of t. */
  lemma MergedRegionKeys(s0: seq<Key>, t: seq<Key>, u: seq<Key>, lo: nat, half: nat)
    requires half <= |t|
    requires MergeComplete(s0, u, lo, t[..half], t[half..])
    ensures lo + |t| <= |u| && multiset(u[lo..lo + |t|]) == multiset(t)
  {
    var xs, ys := t[..half], t[half..];
    assert lo + |xs| + |ys| == lo + |t|;
    MergeRunsMultiset(xs, ys);
    SplitMultiset(t, half);
  }

  /** Changing only [lo, hi), and keeping the keys there, is a permutation inside [lo, hi). */
  lemma AgreeOutsidePermuted(s0: seq<Key>, u: seq<Key>, lo: nat, hi: nat)
    requires lo <= hi <= |s0| && AgreeOutside(s0, u, lo, hi)
    requires multiset(u[lo..hi]) == multiset(s0[lo..hi])
    ensures PermutedIn(s0, u, lo, hi)
  {
    SliceFrame(s0, u, lo, hi, 0, lo);
    SliceFrame(s0, u, lo, hi, hi, |s0|);
    assert u[..lo] == u[0..lo] && s0[..lo] == s0[0..lo];
    assert u[hi..] == u[hi..|s0|] && s0[hi..] == s0[hi..|s0|];
    RegionPermutedIn(s0, u, lo, hi);
  }

  /**
   * The mergesort step on values, second half: when t holds the keys of
   * s0[lo..lo+|t|), writing the merge of its halves over that region, and
   * nowhere else, leaves a permutation of s0.
   */
  lemma MergeSortPermuted(s0: seq<Key>, t: seq<Key>, u: seq<Key>, lo: nat, half: nat)
    requires half <= |t| && lo + |t| <= |s0|
    requires multiset(t) == multiset(s0[lo..lo + |t|])
    requires MergeComplete(s0, u, lo, t[..half], t[half..])
    ensures PermutedIn(s0, u, lo, lo + |t|)
  {
    MergedRegionKeys(s0, t, u, lo, half);
    assert lo + |t[..half]| + |t[half..]| == lo + |t|;
    AgreeOutsidePermuted(s0, u, lo, lo + |t|);
  }

  /**
   * The two recursive calls of `mergeSort` on the scratch copy: sorts
   * tmp[..half) and then tmp[half..) in place.
   */
  method SortHalves(tmp: array<Key>, half: nat)
    requires 0 < half < tmp.Length
    modifies tmp
    ensures Sorted(tmp[..half]) && Sorted(tmp[half..])
    ensures multiset(tmp[..]) == multiset(old(tmp[..]))
    decreases tmp.Length, 0
  {
    ghost var s := tmp[..];
    MergeSort(tmp, 0, half);
    ghost var t1 := tmp[..];
    MergeSort(tmp, half, tmp.Length - half);
    HalvesSorted(s, t1, tmp[..], half);
  }

  /**
   * The last step of `mergeSort`: merges the two sorted halves of the
   * scratch copy, which holds the region's keys, back over a[lo..lo+n).
   */
  method MergeHalves(a: array<Key>, lo: nat, n: nat, tmp: array<Key>, half: nat)
    requires lo + n <= a.Length && tmp != a && tmp.Length == n && half <= n
    requires Sorted(tmp[..half]) && Sorted(tmp[half..])
    requires multiset(tmp[..]) == multiset(a[lo..lo + n])
    modifies a
    ensures Sorted(a[lo..lo + n])
    ensures PermutedIn(old(a[..]), a[..], lo, lo + n)
  {
    ghost var s0, t := a[..], tmp[..];
    assert a[lo..lo + n] == s0[lo..lo + |t|];
    assert tmp[0..0 + half] == t[..half] && tmp[half..half + (n - half)] == t[half..];
    Merge(a, lo, half, tmp, 0, n - half, tmp, half);
    MergeSortSorted(s0, t, a[..], lo, half);
    MergeSortPermuted(s0, t, a[..], lo, half);
  }

  /** Sorts the region a[lo..lo+n) through a scratch copy. */
  method MergeSort(a: array<Key>, lo: nat, n: nat)
    requires lo + n <= a.Length
    modifies a
    ensures Sorted(a[lo..lo + n])
    ensures PermutedIn(old(a[..]), a[..], lo, lo + n)
    decreases n, 1
  {
    if n < SortGrain {
      SequentialSort(a, lo, n);
      return;
    }
    var tmp := NewCopy(a, lo, n);
    var half := n / 2;
    SortHalves(tmp, half);
    MergeHalves(a, lo, n, tmp, half);
  }

  // ---------------------------------------------------------------------
  // The result checkers

  /** Every adjacent pair in order is the same as every pair in order. */
  lemma {:induction false} AdjacentSorted(s: seq<Key>)
    ensures Sorted(s) <==> forall i | 0 < i < |s| :: s[i - 1] <= s[i]
    decreases |s|
  {
    if |s| > 1 && forall i | 0 < i < |s| :: s[i - 1] <= s[i] {
      var rest := s[1..];
      forall i | 0 < i < |rest|
        ensures rest[i - 1] <= rest[i]
      {
        assert rest[i - 1] == s[i] && rest[i] == s[i + 1];
      }
      AdjacentSorted(rest);
      assert s == [s[0]] + rest;
      SortedCons(s[0], rest);
    }
  }

  /**
   * Checks that a[..n] is sorted; the source stops the program at the first
   * pair out of order, which here is a `false` result.
   */
  method AssertIsSorted(n: nat, a: array<Key>) returns (ok: bool)
    requires n <= a.Length
    ensures ok <==> Sorted(a[..n])
  {
    AdjacentSorted(a[..n]);
    var i := 1;
    while i < n
      invariant 1 <= i && (n > 0 ==> i <= n)
      invariant forall j | 0 < j < i && j < n :: a[j - 1] <= a[j]
    {
      if a[i - 1] > a[i] {
        return false;
      }
      i := i + 1;
    }
    return true;
  }

  /**
   * Checks that a[..n] and b[..n] hold the same keys at the same places; the
   * source stops the program at the first mismatch, which here is a `false`
   * result.
   */
  method AssertEqual(n: nat, a: array<Key>, b: array<Key>) returns (ok: bool)
    requires n <= a.Length && n <= b.Length
    ensures ok <==> a[..n] == b[..n]
  {
    for i := 0 to n
      invariant a[..i] == b[..i]
    {
      if a[i] != b[i] {
        assert a[..n][i] != b[..n][i];
        return false;
      }
    }
    return true;
  }
}
