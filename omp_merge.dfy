/**
 * The `merge` routine of the OpenMP mergesort: it merges the run
 * left[start..start+mid) with the run right[start+mid..end) into a newly
 * allocated array of end - start keys. On a tie the key of the left run goes
 * first, since the right key is taken only when it is strictly smaller.
 * The merge it computes is `MergeRuns`, the same merge as the one of the
 * first lab, so the sortedness and permutation facts proved there carry over.
 */
module OmpMerge {
  import opened Keys
  import opened Lab1Sort

  /**
   * The state of the main loop: `out` (the first lx + ry keys of the new
   * array) followed by the merge of what is left of the runs is the merge of
   * the whole runs.
   */
  ghost predicate Filled(xs: seq<Key>, ys: seq<Key>, t: seq<Key>, lx: nat, ry: nat, out: seq<Key>)
  {
    && lx <= |xs| && ry <= |ys| && lx + ry <= |t|
    && t[..lx + ry] == out
    && out + MergeRuns(xs[lx..], ys[ry..]) == MergeRuns(xs, ys)
  }

  /** Writing `x` at position |out| extends the written prefix by `x`. */
  lemma PrefixWrite(t: seq<Key>, u: seq<Key>, out: seq<Key>, x: Key)
    requires |out| < |t| && t[..|out|] == out && u == t[|out| := x]
    ensures u[..|out| + 1] == out + [x]
  {
    assert u[..|out| + 1] == u[..|out|] + [x];
  }

  /** The key of the left run is not greater, so it is written next. */
  lemma FillLeft(xs: seq<Key>, ys: seq<Key>, t: seq<Key>, u: seq<Key>, lx: nat, ry: nat, out: seq<Key>)
    requires Filled(xs, ys, t, lx, ry, out) && lx < |xs| && ry < |ys| && lx + ry < |t|
    requires xs[lx] <= ys[ry] && u == t[lx + ry := xs[lx]]
    ensures Filled(xs, ys, u, lx + 1, ry, out + [xs[lx]])
  {
    MergeRunsTakeX(xs, ys, lx, ry);
    PrefixWrite(t, u, out, xs[lx]);
    assert (out + [xs[lx]]) + MergeRuns(xs[lx + 1..], ys[ry..]) == out + MergeRuns(xs[lx..], ys[ry..]);
  }

  /** The key of the right run is smaller, so it is written next. */
  lemma FillRight(xs: seq<Key>, ys: seq<Key>, t: seq<Key>, u: seq<Key>, lx: nat, ry: nat, out: seq<Key>)
    requires Filled(xs, ys, t, lx, ry, out) && lx < |xs| && ry < |ys| && lx + ry < |t|
    requires xs[lx] > ys[ry] && u == t[lx + ry := ys[ry]]
    ensures Filled(xs, ys, u, lx, ry + 1, out + [ys[ry]])
  {
    MergeRunsTakeY(xs, ys, lx, ry);
    PrefixWrite(t, u, out, ys[ry]);
    assert (out + [ys[ry]]) + MergeRuns(xs[lx..], ys[ry + 1..]) == out + MergeRuns(xs[lx..], ys[ry..]);
  }

  /**
   * After the main loop at most one run has keys left, and the merge of
   * what is left is those keys in order, so the two tail copies complete
   * the merge.
   */
  lemma RestInOrder(xs: seq<Key>, ys: seq<Key>, lx: nat, ry: nat, out: seq<Key>)
    requires lx <= |xs| && ry <= |ys| && (lx == |xs| || ry == |ys|)
    requires out + MergeRuns(xs[lx..], ys[ry..]) == MergeRuns(xs, ys)
    ensures out + xs[lx..] + ys[ry..] == MergeRuns(xs, ys)
  {
    var xr, yr := xs[lx..], ys[ry..];
    assert xr == [] || yr == [];
    MergeRunsRest(xr, yr);
    assert out + xr + yr == out + (xr + yr);
  }

  /**
   * One turn of the main loop of `merge`: writes the smaller of the two
   * current keys, the left one on a tie, to position i and advances in the
   * run it came from.
   */
  method FillNext(left: array<Key>, right: array<Key>, newArr: array<Key>, l: int, r: int, i: int,
                  ghost xs: seq<Key>, ghost ys: seq<Key>, ghost lx: nat, ghost ry: nat, ghost out: seq<Key>)
    returns (l': int, r': int, ghost out': seq<Key>)
    requires newArr != left && newArr != right
    requires 0 <= l < left.Length && 0 <= r < right.Length && i == lx + ry < newArr.Length
    requires lx < |xs| && ry < |ys| && left[l] == xs[lx] && right[r] == ys[ry]
    requires Filled(xs, ys, newArr[..], lx, ry, out)
    modifies newArr
    ensures left[l] <= right[r] ==> l' == l + 1 && r' == r && Filled(xs, ys, newArr[..], lx + 1, ry, out')
    ensures left[l] > right[r] ==> l' == l && r' == r + 1 && Filled(xs, ys, newArr[..], lx, ry + 1, out')
  {
    ghost var prev := newArr[..];
    if left[l] > right[r] {
      newArr[i] := right[r];
      FillRight(xs, ys, prev, newArr[..], lx, ry, out);
      out' := out + [right[r]];
      l', r' := l, r + 1;
    } else {
      newArr[i] := left[l];
      FillLeft(xs, ys, prev, newArr[..], lx, ry, out);
      out' := out + [left[l]];
      l', r' := l + 1, r;
    }
  }

  /**
   * The main loop of `merge`: while both runs have keys left, writes the
   * smaller head, the left one on a tie. Returns the positions reached in
   * both runs and in the new array.
   */
  method MergeMain(left: array<Key>, right: array<Key>, start: nat, end: nat, mid: nat, newArr: array<Key>,
                   ghost xs: seq<Key>, ghost ys: seq<Key>)
    returns (l: int, r: int, i: int, ghost out: seq<Key>)
    requires start + mid <= end && start + mid <= left.Length && end <= right.Length
    requires xs == left[start..start + mid] && ys == right[start + mid..end]
    requires newArr.Length == end - start && newArr != left && newArr != right
    modifies newArr
    ensures start <= l <= start + mid <= r <= end && i == (l - start) + (r - start - mid)
    ensures l == start + mid || r == end
    ensures newArr[..i] == out
    ensures out + xs[l - start..] + ys[r - start - mid..] == MergeRuns(xs, ys)
  {
    var lmax: int, rmax: int := start + mid - 1, end - 1;
    l, r, i := start, start + mid, 0;
    ghost var lx: nat, ry: nat := 0, 0;
    out := [];
    while l <= lmax && r <= rmax
      invariant l == start + lx && r == start + mid + ry && i == lx + ry
      invariant Filled(xs, ys, newArr[..], lx, ry, out)
      decreases (end - start) - i
    {
      assert left[l] == xs[lx] && right[r] == ys[ry];
      var l', r';
      l', r', out := FillNext(left, right, newArr, l, r, i, xs, ys, lx, ry, out);
      if l' > l {
        lx := lx + 1;
      } else {
        ry := ry + 1;
      }
      l, r, i := l', r', i + 1;
    }
    RestInOrder(xs, ys, lx, ry, out);
  }

  /**
   * One of the two tail loops of `merge`: copies src[k..kmax] to dst from
   * position i on, in order. Returns the positions reached in `src` and `dst`.
   */
  method CopyRun(dst: array<Key>, i: int, src: array<Key>, k: int, kmax: int) returns (k': int, i': int)
    requires dst != src && 0 <= i && 0 <= k <= kmax + 1 <= src.Length && i + (kmax + 1 - k) <= dst.Length
    modifies dst
    ensures k' == kmax + 1 && i' == i + (k' - k)
    ensures dst[i..i'] == src[k..k']
    ensures dst[..i] == old(dst[..i]) && dst[i'..] == old(dst[i'..])
  {
    k', i' := k, i;
    while k' <= kmax
      invariant k <= k' <= kmax + 1 && i' == i + (k' - k)
      invariant dst[i..i'] == src[k..k']
      invariant dst[..i] == old(dst[..i]) && dst[i'..] == old(dst[i'..])
      decreases kmax - k'
    {
      dst[i'] := src[k'];
      i' := i' + 1;
      k' := k' + 1;
    }
  }

  /** A block copied right behind a written prefix extends it. */
  lemma PrefixExtend(t: seq<Key>, u: seq<Key>, i: nat, j: nat, p: seq<Key>, q: seq<Key>)
    requires i <= j <= |u| && i <= |t| && t[..i] == p && u[..i] == t[..i] && u[i..j] == q
    ensures u[..j] == p + q
  {
    assert u[..j] == u[..i] + u[i..j];
  }

  /**
   * A tail loop of `merge` run right behind the written prefix `p`: the
   * new array then starts with `p` followed by src[k..kmax].
   */
  method AppendRun(dst: array<Key>, i: int, src: array<Key>, k: int, kmax: int, ghost p: seq<Key>, ghost q: seq<Key>)
    returns (k': int, i': int)
    requires dst != src && 0 <= i && 0 <= k <= kmax + 1 <= src.Length && i + (kmax + 1 - k) <= dst.Length
    requires dst[..i] == p && q == src[k..kmax + 1]
    modifies dst
    ensures k' == kmax + 1 && i' == i + |q|
    ensures dst[..i'] == p + q
  {
    ghost var t := dst[..];
    k', i' := CopyRun(dst, i, src, k, kmax);
    PrefixExtend(t, dst[..], i, i', p, q);
  }

  /**
   * Merges left[start..start+mid) and right[start+mid..end) into a new
   * array of end - start keys. Neither input is written.
   */
  method Merge(left: array<Key>, right: array<Key>, start: nat, end: nat, mid: nat) returns (newArr: array<Key>)
    requires start + mid <= end && start + mid <= left.Length && end <= right.Length
    ensures fresh(newArr) && newArr.Length == end - start
    ensures newArr[..] == MergeRuns(left[start..start + mid], right[start + mid..end])
  {
    var n := end - start;
    newArr := new Key[n];
    ghost var xs, ys := left[start..start + mid], right[start + mid..end];
    var l, r, i, out := MergeMain(left, right, start, end, mid, newArr, xs, ys);
    ghost var lx: nat, ry: nat := l - start, r - start - mid;
    ghost var xr, yr := xs[lx..], ys[ry..];
    assert xr == left[l..start + mid] by {
      SliceOfSlice(left[..], start, start + mid, lx);
    }
    assert yr == right[r..end] by {
      SliceOfSlice(right[..], start + mid, end, ry);
    }
    l, i := AppendRun(newArr, i, left, l, start + mid - 1, out, xr);
    r, i := AppendRun(newArr, i, right, r, end - 1, out + xr, yr);
    assert newArr[..] == newArr[..n];
  }

  /** The merge of two sorted runs is sorted and holds exactly their keys. */
  lemma MergeSortedPermutation(left: seq<Key>, right: seq<Key>, start: nat, end: nat, mid: nat)
    requires start + mid <= end && start + mid <= |left| && end <= |right|
    requires Sorted(left[start..start + mid]) && Sorted(right[start + mid..end])
    ensures Sorted(MergeRuns(left[start..start + mid], right[start + mid..end]))
    ensures multiset(MergeRuns(left[start..start + mid], right[start + mid..end]))
         == multiset(left[start..start + mid]) + multiset(right[start + mid..end])
  {
    MergeRunsSorted(left[start..start + mid], right[start + mid..end]);
    MergeRunsMultiset(left[start..start + mid], right[start + mid..end]);
  }
}
