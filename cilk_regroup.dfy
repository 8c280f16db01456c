/**
 * The in-place block-moving primitives of the Cilk quicksort: partial
 * reversal of a region, full reversal, the three-block regroup
 * A | B | C  ==>  {C} | {B} | {A}, and the merge of two three-way partitioned
 * halves built from two regroups.
 *
 * A C routine that receives `X + off` works here on the region
 * a[lo..lo+n) of the whole array, with `lo` the offset. Each routine's effect
 * is stated as a function of the whole array before the call, so everything
 * outside the region is visibly untouched: this is the disjointness that lets
 * the source run the swaps of a partial reversal as a parallel loop.
 */
module CilkRegroup {
  import opened Keys

  /** `s` read backwards. */
  function Rev(s: seq<Key>): (r: seq<Key>)
    ensures |r| == |s|
  {
    if s == [] then [] else Rev(s[1..]) + [s[0]]
  }

  /** Position i of the reversal holds the key i places from the end. */
  lemma {:induction false} RevAt(s: seq<Key>, i: nat)
    requires i < |s|
    ensures Rev(s)[i] == s[|s| - 1 - i]
    decreases |s|
  {
    if i < |s| - 1 {
      RevAt(s[1..], i);
    }
  }

  /**
   * The array `s` after `reversePartial (n, s + lo, k)`: position i of the
   * region a[lo..lo+n) holds the key of its mirror image 2*lo+n-1-i when it
   * lies among the first or the last k positions of the region, and every
   * other position keeps its key.
   */
  function PartiallyReversed(s: seq<Key>, lo: nat, n: nat, k: nat): (t: seq<Key>)
    requires lo + n <= |s| && k <= n / 2
    ensures |t| == |s|
  {
    seq(|s|, i requires 0 <= i < |s| =>
      if lo <= i < lo + k || lo + n - k <= i < lo + n then s[2 * lo + n - 1 - i] else s[i])
  }

  /**
   * One more step of the source's loop: depth k is depth k - 1 with the
   * pair lo+k-1, lo+n-k exchanged. The two positions are distinct because
   * k <= n/2.
   */
  lemma PartiallyReversedStep(s: seq<Key>, lo: nat, n: nat, k: nat)
    requires lo + n <= |s| && 0 < k <= n / 2
    ensures lo + k - 1 < lo + n - k
    ensures var t := PartiallyReversed(s, lo, n, k - 1);
      && t[lo + k - 1] == s[lo + k - 1] && t[lo + n - k] == s[lo + n - k]
      && PartiallyReversed(s, lo, n, k) == t[lo + k - 1 := s[lo + n - k]][lo + n - k := s[lo + k - 1]]
  {
  }

  /** A partial reversal permutes the keys of the array: each of its steps is a swap. */
  lemma {:induction false} PartiallyReversedMultiset(s: seq<Key>, lo: nat, n: nat, k: nat)
    requires lo + n <= |s| && k <= n / 2
    ensures multiset(PartiallyReversed(s, lo, n, k)) == multiset(s)
    decreases k
  {
    if k > 0 {
      var t := PartiallyReversed(s, lo, n, k - 1);
      PartiallyReversedMultiset(s, lo, n, k - 1);
      PartiallyReversedStep(s, lo, n, k);
      SwapStep(s, t, PartiallyReversed(s, lo, n, k), lo + k - 1, lo + n - k);
    } else {
      assert PartiallyReversed(s, lo, n, k) == s;
    }
  }

  /** A partial reversal leaves everything outside its region alone. */
  lemma PartiallyReversedOutside(s: seq<Key>, lo: nat, n: nat, k: nat)
    requires lo + n <= |s| && k <= n / 2
    ensures PartiallyReversed(s, lo, n, k)[..lo] == s[..lo]
    ensures PartiallyReversed(s, lo, n, k)[lo + n..] == s[lo + n..]
  {
    var t := PartiallyReversed(s, lo, n, k);
    assert t[..lo] == s[..lo];
    assert t[lo + n..] == s[lo + n..];
  }

  /**
   * A partial reversal permutes the keys of its region and leaves the rest of
   * the array alone.
   */
  lemma PartiallyReversedFrame(s: seq<Key>, lo: nat, n: nat, k: nat)
    requires lo + n <= |s| && k <= n / 2
    ensures PartiallyReversed(s, lo, n, k)[..lo] == s[..lo]
    ensures PartiallyReversed(s, lo, n, k)[lo + n..] == s[lo + n..]
    ensures multiset(PartiallyReversed(s, lo, n, k)[lo..lo + n]) == multiset(s[lo..lo + n])
  {
    PartiallyReversedOutside(s, lo, n, k);
    PartiallyReversedMultiset(s, lo, n, k);
    RegionMultiset(s, PartiallyReversed(s, lo, n, k), lo, lo + n);
  }

  /** One position of a partial reversal to depth n/2: the region read backwards. */
  lemma PartiallyReversedHalfAt(s: seq<Key>, lo: nat, n: nat, j: nat)
    requires lo + n <= |s| && j < n
    ensures PartiallyReversed(s, lo, n, n / 2)[lo + j] == Rev(s[lo..lo + n])[j]
  {
    RevAt(s[lo..lo + n], j);
  }

  /** With k = n/2 the whole region is reversed, the middle key of an odd region included. */
  lemma PartiallyReversedHalf(s: seq<Key>, lo: nat, n: nat)
    requires lo + n <= |s|
    ensures PartiallyReversed(s, lo, n, n / 2)[lo..lo + n] == Rev(s[lo..lo + n])
  {
    var region, rregion := PartiallyReversed(s, lo, n, n / 2)[lo..lo + n], Rev(s[lo..lo + n]);
    forall j | 0 <= j < n
      ensures region[j] == rregion[j]
    {
      PartiallyReversedHalfAt(s, lo, n, j);
    }
  }

  /**
   * Swaps a[lo+i] with a[lo+n-1-i] for all 0 <= i < k. The source asserts
   * k <= n/2 (with n/2 rounded down); under it no two swaps share a position.
   */
  method ReversePartial(a: array<Key>, lo: nat, n: nat, k: nat)
    requires lo + n <= a.Length
    requires k <= n / 2
    modifies a
    ensures a[..] == PartiallyReversed(old(a[..]), lo, n, k)
  {
    for i := 0 to k
      invariant a[..] == PartiallyReversed(old(a[..]), lo, n, i)
    {
      PartiallyReversedStep(old(a[..]), lo, n, i + 1);
      a[lo + i], a[lo + n - 1 - i] := a[lo + n - 1 - i], a[lo + i];
    }
  }

  /** Reverses the region a[lo..lo+n). */
  method Reverse(a: array<Key>, lo: nat, n: nat)
    requires lo + n <= a.Length
    modifies a
    ensures a[lo..lo + n] == Rev(old(a[lo..lo + n]))
    ensures a[..lo] == old(a[..lo]) && a[lo + n..] == old(a[lo + n..])
  {
    ReversePartial(a, lo, n, n / 2);
    PartiallyReversedHalf(old(a[..]), lo, n);
    PartiallyReversedFrame(old(a[..]), lo, n, n / 2);
  }

  /**
   * How many pairs the single reversal that `regroup3` amounts to exchanges:
   * min(max(na, nc), min(na, nc) + nb). It never exceeds half the region.
   */
  function RegroupDepth(na: nat, nb: nat, nc: nat): (d: nat)
    ensures d <= (na + nb + nc) / 2
  {
    if na <= nc then (if nb <= nc - na then na + nb else nc)
    else (if nb <= na - nc then nc + nb else na)
  }

  /**
   * The lengths `regroup3` hands to its two `reversePartial` calls: on the
   * whole region it exchanges min(na, nc) pairs; in what is left between
   * them it exchanges nb pairs when B is the shorter side, and otherwise as
   * many as the longer outer block has left over. Both stay within half of
   * the region they act on, and together they reach RegroupDepth.
   */
  function ReversalLengths(na: nat, nb: nat, nc: nat): (r: (nat, nat))
    ensures r.0 == if na <= nc then na else nc
    ensures r.0 <= (na + nb + nc) / 2 && r.1 <= (na + nb + nc - 2 * r.0) / 2
    ensures r.1 <= nb
    ensures r.0 + r.1 == RegroupDepth(na, nb, nc)
  {
    if na <= nc then (na, if nb <= nc - na then nb else nc - na)
    else (nc, if nb <= na - nc then nb else na - nc)
  }

  /**
   * The array `s` after `regroup3 (na, nb, nc, s + lo)`: the region
   * A | B | C is partially reversed to depth RegroupDepth. The reversed
   * outer pairs move all of the shorter outer block, and as much of B and of
   * the longer outer block as needed, to the far end; what stays in the
   * middle unreversed is a run of keys that already belongs there.
   */
  ghost function Regrouped(s: seq<Key>, lo: nat, na: nat, nb: nat, nc: nat): seq<Key>
    requires lo + na + nb + nc <= |s|
  {
    PartiallyReversed(s, lo, na + nb + nc, RegroupDepth(na, nb, nc))
  }

  /** One position of two nested partial reversals. */
  lemma PartiallyReversedTwiceAt(s: seq<Key>, lo: nat, n: nat, k1: nat, k2: nat, j: nat)
    requires lo + n <= |s| && k1 + k2 <= n / 2 && j < |s|
    ensures PartiallyReversed(PartiallyReversed(s, lo, n, k1), lo + k1, n - 2 * k1, k2)[j]
         == PartiallyReversed(s, lo, n, k1 + k2)[j]
  {
    var s1 := PartiallyReversed(s, lo, n, k1);
    if lo + k1 <= j < lo + k1 + k2 || lo + n - k1 - k2 <= j < lo + n - k1 {
      assert s1[2 * lo + n - 1 - j] == s[2 * lo + n - 1 - j];
    }
  }

  /** Reversing k1 outer pairs of a region, then k2 pairs of what lies between them, reverses k1 + k2 pairs. */
  lemma PartiallyReversedTwice(s: seq<Key>, lo: nat, n: nat, k1: nat, k2: nat)
    requires lo + n <= |s| && k1 + k2 <= n / 2
    ensures PartiallyReversed(PartiallyReversed(s, lo, n, k1), lo + k1, n - 2 * k1, k2)
         == PartiallyReversed(s, lo, n, k1 + k2)
  {
    var t := PartiallyReversed(PartiallyReversed(s, lo, n, k1), lo + k1, n - 2 * k1, k2);
    var u := PartiallyReversed(s, lo, n, k1 + k2);
    forall j | 0 <= j < |s|
      ensures t[j] == u[j]
    {
      PartiallyReversedTwiceAt(s, lo, n, k1, k2, j);
    }
  }

  /**
   * Where the key at one position of a regroup comes from: a key that lands
   * in the new first block came from C, one in the new middle block from B,
   * one in the new last block from A.
   */
  lemma RegroupedSource(s: seq<Key>, lo: nat, na: nat, nb: nat, nc: nat, i: nat) returns (src: nat)
    requires lo + na + nb + nc <= |s| && lo <= i < lo + na + nb + nc
    ensures lo <= src < lo + na + nb + nc
    ensures Regrouped(s, lo, na, nb, nc)[i] == s[src]
    ensures i < lo + nc ==> lo + na + nb <= src < lo + na + nb + nc
    ensures lo + nc <= i < lo + nc + nb ==> lo + na <= src < lo + na + nb
    ensures lo + nc + nb <= i ==> lo <= src < lo + na
  {
    var n, d := na + nb + nc, RegroupDepth(na, nb, nc);
    src := if i < lo + d || lo + n - d <= i then 2 * lo + n - 1 - i else i;
  }

  /** The keys of u[x..z) are those of u[x..y) and u[y..z) together. */
  lemma SliceSplitMultiset(u: seq<Key>, x: nat, y: nat, z: nat)
    requires x <= y <= z <= |u|
    ensures multiset(u[x..z]) == multiset(u[x..y]) + multiset(u[y..z])
  {
    assert u[x..z] == u[x..y] + u[y..z];
  }

  /**
   * Two stretches u[x..m), u[m..y) holding the keys of the two stretches
   * v[b..c), v[a..b), in that crossed order, together hold the keys of v[a..c).
   */
  lemma JoinStretches(u: seq<Key>, v: seq<Key>, x: nat, m: nat, y: nat, a: nat, b: nat, c: nat)
    requires x <= m <= y <= |u| && a <= b <= c <= |v|
    requires multiset(u[x..m]) == multiset(v[b..c]) && multiset(u[m..y]) == multiset(v[a..b])
    ensures multiset(u[x..y]) == multiset(v[a..c])
  {
    SliceSplitMultiset(u, x, m, y);
    SliceSplitMultiset(v, a, b, c);
  }

  /** Reading a sequence backwards keeps its keys. */
  lemma {:induction false} RevMultiset(s: seq<Key>)
    ensures multiset(Rev(s)) == multiset(s)
    decreases |s|
  {
    if s != [] {
      RevMultiset(s[1..]);
      assert s == [s[0]] + s[1..];
    }
  }

  /**
   * The three zones of a partial reversal of depth k: the first k positions
   * of the region hold the last k read backwards and vice versa, and the
   * positions in between keep their keys.
   */
  ghost predicate ReversalZones(s: seq<Key>, t: seq<Key>, lo: nat, n: nat, k: nat)
  {
    && lo + n <= |s| == |t| && 2 * k <= n
    && t[lo..lo + k] == Rev(s[lo + n - k..lo + n])
    && t[lo + k..lo + n - k] == s[lo + k..lo + n - k]
    && t[lo + n - k..lo + n] == Rev(s[lo..lo + k])
  }

  /** A partial reversal of depth k leaves its region in those three zones. */
  lemma PartiallyReversedZones(s: seq<Key>, lo: nat, n: nat, k: nat)
    requires lo + n <= |s| && k <= n / 2
    ensures ReversalZones(s, PartiallyReversed(s, lo, n, k), lo, n, k)
  {
    var t := PartiallyReversed(s, lo, n, k);
    var u, v := s[lo + n - k..lo + n], s[lo..lo + k];
    forall j | 0 <= j < k
      ensures t[lo..lo + k][j] == Rev(u)[j]
    {
      FrontZoneAt(s, lo, n, k, j);
    }
    forall j | 0 <= j < k
      ensures t[lo + n - k..lo + n][j] == Rev(v)[j]
    {
      BackZoneAt(s, lo, n, k, j);
    }
    assert t[lo..lo + k] == Rev(u);
    assert t[lo + n - k..lo + n] == Rev(v);
    assert t[lo + k..lo + n - k] == s[lo + k..lo + n - k];
  }

  /** Position j of the front zone holds position j of the reversed back k keys. */
  lemma FrontZoneAt(s: seq<Key>, lo: nat, n: nat, k: nat, j: nat)
    requires lo + n <= |s| && k <= n / 2 && j < k
    ensures PartiallyReversed(s, lo, n, k)[lo + j] == Rev(s[lo + n - k..lo + n])[j]
  {
    RevAt(s[lo + n - k..lo + n], j);
  }

  /** Position j of the back zone holds position j of the reversed front k keys. */
  lemma BackZoneAt(s: seq<Key>, lo: nat, n: nat, k: nat, j: nat)
    requires lo + n <= |s| && k <= n / 2 && j < k
    ensures PartiallyReversed(s, lo, n, k)[lo + n - k + j] == Rev(s[lo..lo + k])[j]
  {
    RevAt(s[lo..lo + k], j);
  }

  /**
   * A stretch [x, y) of the region that lies wholly among the mirrored
   * positions of a partial reversal holds the keys of its mirror image
   * [mx, my).
   */
  lemma MirroredStretch(s: seq<Key>, t: seq<Key>, lo: nat, n: nat, k: nat, x: nat, y: nat, mx: nat, my: nat)
    requires ReversalZones(s, t, lo, n, k)
    requires lo <= x <= y <= lo + n && (y <= lo + k || lo + n - k <= x)
    requires mx == 2 * lo + n - y && my == 2 * lo + n - x
    ensures multiset(t[x..y]) == multiset(s[mx..my])
  {
    if y <= lo + k {
      MirroredFront(s, t, lo, n, k, x, y, mx, my);
    } else {
      MirroredBack(s, t, lo, n, k, x, y, mx, my);
    }
    RevMultiset(s[mx..my]);
  }

  /** A stretch of the front zone is its mirror image read backwards. */
  lemma MirroredFront(s: seq<Key>, t: seq<Key>, lo: nat, n: nat, k: nat, x: nat, y: nat, mx: nat, my: nat)
    requires ReversalZones(s, t, lo, n, k)
    requires lo <= x <= y <= lo + k && mx == 2 * lo + n - y && my == 2 * lo + n - x
    ensures t[x..y] == Rev(s[mx..my])
  {
    var u, z := s[mx..my], s[lo + n - k..lo + n];
    forall j | 0 <= j < y - x
      ensures t[x..y][j] == Rev(u)[j]
    {
      RevAt(u, j);
      RevAt(z, x + j - lo);
      assert t[x + j] == t[lo..lo + k][x + j - lo];
    }
  }

  /** A stretch of the back zone is its mirror image read backwards. */
  lemma MirroredBack(s: seq<Key>, t: seq<Key>, lo: nat, n: nat, k: nat, x: nat, y: nat, mx: nat, my: nat)
    requires ReversalZones(s, t, lo, n, k)
    requires lo + n - k <= x <= y <= lo + n && mx == 2 * lo + n - y && my == 2 * lo + n - x
    ensures t[x..y] == Rev(s[mx..my])
  {
    var u, z := s[mx..my], s[lo..lo + k];
    forall j | 0 <= j < y - x
      ensures t[x..y][j] == Rev(u)[j]
    {
      RevAt(u, j);
      RevAt(z, x + j - (lo + n - k));
      assert t[x + j] == t[lo + n - k..lo + n][x + j - (lo + n - k)];
    }
  }

  /** A stretch between the mirrored positions keeps its keys in place. */
  lemma KeptStretch(s: seq<Key>, t: seq<Key>, lo: nat, n: nat, k: nat, x: nat, y: nat)
    requires ReversalZones(s, t, lo, n, k)
    requires lo + k <= x <= y <= lo + n - k
    ensures multiset(t[x..y]) == multiset(s[x..y])
  {
    forall j | 0 <= j < y - x
      ensures t[x..y][j] == s[x..y][j]
    {
      assert t[x + j] == t[lo + k..lo + n - k][x + j - (lo + k)];
    }
    assert t[x..y] == s[x..y];
  }

  /*
   * The three block lemmas below name the cut points of the region as
   * parameters (c1 = lo+nc, c2 = lo+nc+nb for the new blocks, a1 = lo+na,
   * a2 = lo+na+nb for the old ones, e = lo+n) so that every slice in them is
   * taken between plain variables.
   */

  /** The new first block holds exactly the keys of the old block C. */
  lemma RegroupedFirstBlock(s: seq<Key>, t: seq<Key>, lo: nat, na: nat, nb: nat, nc: nat, n: nat, d: nat,
                            c1: nat, a2: nat, e: nat)
    requires n == na + nb + nc && d == RegroupDepth(na, nb, nc) && ReversalZones(s, t, lo, n, d)
    requires c1 == lo + nc && a2 == lo + na + nb && e == lo + n
    ensures multiset(t[lo..c1]) == multiset(s[a2..e])
  {
    if nc <= d {
      MirroredStretch(s, t, lo, n, d, lo, c1, a2, e);
    } else {
      // na <= nc and nb <= nc - na: d == na + nb and n - d == nc
      MirroredStretch(s, t, lo, n, d, lo, a2, c1, e);
      KeptStretch(s, t, lo, n, d, a2, c1);
      JoinStretches(t, s, lo, a2, c1, a2, c1, e);
    }
  }

  /** The new middle block holds exactly the keys of the old block B. */
  lemma RegroupedMiddleBlock(s: seq<Key>, t: seq<Key>, lo: nat, na: nat, nb: nat, nc: nat, n: nat, d: nat,
                             c1: nat, c2: nat, a1: nat, a2: nat)
    requires n == na + nb + nc && d == RegroupDepth(na, nb, nc) && ReversalZones(s, t, lo, n, d)
    requires c1 == lo + nc && c2 == lo + nc + nb && a1 == lo + na && a2 == lo + na + nb
    ensures multiset(t[c1..c2]) == multiset(s[a1..a2])
  {
    if na <= nc && nc - na < nb {
      // d == nc: [c1, a2) stays, [a2, c2) mirrors B's prefix [a1, c1)
      KeptStretch(s, t, lo, n, d, c1, a2);
      MirroredStretch(s, t, lo, n, d, a2, c2, a1, c1);
      JoinStretches(t, s, c1, a2, c2, a1, c1, a2);
    } else if nc < na && na - nc < nb {
      // d == na: [c1, a1) mirrors B's suffix [c2, a2), [a1, c2) stays
      MirroredStretch(s, t, lo, n, d, c1, a1, c2, a2);
      KeptStretch(s, t, lo, n, d, a1, c2);
      JoinStretches(t, s, c1, a1, c2, a1, c2, a2);
    } else {
      MirroredStretch(s, t, lo, n, d, c1, c2, a1, a2);
    }
  }

  /** The new last block holds exactly the keys of the old block A. */
  lemma RegroupedLastBlock(s: seq<Key>, t: seq<Key>, lo: nat, na: nat, nb: nat, nc: nat, n: nat, d: nat,
                           c2: nat, a1: nat, e: nat)
    requires n == na + nb + nc && d == RegroupDepth(na, nb, nc) && ReversalZones(s, t, lo, n, d)
    requires c2 == lo + nc + nb && a1 == lo + na && e == lo + n
    ensures multiset(t[c2..e]) == multiset(s[lo..a1])
  {
    if nc < na && nb <= na - nc {
      // d == nc + nb: [c2, a1) stays, [a1, e) mirrors A's prefix [lo, c2)
      KeptStretch(s, t, lo, n, d, c2, a1);
      MirroredStretch(s, t, lo, n, d, a1, e, lo, c2);
      JoinStretches(t, s, c2, a1, e, lo, c2, a1);
    } else {
      MirroredStretch(s, t, lo, n, d, c2, e, lo, a1);
    }
  }

  /**
   * `t` is `s` with the blocks of a region regrouped, the region's cut points
   * given by position: the region is [lo, e), the old blocks are
   * A = [lo, a1), B = [a1, a2), C = [a2, e), the new ones are [lo, c1),
   * [c1, c2), [c2, e). Each new block holds exactly the multiset of keys of
   * the matching old block (C, B, A in that order), so the region keeps its
   * multiset, and nothing outside the region changes.
   */
  ghost predicate BlocksAt(s: seq<Key>, t: seq<Key>, lo: nat, c1: nat, c2: nat, a1: nat, a2: nat, e: nat)
    requires lo <= c1 <= c2 <= e && lo <= a1 <= a2 <= e <= |s|
  {
    && |t| == |s|
    && t[..lo] == s[..lo] && t[e..] == s[e..]
    && multiset(t[lo..e]) == multiset(s[lo..e])
    && multiset(t[lo..c1]) == multiset(s[a2..e])
    && multiset(t[c1..c2]) == multiset(s[a1..a2])
    && multiset(t[c2..e]) == multiset(s[lo..a1])
  }

  /**
   * `t` is `s` with the blocks A | B | C of the region starting at `lo`
   * (of lengths na, nb, nc) regrouped as {C} | {B} | {A}: the order inside a
   * block is not kept, its keys are.
   */
  ghost predicate BlocksRegrouped(s: seq<Key>, t: seq<Key>, lo: nat, na: nat, nb: nat, nc: nat)
    requires lo + na + nb + nc <= |s|
  {
    BlocksAt(s, t, lo, lo + nc, lo + nc + nb, lo + na, lo + na + nb, lo + na + nb + nc)
  }

  /**
   * Both branches of `regroup3` turn A | B | C into {C} | {B} | {A}, for all
   * block sizes: the asymmetric split on na <= nc is not needed for
   * correctness, only to keep every partial reversal within its k <= n/2 bound.
   */
  lemma RegroupedBlocks(s: seq<Key>, lo: nat, na: nat, nb: nat, nc: nat)
    requires lo + na + nb + nc <= |s|
    ensures BlocksRegrouped(s, Regrouped(s, lo, na, nb, nc), lo, na, nb, nc)
  {
    var t, n, d := Regrouped(s, lo, na, nb, nc), na + nb + nc, RegroupDepth(na, nb, nc);
    var c1, c2, a1, a2, e := lo + nc, lo + nc + nb, lo + na, lo + na + nb, lo + na + nb + nc;
    RegroupedFrame(s, t, lo, na, nb, nc, e);
    RegroupedZones(s, t, lo, na, nb, nc, n, d);
    ZonedBlocksRegrouped(s, t, lo, na, nb, nc, n, d, c1, c2, a1, a2, e);
    BlocksAtRegrouped(s, t, lo, na, nb, nc, c1, c2, a1, a2, e);
  }

  /** BlocksRegrouped is BlocksAt at the cut points of blocks of lengths na, nb, nc. */
  lemma BlocksAtRegrouped(s: seq<Key>, t: seq<Key>, lo: nat, na: nat, nb: nat, nc: nat,
                          c1: nat, c2: nat, a1: nat, a2: nat, e: nat)
    requires c1 == lo + nc && c2 == lo + nc + nb && a1 == lo + na && a2 == lo + na + nb
    requires e == lo + na + nb + nc <= |s|
    requires BlocksAt(s, t, lo, c1, c2, a1, a2, e)
    ensures BlocksRegrouped(s, t, lo, na, nb, nc)
  {
  }

  /** A regroup is a partial reversal of its region, to depth RegroupDepth. */
  lemma RegroupedZones(s: seq<Key>, t: seq<Key>, lo: nat, na: nat, nb: nat, nc: nat, n: nat, d: nat)
    requires n == na + nb + nc && d == RegroupDepth(na, nb, nc) && lo + n <= |s|
    requires t == Regrouped(s, lo, na, nb, nc)
    ensures ReversalZones(s, t, lo, n, d)
  {
    PartiallyReversedZones(s, lo, n, d);
  }

  /** A regroup keeps everything outside its region [lo, e), and the region's keys. */
  lemma RegroupedFrame(s: seq<Key>, t: seq<Key>, lo: nat, na: nat, nb: nat, nc: nat, e: nat)
    requires e == lo + na + nb + nc <= |s|
    requires t == Regrouped(s, lo, na, nb, nc)
    ensures |t| == |s| && t[..lo] == s[..lo] && t[e..] == s[e..]
    ensures multiset(t[lo..e]) == multiset(s[lo..e])
  {
    RegroupedPermutedIn(s, lo, na, nb, nc);
    PermutedInRegion(s, t, lo, e);
  }

  /**
   * The regroup's frame, its region multiset and its three zones give the
   * block-by-block statement, for an array known only through those facts.
   */
  lemma ZonedBlocksRegrouped(s: seq<Key>, t: seq<Key>, lo: nat, na: nat, nb: nat, nc: nat, n: nat, d: nat,
                             c1: nat, c2: nat, a1: nat, a2: nat, e: nat)
    requires n == na + nb + nc && d == RegroupDepth(na, nb, nc)
    requires c1 == lo + nc && c2 == lo + nc + nb && a1 == lo + na && a2 == lo + na + nb && e == lo + n
    requires e <= |s| == |t| && t[..lo] == s[..lo] && t[e..] == s[e..]
    requires multiset(t[lo..e]) == multiset(s[lo..e])
    requires ReversalZones(s, t, lo, n, d)
    ensures BlocksAt(s, t, lo, c1, c2, a1, a2, e)
  {
    RegroupedFirstBlock(s, t, lo, na, nb, nc, n, d, c1, a2, e);
    RegroupedMiddleBlock(s, t, lo, na, nb, nc, n, d, c1, c2, a1, a2);
    RegroupedLastBlock(s, t, lo, na, nb, nc, n, d, c2, a1, e);
  }

  /** A regroup keeps the keys of the array. */
  lemma RegroupedMultiset(s: seq<Key>, lo: nat, na: nat, nb: nat, nc: nat)
    requires lo + na + nb + nc <= |s|
    ensures multiset(Regrouped(s, lo, na, nb, nc)) == multiset(s)
  {
    PartiallyReversedMultiset(s, lo, na + nb + nc, RegroupDepth(na, nb, nc));
  }

  /** A regroup touches nothing outside its region. */
  lemma RegroupedAgreeOutside(s: seq<Key>, lo: nat, na: nat, nb: nat, nc: nat)
    requires lo + na + nb + nc <= |s|
    ensures AgreeOutside(s, Regrouped(s, lo, na, nb, nc), lo, lo + na + nb + nc)
  {
  }

  /** A regroup permutes the keys of its region and touches nothing else. */
  lemma RegroupedPermutedIn(s: seq<Key>, lo: nat, na: nat, nb: nat, nc: nat)
    requires lo + na + nb + nc <= |s|
    ensures PermutedIn(s, Regrouped(s, lo, na, nb, nc), lo, lo + na + nb + nc)
  {
    RegroupedMultiset(s, lo, na, nb, nc);
    RegroupedAgreeOutside(s, lo, na, nb, nc);
  }

  /**
   * If the blocks A, B and C each lie on one side of a pivot, the regrouped
   * blocks {C}, {B} and {A} lie on the same sides.
   */
  lemma RegroupedBands(s: seq<Key>, lo: nat, na: nat, nb: nat, nc: nat, pivot: Key, sa: int, sb: int, sc: int)
    requires lo + na + nb + nc <= |s|
    requires Band(s, lo, lo + na, pivot, sa)
    requires Band(s, lo + na, lo + na + nb, pivot, sb)
    requires Band(s, lo + na + nb, lo + na + nb + nc, pivot, sc)
    ensures var t := Regrouped(s, lo, na, nb, nc);
      && Band(t, lo, lo + nc, pivot, sc)
      && Band(t, lo + nc, lo + nc + nb, pivot, sb)
      && Band(t, lo + nc + nb, lo + na + nb + nc, pivot, sa)
  {
    var t := Regrouped(s, lo, na, nb, nc);
    forall i | lo <= i < lo + na + nb + nc
      ensures Compare(t[i], pivot) == if i < lo + nc then sc else if i < lo + nc + nb then sb else sa
    {
      var src := RegroupedSource(s, lo, na, nb, nc, i);
    }
  }

  /**
   * The two partial reversals of `regroup3` amount to the regroup: the
   * array states it passes through determine its result.
   */
  lemma RegroupedFromSteps(s: seq<Key>, s1: seq<Key>, t: seq<Key>, lo: nat, na: nat, nb: nat, nc: nat,
                           n: nat, k1: nat, k2: nat, lo2: nat, n2: nat)
    requires n == na + nb + nc && lo + n <= |s|
    requires k1 == ReversalLengths(na, nb, nc).0 && k2 == ReversalLengths(na, nb, nc).1
    requires lo2 == lo + k1 && n2 == n - 2 * k1
    requires s1 == PartiallyReversed(s, lo, n, k1)
    requires t == PartiallyReversed(s1, lo2, n2, k2)
    ensures t == Regrouped(s, lo, na, nb, nc)
  {
    PartiallyReversedTwice(s, lo, n, k1, k2);
  }

  /** A | B | C  ==>  {C} | {B} | {A} in place, on the region a[lo..lo+na+nb+nc). */
  method Regroup3(a: array<Key>, lo: nat, na: nat, nb: nat, nc: nat)
    requires lo + na + nb + nc <= a.Length
    modifies a
    ensures a[..] == Regrouped(old(a[..]), lo, na, nb, nc)
  {
    ghost var s := a[..];
    var n := na + nb + nc;
    var r := ReversalLengths(na, nb, nc);
    var k1, k2 := r.0, r.1;
    ReversePartial(a, lo, n, k1);
    ghost var s1 := a[..];
    assert s1 == PartiallyReversed(s, lo, n, k1);
    var lo2, n2 := lo + k1, n - 2 * k1;
    ReversePartial(a, lo2, n2, k2);
    ghost var t := a[..];
    assert t == PartiallyReversed(s1, lo2, n2, k2);
    RegroupedFromSteps(s, s1, t, lo, na, nb, nc, n, k1, k2, lo2, n2);
  }
}
