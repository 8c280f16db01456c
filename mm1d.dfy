/**
 * The index bookkeeping of the 1-D column-blocked matrix multiply: how n
 * columns are dealt out in consecutive blocks to P processes, the counts and
 * offsets the root hands to the scatter, and the ring schedule of the
 * multiply, in which every process passes its working block of A to its
 * right neighbour P times. The MPI calls and the floating-point multiply are
 * not modelled; only the integers that drive them are.
 */
module Mm1d {
  import opened Util
  import opened Sums

  // ---------------------------------------------------------------------------
  // Block distribution

  /**
   * The index of the first of n items held by process `rank` when they are
   * dealt out in consecutive blocks to P processes; the first n % P ranks get
   * one item more than the others.
   */
  function BlockStart(n: int, P: int, rank: int): (s: int)
    requires P > 0 && n >= 0 && rank >= 0
    ensures 0 <= s
    ensures rank <= P ==> s <= n
  {
    MulLe(0, rank, n / P);
    MulLe(MinInt(rank, P), P, n / P);
    rank * (n / P) + MinInt(n % P, rank)
  }

  /** The number of the n items held by process `rank`: n / P, plus one for the first n % P ranks. */
  function BlockLength(n: int, P: int, rank: int): (len: int)
    requires P > 0 && n >= 0 && rank >= 0
    ensures len == n / P || len == n / P + 1
    ensures len == n / P + 1 <==> rank < n % P
  {
    n / P + (if rank < n % P then 1 else 0)
  }

  /** Process `rank` of P holds item i. */
  ghost predicate InBlock(n: int, P: int, rank: int, i: int)
    requires P > 0 && n >= 0
  {
    0 <= rank < P && BlockStart(n, P, rank) <= i < BlockStart(n, P, rank) + BlockLength(n, P, rank)
  }

  /** The first block starts at item 0. */
  lemma BlockStartZero(n: int, P: int)
    requires P > 0 && n >= 0
    ensures BlockStart(n, P, 0) == 0
  {
  }

  /** Each block starts right where the block of the previous rank ends. */
  lemma BlockStartNext(n: int, P: int, r: int)
    requires P > 0 && n >= 0 && 0 <= r < P
    ensures BlockStart(n, P, r + 1) == BlockStart(n, P, r) + BlockLength(n, P, r)
  {
    var q := n / P;
    assert (r + 1) * q == r * q + q;
  }

  /** The block after the last one would start at n: the blocks use up all n items. */
  lemma BlockStartEnd(n: int, P: int)
    requires P > 0 && n >= 0
    ensures BlockStart(n, P, P) == n
  {
    assert MinInt(n % P, P) == n % P;
  }

  /** The sum of the lengths of the blocks of ranks 0 .. r-1. */
  function SumLengths(n: int, P: int, r: nat): (s: int)
    requires P > 0 && n >= 0
    decreases r
  {
    if r == 0 then 0 else SumLengths(n, P, r - 1) + BlockLength(n, P, r - 1)
  }

  /** A block starts at the total length of the blocks before it. */
  lemma {:induction false} BlockStartIsSum(n: int, P: int, r: nat)
    requires P > 0 && n >= 0 && r <= P
    ensures BlockStart(n, P, r) == SumLengths(n, P, r)
  {
    if r > 0 {
      BlockStartIsSum(n, P, r - 1);
      BlockStartNext(n, P, r - 1);
    }
  }

  /** The block lengths over all P ranks add up to n. */
  lemma LengthsSum(n: int, P: int)
    requires P > 0 && n >= 0
    ensures SumLengths(n, P, P) == n
  {
    BlockStartIsSum(n, P, P);
    BlockStartEnd(n, P);
  }

  /** Blocks of higher ranks start no earlier. */
  lemma BlockStartMono(n: int, P: int, r1: nat, r2: nat)
    requires P > 0 && n >= 0 && r1 <= r2 <= P
    ensures BlockStart(n, P, r1) <= BlockStart(n, P, r2)
  {
    MulLe(r1, r2, n / P);
  }

  /** Every block lies inside [0, n). */
  lemma BlockWithin(n: int, P: int, r: int)
    requires P > 0 && n >= 0 && 0 <= r < P
    ensures 0 <= BlockStart(n, P, r) && 0 <= BlockLength(n, P, r)
    ensures BlockStart(n, P, r) + BlockLength(n, P, r) <= n
  {
    BlockStartMono(n, P, 0, r);
    BlockStartNext(n, P, r);
    BlockStartMono(n, P, r + 1, P);
    BlockStartEnd(n, P);
  }

  /** No item is held by two processes. */
  lemma BlocksDisjoint(n: int, P: int, r1: int, r2: int, i: int)
    requires P > 0 && n >= 0
    requires InBlock(n, P, r1, i) && InBlock(n, P, r2, i)
    ensures r1 == r2
  {
    if r1 < r2 {
      BlockStartNext(n, P, r1);
      BlockStartMono(n, P, r1 + 1, r2);
    } else if r2 < r1 {
      BlockStartNext(n, P, r2);
      BlockStartMono(n, P, r2 + 1, r1);
    }
  }

  /** Every item of [0, n) is held by some process. */
  lemma BlocksCover(n: int, P: int, i: int)
    requires P > 0 && n >= 0 && 0 <= i < n
    ensures exists r :: InBlock(n, P, r, i)
  {
    BlockStartZero(n, P);
    CoverFrom(n, P, i, 0);
  }

  /** Searching upwards from a rank whose block starts at or before i finds the holder of i. */
  lemma {:induction false} CoverFrom(n: int, P: int, i: int, r: int)
    requires P > 0 && n >= 0 && 0 <= r < P && BlockStart(n, P, r) <= i < n
    ensures exists r' :: InBlock(n, P, r', i)
    decreases P - r
  {
    if i < BlockStart(n, P, r) + BlockLength(n, P, r) {
      assert InBlock(n, P, r, i);
    } else {
      BlockStartNext(n, P, r);
      if r + 1 == P {
        BlockStartEnd(n, P);
        assert false;
      }
      CoverFrom(n, P, i, r + 1);
    }
  }

  /** Rank 0 holds a longest block; block lengths do not grow with the rank. */
  lemma Rank0Longest(n: int, P: int, r1: int, r2: int)
    requires P > 0 && n >= 0 && 0 <= r1 <= r2
    ensures BlockLength(n, P, 0) >= BlockLength(n, P, r1) >= BlockLength(n, P, r2)
  {
  }

  // ---------------------------------------------------------------------------
  // Scatter of the columns of an m x n matrix (mm1d_distribute)

  /**
   * The integers of `mm1d_distribute` on process `rank`: the size m * n_local
   * of its local buffer and, on the root only, the count and offset of the
   * part of the matrix (column-major, m rows) each process receives.
   */
  method ScatterLayout(m: int, n: int, P: int, rank: int)
    returns (localSize: int, sendcounts: array?<int>, offsets: array?<int>)
    requires m >= 0 && n >= 0 && P > 0 && 0 <= rank < P
    ensures localSize == m * BlockLength(n, P, rank)
    ensures rank == 0 <==> sendcounts != null
    ensures rank == 0 <==> offsets != null
    ensures sendcounts != null ==> fresh(sendcounts) && sendcounts.Length == P
    ensures offsets != null ==> fresh(offsets) && offsets.Length == P && offsets != sendcounts
    ensures sendcounts != null && offsets != null ==> SendLayout(m, n, P, sendcounts[..], offsets[..])
  {
    var nLocal := BlockLength(n, P, rank);
    localSize := m * nLocal;
    sendcounts, offsets := null, null;
    if rank == 0 {
      sendcounts := new int[P];
      offsets := new int[P];
      for rDest := 0 to P
        invariant forall r :: 0 <= r < rDest ==> sendcounts[r] == m * BlockLength(n, P, r)
        invariant forall r :: 0 <= r < rDest ==> offsets[r] == m * BlockStart(n, P, r)
      {
        var j := BlockStart(n, P, rDest);
        var nj := BlockLength(n, P, rDest);
        sendcounts[rDest] := m * nj;
        offsets[rDest] := m * j;
      }
    }
  }

  /** Process r receives m * len(r) doubles starting at offset m * start(r). */
  ghost predicate SendLayout(m: int, n: int, P: int, counts: seq<int>, offsets: seq<int>)
    requires n >= 0 && P > 0
  {
    && |counts| == P && |offsets| == P
    && (forall r :: 0 <= r < P ==> counts[r] == m * BlockLength(n, P, r))
    && (forall r :: 0 <= r < P ==> offsets[r] == m * BlockStart(n, P, r))
  }

  /**
   * The parts of the scatter are laid out back to back: each starts where the
   * previous one ends, the first at 0, and the last ends at m * n.
   */
  lemma SendLayoutContiguous(m: int, n: int, P: int, counts: seq<int>, offsets: seq<int>, r: int)
    requires m >= 0 && n >= 0 && P > 0 && SendLayout(m, n, P, counts, offsets) && 0 <= r < P
    ensures offsets[0] == 0
    ensures r + 1 < P ==> offsets[r] + counts[r] == offsets[r + 1]
    ensures r + 1 == P ==> offsets[r] + counts[r] == m * n
  {
    BlockStartZero(n, P);
    BlockStartNext(n, P, r);
    BlockStartEnd(n, P);
    assert m * BlockStart(n, P, r) + m * BlockLength(n, P, r) == m * (BlockStart(n, P, r) + BlockLength(n, P, r));
  }

  /** The counts of the first r parts add up to the offset of part r. */
  lemma {:induction false} CountsPrefixSum(m: int, n: int, P: int, counts: seq<int>, offsets: seq<int>, r: nat)
    requires m >= 0 && n >= 0 && P > 0 && SendLayout(m, n, P, counts, offsets) && r <= P
    ensures Sum(counts[..r]) == m * BlockStart(n, P, r)
  {
    if r > 0 {
      CountsPrefixSum(m, n, P, counts, offsets, r - 1);
      assert counts[..r][..r - 1] == counts[..r - 1];
      BlockStartNext(n, P, r - 1);
      assert m * BlockStart(n, P, r - 1) + m * BlockLength(n, P, r - 1)
          == m * (BlockStart(n, P, r - 1) + BlockLength(n, P, r - 1));
    }
  }

  /** The counts of the scatter add up to the m * n doubles of the whole matrix. */
  lemma CountsSum(m: int, n: int, P: int, counts: seq<int>, offsets: seq<int>)
    requires m >= 0 && n >= 0 && P > 0 && SendLayout(m, n, P, counts, offsets)
    ensures Sum(counts) == m * n
  {
    CountsPrefixSum(m, n, P, counts, offsets, P);
    BlockStartEnd(n, P);
    assert counts[..P] == counts;
  }

  // ---------------------------------------------------------------------------
  // The ring of processes (mm1d_mult)

  /** x mod P for 0 <= x < 2P, without division. */
  lemma ModSmall(x: int, P: int)
    requires P > 0 && 0 <= x < 2 * P
    ensures x % P == if x < P then x else x - P
  {
    if x >= P {
      assert x == P * 1 + (x - P);
    }
  }

  /** The rank of the left neighbour of r in the ring of P processes. */
  function LeftNeighbor(r: int, P: int): (l: int)
    requires 0 <= r < P
    ensures 0 <= l < P && (l + 1) % P == r
  {
    ModSmall(r + P - 1, P);
    var l := (r + P - 1) % P;
    ModSmall(l + 1, P);
    l
  }

  /** The rank of the right neighbour of r in the ring of P processes. */
  function RightNeighbor(r: int, P: int): (rr: int)
    requires 0 <= r < P
    ensures 0 <= rr < P && (rr + P - 1) % P == r
  {
    ModSmall(r + 1, P);
    var rr := (r + 1) % P;
    ModSmall(rr + P - 1, P);
    rr
  }

  /** Right and left are inverse: r is the left neighbour of its right neighbour, and back. */
  lemma NeighborsInverse(r: int, P: int)
    requires 0 <= r < P
    ensures LeftNeighbor(RightNeighbor(r, P), P) == r
    ensures RightNeighbor(LeftNeighbor(r, P), P) == r
  {
  }

  /**
   * The rank whose block of A process r works on in iteration `iter`:
   * the rank `iter` steps to the left of r.
   */
  function EffectiveRank(r: int, P: int, iter: int): (e: int)
    requires 0 <= r < P && 0 <= iter <= P
    ensures 0 <= e < P && (e + iter) % P == r
  {
    ModSmall(r + P - iter, P);
    var e := (r + P - iter) % P;
    ModSmall(e + iter, P);
    e
  }

  /** The rank whose block process r receives at the end of iteration `iter`. */
  function NextEffectiveRank(r: int, P: int, iter: int): (e: int)
    requires 0 <= r < P && 0 <= iter < P
    ensures 0 <= e < P && (e + iter + 1) % P == r
  {
    ModSmall(r + P - iter - 1, P);
    var e := (r + P - iter - 1) % P;
    ModSmall(e + iter + 1, P);
    e
  }

  /** The effective rank counts down from r, wrapping from 0 to P - 1. */
  lemma EffectiveRankValue(r: int, P: int, iter: int)
    requires 0 <= r < P && 0 <= iter <= P
    ensures EffectiveRank(r, P, iter) == if iter <= r then r - iter else r + P - iter
  {
    ModSmall(r + P - iter, P);
  }

  /**
   * The block received at the end of an iteration is the one worked on in the
   * next: the block the left neighbour worked on in this iteration, which is
   * one step further to the left.
   */
  lemma NextEffectiveRankIsNext(r: int, P: int, iter: int)
    requires 0 <= r < P && 0 <= iter < P
    ensures NextEffectiveRank(r, P, iter) == EffectiveRank(r, P, iter + 1)
    ensures NextEffectiveRank(r, P, iter) == EffectiveRank(LeftNeighbor(r, P), P, iter)
    ensures NextEffectiveRank(r, P, iter) == LeftNeighbor(EffectiveRank(r, P, iter), P)
  {
    var l := LeftNeighbor(r, P);
    ModSmall(r + P - 1, P);
    EffectiveRankValue(r, P, iter);
    EffectiveRankValue(r, P, iter + 1);
    EffectiveRankValue(l, P, iter);
    ModSmall(EffectiveRank(r, P, iter) + P - 1, P);
  }

  /** Over the P iterations no rank is visited twice. */
  lemma EffectiveRankInjective(r: int, P: int, i: int, j: int)
    requires 0 <= r < P && 0 <= i < j < P
    ensures EffectiveRank(r, P, i) != EffectiveRank(r, P, j)
  {
    EffectiveRankValue(r, P, i);
    EffectiveRankValue(r, P, j);
  }

  /** Every rank q is visited, in iteration (r - q) mod P. */
  lemma EffectiveRankOnto(r: int, P: int, q: int)
    requires 0 <= r < P && 0 <= q < P
    ensures EffectiveRank(r, P, if q <= r then r - q else r + P - q) == q
  {
    EffectiveRankValue(r, P, if q <= r then r - q else r + P - q);
  }

  /**
   * The integers of one iteration of the multiply loop: the rank whose block
   * of A is worked on, the first row k0 of B it meets and its width, and the
   * rank and width of the block received for the next iteration.
   */
  datatype Step = Step(effective: int, k0: int, kLocal: int, nextEffective: int, kLocalNext: int)

  /**
   * What the iteration of a step multiplies and passes on fits the inner
   * dimension k and the two buffers of m * kLocalMax doubles.
   */
  ghost predicate StepFits(k: int, kLocalMax: int, s: Step)
  {
    0 <= s.k0 && 0 <= s.kLocal && s.k0 + s.kLocal <= k && s.kLocal <= kLocalMax
    && 0 <= s.kLocalNext <= kLocalMax
  }

  /** The step of iteration `iter` on process r. */
  ghost predicate StepAt(k: int, P: int, r: int, iter: int, s: Step)
    requires k >= 0 && 0 <= r < P && 0 <= iter < P
  {
    && s.effective == EffectiveRank(r, P, iter)
    && s.k0 == BlockStart(k, P, s.effective)
    && s.kLocal == BlockLength(k, P, s.effective)
    && s.nextEffective == NextEffectiveRank(r, P, iter)
    && s.kLocalNext == BlockLength(k, P, s.nextEffective)
  }

  /** The facts the loop of the multiply relies on in one iteration. */
  lemma StepFacts(k: int, P: int, r: int, iter: int, s: Step)
    requires k >= 0 && 0 <= r < P && 0 <= iter < P && StepAt(k, P, r, iter, s)
    ensures StepFits(k, BlockLength(k, P, 0), s)
    ensures s.nextEffective == EffectiveRank(LeftNeighbor(r, P), P, iter)
    ensures iter + 1 < P ==> s.nextEffective == EffectiveRank(r, P, iter + 1)
  {
    BlockWithin(k, P, s.effective);
    Rank0Longest(k, P, 0, s.effective);
    Rank0Longest(k, P, 0, s.nextEffective);
    NextEffectiveRankIsNext(r, P, iter);
  }

  /** The P steps of process r, one per iteration, in order. */
  ghost predicate Schedule(k: int, P: int, r: int, steps: seq<Step>)
    requires k >= 0 && 0 <= r < P
  {
    |steps| == P && forall t :: 0 <= t < P ==> StepAt(k, P, r, t, steps[t])
  }

  /** Some step of the schedule works on the block of rank q. */
  ghost predicate Visits(steps: seq<Step>, q: int)
  {
    exists iter :: 0 <= iter < |steps| && steps[iter].effective == q
  }

  /**
   * The loop of `mm1d_mult` on process r, with the multiply and the exchange
   * left out: the steps of the P iterations, and the width of the widest
   * block, which sizes the two working buffers.
   */
  method RingSchedule(k: int, P: int, r: int) returns (kLocalMax: int, steps: seq<Step>)
    requires k >= 0 && 0 <= r < P
    ensures kLocalMax == BlockLength(k, P, 0)
    ensures Schedule(k, P, r, steps)
  {
    kLocalMax := BlockLength(k, P, 0);
    steps := [];
    for iter := 0 to P
      invariant |steps| == iter
      invariant forall t :: 0 <= t < iter ==> StepAt(k, P, r, t, steps[t])
    {
      var rEffective := EffectiveRank(r, P, iter);
      var k0 := BlockStart(k, P, rEffective);
      var kLocal := BlockLength(k, P, rEffective);
      var rEffectiveNext := NextEffectiveRank(r, P, iter);
      var kLocalNext := BlockLength(k, P, rEffectiveNext);
      steps := steps + [Step(rEffective, k0, kLocal, rEffectiveNext, kLocalNext)];
    }
  }

  /**
   * What the schedule of process r guarantees: it starts on r's own block,
   * works on the block of every rank exactly once, always receives the block
   * its next iteration works on, which is the one its left neighbour sends,
   * and never reads past B or past the two working buffers.
   */
  lemma ScheduleFacts(k: int, P: int, r: int, steps: seq<Step>)
    requires k >= 0 && 0 <= r < P && Schedule(k, P, r, steps)
    ensures steps[0].effective == r && steps[0].kLocal == BlockLength(k, P, r)
    ensures forall q :: 0 <= q < P ==> Visits(steps, q)
    ensures forall i, j :: 0 <= i < j < P ==> steps[i].effective != steps[j].effective
    ensures forall iter :: 0 <= iter < P ==> StepFits(k, BlockLength(k, P, 0), steps[iter])
    ensures forall iter :: 0 <= iter < P - 1 ==> steps[iter].nextEffective == steps[iter + 1].effective
    ensures forall iter :: 0 <= iter < P - 1 ==> steps[iter].kLocalNext == steps[iter + 1].kLocal
    ensures forall iter :: 0 <= iter < P ==>
              steps[iter].nextEffective == EffectiveRank(LeftNeighbor(r, P), P, iter)
  {
    EffectiveRankValue(r, P, 0);
    forall q | 0 <= q < P
      ensures Visits(steps, q)
    {
      var iter := if q <= r then r - q else r + P - q;
      EffectiveRankOnto(r, P, q);
      assert steps[iter].effective == q;
    }
    forall i, j | 0 <= i < j < P
      ensures steps[i].effective != steps[j].effective
    {
      EffectiveRankInjective(r, P, i, j);
    }
    forall iter | 0 <= iter < P
      ensures StepFits(k, BlockLength(k, P, 0), steps[iter])
      ensures steps[iter].nextEffective == EffectiveRank(LeftNeighbor(r, P), P, iter)
      ensures iter + 1 < P ==> steps[iter].nextEffective == EffectiveRank(r, P, iter + 1)
    {
      StepFacts(k, P, r, iter, steps[iter]);
    }
  }
}
