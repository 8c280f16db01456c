# HPPC-Labs sorting and index kernels in Dafny

This project models the integer core of the HPPC-Labs course repository
and proves properties of it. The core has three parts.

The first part is the sorting code:
- The in-place Cilk quicksort with its fully parallel three-way partition
  (`lab2/code/parallel-qsort--cilk.cc`). This covers the Dutch National
  Flag partition, the partial reversal, the block rotation `regroup3`,
  the merge of two partitioned halves, and the recursive sort.
- The sorting exercises of `code/sort.cc`: the comparator, the array
  copy, the stable out-of-place three-way partition, quicksort, the
  two-run merge, mergesort, and the two result checkers.
- The `merge` routine of the OpenMP mergesort
  (`code/parallel-mergesort--omp.cc`).

The second part is the index bookkeeping of the MPI 1-D matrix multiply
(`lab4/code/mm1d/`):
- the block distribution formulas;
- the scatter counts and offsets;
- the ring schedule of neighbours, effective ranks and block lengths;
- the strided column-major block copy and the buffer zeroing;
- the integer helpers and the pointer swap.

The third part is the integer image kernels and the PageRank
pre-processing:
- RGB-to-luma conversion and the integral image
  (`lab8/code/image-reference.cpp`);
- the CSR pre-processing of the PageRank test
  (`lab10/code/pagerank-test.cpp`): rebasing, the out-link histogram and
  the list of link-free pages.

Routines that work in place on arrays are methods on `array`s. Each
method is proved against a specification function or predicate, and
lemmas prove what the source promises about that specification. A C
routine handed `A + lo` becomes a method taking the array and the offset
`lo`. Its contract says that nothing outside `[lo, lo + n)` changes
(`Keys.PermutedIn`, `Keys.AgreeOutside`). That frame is exactly why the
Cilk spawns, which this model runs one after the other, act on disjoint
ranges.

Modules:
- `Keys`: keys, ordering predicates and frame lemmas.
- `BaselineSort`: the library sort.
- `QuickSortSteps`: the proof steps shared by both quicksorts.
- `CilkRegroup`, `CilkPartition`, `CilkQuickSort`: the Cilk lab.
- `Lab1Sort`: `code/sort.cc`.
- `OmpMerge`: the OpenMP merge.
- `Util`, `Sums`, `Mm1d`, `Mat`: the matrix-multiply lab.
- `Image`: the image kernels.
- `PageRankPrep`: the PageRank pre-processing.

## Model

| member | source | states |
|---|---|---|
| Keys.Compare | code/sort.cc:16-28 | the result is -1, 0 or 1 exactly when the first key is less than, equal to or greater than the second |
| Keys.Swap | lab2/code/parallel-qsort--cilk.cc:43-45 | `std::swap` of two array entries: the new array is the old one with the two entries exchanged |
| Keys.SwapPermutedIn | lab2/code/parallel-qsort--cilk.cc:43-45 | a swap of two positions inside a region keeps "a permutation of that region, nothing else changed" |
| Keys.SortedFromBands | lab2/code/parallel-qsort--cilk.cc:177-191 | a three-way partitioned region whose less and greater blocks are sorted is sorted |
| Keys.PermutedInTrans | lab2/code/parallel-qsort--cilk.cc:186-189 | two in-place steps on sub-ranges of a region compose to an in-place permutation of the region |
| Keys.RegionMultiset | lab2/code/parallel-qsort--cilk.cc:186-189 | equal outside a region plus equal multisets overall gives equal multisets inside the region |
| Keys.BandFrame | lab2/code/parallel-qsort--cilk.cc:165-169 | a step confined to one range leaves the less/equal/greater band of a disjoint range intact |
| BaselineSort.InsertionSort | code/sort.cc:34-38 | the stand-in for `qsort`: the result is sorted, has the input's length and is a permutation of it |
| BaselineSort.CopyInto | code/sort.cc:34-38 | the sorted keys land in `A[0..N)` itself, as `qsort` sorts in place: the region becomes the given sequence and the entries before and after it are unchanged |
| BaselineSort.SequentialSort | code/sort.cc:34-38 | the region `a[lo..lo+n)` ends sorted, holds the keys it held, and nothing else changes |
| QuickSortSteps.PivotInEqualBlock | lab2/code/parallel-qsort--cilk.cc:184-187 | a pivot drawn from the region leaves an equal block of at least one key, so both recursive calls are on strictly shorter ranges |
| QuickSortSteps.LessBlockSorted | lab2/code/parallel-qsort--cilk.cc:188 | sorting the less block in place keeps the three-way layout of the region |
| QuickSortSteps.GreaterBlockSorted | lab2/code/parallel-qsort--cilk.cc:189 | sorting the greater block in place keeps the layout and does not touch the less block |
| QuickSortSteps.SortedAfterRecursion | lab2/code/parallel-qsort--cilk.cc:184-190 | partition then the two disjoint recursive sorts leave the region sorted and a permutation of what it held |
| CilkRegroup.PartiallyReversed | lab2/code/parallel-qsort--cilk.cc:79-89 | the specification of `reversePartial`: the length is kept |
| CilkRegroup.PartiallyReversedStep | lab2/code/parallel-qsort--cilk.cc:87-88 | depth k is depth k-1 with the pair `lo+k-1`, `lo+n-k` exchanged, and the two positions are distinct |
| CilkRegroup.PartiallyReversedMultiset | lab2/code/parallel-qsort--cilk.cc:84-89 | a partial reversal is a permutation of the array |
| CilkRegroup.PartiallyReversedFrame | lab2/code/parallel-qsort--cilk.cc:84-89 | a partial reversal changes nothing outside `[lo, lo+n)` and permutes the keys inside it |
| CilkRegroup.PartiallyReversedHalf | lab2/code/parallel-qsort--cilk.cc:94-98 | reversing n/2 pairs reverses the region: entry i becomes old entry n-1-i |
| CilkRegroup.PartiallyReversedZones | lab2/code/parallel-qsort--cilk.cc:84-89 | after k swaps, the first k entries of the region are its last k old entries reversed, the last k are its first k old entries reversed, and the middle is unchanged |
| CilkRegroup.MirroredStretch | lab2/code/parallel-qsort--cilk.cc:84-89 | a stretch inside one of the two swapped zones holds exactly the keys of its mirror-image stretch of the old region |
| CilkRegroup.KeptStretch | lab2/code/parallel-qsort--cilk.cc:84-89 | a stretch of the middle that no swap reaches keeps its keys |
| CilkRegroup.PartiallyReversedTwice | lab2/code/parallel-qsort--cilk.cc:105-125 | k1 swaps on the region followed by k2 swaps on what lies strictly inside the swapped zones are k1+k2 swaps on the region, which is how the second `reversePartial` of each branch continues the first |
| CilkRegroup.ReversePartial | lab2/code/parallel-qsort--cilk.cc:84-89 | with `k <= n/2` (the source's assert), the array becomes the partial reversal of its old contents |
| CilkRegroup.Reverse | lab2/code/parallel-qsort--cilk.cc:94-98 | the region becomes the reverse of its old contents and nothing else changes |
| CilkRegroup.ReversalLengths | lab2/code/parallel-qsort--cilk.cc:105-125 | the two depths `regroup3` passes meet the `k <= n/2` precondition of each `reversePartial` call |
| CilkRegroup.RegroupedSource | lab2/code/parallel-qsort--cilk.cc:100-126 | every position of the regrouped region holds a key from old C, old B or old A, according to its block |
| CilkRegroup.RegroupedBlocks | lab2/code/parallel-qsort--cilk.cc:100-126 | A\|B\|C becomes {C}\|{B}\|{A}: the new first block holds exactly the multiset of old C, the middle one that of old B, the last one that of old A; the region's multiset is kept, and nothing outside it changes |
| CilkRegroup.RegroupedFirstBlock | lab2/code/parallel-qsort--cilk.cc:100-126 | the first nc positions of the regrouped region hold exactly the keys of old C |
| CilkRegroup.RegroupedMiddleBlock | lab2/code/parallel-qsort--cilk.cc:100-126 | the next nb positions hold exactly the keys of old B |
| CilkRegroup.RegroupedLastBlock | lab2/code/parallel-qsort--cilk.cc:100-126 | the last na positions hold exactly the keys of old A |
| CilkRegroup.RegroupedPermutedIn | lab2/code/parallel-qsort--cilk.cc:100-126 | the regroup permutes the keys of the region and changes nothing outside it |
| CilkRegroup.RegroupedBands | lab2/code/parallel-qsort--cilk.cc:100-126 | blocks lying on one side of a pivot still do after the regroup, in the order C, B, A |
| CilkRegroup.RegroupedFromSteps | lab2/code/parallel-qsort--cilk.cc:105-125 | the two partial reversals, in each of the four branches, compose to the regroup |
| CilkRegroup.Regroup3 | lab2/code/parallel-qsort--cilk.cc:100-126 | the array becomes the regroup of its old contents |
| CilkPartition.MergePartitions | lab2/code/parallel-qsort--cilk.cc:128-138 | the two `regroup3` calls turn the array into the merge of its old contents |
| CilkPartition.MergeFirstRegroup | lab2/code/parallel-qsort--cilk.cc:137 | after the first `regroup3`, the region reads A1 \| A2 \| C1 \| B1 \| B2 \| C2 as less, less, greater, equal, equal, greater bands |
| CilkPartition.MergeSecondRegroup | lab2/code/parallel-qsort--cilk.cc:138 | the second `regroup3` turns that layout into a three-way partition with `n1a+n2a` less and `n1b+n2b` equal keys |
| CilkPartition.MergedFromSteps | lab2/code/parallel-qsort--cilk.cc:137-138 | the two `regroup3` calls compose to the merge of the two partitioned halves |
| CilkPartition.MergedPartitioned | lab2/code/parallel-qsort--cilk.cc:134-138 | merging two partitioned halves gives a partitioned region with `n1a+n2a` less and `n1b+n2b` equal keys |
| CilkPartition.MergedPermutedIn | lab2/code/parallel-qsort--cilk.cc:134-138 | a merge only moves keys inside its region |
| CilkPartition.DnfEqualStep | lab2/code/parallel-qsort--cilk.cc:42-43 | a key equal to the pivot swapped to `p+1` keeps the loop invariant with p and i advanced |
| CilkPartition.DnfGreaterStep | lab2/code/parallel-qsort--cilk.cc:44-45 | a key not less than the pivot swapped to `q-1` keeps the invariant with q decreased |
| CilkPartition.DnfLessStep | lab2/code/parallel-qsort--cilk.cc:46-47 | a less key keeps the invariant with i advanced |
| CilkPartition.DnfDone | lab2/code/parallel-qsort--cilk.cc:39-58 | when the scan meets q, the loop invariant becomes the starting state of the fix-up loop |
| CilkPartition.DutchFlag | lab2/code/parallel-qsort--cilk.cc:39-49 | after the loop: `A[0..p]` equal, `A[p+1..q)` less, `A[q..N)` greater, a permutation of the region |
| CilkPartition.FixUpStep | lab2/code/parallel-qsort--cilk.cc:58-59 | one fix-up swap of `A[k]` and `A[q-1-k]` keeps the fix-up invariant, including when the ranges overlap |
| CilkPartition.FixUp | lab2/code/parallel-qsort--cilk.cc:58-63 | after the fix-up the region is partitioned with `q-1-p` less and `p+1` equal keys |
| CilkPartition.FixUpDone | lab2/code/parallel-qsort--cilk.cc:58-63 | once the fix-up has moved every equal key, the region starts with `nlt` less keys followed by the equal ones |
| CilkPartition.PartitionSeq | lab2/code/parallel-qsort--cilk.cc:16-64 | the counts sum to N, the region is laid out less/equal/greater, and it is a permutation of the old region |
| CilkPartition.Partition | lab2/code/parallel-qsort--cilk.cc:148-173 | the same postcondition in the split case, with the counts of the halves summed |
| CilkQuickSort.QuickSort | lab2/code/parallel-qsort--cilk.cc:177-191 | the region ends sorted and a permutation of its old keys; nothing outside it changes |
| CilkQuickSort.ParallelSort | lab2/code/parallel-qsort--cilk.cc:193-197 | `A[0..N)` ends sorted and a permutation of its input |
| Lab1Sort.NewCopy | code/sort.cc:53-63 | a fresh array of N keys equal to `A[0..N)` |
| Lab1Sort.KeysOnSideCount | code/sort.cc:91-96 | the less, equal and greater keys of a prefix number exactly its length |
| Lab1Sort.KeysOnSideMultiset | code/sort.cc:100-116 | the three stable sub-sequences together hold exactly the keys of the prefix |
| Lab1Sort.CountSides | code/sort.cc:89-96 | the three counts are the sizes of the less, equal and greater sub-sequences |
| Lab1Sort.ScatterStep | code/sort.cc:108-116 | writing one key of `A_orig` to its block's next open slot keeps the scatter invariant |
| Lab1Sort.PlaceKey | code/sort.cc:108-116 | one turn of the write loop: the key of position i goes to the next open slot of its block, and each block's written run becomes the in-order sub-sequence of its keys among positions `0..i` |
| Lab1Sort.Scatter | code/sort.cc:100-119 | the write loop ends with each block's run holding, in their original order, all the keys of its side, and nothing outside the region written |
| Lab1Sort.ScatterEnds | code/sort.cc:117-119 | the three asserts: `i_lt == n_lt`, `i_eq == n_lt+n_eq`, `i_gt == N` |
| Lab1Sort.ScatterDone | code/sort.cc:100-119 | each block holds its keys in their original order, and nothing outside the region changes |
| Lab1Sort.StablePartitioned | code/sort.cc:100-119 | blocks holding the less, equal and greater sub-sequences are a three-way partition |
| Lab1Sort.StablePermuted | code/sort.cc:100-119 | blocks holding the three sub-sequences are a permutation of the region |
| Lab1Sort.Partition | code/sort.cc:69-126 | counts sum to N; the region is partitioned, stably (each block is the in-order sub-sequence of its keys), and a permutation |
| Lab1Sort.QuickSort | code/sort.cc:128-142 | the region ends sorted and a permutation of its old keys |
| Lab1Sort.MergeRunsSorted | code/sort.cc:148-171 | the merge of two sorted runs is sorted |
| Lab1Sort.MergeRunsMultiset | code/sort.cc:148-171 | the merge holds exactly the keys of both runs |
| Lab1Sort.MergeRunsTakeX | code/sort.cc:158-160 | on `a <= b` the merge takes from A first, so ties go to A |
| Lab1Sort.MergeRunsTakeY | code/sort.cc:161-163 | on `a > b` the merge takes from B |
| Lab1Sort.MergeHeads | code/sort.cc:154-166 | the main loop writes a prefix of the merge and stops when one run is used up |
| Lab1Sort.MergeRest | code/sort.cc:167-170 | the tail copy completes the merge |
| Lab1Sort.Merge | code/sort.cc:151-171 | `C[0..na+nb)` becomes the merge of the two runs, and nothing else in C changes |
| Lab1Sort.MergeSortSorted | code/sort.cc:180-184 | merging the two sorted halves of the copy leaves the region sorted |
| Lab1Sort.MergeSortPermuted | code/sort.cc:180-184 | merging the two halves of a copy of the region leaves a permutation of the region |
| Lab1Sort.SortHalves | code/sort.cc:181-183 | both halves of the copy end sorted and the copy keeps its keys |
| Lab1Sort.MergeHalves | code/sort.cc:184 | merging two sorted halves holding the region's keys leaves the region sorted and a permutation of its old keys |
| Lab1Sort.MergeSort | code/sort.cc:173-187 | the region ends sorted and a permutation of its old keys |
| Lab1Sort.AdjacentSorted | code/sort.cc:193-204 | sortedness holds iff every adjacent pair is in order, which is what the checker tests |
| Lab1Sort.AssertIsSorted | code/sort.cc:193-204 | the check passes iff `A[0..N)` is sorted |
| Lab1Sort.AssertEqual | code/sort.cc:206-217 | the check passes iff `A[0..N)` equals `B[0..N)` |
| OmpMerge.FillLeft | code/parallel-mergesort--omp.cc:37-41 | on a tie or a smaller left key, the left key is the next key of the merge |
| OmpMerge.FillRight | code/parallel-mergesort--omp.cc:32-36 | a strictly smaller right key is the next key of the merge |
| OmpMerge.FillNext | code/parallel-mergesort--omp.cc:32-42 | one turn of the main loop writes the next key of the merge and advances exactly one of the two runs: the right one when its key is strictly smaller, otherwise the left one |
| OmpMerge.MergeMain | code/parallel-mergesort--omp.cc:28-43 | the main loop ends with one run used up, having written a prefix of the merge that the rest of the runs completes |
| OmpMerge.RestInOrder | code/parallel-mergesort--omp.cc:45-58 | after the main loop, copying what is left of the runs in order completes the merge |
| OmpMerge.CopyRun | code/parallel-mergesort--omp.cc:45-51 | a tail loop copies the rest of its run in order and touches nothing else |
| OmpMerge.AppendRun | code/parallel-mergesort--omp.cc:45-58 | a tail loop appends the rest of its run, in order, after what was written, and returns the end of the run |
| OmpMerge.Merge | code/parallel-mergesort--omp.cc:15-63 | a fresh array of `end-start` keys holding the merge of `left[start..start+mid)` and `right[start+mid..end)`, ties to the left run |
| OmpMerge.MergeSortedPermutation | code/parallel-mergesort--omp.cc:29-58 | the result of two sorted runs is sorted and a permutation of their concatenation |
| Util.MinInt | lab4/code/mm1d/util.h:10 | the result is at most both arguments and equal to one of them |
| Util.MaxInt | lab4/code/mm1d/util.h:13 | the result is at least both arguments and equal to one of them |
| Util.MinPlusMax | lab4/code/mm1d/util.h:10-13 | `min + max == a + b`, and both are symmetric |
| Util.SwapPointers | lab4/code/mm1d/util.h:16-20 | the two pointer variables exchange their targets |
| Mm1d.BlockLength | lab4/code/mm1d/mm1d.h:25-28 | the length is `n/P` or `n/P + 1`, and the latter exactly for ranks below `n % P` |
| Mm1d.BlockStart | lab4/code/mm1d/mm1d.h:16-19 | a block start lies in `[0, n]` for every rank up to P |
| Mm1d.BlockStartIsSum | lab4/code/mm1d/mm1d.h:16-28 | the start of rank r's block is the sum of the block lengths of ranks 0..r-1 |
| Mm1d.BlockStartMono | lab4/code/mm1d/mm1d.h:16-19 | block starts do not decrease with the rank |
| Mm1d.BlockStartZero | lab4/code/mm1d/mm1d.h:16-19 | rank 0's block starts at 0 |
| Mm1d.BlockStartNext | lab4/code/mm1d/mm1d.h:16-28 | each block starts where the previous one ends |
| Mm1d.BlockStartEnd | lab4/code/mm1d/mm1d.h:16-28 | the block after the last rank starts at n |
| Mm1d.LengthsSum | lab4/code/mm1d/mm1d.h:16-28 | the block lengths of all ranks sum to n |
| Mm1d.BlockWithin | lab4/code/mm1d/mm1d.h:16-28 | each block lies inside `[0, n)` |
| Mm1d.BlocksDisjoint | lab4/code/mm1d/mm1d.h:16-28 | no index lies in the blocks of two different ranks |
| Mm1d.BlocksCover | lab4/code/mm1d/mm1d.h:16-28 | every index of `[0, n)` lies in some rank's block |
| Mm1d.Rank0Longest | lab4/code/mm1d/mm1d.h:25-28 | block lengths do not increase with the rank, so rank 0's block is a longest one |
| Mm1d.ScatterLayout | lab4/code/mm1d/mm1d.c:15-34 | the local size is `m * n_local`; only the root allocates counts and offsets, and they describe `m*len(r)` entries at `m*start(r)` |
| Mm1d.SendLayoutContiguous | lab4/code/mm1d/mm1d.c:28-33 | offsets start at 0, each offset plus its count is the next offset, and the last one ends at `m*n` |
| Mm1d.CountsSum | lab4/code/mm1d/mm1d.c:28-33 | the send counts sum to `m*n` |
| Mm1d.CountsPrefixSum | lab4/code/mm1d/mm1d.c:28-33 | the counts of ranks below r sum to `m` times the start of rank r's block |
| Mm1d.LeftNeighbor | lab4/code/mm1d/mm1d.c:53 | the left neighbour is a rank whose right neighbour is r |
| Mm1d.RightNeighbor | lab4/code/mm1d/mm1d.c:54 | the right neighbour is a rank whose left neighbour is r |
| Mm1d.NeighborsInverse | lab4/code/mm1d/mm1d.c:53-54 | left and right neighbour are inverse maps on the ranks |
| Mm1d.EffectiveRank | lab4/code/mm1d/mm1d.c:69-70 | `r_effective` is a rank that lies `iter` steps to the left of r: adding iter brings it back to r modulo P |
| Mm1d.NextEffectiveRank | lab4/code/mm1d/mm1d.c:79 | `r_effective_next` is a rank that lies `iter+1` steps to the left of r |
| Mm1d.EffectiveRankValue | lab4/code/mm1d/mm1d.c:70 | `(r + P - iter) % P` is `r - iter` or `r + P - iter` |
| Mm1d.NextEffectiveRankIsNext | lab4/code/mm1d/mm1d.c:70-79 | `r_effective_next` at iter is `r_effective` at iter+1, which is the left neighbour's effective rank at iter |
| Mm1d.EffectiveRankInjective | lab4/code/mm1d/mm1d.c:69-70 | no rank is visited twice in P iterations |
| Mm1d.EffectiveRankOnto | lab4/code/mm1d/mm1d.c:69-70 | every rank is visited |
| Mm1d.StepFacts | lab4/code/mm1d/mm1d.c:69-80 | in every iteration `k0 + k_local <= k` and both block lengths fit the `k_local_max` buffers |
| Mm1d.RingSchedule | lab4/code/mm1d/mm1d.c:56-88 | `k_local_max` is rank 0's block length and the steps are the ones the loop computes |
| Mm1d.ScheduleFacts | lab4/code/mm1d/mm1d.c:56-88 | the schedule starts at r, visits every rank exactly once, fits the buffers, and each step's next block is the block of the following step |
| Mat.StripsDisjoint | lab4/code/mm1d/mat.c:43-45 | with leading dimension at least m, the column strips do not overlap |
| Mat.CopyStrip | lab4/code/mm1d/mat.c:124-126 | the `memcpy` of one column: the m destination entries equal the m source entries and nothing else in the destination changes |
| Mat.CopyBlock | lab4/code/mm1d/mat.c:119-127 | `Dest[i + j*ld_dest] == Src[i + j*ld_src]` for i < m and j < n; everything outside the strips is unchanged |
| Mat.SetZero | lab4/code/mm1d/mat.c:110-115 | the first `m*n` entries become zero and the rest are unchanged; a null buffer is left alone |
| Image.IdxInjective | lab8/code/image-reference.cpp:11 | distinct pixels `(i, j)` have distinct offsets `i*width + j` |
| Image.Luma | lab8/code/image-reference.cpp:10 | the shifted weighted sum lies between the darkest and the brightest channel, so it fits in `uint8_t` and the store loses nothing |
| Image.LumaOfGrey | lab8/code/image-reference.cpp:10 | a grey pixel `(v, v, v)` maps to v |
| Image.ConvertPixel | lab8/code/image-reference.cpp:7-11 | the grey entry of pixel p becomes the luma of RGB entries `3p..3p+2`, and no other grey entry changes |
| Image.ConvertRow | lab8/code/image-reference.cpp:6-12 | one outer iteration writes the luma of every pixel of row i and touches no other grey entry |
| Image.ConvertToGrayscale | lab8/code/image-reference.cpp:4-14 | each grey pixel is the luma of its RGB pixel; entries past `w*h` are unchanged, and the RGB image is only read |
| Image.RowPassStep | lab8/code/image-reference.cpp:19-22 | one step of the running row sum keeps "each written entry is its row prefix sum mod 2^32" |
| Image.IntegrateRows | lab8/code/image-reference.cpp:17-23 | after the row pass, entry `(i, j)` is the sum of row i up to column j, mod 2^32 |
| Image.ColumnPassStep | lab8/code/image-reference.cpp:26-29 | one step of the running column sum keeps the column-pass invariant |
| Image.RowsToColumns | lab8/code/image-reference.cpp:17-30 | the row pass's final state is the column pass's initial state |
| Image.IntegrateColumns | lab8/code/image-reference.cpp:24-30 | after the column pass, entry `(i, j)` is the rectangle sum over rows `0..i` and columns `0..j`, mod 2^32 |
| Image.IntegrateImage | lab8/code/image-reference.cpp:16-31 | every entry is its rectangle sum mod 2^32; entries past `w*h` are unchanged |
| Image.RectBound | lab8/code/image-reference.cpp:16-31 | a rectangle sum is at most `255*(rows)*(columns)` |
| Image.NoWrapAround | lab8/code/image-reference.cpp:16-31 | entry `(r, c)` does not wrap around whenever `255*(r+1)*(c+1)` fits in 32 bits |
| Image.NoWrapAroundImage | lab8/code/image-reference.cpp:16-31 | when `255*w*h` fits in 32 bits, no entry of the integral image wraps around |
| PageRankPrep.CountOfNext | lab10/code/pagerank-test.cpp:127-130 | the count of v in a one-longer prefix grows by one exactly when the new entry is v |
| PageRankPrep.HistogramSum | lab10/code/pagerank-test.cpp:127-130 | a histogram of in-range columns sums to the number of links |
| PageRankPrep.HistogramPrefixSum | lab10/code/pagerank-test.cpp:127-130 | the first k histogram entries sum to the number of links whose column is below k |
| PageRankPrep.ZeroPositionsSpec | lab10/code/pagerank-test.cpp:140-149 | the zero positions number the zero entries, increase strictly, are in range, and are exactly the positions of zero entries |
| PageRankPrep.ZeroPositionsNext | lab10/code/pagerank-test.cpp:144-148 | one more page adds its index exactly when its count is zero |
| PageRankPrep.DecrementAll | lab10/code/pagerank-test.cpp:120-125 | the first `count` entries are decreased by one and the rest are unchanged |
| PageRankPrep.Rebase | lab10/code/pagerank-test.cpp:119-125 | every `columns[link]` for `link < links_count` and every `rows[page]` for `page <= pages_count` is decreased by one |
| PageRankPrep.CountOutLinks | lab10/code/pagerank-test.cpp:127-130 | on a fresh zeroed histogram (line 110), `page_links_count[c]` ends as the number of links whose column is c |
| PageRankPrep.CountLinkFreePages | lab10/code/pagerank-test.cpp:132-138 | the count is the number of pages with no out-links |
| PageRankPrep.FillLinkFreePages | lab10/code/pagerank-test.cpp:140-149 | the list is exactly the pages with no out-links, in increasing order |
| PageRankPrep.LinkFreePages | lab10/code/pagerank-test.cpp:132-149 | the fresh list has the counted length and lists exactly the link-free pages, in increasing order |
| PageRankPrep.Preprocess | lab10/code/pagerank-test.cpp:119-149 | the whole pre-processing: rebased indices, a histogram summing to `links_count`, and the link-free page count and list |

## Left out

- Keys are mathematical integers, while the sources use `unsigned long`.
  Only the order of keys is used, and it is the same on that range.
- `int` arithmetic is unbounded throughout. The sources' 32-bit `int`
  indices and sizes (for example `m * n_j`, `i * width + j`) could
  overflow for inputs the model accepts. The integral image is the
  exception: its `uint32_t` accumulator is modelled modulo 2^32.
- The C library's `qsort` is not visible code. `BaselineSort` replaces it
  with an insertion sort that has the same contract: sorted and a
  permutation.
- `rand () % N` is an arbitrary index `r` with `0 <= r < N`, chosen by
  `:|`. The proofs hold for every choice.
- Cilk Plus (`_Cilk_spawn`, `_Cilk_sync`, `_Cilk_for`) and OpenMP run
  sequentially here. Each recursive call's contract says that it touches
  only its own range, which is the disjointness that makes the parallel
  versions safe.
- `malloc` and `free` become `new` and garbage collection. `memcpy` is a
  copy loop on distinct buffers, which is what `restrict`-free callers
  pass.
- `assert` in `sort.cc`'s checkers aborts the program. `AssertIsSorted`
  and `AssertEqual` return whether the check passes instead, and they do
  not print.
- The `display` call and the debug `printf`s in the OpenMP merge are left
  out.
- The MPI calls (`MPI_Scatterv`, `MPI_Sendrecv`, `MPI_Wtime`) and
  `mat_multiply` are left out. The model keeps only the integers that
  drive them.
- Floating-point data is left out: matrices hold `real` values that are
  only copied or zeroed, and the PageRank matrix and probabilities are not
  modelled.
- The disabled `#else` branch of `mergePartitions` is not modelled.
- `Mm1d.RingSchedule`: the loop's pointer swap of the working and receive
  buffers is left out, because it moves no integer. `Util.SwapPointers`
  models it separately.
- `Image.ConvertToGrayscale`, `Image.IntegrateImage`,
  `PageRankPrep.LinkFreePages`, `Lab1Sort.MergeSort` and `OmpMerge.Merge`
  delegate to per-row, per-pass, per-half or per-phase methods
  (`ConvertRow`, `IntegrateRows`, `IntegrateColumns`,
  `CountLinkFreePages`, `FillLinkFreePages`, `SortHalves`, `MergeHalves`,
  `MergeMain`, `AppendRun`). The statements are the source's, grouped so
  that each loop is proved on its own.
- `Image.RowStart` stands for `i * width` in specifications. It is proved
  equal to the product (`RowStartIsProduct`).
- `PageRankPrep.Preprocess` requires the 1-based columns to lie in
  `[1, pages_count]`. The source relies on the input file for this and
  does not check it.
- The file reading, timers, argument parsing and `main` functions are
  left out, and so is the final normalisation of the PageRank matrix.
