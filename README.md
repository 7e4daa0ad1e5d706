# Distributed array tools over MPI: a Dafny model

The repository holds two MPI programs that split an integer or double
array over `nproc` (or `size`) processes and combine per-process results on
rank 0.

* **MathTool1.c: distributed sortedness check.** Rank 0 cuts the array `t`
  into contiguous slices of `n / nproc` elements. When `n % nproc != 0`,
  rank 0 and every worker `i < n % nproc` get one extra element. Rank 0 sends each worker its slice, `n / nproc`
  (`starterbuf`), the element just before the slice (`prev`) and `n`. Each
  rank scans its slice once and stops at the first out-of-order pair. It
  reports the position of the left element for a seam violation or a
  first-pair violation, and of the right element for an interior pair.
  Rank 0 ANDs the flags and keeps the position of the lowest-ranked
  unsorted report. Module `SortCheck`, file `sortcheck.dfy`.
* **MathTool2.c: distributed statistics, integer and order parts.** The
  last rank takes the remainder (`counts`, `displs`, `local_n`). The vector
  is scattered with `MPI_Scatterv`. Each rank computes its sum, minimum,
  maximum, first-occurrence arg-max and running sums. These are combined
  with MPI_SUM/MIN/MAX, with MPI_MAXLOC (section 5.9.4 of the MPI-3.1
  standard) and with an inclusive MPI_Scan (section 5.11.1 of the MPI-3.1
  standard) corrected to an exclusive offset. The pieces are put back with
  `MPI_Gatherv`, and the elements below and above the mean are counted.
  Module `Stats`, file `stats.dfy`.

Every MPI message is a plain value, and the ranks run one after another
in rank order. Arrays that the code only reads are `seq<int>`. Arrays it
fills or updates in place (`counts`, `displs`, `local_prefix`) are Dafny
`array`s. Reads outside a buffer, which are undefined behaviour in C, are
an explicit `OutOfBounds` outcome in `SortCheck`.

On `[1, 3, 2, 4, 5]` with two processes the program prints 2: rank 0
holds `[1, 3, 2]`, and (1, 2) is an interior pair, whose right element is
printed (MathTool1.c:147). `SortCheck.ExampleInteriorReportsRight` proves
that the model reports 2.

## Model

| member | source | states |
|---|---|---|
| SortCheck.WorkerLen | MathTool1.c:59-69 | worker i's slice length is exactly the gap between its offset and worker i+1's, so consecutive slices neither overlap nor leave a hole, and for i < nproc the slice ends inside t |
| SortCheck.CoordinatorLen | MathTool1.c:87-89 | rank 0's own rule (one more whenever n % nproc != 0) gives the same length as the worker rule at rank 0 |
| SortCheck.OffsetFormulaIsOffset | MathTool1.c:66 | `i*(n/nproc) + (i-1 < rem ? i : rem)` is the sum of the lengths of ranks 0..i-1, so slices are contiguous and in rank order |
| SortCheck.PartitionCoversArray | MathTool1.c:54-89 | the lengths of all nproc slices add up to n |
| SortCheck.OffsetMonotone | MathTool1.c:66 | slice offsets never decrease with the rank |
| SortCheck.SliceInBounds | MathTool1.c:66-77 | offset(i) + len(i) <= n for every rank, so `t + offset` with `bufsize` elements lies inside t |
| SortCheck.PrevInBounds | MathTool1.c:72 | for n >= 1 every worker's `prev` index offset-1 is in [0, n); for n == 0 the offset is 0 and the read is t[-1] |
| SortCheck.PositionBase | MathTool1.c:121-147 | the base each rank recomputes from `starterbuf` equals the offset rank 0 used for it |
| SortCheck.MsgFor | MathTool1.c:57-80 | worker i receives its slice t[offset..offset+len), n/nproc, n, and `prev` = t[offset-1], which is the last element of rank i-1 when that slice is not empty |
| SortCheck.Distribute | MathTool1.c:54-81 | the send loop fails exactly when t is empty and there is a worker; otherwise it produces nproc-1 messages, the i-th being MsgFor(t, nproc, i) |
| SortCheck.FirstDescent | MathTool1.c:108-151 | the first index j in [lo, hi) with s[j] > s[j+1]; all pairs before it are in order, and None means every pair is in order |
| SortCheck.FirstDescentIs | MathTool1.c:108-151 | an out-of-order pair with every earlier pair in order is the first descent |
| SortCheck.LocalScan | MathTool1.c:108-151 | the scan loop stops at the first violation in index order and reports base-1 (seam), base (first pair) or base+i+1 (interior), or reads past a one-element buffer; sorted means the seam and every pair are in order |
| SortCheck.Combine | MathTool1.c:156-181 | the fold is sorted iff every rank reports sorted, and otherwise yields the report of the lowest-ranked unsorted process |
| SortCheck.CombinePrefix | MathTool1.c:156-181 | the fold over ranks 0..k-1 is sorted iff all are sorted, and otherwise equals an unsorted report with every earlier rank sorted |
| SortCheck.CombinePicksFirst | MathTool1.c:172-180 | the fold keeps the report of the first unsorted rank, whatever later ranks say |
| SortCheck.CheckSorted | MathTool1.c:52-181 | a whole run is the run outcome; with no one-element slice and a defined run it prints what one sequential scan of t would |
| SortCheck.SequentialVerdict | MathTool1.c:108-181 | the sequential reference: sorted iff every adjacent pair of t is in order, otherwise the first descent j reported as j or j+1 |
| SortCheck.WindowScan | MathTool1.c:108-151 | a worker's scan of its window with `prev` finds the first descent among the pairs from offset-1, reported by the seam/interior rule |
| SortCheck.PrefixScan | MathTool1.c:108-151 | rank 0's scan finds the first descent of its prefix, reporting 0 for the first pair and the right element after it |
| SortCheck.CoordinatorReportsFirstDescent | MathTool1.c:108-151 | rank 0's report is the first descent among the pairs it checks, as printed |
| SortCheck.WorkerReportsFirstDescent | MathTool1.c:108-151 | a worker's report is the first descent among the pairs from its seam to its last element, as printed |
| SortCheck.OwnerFrom | MathTool1.c:57-69 | every index below n lies in exactly the slice of some rank |
| SortCheck.RankInOrderPrefix | MathTool1.c:108-151 | a rank whose checked pairs all lie in an ordered prefix of t reports sorted |
| SortCheck.OwnerReportsDescent | MathTool1.c:108-151 | the rank holding t[j+1] for the first descent j reports j's printed position |
| SortCheck.RanksBeforeSorted | MathTool1.c:108-151 | every rank before that owner reports sorted |
| SortCheck.AllRanksSorted | MathTool1.c:156-181 | an ordered array makes the fold report sorted |
| SortCheck.FirstUnsortedRank | MathTool1.c:156-181 | for an unordered array the fold reports the first descent's position |
| SortCheck.DistributedMatchesSequential | MathTool1.c:108-181 | with no one-element slice and a defined run, the distributed result equals the sequential scan: sorted iff all adjacent pairs are in order, otherwise the first descent by the seam, first-pair or interior rule |
| SortCheck.RunOutOfBoundsExactly | MathTool1.c:72-139 | a run reads outside a buffer iff t is empty with workers, t has one element, or some worker holds one element whose seam is in order |
| SortCheck.ExampleInteriorReportsRight | MathTool1.c:140-149 | [1,3,2,4,5] on two processes reports position 2, the right element of the interior descent |
| SortCheck.ExampleUnitSliceReadsPast | MathTool1.c:124-139 | [1,2,3] on three processes gives every rank one element and the run reads t[1] past a worker's buffer |
| Stats.LayoutOf | MathTool2.c:52-53 | the counts for n elements over size ranks add up to n |
| Stats.LocalN | MathTool2.c:52-58 | the `local_n` each rank computes equals rank 0's `counts[rank]` |
| Stats.DisplIsRunningSum | MathTool2.c:66-69 | `displs[i] = i*(n/size)` is the sum of the counts of ranks 0..i-1 |
| Stats.LayoutCovers | MathTool2.c:66-69 | displs[i+1] == displs[i] + counts[i], and displs[size-1] + counts[size-1] == n |
| Stats.RunningSumMonotone | MathTool2.c:66-69 | piece starts never decrease with the rank |
| Stats.PieceInBounds | MathTool2.c:66-73 | every rank's piece lies inside X |
| Stats.BuildLayout | MathTool2.c:63-70 | the fill loop writes counts[i] and displs[i] as above, and every displs[i] is the running sum of the counts |
| Stats.Piece | MathTool2.c:73 | what MPI_Scatterv hands rank i has counts[i] elements |
| Stats.Gather | MathTool2.c:119 | what MPI_Gatherv assembles is as long as all the counts together |
| Stats.PiecesAt | MathTool2.c:73 | entry i of the scattered pieces is exactly the piece rank i receives |
| Stats.ConcatPieces | MathTool2.c:73 | the first k scattered pieces, put back together, are the prefix of X they came from |
| Stats.GatherAfterScatter | MathTool2.c:73-163 | scatter then gather with the same counts/displs reproduces X |
| Stats.ConcatPlaces | MathTool2.c:119-163 | in the gathered vector, rank i's piece sits at [displs[i], displs[i]+counts[i]) |
| Stats.ScatterAfterGather | MathTool2.c:119-163 | gather then scatter with the same counts/displs gives every rank its piece back |
| Stats.MinOf | MathTool2.c:76-82 | the DBL_MAX seed survives an empty piece; otherwise the minimum is an element and no element is smaller |
| Stats.MaxOf | MathTool2.c:76-82 | the -DBL_MAX seed survives an empty piece; otherwise the maximum is an element and no element is larger |
| Stats.SumOfAppend | MathTool2.c:85 | MPI_SUM of two pieces' sums is the sum of the two pieces together |
| Stats.MinOfAppend | MathTool2.c:86 | MPI_MIN of two pieces' minima is the minimum of the two pieces together |
| Stats.MaxOfAppend | MathTool2.c:87 | MPI_MAX of two pieces' maxima is the maximum of the two pieces together |
| Stats.LocalSummary | MathTool2.c:76-82 | the loop leaves local_sum, local_min and local_max equal to the sum, minimum and maximum of the piece |
| Stats.ReduceSummaries | MathTool2.c:73-87 | the reductions of the per-rank results are the sum, minimum and maximum of the whole vector |
| Stats.FirstMaxIndex | MathTool2.c:122-129 | a scan with a strict `>` settles on the first position of the maximum |
| Stats.FirstMaxUnique | MathTool2.c:122-129 | the first position of the maximum is unique |
| Stats.LocalArgMax | MathTool2.c:122-129 | local_max_index is displs[rank] + the first position of the piece's maximum, or -1 with -DBL_MAX for an empty piece |
| Stats.MaxLocAppend | MathTool2.c:137-141 | MAXLOC of two adjacent stretches' pairs is the first-occurrence arg-max pair of the stretches together |
| Stats.FirstMaxInLeft | MathTool2.c:137-141 | when the left stretch's maximum is at least the right one's, the first maximum of both is the left one's (ties go to the smaller index) |
| Stats.FirstMaxInRight | MathTool2.c:137-141 | when the right stretch's maximum is strictly larger, the first maximum of both is the right one's, shifted by the left length |
| Stats.ReduceArgMax | MathTool2.c:119-141 | the MAXLOC reduction of the per-rank pairs gives the maximum of the whole vector and the first index where it occurs, or (-DBL_MAX, -1) when the vector is empty |
| Stats.LocalPrefix | MathTool2.c:144-149 | local_prefix[i] is the sum of the piece's first i+1 elements, and local_prefix_sum is its total |
| Stats.ShiftPrefix | MathTool2.c:153-156 | every local_prefix[i] grows by scan minus the local total, in place |
| Stats.RankPrefix | MathTool2.c:144-156 | after the scan and the shift, local_prefix[i] is the lower ranks' total plus the piece's running sum |
| Stats.TotalsAt | MathTool2.c:152 | the total rank i contributes to the scan is the sum of its piece |
| Stats.TotalsPrefix | MathTool2.c:152 | the scan over ranks 0..j sees exactly the totals of those ranks |
| Stats.TotalsSum | MathTool2.c:152 | the totals of the first k ranks add up to the sum of the elements they hold |
| Stats.ExclusiveOffset | MathTool2.c:152-153 | the inclusive scan minus the rank's own total is the sum of every element held by a lower rank |
| Stats.ShiftedPrefix | MathTool2.c:153-156 | for a piece x[lo..hi), its running sum over the first m elements plus the sum of everything before lo is the running sum of X up to lo+m |
| Stats.AppendShifted | MathTool2.c:163 | gathering rank r's shifted sums after those of the lower ranks keeps every entry a global running sum |
| Stats.DistributedPrefixSums | MathTool2.c:144-163 | the gathered prefix_sums[k] is X[0] + ... + X[k] for every k |
| Stats.CountAroundMean | MathTool2.c:167-171 | below_avg and above_avg count the elements strictly below and strictly above the mean |
| Stats.CountsPartition | MathTool2.c:167-171 | every element is below, above or equal to the mean, so below_avg + above_avg <= n |
| Stats.NoneBelowIff | MathTool2.c:169 | below_avg is 0 exactly when no element is below the mean |
| Stats.NoneAboveIff | MathTool2.c:170 | above_avg is 0 exactly when no element is above the mean |

## Left out

- MPI itself is not modelled: initialisation, point-to-point messages, broadcasts, MPI_Scatterv/Gatherv, MPI_Reduce and MPI_Scan. Only their effect on values is modelled, with the ranks run one after another in rank order. Concurrency and message order are not captured.
- Console input and output, the menu and "run again" loops, `print_vector`, `system("clear || cls")`, and malloc/free with their missing allocation checks are left out. They are I/O and memory management.
- The `sorted` flag rank 0 sends every worker (always 1) is left out. So is the `val` a sorted rank sends back: it is stale or uninitialised, and rank 0 never uses it.
- SortCheck.LocalScan: rank 0 compares `t[0] < prev` before testing `rank != 0`. Its `prev` holds the last worker's `prev` when nproc >= 2 (line 72) and is uninitialised when nproc == 1. Either way the `rank != 0` test makes the comparison irrelevant, so the model takes the result of that test alone.
- SortCheck.DistributedMatchesSequential: stated only when no slice has one element and the run is defined. Runs with a one-element worker slice are described by SortCheck.RunOutOfBoundsExactly instead.
- 32-bit `int` overflow in `i * bufsize` and `i * (n / size)` is not modelled. Integers are unbounded.
- The size `n` read with `scanf` (MathTool1.c:39, MathTool2.c:37) is a natural number in the model (SortCheck.Distribute, Stats.LayoutOf). A negative size, which the C code passes to `malloc` and `%` unchecked, is not modelled.
- Floating point in MathTool2.c is left out: the mean `global_sum / n` (line 91), the variance terms and `/ n` (lines 100-105, 180), and rounding in the sums. Values are exact integers, and the mean is a real-valued input to Stats.CountAroundMean.
- The percentage vector D (lines 108-111) is not computed. It divides by zero when the maximum equals the minimum. Stats.ReduceArgMax and Stats.LocalArgMax work on an arbitrary integer vector D, whose pieces stand for each rank's `local_D`.
- The DBL_MAX and -DBL_MAX seeds are the two infinities of `Stats.Ext`, strictly beyond every integer. A double element equal to DBL_MAX has no counterpart.
- The reductions fold in rank order. The model does not prove that another combination order gives the same result.
