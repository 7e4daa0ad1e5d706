/**
 * Distributed statistics pipeline (MathTool2.c), integer and order parts.
 *
 * Rank 0 splits the vector X over `size` ranks with the remainder on the
 * last rank, scatters it with counts/displs, every rank scans its piece
 * (sum, minimum, maximum, first arg-max, running sums), and the per-rank
 * values are combined as MPI_Reduce, MPI_Scan and MPI_Gatherv would.
 * Values are exact integers; the DBL_MAX seeds are the two infinities of
 * `Ext`. Ranks run one after another, in rank order.
 */
module Stats {

  /** An integer extended with the two seeds -DBL_MAX (NegInf) and DBL_MAX (PosInf). */
  datatype Ext = NegInf | Fin(v: int) | PosInf

  /** Strict order on Ext. */
  predicate Less(a: Ext, b: Ext)
  {
    match a
    case NegInf => !b.NegInf?
    case Fin(x) => b.PosInf? || (b.Fin? && x < b.v)
    case PosInf => false
  }

  // ------------------------------------------------------------------
  // Layout: every rank gets n / size elements, the last one also n % size
  // ------------------------------------------------------------------

  /** `size` ranks, `base` = n / size elements each, `rem` = n % size more on the last. */
  datatype Layout = Layout(size: nat, base: nat, rem: nat)

  /** counts[i]: the remainder goes to the last rank. */
  function Count(lay: Layout, i: nat): nat
  {
    lay.base + (if i == lay.size - 1 then lay.rem else 0)
  }

  /** displs[i], as rank 0 computes it. */
  function Displ(lay: Layout, i: nat): nat
  {
    i * lay.base
  }

  /** The counts of ranks 0 .. i-1 added up: where rank i's piece starts. */
  function RunningSum(lay: Layout, i: nat): nat
  {
    if i == 0 then 0 else RunningSum(lay, i - 1) + Count(lay, i - 1)
  }

  /** The layout has at least one rank and its counts add up to n. */
  predicate Fits(lay: Layout, n: nat)
  {
    lay.size >= 1 && RunningSum(lay, lay.size) == n
  }

  /** Up to the last rank, displs[i] is the running sum of the counts. */
  lemma {:induction false} DisplIsRunningSum(lay: Layout, i: nat)
    requires i < lay.size
    ensures Displ(lay, i) == RunningSum(lay, i)
  {
    if i > 0 {
      DisplIsRunningSum(lay, i - 1);
      assert i * lay.base == (i - 1) * lay.base + lay.base;
    }
  }

  /** The layout rank 0 computes for n elements over size ranks: its counts add up to n. */
  function LayoutOf(n: nat, size: nat): (lay: Layout)
    requires size >= 1
    ensures lay.size == size && Fits(lay, n)
  {
    var lay := Layout(size, n / size, n % size);
    DisplIsRunningSum(lay, size - 1);
    assert size * (n / size) == (size - 1) * (n / size) + n / size;
    lay
  }

  /** The local size every rank computes for itself agrees with rank 0's counts. */
  function LocalN(n: nat, size: nat, rank: nat): (localN: nat)
    requires size >= 1 && rank < size
    ensures localN == Count(LayoutOf(n, size), rank)
  {
    var localN := n / size;
    var remainder := n % size;
    if rank == size - 1 then localN + remainder else localN
  }

  /** The running sum only grows. */
  lemma {:induction false} RunningSumMonotone(lay: Layout, i: nat, j: nat)
    requires i <= j
    ensures RunningSum(lay, i) <= RunningSum(lay, j)
    decreases j - i
  {
    if i < j {
      RunningSumMonotone(lay, i, j - 1);
    }
  }

  /**
   * The pieces rank 0 describes are contiguous, in rank order, and cover
   * [0, n): displs[i+1] == displs[i] + counts[i], and the last piece ends at n.
   */
  lemma LayoutCovers(n: nat, size: nat, i: nat)
    requires size >= 1 && i < size
    ensures i + 1 < size ==>
              Displ(LayoutOf(n, size), i + 1) == Displ(LayoutOf(n, size), i) + Count(LayoutOf(n, size), i)
    ensures Displ(LayoutOf(n, size), size - 1) + Count(LayoutOf(n, size), size - 1) == n
  {
    var lay := LayoutOf(n, size);
    DisplIsRunningSum(lay, size - 1);
    if i + 1 < size {
      DisplIsRunningSum(lay, i + 1);
      DisplIsRunningSum(lay, i);
    }
  }

  /** Piece i lies inside the vector. */
  lemma PieceInBounds(lay: Layout, n: nat, i: nat)
    requires Fits(lay, n) && i < lay.size
    ensures RunningSum(lay, i) + Count(lay, i) == RunningSum(lay, i + 1) <= n
  {
    RunningSumMonotone(lay, i + 1, lay.size);
  }

  /** The loop that fills counts[] and displs[] on rank 0. */
  method BuildLayout(n: nat, size: nat) returns (counts: array<int>, displs: array<int>)
    requires size >= 1
    ensures fresh(counts) && fresh(displs)
    ensures counts.Length == size && displs.Length == size
    ensures forall i :: 0 <= i < size ==>
              counts[i] == Count(LayoutOf(n, size), i) && displs[i] == RunningSum(LayoutOf(n, size), i)
  {
    var base := n / size;
    var remainder := n % size;
    ghost var lay := Layout(size, base, remainder);
    counts := new int[size];
    displs := new int[size];
    for i := 0 to size
      invariant forall k :: 0 <= k < i ==> counts[k] == Count(lay, k)
      invariant forall k :: 0 <= k < i ==> displs[k] == Displ(lay, k)
    {
      counts[i] := base + (if i == size - 1 then remainder else 0);
      displs[i] := i * base;
    }
    forall k | 0 <= k < size
      ensures displs[k] == RunningSum(lay, k)
    {
      DisplIsRunningSum(lay, k);
    }
    assert lay == LayoutOf(n, size);
  }

  // ------------------------------------------------------------------
  // Scatter and gather with counts/displs
  // ------------------------------------------------------------------

  /** What MPI_Scatterv hands rank i: counts[i] elements from displs[i]. */
  function Piece(x: seq<int>, lay: Layout, i: nat): (p: seq<int>)
    requires Fits(lay, |x|) && i < lay.size
    ensures |p| == Count(lay, i)
  {
    PieceInBounds(lay, |x|, i);
    x[RunningSum(lay, i) .. RunningSum(lay, i + 1)]
  }

  /** The pieces of ranks 0 .. k-1. */
  function Pieces(x: seq<int>, lay: Layout, k: nat): (ps: seq<seq<int>>)
    requires Fits(lay, |x|) && k <= lay.size
    ensures |ps| == k
  {
    if k == 0 then [] else Pieces(x, lay, k - 1) + [Piece(x, lay, k - 1)]
  }

  /** Entry i of the pieces is rank i's piece. */
  lemma {:induction false} PiecesAt(x: seq<int>, lay: Layout, k: nat, i: nat)
    requires Fits(lay, |x|) && i < k <= lay.size
    ensures Pieces(x, lay, k)[i] == Piece(x, lay, i)
  {
    if i < k - 1 {
      PiecesAt(x, lay, k - 1, i);
    }
  }

  /** The pieces one after another. */
  function Concat(ps: seq<seq<int>>): seq<int>
  {
    if |ps| == 0 then [] else Concat(ps[..|ps| - 1]) + ps[|ps| - 1]
  }

  /** One piece per rank, each of its rank's count. */
  predicate WellSized(ps: seq<seq<int>>, lay: Layout)
  {
    |ps| == lay.size && forall i :: 0 <= i < lay.size ==> |ps[i]| == Count(lay, i)
  }

  lemma {:induction false} ConcatLength(ps: seq<seq<int>>, lay: Layout, k: nat)
    requires WellSized(ps, lay) && k <= lay.size
    ensures |Concat(ps[..k])| == RunningSum(lay, k)
  {
    if k > 0 {
      assert ps[..k][..k - 1] == ps[..k - 1];
      ConcatLength(ps, lay, k - 1);
    }
  }

  /**
   * What MPI_Gatherv assembles on rank 0 from one piece per rank, each
   * written at its displs[i]: a vector as long as all counts together.
   */
  function Gather(ps: seq<seq<int>>, lay: Layout): (g: seq<int>)
    requires WellSized(ps, lay)
    ensures |g| == RunningSum(lay, lay.size)
  {
    ConcatLength(ps, lay, lay.size);
    assert ps[..lay.size] == ps;
    Concat(ps)
  }

  /** Concat takes one more piece at the end. */
  lemma ConcatSnoc(ps: seq<seq<int>>, p: seq<int>)
    ensures Concat(ps + [p]) == Concat(ps) + p
  {
    assert (ps + [p])[..|ps|] == ps;
  }

  lemma PrefixSplit(x: seq<int>, lo: nat, hi: nat)
    requires lo <= hi <= |x|
    ensures x[..hi] == x[..lo] + x[lo .. hi]
  {
  }

  /** The first k pieces of x, put back together, are the prefix of x they came from. */
  lemma {:induction false} ConcatPieces(x: seq<int>, lay: Layout, k: nat)
    requires Fits(lay, |x|) && k <= lay.size
    ensures RunningSum(lay, k) <= |x|
    ensures Concat(Pieces(x, lay, k)) == x[..RunningSum(lay, k)]
  {
    RunningSumMonotone(lay, k, lay.size);
    if k > 0 {
      ConcatPieces(x, lay, k - 1);
      ConcatPiecesStep(x, lay, k);
    }
  }

  /** One more rank extends both sides of ConcatPieces by the same piece. */
  lemma ConcatPiecesStep(x: seq<int>, lay: Layout, k: nat)
    requires Fits(lay, |x|) && 0 < k <= lay.size
    requires RunningSum(lay, k - 1) <= |x|
    requires Concat(Pieces(x, lay, k - 1)) == x[..RunningSum(lay, k - 1)]
    ensures RunningSum(lay, k) <= |x|
    ensures Concat(Pieces(x, lay, k)) == x[..RunningSum(lay, k)]
  {
    PieceInBounds(lay, |x|, k - 1);
    var lo, hi := RunningSum(lay, k - 1), RunningSum(lay, k);
    assert Piece(x, lay, k - 1) == x[lo .. hi];
    SnocConcat(Pieces(x, lay, k - 1), x, lo, hi);
  }

  /** Pieces that make up x[..lo], followed by x[lo .. hi), make up x[..hi]. */
  lemma SnocConcat(ps: seq<seq<int>>, x: seq<int>, lo: nat, hi: nat)
    requires lo <= hi <= |x| && Concat(ps) == x[..lo]
    ensures Concat(ps + [x[lo .. hi]]) == x[..hi]
  {
    ConcatSnoc(ps, x[lo .. hi]);
    PrefixSplit(x, lo, hi);
  }

  /** Scatter then gather with the same counts/displs gives X back. */
  lemma GatherAfterScatter(x: seq<int>, lay: Layout)
    requires Fits(lay, |x|)
    ensures WellSized(Pieces(x, lay, lay.size), lay)
    ensures Gather(Pieces(x, lay, lay.size), lay) == x
  {
    forall i | 0 <= i < lay.size
      ensures |Pieces(x, lay, lay.size)[i]| == Count(lay, i)
    {
      PiecesAt(x, lay, lay.size, i);
    }
    ConcatPieces(x, lay, lay.size);
  }

  /** Inside the first k pieces put together, piece i sits at [RunningSum(i), RunningSum(i+1)). */
  lemma {:induction false} ConcatPlaces(ps: seq<seq<int>>, lay: Layout, k: nat, i: nat)
    requires WellSized(ps, lay) && i < k <= lay.size
    ensures RunningSum(lay, i + 1) <= |Concat(ps[..k])|
    ensures Concat(ps[..k])[RunningSum(lay, i) .. RunningSum(lay, i + 1)] == ps[i]
  {
    ConcatLength(ps, lay, k);
    RunningSumMonotone(lay, i + 1, k);
    assert ps[..k][..k - 1] == ps[..k - 1];
    var front := Concat(ps[..k - 1]);
    ConcatLength(ps, lay, k - 1);
    assert Concat(ps[..k]) == front + ps[k - 1];
    if i < k - 1 {
      ConcatPlaces(ps, lay, k - 1, i);
      RunningSumMonotone(lay, i + 1, k - 1);
      assert Concat(ps[..k])[RunningSum(lay, i) .. RunningSum(lay, i + 1)]
          == front[RunningSum(lay, i) .. RunningSum(lay, i + 1)];
    }
  }

  /** Gather then scatter with the same counts/displs gives every rank its piece back. */
  lemma ScatterAfterGather(ps: seq<seq<int>>, lay: Layout)
    requires WellSized(ps, lay) && lay.size >= 1
    ensures Fits(lay, |Gather(ps, lay)|)
    ensures Pieces(Gather(ps, lay), lay, lay.size) == ps
  {
    var g := Gather(ps, lay);
    assert ps[..lay.size] == ps;
    forall i | 0 <= i < lay.size
      ensures Pieces(g, lay, lay.size)[i] == ps[i]
    {
      ConcatPlaces(ps, lay, lay.size, i);
      PiecesAt(g, lay, lay.size, i);
    }
  }

  // ------------------------------------------------------------------
  // Local sum, minimum and maximum, and their reductions
  // ------------------------------------------------------------------

  /** The sum of xs, added up from the front. */
  function SumOf(xs: seq<int>): int
  {
    if |xs| == 0 then 0 else SumOf(xs[..|xs| - 1]) + xs[|xs| - 1]
  }

  /** What `if (x < m) m = x` leaves in m. */
  function StepMin(m: Ext, x: int): Ext
  {
    if Less(Fin(x), m) then Fin(x) else m
  }

  /** What `if (x > m) m = x` leaves in m. */
  function StepMax(m: Ext, x: int): Ext
  {
    if Less(m, Fin(x)) then Fin(x) else m
  }

  /** The minimum of xs, seeded with DBL_MAX: the seed when xs is empty, otherwise the least element. */
  function MinOf(xs: seq<int>): (m: Ext)
    ensures |xs| == 0 ==> m == PosInf
    ensures |xs| > 0 ==> m.Fin? && (forall k :: 0 <= k < |xs| ==> m.v <= xs[k]) &&
                         exists k :: 0 <= k < |xs| && xs[k] == m.v
  {
    if |xs| == 0 then PosInf
    else
      var m := StepMin(MinOf(xs[..|xs| - 1]), xs[|xs| - 1]);
      assert |xs| > 1 ==> xs[..|xs| - 1][0] == xs[0];
      m
  }

  /** The maximum of xs, seeded with -DBL_MAX: the seed when xs is empty, otherwise the greatest element. */
  function MaxOf(xs: seq<int>): (m: Ext)
    ensures |xs| == 0 ==> m == NegInf
    ensures |xs| > 0 ==> m.Fin? && (forall k :: 0 <= k < |xs| ==> xs[k] <= m.v) &&
                         exists k :: 0 <= k < |xs| && xs[k] == m.v
  {
    if |xs| == 0 then NegInf
    else
      var m := StepMax(MaxOf(xs[..|xs| - 1]), xs[|xs| - 1]);
      assert |xs| > 1 ==> xs[..|xs| - 1][0] == xs[0];
      m
  }

  /** MPI_MIN on two partial results. */
  function MinOp(a: Ext, b: Ext): Ext
  {
    if Less(b, a) then b else a
  }

  /** MPI_MAX on two partial results. */
  function MaxOp(a: Ext, b: Ext): Ext
  {
    if Less(a, b) then b else a
  }

  /** Summing the halves and adding the results is summing the whole. */
  lemma {:induction false} SumOfAppend(a: seq<int>, b: seq<int>)
    ensures SumOf(a + b) == SumOf(a) + SumOf(b)
    decreases |b|
  {
    if |b| > 0 {
      var b' := b[..|b| - 1];
      assert (a + b)[..|a + b| - 1] == a + b';
      SumOfAppend(a, b');
    } else {
      assert a + b == a;
    }
  }

  /** MPI_MIN of the halves' minima is the minimum of the whole. */
  lemma {:induction false} MinOfAppend(a: seq<int>, b: seq<int>)
    ensures MinOf(a + b) == MinOp(MinOf(a), MinOf(b))
    decreases |b|
  {
    if |b| > 0 {
      var b' := b[..|b| - 1];
      assert (a + b)[..|a + b| - 1] == a + b';
      MinOfAppend(a, b');
    } else {
      assert a + b == a;
    }
  }

  /** MPI_MAX of the halves' maxima is the maximum of the whole. */
  lemma {:induction false} MaxOfAppend(a: seq<int>, b: seq<int>)
    ensures MaxOf(a + b) == MaxOp(MaxOf(a), MaxOf(b))
    decreases |b|
  {
    if |b| > 0 {
      var b' := b[..|b| - 1];
      assert (a + b)[..|a + b| - 1] == a + b';
      MaxOfAppend(a, b');
    } else {
      assert a + b == a;
    }
  }

  /** The loop every rank runs over its piece for local_sum, local_min and local_max. */
  method LocalSummary(localX: seq<int>) returns (sum: int, min: Ext, max: Ext)
    ensures sum == SumOf(localX) && min == MinOf(localX) && max == MaxOf(localX)
  {
    sum := 0;
    min := PosInf;
    max := NegInf;
    for i := 0 to |localX|
      invariant sum == SumOf(localX[..i]) && min == MinOf(localX[..i]) && max == MaxOf(localX[..i])
    {
      assert localX[..i + 1][..i] == localX[..i];
      sum := sum + localX[i];
      if Less(Fin(localX[i]), min) {
        min := Fin(localX[i]);
      }
      if Less(max, Fin(localX[i])) {
        max := Fin(localX[i]);
      }
    }
    assert localX[..|localX|] == localX;
  }

  /**
   * Every rank summarises its scattered piece and the three MPI_Reduce
   * calls fold the results in rank order: the sum, minimum and maximum of
   * the whole vector.
   */
  method ReduceSummaries(x: seq<int>, size: nat) returns (globalSum: int, globalMin: Ext, globalMax: Ext)
    requires size >= 1
    ensures globalSum == SumOf(x) && globalMin == MinOf(x) && globalMax == MaxOf(x)
  {
    var lay := LayoutOf(|x|, size);
    globalSum, globalMin, globalMax := 0, PosInf, NegInf;
    for r := 0 to size
      invariant RunningSum(lay, r) <= |x|
      invariant globalSum == SumOf(x[..RunningSum(lay, r)])
      invariant globalMin == MinOf(x[..RunningSum(lay, r)]) && globalMax == MaxOf(x[..RunningSum(lay, r)])
    {
      var piece := Piece(x, lay, r);
      var s, mn, mx := LocalSummary(piece);
      PieceInBounds(lay, |x|, r);
      PrefixSplit(x, RunningSum(lay, r), RunningSum(lay, r + 1));
      SumOfAppend(x[..RunningSum(lay, r)], piece);
      MinOfAppend(x[..RunningSum(lay, r)], piece);
      MaxOfAppend(x[..RunningSum(lay, r)], piece);
      globalSum := globalSum + s;
      globalMin := MinOp(globalMin, mn);
      globalMax := MaxOp(globalMax, mx);
    }
    assert x[..RunningSum(lay, size)] == x;
  }

  // ------------------------------------------------------------------
  // Arg-max of D and its MAXLOC reduction
  // ------------------------------------------------------------------

  /** j is the first position of the greatest element of d. */
  predicate IsFirstMax(d: seq<int>, j: nat)
    requires j < |d|
  {
    (forall k :: 0 <= k < |d| ==> d[k] <= d[j]) && (forall k :: 0 <= k < j ==> d[k] < d[j])
  }

  /** At most one position is the first position of the maximum. */
  lemma FirstMaxUnique(d: seq<int>, i: nat, j: nat)
    requires i < |d| && j < |d| && IsFirstMax(d, i) && IsFirstMax(d, j)
    ensures i == j
  {
    assert d[i] <= d[j] && d[j] <= d[i];
  }

  /** The position a scan with a strict `>` settles on: the first occurrence of the maximum. */
  function FirstMaxIndex(d: seq<int>): (j: nat)
    requires |d| > 0
    ensures j < |d| && IsFirstMax(d, j)
  {
    if |d| == 1 then 0
    else
      var j := FirstMaxIndex(d[..|d| - 1]);
      if d[|d| - 1] > d[j] then |d| - 1 else j
  }

  /** The (value, index) pair of the MPI_DOUBLE_INT reduction. */
  datatype MaxLoc = MaxLoc(value: Ext, index: int)

  /**
   * The pair a rank holding d at global position displ contributes: the
   * seeds (-DBL_MAX, -1) for an empty piece, otherwise its maximum and the
   * global index of its first occurrence.
   */
  function LocalMaxLoc(d: seq<int>, displ: int): MaxLoc
  {
    if |d| == 0 then MaxLoc(NegInf, -1)
    else MaxLoc(Fin(d[FirstMaxIndex(d)]), displ + FirstMaxIndex(d))
  }

  /**
   * MPI_MAXLOC (section 5.9.4 of the MPI-3.1 standard): the larger value
   * with its index; on equal values the smaller index.
   */
  function MaxLocOp(a: MaxLoc, b: MaxLoc): MaxLoc
  {
    if Less(b.value, a.value) then a
    else if Less(a.value, b.value) then b
    else MaxLoc(a.value, if a.index <= b.index then a.index else b.index)
  }

  /**
   * MAXLOC of the pairs of two adjacent stretches is the pair of the
   * stretch they form: first-occurrence arg-max composes.
   */
  lemma MaxLocAppend(a: seq<int>, b: seq<int>)
    ensures MaxLocOp(LocalMaxLoc(a, 0), LocalMaxLoc(b, |a|)) == LocalMaxLoc(a + b, 0)
  {
    if |a| == 0 {
      assert a + b == b;
    } else if |b| == 0 {
      assert a + b == a;
    } else if a[FirstMaxIndex(a)] >= b[FirstMaxIndex(b)] {
      FirstMaxInLeft(a, b);
    } else {
      FirstMaxInRight(a, b);
    }
  }

  /** When the left stretch's maximum is at least the right one's, the first maximum of both is the left one's. */
  lemma FirstMaxInLeft(a: seq<int>, b: seq<int>)
    requires |a| > 0 && |b| > 0 && a[FirstMaxIndex(a)] >= b[FirstMaxIndex(b)]
    ensures FirstMaxIndex(a + b) == FirstMaxIndex(a)
  {
    var c := a + b;
    var i := FirstMaxIndex(a);
    var j := FirstMaxIndex(b);
    forall m | 0 <= m < |c|
      ensures c[m] <= c[i]
    {
      if m >= |a| {
        assert c[m] == b[m - |a|] <= b[j];
      }
    }
    FirstMaxUnique(c, i, FirstMaxIndex(c));
  }

  /** When the right stretch's maximum is larger, the first maximum of both is the right one's, shifted. */
  lemma FirstMaxInRight(a: seq<int>, b: seq<int>)
    requires |a| > 0 && |b| > 0 && a[FirstMaxIndex(a)] < b[FirstMaxIndex(b)]
    ensures FirstMaxIndex(a + b) == |a| + FirstMaxIndex(b)
  {
    var c := a + b;
    var i := FirstMaxIndex(a);
    var j := FirstMaxIndex(b);
    forall m | 0 <= m < |c|
      ensures c[m] <= c[|a| + j] && (m < |a| + j ==> c[m] < c[|a| + j])
    {
      if m >= |a| {
        assert c[m] == b[m - |a|];
      } else {
        assert c[m] == a[m] <= a[i];
      }
    }
    FirstMaxUnique(c, |a| + j, FirstMaxIndex(c));
  }

  /**
   * The loop on each rank that tracks local_max_D and local_max_index with
   * a strict `>`; the index is rank * (n / size) + i.
   */
  method LocalArgMax(localD: seq<int>, rank: nat, n: nat, size: nat) returns (info: MaxLoc)
    requires size >= 1 && rank < size
    ensures info == LocalMaxLoc(localD, Displ(LayoutOf(n, size), rank))
  {
    var maxD := NegInf;
    var index := -1;
    for i := 0 to |localD|
      invariant i == 0 ==> maxD == NegInf && index == -1
      invariant i > 0 ==> maxD == Fin(localD[FirstMaxIndex(localD[..i])]) &&
                          index == rank * (n / size) + FirstMaxIndex(localD[..i])
    {
      assert localD[..i + 1][..i] == localD[..i];
      if Less(maxD, Fin(localD[i])) {
        maxD := Fin(localD[i]);
        index := rank * (n / size) + i;
      }
    }
    assert |localD| > 0 ==> localD[..|localD|] == localD;
    info := MaxLoc(maxD, index);
  }

  /**
   * Every rank takes the arg-max of its piece of D and MPI_Reduce folds the
   * pairs with MAXLOC in rank order: the first position of the maximum of
   * the whole vector, or the seeds when it is empty.
   */
  method ReduceArgMax(d: seq<int>, size: nat) returns (global: MaxLoc)
    requires size >= 1
    ensures global == LocalMaxLoc(d, 0)
    ensures |d| == 0 ==> global == MaxLoc(NegInf, -1)
    ensures |d| > 0 ==> 0 <= global.index < |d| && global.value == Fin(d[global.index]) && IsFirstMax(d, global.index)
  {
    var lay := LayoutOf(|d|, size);
    global := MaxLoc(NegInf, -1);
    for r := 0 to size
      invariant RunningSum(lay, r) <= |d|
      invariant r > 0 ==> global == LocalMaxLoc(d[..RunningSum(lay, r)], 0)
    {
      var piece := Piece(d, lay, r);
      var info := LocalArgMax(piece, r, |d|, size);
      DisplIsRunningSum(lay, r);
      PieceInBounds(lay, |d|, r);
      ghost var lo, hi := RunningSum(lay, r), RunningSum(lay, r + 1);
      assert piece == d[lo .. hi];
      if r == 0 {
        assert d[..hi] == piece;
        global := info;
      } else {
        MaxLocSplit(d, lo, hi);
        global := MaxLocOp(global, info);
      }
    }
    assert d[..RunningSum(lay, size)] == d;
  }

  /** MAXLOC of the arg-max of d[..lo] and that of d[lo .. hi), placed at lo, is the arg-max of d[..hi]. */
  lemma MaxLocSplit(d: seq<int>, lo: nat, hi: nat)
    requires lo <= hi <= |d|
    ensures MaxLocOp(LocalMaxLoc(d[..lo], 0), LocalMaxLoc(d[lo .. hi], lo)) == LocalMaxLoc(d[..hi], 0)
  {
    PrefixSplit(d, lo, hi);
    MaxLocAppend(d[..lo], d[lo .. hi]);
  }

  // ------------------------------------------------------------------
  // Prefix sums: local running sums shifted by an exclusive scan
  // ------------------------------------------------------------------

  /** The loop on each rank that fills local_prefix with running sums. */
  method LocalPrefix(localX: seq<int>) returns (prefix: array<int>, total: int)
    ensures fresh(prefix) && prefix.Length == |localX| && total == SumOf(localX)
    ensures forall i :: 0 <= i < |localX| ==> prefix[i] == SumOf(localX[..i + 1])
  {
    prefix := new int[|localX|];
    total := 0;
    for i := 0 to |localX|
      invariant total == SumOf(localX[..i])
      invariant forall k :: 0 <= k < i ==> prefix[k] == SumOf(localX[..k + 1])
    {
      assert localX[..i + 1][..i] == localX[..i];
      total := total + localX[i];
      prefix[i] := total;
    }
    assert localX[..|localX|] == localX;
  }

  /** prefix_offset = scan - local total, then added to every local running sum in place. */
  method ShiftPrefix(prefix: array<int>, scanned: int, total: int)
    modifies prefix
    ensures forall i :: 0 <= i < prefix.Length ==> prefix[i] == old(prefix[i]) + (scanned - total)
  {
    var offset := scanned;
    offset := offset - total;
    for i := 0 to prefix.Length
      invariant forall k :: 0 <= k < i ==> prefix[k] == old(prefix[k]) + offset
      invariant forall k :: i <= k < prefix.Length ==> prefix[k] == old(prefix[k])
    {
      prefix[i] := prefix[i] + offset;
    }
  }

  /** MPI_Scan with MPI_SUM (section 5.11.1 of the MPI-3.1 standard): rank r gets vals[0] + ... + vals[r]. */
  function InclusiveScan(vals: seq<int>, r: nat): int
    requires r < |vals|
  {
    SumOf(vals[..r + 1])
  }

  /** The local totals of ranks 0 .. k-1. */
  function Totals(x: seq<int>, lay: Layout, k: nat): (ts: seq<int>)
    requires Fits(lay, |x|) && k <= lay.size
    ensures |ts| == k
  {
    if k == 0 then [] else Totals(x, lay, k - 1) + [SumOf(Piece(x, lay, k - 1))]
  }

  /** Entry i of the totals is the sum of rank i's piece. */
  lemma {:induction false} TotalsAt(x: seq<int>, lay: Layout, k: nat, i: nat)
    requires Fits(lay, |x|) && i < k <= lay.size
    ensures Totals(x, lay, k)[i] == SumOf(Piece(x, lay, i))
  {
    if i < k - 1 {
      TotalsAt(x, lay, k - 1, i);
    }
  }

  /** The totals of the first k ranks add up to the sum of the elements they hold. */
  lemma {:induction false} TotalsSum(x: seq<int>, lay: Layout, k: nat)
    requires Fits(lay, |x|) && k <= lay.size
    ensures RunningSum(lay, k) <= |x|
    ensures SumOf(Totals(x, lay, k)) == SumOf(x[..RunningSum(lay, k)])
  {
    RunningSumMonotone(lay, k, lay.size);
    if k > 0 {
      TotalsSum(x, lay, k - 1);
      TotalsStep(x, lay, k);
    }
  }

  /** One more rank extends both sides of TotalsSum by the same piece. */
  lemma TotalsStep(x: seq<int>, lay: Layout, k: nat)
    requires Fits(lay, |x|) && 0 < k <= lay.size
    requires RunningSum(lay, k - 1) <= |x|
    requires SumOf(Totals(x, lay, k - 1)) == SumOf(x[..RunningSum(lay, k - 1)])
    ensures RunningSum(lay, k) <= |x|
    ensures SumOf(Totals(x, lay, k)) == SumOf(x[..RunningSum(lay, k)])
  {
    PieceInBounds(lay, |x|, k - 1);
    var lo, hi := RunningSum(lay, k - 1), RunningSum(lay, k);
    assert Piece(x, lay, k - 1) == x[lo .. hi];
    SnocSum(Totals(x, lay, k - 1), x, lo, hi);
  }

  /** Sums that agree up to lo still agree after appending the sum of x[lo .. hi). */
  lemma SnocSum(ts: seq<int>, x: seq<int>, lo: nat, hi: nat)
    requires lo <= hi <= |x| && SumOf(ts) == SumOf(x[..lo])
    ensures SumOf(ts + [SumOf(x[lo .. hi])]) == SumOf(x[..hi])
  {
    SumOfSnoc(ts, SumOf(x[lo .. hi]));
    SumOfSplit(x, lo, hi);
  }

  /** The first j totals are the totals of the first j ranks. */
  lemma {:induction false} TotalsPrefix(x: seq<int>, lay: Layout, k: nat, j: nat)
    requires Fits(lay, |x|) && j <= k <= lay.size
    ensures Totals(x, lay, k)[..j] == Totals(x, lay, j)
  {
    if j < k {
      TotalsPrefix(x, lay, k - 1, j);
      PrefixOfSnoc(Totals(x, lay, k - 1), SumOf(Piece(x, lay, k - 1)), j);
    }
  }

  /** Taking j <= |s| elements of s + [v] takes them from s. */
  lemma PrefixOfSnoc(s: seq<int>, v: int, j: nat)
    requires j <= |s|
    ensures (s + [v])[..j] == s[..j]
  {
  }

  /** The sum of the first r + 1 elements less element r is the sum of the first r. */
  lemma SumOfStep(s: seq<int>, r: nat)
    requires r < |s|
    ensures SumOf(s[..r + 1]) - s[r] == SumOf(s[..r])
  {
    assert s[..r + 1][..r] == s[..r];
  }

  /** Appending one value adds it to the sum. */
  lemma SumOfSnoc(s: seq<int>, v: int)
    ensures SumOf(s + [v]) == SumOf(s) + v
  {
    assert (s + [v])[..|s|] == s;
  }

  /** The sum of a prefix is the sum of a shorter prefix plus the sum of the stretch between them. */
  lemma SumOfSplit(x: seq<int>, lo: nat, hi: nat)
    requires lo <= hi <= |x|
    ensures SumOf(x[..hi]) == SumOf(x[..lo]) + SumOf(x[lo .. hi])
  {
    PrefixSplit(x, lo, hi);
    SumOfAppend(x[..lo], x[lo .. hi]);
  }

  /**
   * The inclusive scan minus the rank's own total is the sum of every
   * element held by a lower rank.
   */
  lemma ExclusiveOffset(x: seq<int>, lay: Layout, r: nat)
    requires Fits(lay, |x|) && r < lay.size
    ensures RunningSum(lay, r) <= |x|
    ensures InclusiveScan(Totals(x, lay, lay.size), r) - Totals(x, lay, lay.size)[r] == SumOf(x[..RunningSum(lay, r)])
  {
    SumOfStep(Totals(x, lay, lay.size), r);
    TotalsPrefix(x, lay, lay.size, r);
    TotalsSum(x, lay, r);
  }

  /**
   * A local running sum plus the exclusive offset is the running sum of the
   * whole vector: for the piece p = x[lo .. hi) a rank holds, the sum of its
   * first m elements plus the sum of everything before lo is the sum of the
   * prefix of x that ends at lo + m.
   */
  lemma ShiftedPrefix(x: seq<int>, p: seq<int>, lo: nat, hi: nat, m: nat, end: nat)
    requires lo <= hi <= |x| && m <= hi - lo && p == x[lo .. hi] && end == lo + m
    ensures SumOf(p[..m]) + SumOf(x[..lo]) == SumOf(x[..end])
  {
    SliceHead(x, lo, hi, m);
    SumOfSplit(x, lo, end);
  }

  /** The first m elements of x[lo .. hi) are x[lo .. lo + m). */
  lemma SliceHead(x: seq<int>, lo: nat, hi: nat, m: nat)
    requires lo <= hi <= |x| && m <= hi - lo
    ensures x[lo .. hi][..m] == x[lo .. lo + m]
  {
  }

  /**
   * One rank's part of the prefix step: its running sums, the MPI_Scan
   * result (the totals of the lower ranks, `lowerTotal`, plus its own), and
   * the in-place shift by scan minus own total.
   */
  method RankPrefix(localX: seq<int>, lowerTotal: int) returns (prefix: array<int>, scanned: int)
    ensures fresh(prefix) && prefix.Length == |localX|
    ensures scanned == lowerTotal + SumOf(localX)
    ensures forall i :: 0 <= i < |localX| ==> prefix[i] == lowerTotal + SumOf(localX[..i + 1])
  {
    var total;
    prefix, total := LocalPrefix(localX);
    scanned := lowerTotal + total;
    ShiftPrefix(prefix, scanned, total);
  }

  /**
   * Every rank builds its running sums, MPI_Scan adds up the totals in rank
   * order, every rank shifts by its exclusive offset, and MPI_Gatherv puts
   * the pieces together: element k is X[0] + ... + X[k].
   */
  method DistributedPrefixSums(x: seq<int>, size: nat) returns (prefixSums: seq<int>)
    requires size >= 1
    ensures |prefixSums| == |x|
    ensures forall k :: 0 <= k < |x| ==> prefixSums[k] == SumOf(x[..k + 1])
  {
    var lay := LayoutOf(|x|, size);
    ghost var totals := Totals(x, lay, size);
    var scanned := 0;
    prefixSums := [];
    for r := 0 to size
      invariant RunningSum(lay, r) <= |x|
      invariant |prefixSums| == RunningSum(lay, r)
      invariant forall k :: 0 <= k < |prefixSums| ==> prefixSums[k] == SumOf(x[..k + 1])
      invariant scanned == SumOf(totals[..r])
    {
      var piece := Piece(x, lay, r);
      ExclusiveOffset(x, lay, r);
      TotalsAt(x, lay, size, r);
      assert totals[..r + 1][..r] == totals[..r];
      var prefix;
      prefix, scanned := RankPrefix(piece, scanned);
      assert scanned == InclusiveScan(totals, r);
      var shifted := prefix[..];
      PieceInBounds(lay, |x|, r);
      AppendShifted(x, lay, r, prefixSums, shifted);
      prefixSums := prefixSums + shifted;
    }
  }

  /** The running sums of the lower ranks followed by rank r's shifted ones are the running sums up to rank r's end. */
  lemma AppendShifted(x: seq<int>, lay: Layout, r: nat, acc: seq<int>, p: seq<int>)
    requires Fits(lay, |x|) && r < lay.size && |acc| == RunningSum(lay, r) && |p| == Count(lay, r)
    requires RunningSum(lay, r + 1) <= |x|
    requires forall k :: 0 <= k < |acc| ==> acc[k] == SumOf(x[..k + 1])
    requires forall i :: 0 <= i < |p| ==> p[i] == SumOf(x[..RunningSum(lay, r)]) + SumOf(Piece(x, lay, r)[..i + 1])
    ensures forall k :: 0 <= k < |acc + p| ==> (acc + p)[k] == SumOf(x[..k + 1])
  {
    forall k | |acc| <= k < |acc + p|
      ensures (acc + p)[k] == SumOf(x[..k + 1])
    {
      ShiftedPrefix(x, Piece(x, lay, r), RunningSum(lay, r), RunningSum(lay, r + 1), k - |acc| + 1, k + 1);
    }
  }

  // ------------------------------------------------------------------
  // Below / above the mean
  // ------------------------------------------------------------------

  /** How many elements lie strictly below the mean. */
  function CountBelow(x: seq<int>, mean: real): nat
  {
    if |x| == 0 then 0
    else CountBelow(x[..|x| - 1], mean) + (if (x[|x| - 1] as real) < mean then 1 else 0)
  }

  /** How many elements lie strictly above the mean. */
  function CountAbove(x: seq<int>, mean: real): nat
  {
    if |x| == 0 then 0
    else CountAbove(x[..|x| - 1], mean) + (if (x[|x| - 1] as real) > mean then 1 else 0)
  }

  /** How many elements equal the mean. */
  function CountEqual(x: seq<int>, mean: real): nat
  {
    if |x| == 0 then 0
    else CountEqual(x[..|x| - 1], mean) + (if (x[|x| - 1] as real) == mean then 1 else 0)
  }

  /** The loop on rank 0 that counts below_avg and above_avg. */
  method CountAroundMean(x: seq<int>, mean: real) returns (below: nat, above: nat)
    ensures below == CountBelow(x, mean) && above == CountAbove(x, mean)
  {
    below, above := 0, 0;
    for i := 0 to |x|
      invariant below == CountBelow(x[..i], mean) && above == CountAbove(x[..i], mean)
    {
      assert x[..i + 1][..i] == x[..i];
      if (x[i] as real) < mean {
        below := below + 1;
      } else if (x[i] as real) > mean {
        above := above + 1;
      }
    }
    assert x[..|x|] == x;
  }

  /** Every element is below, above or equal to the mean: so below + above <= n. */
  lemma {:induction false} CountsPartition(x: seq<int>, mean: real)
    ensures CountBelow(x, mean) + CountAbove(x, mean) + CountEqual(x, mean) == |x|
    ensures CountBelow(x, mean) + CountAbove(x, mean) <= |x|
  {
    if |x| > 0 {
      CountsPartition(x[..|x| - 1], mean);
    }
  }

  /** Nothing is counted below the mean exactly when no element is below it. */
  lemma {:induction false} NoneBelowIff(x: seq<int>, mean: real)
    ensures CountBelow(x, mean) == 0 <==> forall i :: 0 <= i < |x| ==> mean <= x[i] as real
  {
    if |x| > 0 {
      var init := x[..|x| - 1];
      NoneBelowIff(init, mean);
      assert forall i :: 0 <= i < |init| ==> init[i] == x[i];
    }
  }

  /** Nothing is counted above the mean exactly when no element is above it. */
  lemma {:induction false} NoneAboveIff(x: seq<int>, mean: real)
    ensures CountAbove(x, mean) == 0 <==> forall i :: 0 <= i < |x| ==> x[i] as real <= mean
  {
    if |x| > 0 {
      var init := x[..|x| - 1];
      NoneAboveIff(init, mean);
      assert forall i :: 0 <= i < |init| ==> init[i] == x[i];
    }
  }
}
