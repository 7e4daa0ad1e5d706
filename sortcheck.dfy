/**
 * Distributed sortedness check (MathTool1.c).
 *
 * Rank 0 owns the whole array `t`, cuts it into one contiguous slice per
 * rank with the remainder front-loaded, sends every worker its slice and the
 * element just before it (`prev`), scans its own slice, and folds the
 * workers' (sorted, val) reports in rank order. Every MPI message is a plain
 * value here; the ranks run one after another.
 */
module SortCheck {

  datatype Option<T> = None | Some(value: T)

  /** What a rank, or the whole run, reports: sorted, or the position printed. */
  datatype Verdict = Sorted | Unsorted(pos: int)

  /**
   * A step either completes or reads outside the buffer it was given,
   * which is undefined behaviour in the C program.
   */
  datatype Outcome = Ok(verdict: Verdict) | OutOfBounds

  // ------------------------------------------------------------------
  // Partition: rank 0 and ranks below n % nproc get one extra element
  // ------------------------------------------------------------------

  /** n elements over nproc ranks: `base` = n / nproc each, `rem` = n % nproc left over. */
  datatype Split = Split(base: nat, rem: nat)

  function SplitOf(n: nat, nproc: nat): Split
    requires nproc >= 1
  {
    Split(n / nproc, n % nproc)
  }

  /** Length of rank r's slice: the ranks below `rem` take one extra element. */
  function SliceLen(sp: Split, r: nat): nat
  {
    sp.base + (if r < sp.rem then 1 else 0)
  }

  /** Start of rank i's slice: the lengths of ranks 0 .. i-1 added up. */
  function Offset(sp: Split, i: nat): nat
  {
    if i == 0 then 0 else Offset(sp, i - 1) + SliceLen(sp, i - 1)
  }

  /**
   * Slice length the coordinator sends to worker rank i >= 1: it is the gap
   * between rank i's offset and rank i+1's, so consecutive slices neither
   * overlap nor leave a hole, and every rank's slice ends inside the array.
   */
  function WorkerLen(n: nat, nproc: nat, i: nat): (len: nat)
    requires nproc >= 1
    ensures len == SliceLen(SplitOf(n, nproc), i)
    ensures OffsetFormula(n, nproc, i) + len == OffsetFormula(n, nproc, i + 1)
    ensures i < nproc ==> OffsetFormula(n, nproc, i) + len <= n
  {
    var bufsize := n / nproc;
    assert (i + 1) * bufsize == i * bufsize + bufsize;
    OffsetFormulaInBounds(n, nproc, i + 1);
    if i < n % nproc then bufsize + 1 else bufsize
  }

  /**
   * Slice length rank 0 keeps for itself, one more whenever any remainder
   * exists; this separate rule agrees with the workers' rule at rank 0.
   */
  function CoordinatorLen(n: nat, nproc: nat): (len: nat)
    requires nproc >= 1
    ensures len == SliceLen(SplitOf(n, nproc), 0)
  {
    var bufsize := n / nproc;
    if n % nproc != 0 then bufsize + 1 else bufsize
  }

  /** The closed form the coordinator evaluates for rank i's offset. */
  function OffsetFormula(n: nat, nproc: nat, i: nat): int
    requires nproc >= 1
  {
    i * (n / nproc) + (if i - 1 < n % nproc then i else n % nproc)
  }

  /** The closed form is the running sum of the lengths: no gap, no overlap. */
  lemma {:induction false} OffsetFormulaIsOffset(n: nat, nproc: nat, i: nat)
    requires nproc >= 1
    ensures OffsetFormula(n, nproc, i) == Offset(SplitOf(n, nproc), i)
  {
    if i > 0 {
      OffsetFormulaIsOffset(n, nproc, i - 1);
      var b := n / nproc;
      assert i * b == (i - 1) * b + b;
    }
  }

  /** The slices of all nproc ranks together have exactly n elements. */
  lemma PartitionCoversArray(n: nat, nproc: nat)
    requires nproc >= 1
    ensures Offset(SplitOf(n, nproc), nproc) == n
  {
    OffsetFormulaIsOffset(n, nproc, nproc);
  }

  /** Up to rank nproc, the closed form stays inside the array. */
  lemma OffsetFormulaInBounds(n: nat, nproc: nat, j: nat)
    requires nproc >= 1
    ensures j <= nproc ==> OffsetFormula(n, nproc, j) <= n
  {
    if j <= nproc {
      OffsetFormulaIsOffset(n, nproc, j);
      OffsetMonotone(SplitOf(n, nproc), j, nproc);
      PartitionCoversArray(n, nproc);
    }
  }

  /** Slices come in rank order. */
  lemma {:induction false} OffsetMonotone(sp: Split, i: nat, j: nat)
    requires i <= j
    ensures Offset(sp, i) <= Offset(sp, j)
    decreases j - i
  {
    if i < j {
      OffsetMonotone(sp, i, j - 1);
    }
  }

  /** Every rank's slice lies inside the array. */
  lemma SliceInBounds(n: nat, nproc: nat, i: nat)
    requires nproc >= 1 && i < nproc
    ensures Offset(SplitOf(n, nproc), i) + SliceLen(SplitOf(n, nproc), i) <= n
  {
    SliceEndsBefore(SplitOf(n, nproc), i, nproc);
    PartitionCoversArray(n, nproc);
  }

  /** Rank i's slice ends at or before the start of any later rank j. */
  lemma SliceEndsBefore(sp: Split, i: nat, j: nat)
    requires i < j
    ensures Offset(sp, i) + SliceLen(sp, i) <= Offset(sp, j)
  {
    OffsetMonotone(sp, i + 1, j);
  }

  /**
   * The `prev` read t[offset - 1] is inside the array for every worker when
   * n >= 1; when n == 0 every offset is 0 and the read is t[-1].
   */
  lemma PrevInBounds(n: nat, nproc: nat, i: nat)
    requires nproc >= 1 && 1 <= i < nproc
    ensures n >= 1 ==> 1 <= Offset(SplitOf(n, nproc), i) <= n
    ensures n == 0 ==> Offset(SplitOf(n, nproc), i) == 0
  {
    var sp := SplitOf(n, nproc);
    SliceInBounds(n, nproc, i);
    OffsetMonotone(sp, 1, i);
    if n >= 1 && sp.base == 0 {
      assert sp.rem == n;
    }
  }

  /**
   * The position base each rank recomputes before adding -1, 0 or i+1;
   * with the `starterbuf` the coordinator sent (rank 0's is multiplied
   * by 0) it is the offset the coordinator used for that rank.
   */
  function PositionBase(rank: nat, starterbuf: int, n: nat, nproc: nat): (base: int)
    requires nproc >= 1
    ensures (rank == 0 || starterbuf == n / nproc) ==> base == Offset(SplitOf(n, nproc), rank)
  {
    OffsetFormulaIsOffset(n, nproc, rank);
    rank * starterbuf + (if rank - 1 < n % nproc then rank else n % nproc)
  }

  // ------------------------------------------------------------------
  // Distribution: the messages rank 0 sends every worker
  // ------------------------------------------------------------------

  /**
   * What rank 0 sends worker i: slice length, n / nproc, the slice, the
   * element before it and n. The sorted flag it also sends is always 1.
   */
  datatype WorkerMsg = WorkerMsg(bufsize: nat, starterbuf: nat, slice: seq<int>, prev: int, n: nat)

  /** The message worker i receives when the array is not empty. */
  function MsgFor(t: seq<int>, nproc: nat, i: nat): (m: WorkerMsg)
    requires nproc >= 1 && 1 <= i < nproc && |t| > 0
    ensures 1 <= Offset(SplitOf(|t|, nproc), i)
    ensures Offset(SplitOf(|t|, nproc), i) + SliceLen(SplitOf(|t|, nproc), i) <= |t|
    ensures m.bufsize == |m.slice| == SliceLen(SplitOf(|t|, nproc), i)
    ensures m.starterbuf == |t| / nproc && m.n == |t|
    ensures forall k :: 0 <= k < |m.slice| ==> m.slice[k] == t[Offset(SplitOf(|t|, nproc), i) + k]
    ensures m.prev == t[Offset(SplitOf(|t|, nproc), i) - 1]
    ensures SliceLen(SplitOf(|t|, nproc), i - 1) > 0 ==>
              m.prev == t[Offset(SplitOf(|t|, nproc), i - 1) + SliceLen(SplitOf(|t|, nproc), i - 1) - 1]
  {
    var n := |t|;
    var sp := SplitOf(n, nproc);
    var off := Offset(sp, i);
    var len := SliceLen(sp, i);
    PrevInBounds(n, nproc, i);
    SliceInBounds(n, nproc, i);
    WorkerMsg(len, n / nproc, t[off .. off + len], t[off - 1], n)
  }

  /**
   * The coordinator's send loop. It fails exactly when the array is empty
   * and there is a worker, because the first worker's `prev` is t[-1].
   */
  method Distribute(t: seq<int>, nproc: nat) returns (msgs: Option<seq<WorkerMsg>>)
    requires nproc >= 1
    ensures msgs.None? <==> (|t| == 0 && nproc > 1)
    ensures msgs.Some? ==>
              |msgs.value| == nproc - 1 &&
              forall k :: 0 <= k < nproc - 1 ==> msgs.value[k] == MsgFor(t, nproc, k + 1)
  {
    var n := |t|;
    var remaining := n % nproc;
    var sent: seq<WorkerMsg> := [];
    var i := 1;
    while i < nproc
      invariant 1 <= i <= nproc
      invariant |sent| == i - 1
      invariant i > 1 ==> n > 0
      invariant forall k :: 0 <= k < i - 1 ==> sent[k] == MsgFor(t, nproc, k + 1)
    {
      var starterbuf := n / nproc;
      var bufsize := n / nproc;
      var offset := i * bufsize + (if i - 1 < remaining then i else remaining);
      if i < remaining {
        bufsize := bufsize + 1;
      }
      assert bufsize == WorkerLen(n, nproc, i);
      OffsetFormulaIsOffset(n, nproc, i);
      PrevInBounds(n, nproc, i);
      if offset == 0 {
        // t[offset - 1] would read before the array
        return None;
      }
      var prev := t[offset - 1];
      sent := sent + [WorkerMsg(bufsize, starterbuf, t[offset .. offset + bufsize], prev, n)];
      i := i + 1;
    }
    msgs := Some(sent);
  }

  // ------------------------------------------------------------------
  // Local scan
  // ------------------------------------------------------------------

  /** The adjacent pair (k, k+1) is in order. */
  predicate Ascends(s: seq<int>, k: nat)
    requires k + 1 < |s|
  {
    s[k] <= s[k + 1]
  }

  /** Every adjacent pair (k, k+1) with lo <= k < hi is in order. */
  predicate InOrder(s: seq<int>, lo: int, hi: int)
    requires hi < |s|
  {
    forall k :: 0 <= lo <= k < hi ==> Ascends(s, k)
  }

  /** The least j in [lo, hi) with s[j] > s[j+1], if there is one. */
  function FirstDescent(s: seq<int>, lo: nat, hi: int): (r: Option<nat>)
    requires hi < |s|
    ensures r.Some? ==> lo <= r.value < hi && !Ascends(s, r.value) && InOrder(s, lo, r.value)
    ensures r.None? ==> InOrder(s, lo, hi)
    decreases hi - lo
  {
    if hi <= lo then None
    else if s[lo] > s[lo + 1] then Some(lo)
    else FirstDescent(s, lo + 1, hi)
  }

  /** The first descent is characterised by its two defining properties. */
  lemma {:induction false} FirstDescentIs(s: seq<int>, lo: nat, hi: int, j: nat)
    requires hi < |s| && lo <= j < hi
    requires !Ascends(s, j) && InOrder(s, lo, j)
    ensures FirstDescent(s, lo, hi) == Some(j)
    decreases j - lo
  {
    if lo < j {
      assert Ascends(s, lo);
      FirstDescentIs(s, lo + 1, hi, j);
    }
  }

  /**
   * What one rank's scan of `buf[..bufsize]` reports. A worker first checks
   * the seam against `prev` (reporting the left element), then the first
   * pair, which reads buf[1] even when bufsize == 1 (reporting the left
   * element), then the interior pairs (reporting the right element).
   */
  function ScanSpec(buf: seq<int>, bufsize: nat, hasPrev: bool, base: int, prev: int): Outcome
    requires bufsize <= |buf|
  {
    if bufsize == 0 then Ok(Sorted)
    else if hasPrev && buf[0] < prev then Ok(Unsorted(base - 1))
    else if |buf| < 2 then OutOfBounds
    else if buf[0] > buf[1] then Ok(Unsorted(base))
    else match FirstDescent(buf, 1, bufsize - 1)
      case None => Ok(Sorted)
      case Some(j) => Ok(Unsorted(base + j + 1))
  }

  /**
   * The scan loop every rank runs over its buffer: it stops at the first
   * out-of-order pair met in increasing index order.
   */
  method LocalScan(buf: seq<int>, bufsize: nat, rank: nat, starterbuf: int, prev: int, n: nat, nproc: nat)
    returns (out: Outcome)
    requires nproc >= 1 && bufsize <= |buf|
    ensures out == ScanSpec(buf, bufsize, rank != 0, PositionBase(rank, starterbuf, n, nproc), prev)
    ensures out == Ok(Sorted) ==>
              !(rank != 0 && bufsize > 0 && buf[0] < prev) &&
              InOrder(buf, 0, bufsize - 1)
  {
    var base := PositionBase(rank, starterbuf, n, nproc);
    var i := 0;
    while i < bufsize
      invariant 0 <= i <= bufsize
      invariant i > 0 ==> !(rank != 0 && buf[0] < prev) && |buf| >= 2 && buf[0] <= buf[1]
      invariant forall k :: 1 <= k < i && k < bufsize - 1 ==> Ascends(buf, k)
    {
      if i == 0 && buf[i] < prev && rank != 0 {
        return Ok(Unsorted(base - 1));
      } else if i == 0 && |buf| < 2 {
        // t[i + 1] is past the buffer
        return OutOfBounds;
      } else if i == 0 && buf[i] > buf[i + 1] {
        return Ok(Unsorted(base + i));
      } else if i == bufsize - 1 {
        i := i + 1;
        continue;
      } else if buf[i] > buf[i + 1] {
        FirstDescentIs(buf, 1, bufsize - 1, i);
        return Ok(Unsorted(base + (i + 1)));
      }
      i := i + 1;
    }
    out := Ok(Sorted);
  }

  // ------------------------------------------------------------------
  // Combine on rank 0
  // ------------------------------------------------------------------

  /** Rank 0's fold over the reports of ranks 0 .. k-1. */
  function CombinePrefix(vs: seq<Verdict>, k: nat): (v: Verdict)
    requires k <= |vs|
    ensures v.Sorted? <==> forall r :: 0 <= r < k ==> vs[r].Sorted?
    ensures v.Unsorted? ==> exists r :: 0 <= r < k && vs[r] == v && FirstUnsortedAt(vs, r)
  {
    if k == 0 then Sorted
    else
      var p := CombinePrefix(vs, k - 1);
      if p.Unsorted? then p else vs[k - 1]
  }

  /** Every report before rank r says sorted. */
  predicate FirstUnsortedAt(vs: seq<Verdict>, r: nat)
    requires r <= |vs|
  {
    forall q :: 0 <= q < r ==> vs[q].Sorted?
  }

  /**
   * The receive loop on rank 0: ANDs the flags and keeps the position of
   * the lowest-ranked unsorted report, its own first.
   */
  method Combine(results: seq<Verdict>) returns (f: Verdict)
    requires |results| >= 1
    ensures f == CombinePrefix(results, |results|)
    ensures f.Sorted? <==> forall r :: 0 <= r < |results| ==> results[r].Sorted?
    ensures forall r :: 0 <= r < |results| && results[r].Unsorted? && FirstUnsortedAt(results, r) ==> f == results[r]
  {
    var fSorted := results[0].Sorted?;
    var fVal := if results[0].Unsorted? then results[0].pos else 0;
    var found := !fSorted;
    for i := 1 to |results|
      invariant found == !fSorted
      invariant fSorted <==> CombinePrefix(results, i).Sorted?
      invariant !fSorted ==> CombinePrefix(results, i) == Unsorted(fVal)
    {
      var sorted := results[i].Sorted?;
      fSorted := fSorted && sorted;
      if !sorted && !found {
        fVal := results[i].pos;
        found := true;
      }
    }
    f := if fSorted then Sorted else Unsorted(fVal);
    forall r | 0 <= r < |results| && results[r].Unsorted? && FirstUnsortedAt(results, r)
      ensures f == results[r]
    {
      var w :| 0 <= w < |results| && results[w] == f && FirstUnsortedAt(results, w);
      assert !(w < r) && !(r < w);
    }
  }

  // ------------------------------------------------------------------
  // One whole run
  // ------------------------------------------------------------------

  /** What rank r's scan yields in a run over t. */
  function RankOutcome(t: seq<int>, nproc: nat, r: nat): Outcome
    requires nproc >= 1 && r < nproc && (|t| > 0 || nproc == 1)
  {
    var n := |t|;
    if r == 0 then
      SliceInBounds(n, nproc, 0);
      ScanSpec(t, CoordinatorLen(n, nproc), false, PositionBase(0, n / nproc, n, nproc), 0)
    else
      var m := MsgFor(t, nproc, r);
      ScanSpec(m.slice, m.bufsize, true, PositionBase(r, m.starterbuf, m.n, nproc), m.prev)
  }

  /** The reports of ranks 0 .. k-1, when none of them read out of bounds. */
  function Reports(t: seq<int>, nproc: nat, k: nat): (vs: seq<Verdict>)
    requires nproc >= 1 && k <= nproc && (|t| > 0 || nproc == 1)
    requires forall r :: 0 <= r < k ==> RankOutcome(t, nproc, r).Ok?
    ensures |vs| == k && forall r :: 0 <= r < k ==> RankOutcome(t, nproc, r) == Ok(vs[r])
  {
    if k == 0 then [] else Reports(t, nproc, k - 1) + [RankOutcome(t, nproc, k - 1).verdict]
  }

  /** The outcome of a whole run: undefined if any read goes out of bounds. */
  function RunSpec(t: seq<int>, nproc: nat): Outcome
    requires nproc >= 1
  {
    if |t| == 0 && nproc > 1 then OutOfBounds
    else if exists r :: 0 <= r < nproc && RankOutcome(t, nproc, r).OutOfBounds? then OutOfBounds
    else Ok(CombinePrefix(Reports(t, nproc, nproc), nproc))
  }

  /** The driver of one run: distribute, scan on every rank, combine. */
  method CheckSorted(t: seq<int>, nproc: nat) returns (out: Outcome)
    requires nproc >= 1
    ensures out == RunSpec(t, nproc)
    ensures NoUnitSlice(|t|, nproc) && (|t| > 0 || nproc == 1) ==>
              out == Ok(SequentialVerdict(t, nproc))
  {
    var n := |t|;
    var msgs := Distribute(t, nproc);
    if msgs.None? {
      return OutOfBounds;
    }
    var bufsize := CoordinatorLen(n, nproc);
    SliceInBounds(n, nproc, 0);
    var mine := LocalScan(t, bufsize, 0, n / nproc, 0, n, nproc);
    assert RankOutcome(t, nproc, 0) == mine;
    if mine.OutOfBounds? {
      return OutOfBounds;
    }
    var results := [mine.verdict];
    for i := 1 to nproc
      invariant |results| == i
      invariant forall r :: 0 <= r < i ==> RankOutcome(t, nproc, r) == Ok(results[r])
    {
      var m := msgs.value[i - 1];
      var o := LocalScan(m.slice, m.bufsize, i, m.starterbuf, m.prev, m.n, nproc);
      assert RankOutcome(t, nproc, i) == o;
      if o.OutOfBounds? {
        return OutOfBounds;
      }
      results := results + [o.verdict];
    }
    assert results == Reports(t, nproc, nproc);
    var f := Combine(results);
    out := Ok(f);
    if NoUnitSlice(n, nproc) {
      DistributedMatchesSequential(t, nproc);
    }
  }

  // ------------------------------------------------------------------
  // Agreement with a sequential scan of the whole array
  // ------------------------------------------------------------------

  /** Some rank's slice starts at index k. */
  predicate StartsSlice(sp: Split, nproc: nat, k: int)
  {
    exists r :: 0 <= r < nproc && Offset(sp, r) == k
  }

  /**
   * The position the program prints for the descent (j, j+1): the left
   * element when the pair starts a slice or straddles a seam, otherwise the
   * right element.
   */
  function ReportedPos(sp: Split, nproc: nat, j: nat): int
  {
    if StartsSlice(sp, nproc, j) || StartsSlice(sp, nproc, j + 1) then j else j + 1
  }

  /** A single left-to-right scan of the whole array for its first descent. */
  function SequentialVerdict(t: seq<int>, nproc: nat): (v: Verdict)
    requires nproc >= 1
    ensures v.Sorted? <==> InOrder(t, 0, |t| - 1)
    ensures v.Unsorted? ==>
              exists j :: 0 <= j < |t| - 1 && !Ascends(t, j) && InOrder(t, 0, j) &&
                          (v.pos == j || v.pos == j + 1)
  {
    match FirstDescent(t, 0, |t| - 1)
    case None => Sorted
    case Some(d) => Unsorted(ReportedPos(SplitOf(|t|, nproc), nproc, d))
  }

  /** No rank gets exactly one element (the case whose scan reads buf[1]). */
  predicate NoUnitSlice(n: nat, nproc: nat)
    requires nproc >= 1
  {
    forall r :: 0 <= r < nproc ==> SliceLen(SplitOf(n, nproc), r) != 1
  }

  /** First pair index checked by rank r's scan: its seam for a worker, 0 for rank 0. */
  function CheckedFrom(sp: Split, r: nat): int
  {
    if r == 0 then 0 else Offset(sp, r) - 1
  }

  /** Between two consecutive offsets no slice starts. */
  lemma NoStartInside(sp: Split, nproc: nat, r: nat, k: int)
    requires Offset(sp, r) < k < Offset(sp, r + 1)
    ensures !StartsSlice(sp, nproc, k)
  {
    forall q | 0 <= q < nproc
      ensures Offset(sp, q) != k
    {
      if q <= r {
        OffsetMonotone(sp, q, r);
      } else {
        OffsetMonotone(sp, r + 1, q);
      }
    }
  }

  /** The local verdict rank r's scan should give: its first checked descent, as printed. */
  function ExpectedReport(t: seq<int>, sp: Split, nproc: nat, lo: nat, hi: int): Verdict
    requires hi < |t|
  {
    match FirstDescent(t, lo, hi)
    case None => Sorted
    case Some(j) => Unsorted(ReportedPos(sp, nproc, j))
  }

  /** Searching a window of t is searching t itself, shifted by the window's start. */
  lemma {:induction false} FirstDescentShift(t: seq<int>, off: nat, len: nat, lo: nat, hi: int)
    requires off + len <= |t| && hi < len
    ensures FirstDescent(t[off .. off + len], lo, hi) ==
              match FirstDescent(t, off + lo, off + hi)
              case None => None
              case Some(j) => Some(j - off)
    decreases hi - lo
  {
    var w := t[off .. off + len];
    if lo < hi {
      assert w[lo] == t[off + lo] && w[lo + 1] == t[off + lo + 1];
      FirstDescentShift(t, off, len, lo + 1, hi);
    }
  }

  /**
   * A worker's scan of the window t[off .. off+len) with prev = t[off-1]
   * finds the first descent among the pairs starting at off-1 .. off+len-2,
   * reporting the left element for the first two and the right one after.
   */
  lemma WindowScan(t: seq<int>, off: nat, len: nat)
    requires 1 <= off && off + len <= |t| && len != 1
    ensures ScanSpec(t[off .. off + len], len, true, off, t[off - 1]) ==
              match FirstDescent(t, off - 1, off + len - 1)
              case None => Ok(Sorted)
              case Some(j) => Ok(Unsorted(if j <= off then j else j + 1))
  {
    var buf := t[off .. off + len];
    if len >= 2 {
      assert buf[0] == t[off] && buf[1] == t[off + 1];
      FirstDescentShift(t, off, len, 1, len - 1);
    }
  }

  /**
   * Rank 0's scan of t[0 .. len) finds the first descent among the pairs
   * starting at 0 .. len-2, reporting 0 for the first pair and the right
   * element after.
   */
  lemma PrefixScan(t: seq<int>, len: nat)
    requires len <= |t| && len != 1
    ensures ScanSpec(t, len, false, 0, 0) ==
              match FirstDescent(t, 0, len - 1)
              case None => Ok(Sorted)
              case Some(j) => Ok(Unsorted(if j == 0 then 0 else j + 1))
  {
    var hi: int := len - 1;
    if len >= 2 && t[0] <= t[1] {
      var inner := FirstDescent(t, 1, hi);
      if inner.Some? {
        assert FirstDescent(t, 0, hi) == Some(inner.value);
      } else {
        assert FirstDescent(t, 0, hi) == None;
      }
    } else if len >= 2 {
      assert FirstDescent(t, 0, hi) == Some(0);
    }
  }

  /** Rank 0 (scanning t itself) reports its first descent, as printed. */
  lemma CoordinatorReportsFirstDescent(t: seq<int>, nproc: nat)
    requires nproc >= 1 && (|t| > 0 || nproc == 1) && SliceLen(SplitOf(|t|, nproc), 0) != 1
    ensures Offset(SplitOf(|t|, nproc), 1) - 1 < |t|
    ensures RankOutcome(t, nproc, 0) ==
              Ok(ExpectedReport(t, SplitOf(|t|, nproc), nproc, 0, Offset(SplitOf(|t|, nproc), 1) - 1))
  {
    var n := |t|;
    var sp := SplitOf(n, nproc);
    var len := SliceLen(sp, 0);
    assert Offset(sp, 1) == len;
    SliceInBounds(n, nproc, 0);
    PrefixScan(t, len);
    assert StartsSlice(sp, nproc, 0);
    var fd := FirstDescent(t, 0, (len as int) - 1);
    if fd.Some? && fd.value > 0 {
      NoStartInside(sp, nproc, 0, fd.value);
      NoStartInside(sp, nproc, 0, fd.value + 1);
    }
  }

  /** A worker whose slice is not of length 1 reports its first checked descent, as printed. */
  lemma WorkerReportsFirstDescent(t: seq<int>, nproc: nat, r: nat)
    requires 1 <= r < nproc && |t| > 0 && SliceLen(SplitOf(|t|, nproc), r) != 1
    ensures 1 <= Offset(SplitOf(|t|, nproc), r) && Offset(SplitOf(|t|, nproc), r + 1) - 1 < |t|
    ensures RankOutcome(t, nproc, r) ==
              Ok(ExpectedReport(t, SplitOf(|t|, nproc), nproc, Offset(SplitOf(|t|, nproc), r) - 1,
                                Offset(SplitOf(|t|, nproc), r + 1) - 1))
  {
    var n := |t|;
    var sp := SplitOf(n, nproc);
    var off := Offset(sp, r);
    var len := SliceLen(sp, r);
    assert Offset(sp, r + 1) == off + len;
    SliceInBounds(n, nproc, r);
    PrevInBounds(n, nproc, r);
    var m := MsgFor(t, nproc, r);
    assert m.slice == t[off .. off + len];
    WindowScan(t, off, len);
    assert StartsSlice(sp, nproc, off);
    var fd := FirstDescent(t, off - 1, off + len - 1);
    if fd.Some? && fd.value > off {
      NoStartInside(sp, nproc, r, fd.value);
      NoStartInside(sp, nproc, r, fd.value + 1);
    }
  }

  /** Index k < n lies in the slice of some rank at or after r. */
  lemma {:induction false} OwnerFrom(sp: Split, nproc: nat, k: nat, r: nat)
    requires r <= nproc && Offset(sp, r) <= k < Offset(sp, nproc)
    ensures exists q :: r <= q < nproc && Offset(sp, q) <= k < Offset(sp, q + 1)
    decreases nproc - r
  {
    if k >= Offset(sp, r + 1) {
      OwnerFrom(sp, nproc, k, r + 1);
    }
  }

  /** Rank r's report in a run where no slice has length 1. */
  lemma RankReportsFirstDescent(t: seq<int>, nproc: nat, r: nat)
    requires nproc >= 1 && r < nproc && (|t| > 0 || nproc == 1) && NoUnitSlice(|t|, nproc)
    ensures CheckedFrom(SplitOf(|t|, nproc), r) >= 0
    ensures Offset(SplitOf(|t|, nproc), r + 1) - 1 < |t|
    ensures RankOutcome(t, nproc, r) ==
              Ok(ExpectedReport(t, SplitOf(|t|, nproc), nproc, CheckedFrom(SplitOf(|t|, nproc), r),
                                Offset(SplitOf(|t|, nproc), r + 1) - 1))
  {
    if r == 0 {
      CoordinatorReportsFirstDescent(t, nproc);
    } else {
      WorkerReportsFirstDescent(t, nproc, r);
    }
  }

  /** The fold picks the report of the lowest-ranked unsorted rank. */
  lemma CombinePicksFirst(vs: seq<Verdict>, owner: nat)
    requires owner < |vs| && vs[owner].Unsorted? && FirstUnsortedAt(vs, owner)
    ensures CombinePrefix(vs, |vs|) == vs[owner]
  {
    var c := CombinePrefix(vs, |vs|);
    var w :| 0 <= w < |vs| && vs[w] == c && FirstUnsortedAt(vs, w);
    assert !(w < owner) && !(owner < w);
  }

  /** A rank whose checked pairs all lie in an ordered prefix of t reports sorted. */
  lemma RankInOrderPrefix(t: seq<int>, nproc: nat, r: nat, hi: int)
    requires nproc >= 1 && r < nproc && (|t| > 0 || nproc == 1) && NoUnitSlice(|t|, nproc)
    requires hi < |t| && InOrder(t, 0, hi) && Offset(SplitOf(|t|, nproc), r + 1) - 1 <= hi
    ensures RankOutcome(t, nproc, r) == Ok(Sorted)
  {
    var sp := SplitOf(|t|, nproc);
    RankReportsFirstDescent(t, nproc, r);
    assert InOrder(t, CheckedFrom(sp, r), Offset(sp, r + 1) - 1);
  }

  /** The rank owning the right element of the first descent of t reports it. */
  lemma OwnerReportsDescent(t: seq<int>, nproc: nat, owner: nat, j: nat)
    requires nproc >= 1 && owner < nproc && (|t| > 0 || nproc == 1) && NoUnitSlice(|t|, nproc)
    requires j + 1 < |t| && !Ascends(t, j) && InOrder(t, 0, j)
    requires Offset(SplitOf(|t|, nproc), owner) <= j + 1 < Offset(SplitOf(|t|, nproc), owner + 1)
    ensures RankOutcome(t, nproc, owner) == Ok(Unsorted(ReportedPos(SplitOf(|t|, nproc), nproc, j)))
  {
    var sp := SplitOf(|t|, nproc);
    RankReportsFirstDescent(t, nproc, owner);
    FirstDescentIs(t, CheckedFrom(sp, owner), Offset(sp, owner + 1) - 1, j);
  }

  /**
   * When no slice has length 1 and the run is defined, the distributed
   * check prints what one sequential scan of the whole array would: sorted
   * exactly when every adjacent pair is in order, otherwise the position of
   * the first descent by the seam, first-pair or interior rule.
   */
  lemma DistributedMatchesSequential(t: seq<int>, nproc: nat)
    requires nproc >= 1 && NoUnitSlice(|t|, nproc) && (|t| > 0 || nproc == 1)
    ensures RunSpec(t, nproc) == Ok(SequentialVerdict(t, nproc))
  {
    forall r | 0 <= r < nproc
      ensures RankOutcome(t, nproc, r).Ok?
    {
      RankReportsFirstDescent(t, nproc, r);
    }
    var vs := Reports(t, nproc, nproc);
    assert RunSpec(t, nproc) == Ok(CombinePrefix(vs, nproc));
    CombinedIsFirstDescent(t, nproc);
  }

  /** The folded reports are the first descent of the whole array, as printed. */
  lemma CombinedIsFirstDescent(t: seq<int>, nproc: nat)
    requires nproc >= 1 && NoUnitSlice(|t|, nproc) && (|t| > 0 || nproc == 1)
    requires forall r :: 0 <= r < nproc ==> RankOutcome(t, nproc, r).Ok?
    ensures CombinePrefix(Reports(t, nproc, nproc), nproc) == SequentialVerdict(t, nproc)
  {
    var whole := FirstDescent(t, 0, |t| - 1);
    if whole.None? {
      AllRanksSorted(t, nproc);
    } else {
      FirstUnsortedRank(t, nproc, whole.value);
    }
  }

  /** An ordered array makes every rank report sorted. */
  lemma AllRanksSorted(t: seq<int>, nproc: nat)
    requires nproc >= 1 && NoUnitSlice(|t|, nproc) && (|t| > 0 || nproc == 1)
    requires forall r :: 0 <= r < nproc ==> RankOutcome(t, nproc, r).Ok?
    requires InOrder(t, 0, |t| - 1)
    ensures CombinePrefix(Reports(t, nproc, nproc), nproc) == Sorted
  {
    var sp := SplitOf(|t|, nproc);
    PartitionCoversArray(|t|, nproc);
    var vs := Reports(t, nproc, nproc);
    forall r | 0 <= r < nproc
      ensures vs[r].Sorted?
    {
      OffsetMonotone(sp, r + 1, nproc);
      RankInOrderPrefix(t, nproc, r, |t| - 1);
    }
  }

  /** Every rank before the one holding t[j+1] checks only pairs of the ordered prefix t[..j+1]. */
  lemma RanksBeforeSorted(t: seq<int>, nproc: nat, owner: nat, j: nat)
    requires nproc >= 1 && NoUnitSlice(|t|, nproc) && (|t| > 0 || nproc == 1)
    requires owner < nproc && j < |t| && InOrder(t, 0, j) && Offset(SplitOf(|t|, nproc), owner) <= j + 1
    ensures forall q :: 0 <= q < owner ==> RankOutcome(t, nproc, q) == Ok(Sorted)
  {
    var sp := SplitOf(|t|, nproc);
    forall q | 0 <= q < owner
      ensures RankOutcome(t, nproc, q) == Ok(Sorted)
    {
      OffsetMonotone(sp, q + 1, owner);
      RankInOrderPrefix(t, nproc, q, j);
    }
  }

  /** The rank holding t[j+1], for the first descent j, is the first to report, and reports j's position. */
  lemma FirstUnsortedRank(t: seq<int>, nproc: nat, j: nat)
    requires nproc >= 1 && NoUnitSlice(|t|, nproc) && (|t| > 0 || nproc == 1)
    requires forall r :: 0 <= r < nproc ==> RankOutcome(t, nproc, r).Ok?
    requires j + 1 < |t| && !Ascends(t, j) && InOrder(t, 0, j)
    ensures CombinePrefix(Reports(t, nproc, nproc), nproc) == Unsorted(ReportedPos(SplitOf(|t|, nproc), nproc, j))
  {
    var sp := SplitOf(|t|, nproc);
    PartitionCoversArray(|t|, nproc);
    var vs := Reports(t, nproc, nproc);
    OwnerFrom(sp, nproc, j + 1, 0);
    var owner :| 0 <= owner < nproc && Offset(sp, owner) <= j + 1 < Offset(sp, owner + 1);
    RanksBeforeSorted(t, nproc, owner, j);
    assert FirstUnsortedAt(vs, owner);
    OwnerReportsDescent(t, nproc, owner, j);
    CombinePicksFirst(vs, owner);
  }

  /**
   * The run is undefined exactly when the array is empty with workers, has
   * one element, or some worker gets one element whose seam is in order (so
   * its scan goes on to read buf[1]).
   */
  lemma RunOutOfBoundsExactly(t: seq<int>, nproc: nat)
    requires nproc >= 1
    ensures RunSpec(t, nproc).OutOfBounds? <==>
              (|t| == 0 && nproc > 1) || |t| == 1 ||
              exists r :: 1 <= r < nproc && UnitSliceReadsPast(t, nproc, r)
  {
    var n := |t|;
    if !(n == 0 && nproc > 1) {
      forall r | 1 <= r < nproc
        ensures RankOutcome(t, nproc, r).OutOfBounds? <==> UnitSliceReadsPast(t, nproc, r)
      {
        PrevInBounds(n, nproc, r);
        SliceInBounds(n, nproc, r);
      }
      SliceInBounds(n, nproc, 0);
      assert RankOutcome(t, nproc, 0).OutOfBounds? <==> n == 1;
    }
  }

  /** Worker r holds one element and its seam is in order, so its scan reads buf[1]. */
  predicate UnitSliceReadsPast(t: seq<int>, nproc: nat, r: nat)
    requires nproc >= 1
  {
    var sp := SplitOf(|t|, nproc);
    SliceLen(sp, r) == 1 && 0 < Offset(sp, r) < |t| && t[Offset(sp, r) - 1] <= t[Offset(sp, r)]
  }

  /** [1, 3, 2, 4, 5] on two ranks: rank 0 holds [1, 3, 2] and prints 2, the right element. */
  lemma ExampleInteriorReportsRight()
    ensures RunSpec([1, 3, 2, 4, 5], 2) == Ok(Unsorted(2))
  {
    var t := [1, 3, 2, 4, 5];
    var sp := SplitOf(5, 2);
    assert sp == Split(2, 1);
    assert SliceLen(sp, 0) == 3 && SliceLen(sp, 1) == 2 && Offset(sp, 1) == 3 && Offset(sp, 2) == 5;
    assert NoUnitSlice(5, 2);
    DistributedMatchesSequential(t, 2);
    assert FirstDescent(t, 0, 4) == Some(1);
    NoStartInside(sp, 2, 0, 1);
    NoStartInside(sp, 2, 0, 2);
  }

  /** [1, 2, 3] on three ranks: each worker holds one element and reads past it. */
  lemma ExampleUnitSliceReadsPast()
    ensures RunSpec([1, 2, 3], 3).OutOfBounds?
  {
    var sp := SplitOf(3, 3);
    assert sp == Split(1, 0);
    assert Offset(sp, 1) == 1;
    assert UnitSliceReadsPast([1, 2, 3], 3, 1);
    RunOutOfBoundsExactly([1, 2, 3], 3);
  }
}
