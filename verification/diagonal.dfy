/**
 * The anti-diagonal solver of lcs_parallel_diagonal.cpp.
 *
 * The table dp has |s1| + 1 rows and |s2| + 1 columns; cell dp[i, j] is
 * Table(s1, s2, i, j). Diagonal d (1-based) holds the cells (i, d - i + 1). Its
 * in-grid cells are cut into T chunks of ceil(size / T) cells, chunk t going to
 * worker t; all workers meet at a barrier before the next diagonal. The model
 * runs the diagonals in increasing order and, inside diagonal d, the chunks in
 * the order given by `schedules[d - 1]`, any permutation of the worker ids, which
 * may differ from one diagonal to the next: the cells of one diagonal only read
 * earlier diagonals, so every order gives the same table.
 */
module DiagonalWavefront {
  import opened Recurrence
  import Partition

  function Min(x: int, y: int): int
  {
    if x <= y then x else y
  }

  /** Cell (x, d - x + 1) of diagonal d is a non-border cell of the n-by-m grid. */
  predicate OnDiagonal(n: nat, m: nat, d: int, x: int)
  {
    1 <= x <= n && 1 <= d - x + 1 <= m
  }

  /**
   * The row range [base_start, base_end] of diagonal d (lines 51-52): exactly
   * the rows of its in-grid cells.
   */
  function DiagonalRange(n: nat, m: nat, d: int): (r: (int, int))
    ensures forall x :: OnDiagonal(n, m, d, x) <==> r.0 <= x <= r.1
  {
    (Max(1, d - m + 1), Min(n, d))
  }

  /**
   * The number of cells of diagonal d (line 47): base_end - base_start + 1,
   * never negative on the diagonals the solver visits, and positive there when
   * both inputs are non-empty.
   */
  function DiagonalSize(n: nat, m: nat, d: int): (size: int)
    ensures size == DiagonalRange(n, m, d).1 - DiagonalRange(n, m, d).0 + 1
    ensures 1 <= d <= n + m - 1 ==> size >= 0
    ensures 1 <= d <= n + m - 1 && n >= 1 && m >= 1 ==> size >= 1
  {
    Min(d, n) - Max(1, d - m + 1) + 1
  }

  /** The chunk length (line 48), with non-negative operands as on every visited diagonal. */
  function ChunkSize(size: nat, T: nat): int
    requires T >= 1
  {
    (size + T - 1) / T
  }

  /** The chunk length is the ceiling of size / T: T chunks hold the diagonal, T - 1 do not. */
  lemma ChunkSizeIsCeiling(size: nat, T: nat)
    requires T >= 1
    ensures ChunkSize(size, T) >= 0
    ensures ChunkSize(size, T) * T >= size
    ensures size > 0 ==> ChunkSize(size, T) >= 1 && (ChunkSize(size, T) - 1) * T < size
  {
    var c := ChunkSize(size, T);
    var rem := (size + T - 1) % T;
    assert size + T - 1 == c * T + rem;
    assert (c - 1) * T == c * T - T;
  }

  /** Worker t's slice [start, end) of diagonal d (lines 55-56). */
  function ChunkStart(n: nat, m: nat, T: nat, d: int, t: nat): int
    requires T >= 1 && 1 <= d <= n + m - 1
  {
    DiagonalRange(n, m, d).0 + t * ChunkSize(DiagonalSize(n, m, d), T)
  }

  function ChunkEnd(n: nat, m: nat, T: nat, d: int, t: nat): int
    requires T >= 1 && 1 <= d <= n + m - 1
  {
    Min(DiagonalRange(n, m, d).1 + 1, ChunkStart(n, m, T, d, t) + ChunkSize(DiagonalSize(n, m, d), T))
  }

  /** Row x of diagonal d is in worker t's slice. */
  predicate InChunk(n: nat, m: nat, T: nat, d: int, t: nat, x: int)
  {
    T >= 1 && 1 <= d <= n + m - 1 && ChunkStart(n, m, T, d, t) <= x < ChunkEnd(n, m, T, d, t)
  }

  /** Each slice lies within the diagonal's range and holds at most ChunkSize cells. */
  lemma ChunkWithinDiagonal(n: nat, m: nat, T: nat, d: int, t: nat)
    requires T >= 1 && 1 <= d <= n + m - 1
    ensures DiagonalRange(n, m, d).0 <= ChunkStart(n, m, T, d, t)
    ensures ChunkEnd(n, m, T, d, t) <= DiagonalRange(n, m, d).1 + 1
    ensures ChunkEnd(n, m, T, d, t) - ChunkStart(n, m, T, d, t) <= ChunkSize(DiagonalSize(n, m, d), T)
    ensures forall x :: InChunk(n, m, T, d, t, x) ==> OnDiagonal(n, m, d, x)
  {
    ChunkSizeIsCeiling(DiagonalSize(n, m, d), T);
    Partition.MulMonotone(0, t, ChunkSize(DiagonalSize(n, m, d), T));
  }

  /** The worker whose slice holds row x of diagonal d. */
  function Owner(n: nat, m: nat, T: nat, d: int, x: int): (t: nat)
    requires T >= 1 && OnDiagonal(n, m, d, x)
    ensures t < T && InChunk(n, m, T, d, t, x)
  {
    var first := DiagonalRange(n, m, d).0;
    SliceIndex(x - first, DiagonalSize(n, m, d), T);
    (x - first) / ChunkSize(DiagonalSize(n, m, d), T)
  }

  /** Offset k of a diagonal of `size` cells falls in slice k / ChunkSize, one of the T slices. */
  lemma SliceIndex(k: nat, size: nat, T: nat)
    requires T >= 1 && k < size
    ensures ChunkSize(size, T) >= 1
    ensures 0 <= k / ChunkSize(size, T) < T
    ensures k / ChunkSize(size, T) * ChunkSize(size, T) <= k < k / ChunkSize(size, T) * ChunkSize(size, T) + ChunkSize(size, T)
  {
    var c := ChunkSize(size, T);
    ChunkSizeIsCeiling(size, T);
    var t := k / c;
    assert k == t * c + k % c;
    if t >= T {
      Partition.MulMonotone(T, t, c);
    }
  }

  /** No two workers' slices of one diagonal share a row. */
  lemma ChunksDisjoint(n: nat, m: nat, T: nat, d: int, t1: nat, t2: nat, x: int)
    requires InChunk(n, m, T, d, t1, x) && InChunk(n, m, T, d, t2, x)
    ensures t1 == t2
  {
    SameSlice(t1, t2, ChunkSize(DiagonalSize(n, m, d), T), x - DiagonalRange(n, m, d).0);
  }

  /** An offset lies in at most one of the consecutive slices of length c. */
  lemma SameSlice(t1: nat, t2: nat, c: int, k: int)
    requires t1 * c <= k < t1 * c + c && t2 * c <= k < t2 * c + c
    ensures t1 == t2
  {
    assert (t1 + 1) * c == t1 * c + c;
    assert (t2 + 1) * c == t2 * c + c;
    if c >= 0 {
      if t1 < t2 {
        Partition.MulMonotone(t1 + 1, t2, c);
      } else if t2 < t1 {
        Partition.MulMonotone(t2 + 1, t1, c);
      }
    }
  }

  /**
   * Over the diagonals 1..n+m-1 and the workers 0..T-1, every non-border cell
   * (x, y) is written by exactly one (diagonal, worker) pair, and no slice
   * holds a cell outside the grid.
   */
  lemma CellWrittenOnce(n: nat, m: nat, T: nat, x: int, y: int)
    requires T >= 1 && 1 <= x <= n && 1 <= y <= m
    ensures 1 <= x + y - 1 <= n + m - 1
    ensures InChunk(n, m, T, x + y - 1, Owner(n, m, T, x + y - 1, x), x)
    ensures forall d, t: nat :: t < T && InChunk(n, m, T, d, t, x) && d - x + 1 == y ==>
              d == x + y - 1 && t == Owner(n, m, T, d, x)
  {
    forall d, t: nat | t < T && InChunk(n, m, T, d, t, x) && d - x + 1 == y
      ensures d == x + y - 1 && t == Owner(n, m, T, d, x)
    {
      ChunksDisjoint(n, m, T, d, t, Owner(n, m, T, d, x), x);
    }
  }

  /** schedule lists every worker id 0..T-1 once: the order the slices of a diagonal run in. */
  predicate ValidSchedule(T: nat, schedule: seq<nat>)
  {
    |schedule| == T
    && (forall k :: 0 <= k < |schedule| ==> schedule[k] < T)
    && (forall t :: 0 <= t < T ==> t in schedule)
  }

  /** One valid schedule for each of the first `diagonals` diagonals (at least). */
  predicate ValidSchedules(T: nat, diagonals: int, schedules: seq<seq<nat>>)
  {
    diagonals <= |schedules| && forall d :: 0 <= d < |schedules| ==> ValidSchedule(T, schedules[d])
  }

  ghost predicate Shape(dp: array2<int>, s1: string, s2: string)
  {
    dp.Length0 == |s1| + 1 && dp.Length1 == |s2| + 1
  }

  /** Every border cell and every cell of a diagonal before d holds its recurrence value. */
  ghost predicate DiagonalsDone(dp: array2<int>, s1: string, s2: string, d: int)
    reads dp
    requires Shape(dp, s1, s2)
  {
    forall x, y {:trigger dp[x, y]} :: 0 <= x <= |s1| && 0 <= y <= |s2| && (x == 0 || y == 0 || x + y - 1 < d)
      ==> dp[x, y] == Table(s1, s2, x, y)
  }

  /** Row x of diagonal d lies in the table and holds its recurrence value. */
  ghost predicate CellDone(dp: array2<int>, s1: string, s2: string, d: int, x: int)
    reads dp
  {
    var y := d - x + 1;
    0 <= x <= |s1| && 0 <= y <= |s2| && x < dp.Length0 && y < dp.Length1
    && dp[x, y] == Table(s1, s2, x, y)
  }

  /**
   * The loop over one slice [start, end) of diagonal d (lines 59-70), for a
   * slice inside the diagonal's range. When the diagonals before d are
   * finished, the slice's cells are finished afterwards; no other cell changes.
   */
  method FillSlice(dp: array2<int>, s1: string, s2: string, d: int, start: int, end: int)
    requires Shape(dp, s1, s2) && DiagonalsDone(dp, s1, s2, d)
    requires DiagonalRange(|s1|, |s2|, d).0 <= start && end <= DiagonalRange(|s1|, |s2|, d).1 + 1
    modifies dp
    ensures DiagonalsDone(dp, s1, s2, d)
    ensures forall x :: start <= x < end ==> CellDone(dp, s1, s2, d, x)
    ensures forall x, y :: 0 <= x < dp.Length0 && 0 <= y < dp.Length1 && !(x + y - 1 == d && start <= x < end)
              ==> dp[x, y] == old(dp[x, y])
  {
    var n, m := |s1|, |s2|;
    var idx := start;
    while idx < end
      invariant start <= idx && (idx <= end || idx == start)
      invariant DiagonalsDone(dp, s1, s2, d)
      invariant forall x, y {:trigger dp[x, y]} :: 0 <= x <= n && 0 <= y <= m && x + y - 1 == d && start <= x < idx
                  ==> dp[x, y] == Table(s1, s2, x, y)
      invariant forall x, y :: 0 <= x < dp.Length0 && 0 <= y < dp.Length1 && !(x + y - 1 == d && start <= x < idx)
                  ==> dp[x, y] == old(dp[x, y])
    {
      var i := idx;
      var j := d - i + 1;
      assert OnDiagonal(n, m, d, i);
      if i >= 1 && j >= 1 && i <= n && j <= m {
        if s1[i - 1] == s2[j - 1] {
          dp[i, j] := dp[i - 1, j - 1] + 1;
        } else {
          dp[i, j] := Max(dp[i - 1, j], dp[i, j - 1]);
        }
      }
      idx := idx + 1;
    }
  }

  /**
   * Worker tid's share of diagonal d (lines 47-70): the slice bounds as the
   * worker computes them, then the slice. Afterwards the cells of diagonal d
   * that the worker owns are finished and no other cell has changed.
   */
  method FillChunk(dp: array2<int>, s1: string, s2: string, T: nat, d: int, tid: nat)
    requires Shape(dp, s1, s2) && T >= 1 && 1 <= d <= |s1| + |s2| - 1
    requires DiagonalsDone(dp, s1, s2, d)
    modifies dp
    ensures DiagonalsDone(dp, s1, s2, d)
    ensures forall x :: InChunk(|s1|, |s2|, T, d, tid, x) ==> CellDone(dp, s1, s2, d, x)
    ensures forall x, y :: 0 <= x < dp.Length0 && 0 <= y < dp.Length1 && !(x + y - 1 == d && InChunk(|s1|, |s2|, T, d, tid, x))
              ==> dp[x, y] == old(dp[x, y])
  {
    var n, m := |s1|, |s2|;
    var size := Min(d, n) - Max(1, d - m + 1) + 1;
    var chunkSize := (size + T - 1) / T;
    var baseStart := Max(1, d - m + 1);
    var baseEnd := Min(n, d);
    var start := baseStart + tid * chunkSize;
    var end := Min(baseEnd + 1, start + chunkSize);
    ChunkWithinDiagonal(n, m, T, d, tid);
    assert start == ChunkStart(n, m, T, d, tid) && end == ChunkEnd(n, m, T, d, tid);
    FillSlice(dp, s1, s2, d, start, end);
  }

  /**
   * The workers over all diagonals (lines 31-73, started and joined at lines
   * 89-95): diagonal d starts once every worker has passed the barrier of
   * diagonal d - 1, and inside diagonal d the slices run in the order
   * schedules[d - 1], chosen afresh for every diagonal. A zeroed table ends up
   * holding the recurrence in every cell.
   */
  method FillDiagonals(dp: array2<int>, s1: string, s2: string, T: nat, schedules: seq<seq<nat>>)
    requires Shape(dp, s1, s2) && T >= 1 && ValidSchedules(T, |s1| + |s2| - 1, schedules)
    requires forall x, y :: 0 <= x < dp.Length0 && 0 <= y < dp.Length1 ==> dp[x, y] == 0
    modifies dp
    ensures DiagonalsDone(dp, s1, s2, |s1| + |s2|)
  {
    var n, m := |s1|, |s2|;
    var d := 1;
    while d <= n + m - 1
      invariant 1 <= d && (d <= n + m || d == 1)
      invariant DiagonalsDone(dp, s1, s2, d)
    {
      var schedule := schedules[d - 1];
      var k := 0;
      while k < T
        invariant 0 <= k <= T
        invariant DiagonalsDone(dp, s1, s2, d)
        invariant forall x :: OnDiagonal(n, m, d, x) && Owner(n, m, T, d, x) in schedule[..k] ==> CellDone(dp, s1, s2, d, x)
      {
        FillChunk(dp, s1, s2, T, d, schedule[k]);
        forall x | OnDiagonal(n, m, d, x) && Owner(n, m, T, d, x) in schedule[..k + 1]
          ensures CellDone(dp, s1, s2, d, x)
        {
          assert schedule[..k + 1] == schedule[..k] + [schedule[k]];
        }
        k := k + 1;
      }
      assert schedule[..T] == schedule;
      forall x, y | 1 <= x <= n && 1 <= y <= m && x + y - 1 == d
        ensures dp[x, y] == Table(s1, s2, x, y)
      {
        assert OnDiagonal(n, m, d, x) && CellDone(dp, s1, s2, d, x);
      }
      d := d + 1;
    }
  }

  /**
   * The backward walk (lines 97-110): from (n, m), emit and step up-left on a
   * match, else step up only when the up cell is strictly larger, else left;
   * then reverse. On a finished table this is Walk with ties going left.
   */
  method Reconstruct(dp: array2<int>, s1: string, s2: string) returns (lcs: string)
    requires Shape(dp, s1, s2) && DiagonalsDone(dp, s1, s2, |s1| + |s2|)
    ensures lcs == Walk(s1, s2, |s1|, |s2|, false)
  {
    var acc := "";
    var i, j := |s1|, |s2|;
    while i > 0 && j > 0
      invariant 0 <= i <= |s1| && 0 <= j <= |s2|
      invariant Walk(s1, s2, |s1|, |s2|, false) == Walk(s1, s2, i, j, false) + Reverse(acc)
      decreases i + j
    {
      if s1[i - 1] == s2[j - 1] {
        assert Reverse(acc + [s1[i - 1]]) == [s1[i - 1]] + Reverse(acc) by {
          assert (acc + [s1[i - 1]])[..|acc|] == acc;
        }
        acc := acc + [s1[i - 1]];
        i, j := i - 1, j - 1;
      } else if dp[i - 1, j] > dp[i, j - 1] {
        i := i - 1;
      } else {
        j := j - 1;
      }
    }
    lcs := Reverse(acc);
  }

  /**
   * The solver (lines 76-112): for any T >= 1 and any order of the slices
   * within each diagonal, the reported length is the table corner, the reported
   * string is the walk with ties going left, it is a common subsequence of both
   * inputs of exactly that length, and no common subsequence is longer; with an
   * empty input the answer is (0, "").
   */
  method Solve(s1: string, s2: string, T: nat, schedules: seq<seq<nat>>) returns (length: int, lcs: string)
    requires T >= 1 && ValidSchedules(T, |s1| + |s2| - 1, schedules)
    ensures length == Table(s1, s2, |s1|, |s2|)
    ensures lcs == Walk(s1, s2, |s1|, |s2|, false)
    ensures IsSubseq(lcs, s1) && IsSubseq(lcs, s2) && |lcs| == length
    ensures forall c :: IsSubseq(c, s1) && IsSubseq(c, s2) ==> |c| <= length
    ensures |s1| == 0 || |s2| == 0 ==> length == 0 && lcs == []
  {
    var dp := new int[|s1| + 1, |s2| + 1]((_, _) => 0);
    FillDiagonals(dp, s1, s2, T, schedules);
    lcs := Reconstruct(dp, s1, s2);
    length := dp[|s1|, |s2|];
    CornerIsLcsLength(s1, s2, false);
  }
}
