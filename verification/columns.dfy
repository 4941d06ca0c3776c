/**
 * The column-band solver of lcs_parallel_columns.cpp.
 *
 * The table dp has |s1| + 1 rows of |s2| + 1 cells, but the fill indexes it as
 * dp[i][j] with i running over s2 (1..m) and j over s1 (1..n), and the result is
 * read from dp[n][m]. The fill stays inside the table when |s1| == |s2|, and also
 * when one input is empty (then it writes no cell at all); every method here
 * requires one of these. Cell dp[i, j] is then Table(s2, s1, i, j) wherever both
 * views have it.
 *
 * The columns 1..n are split into T load-balanced bands, one per worker. The
 * workers run concurrently behind a barrier; the model runs them one after the
 * other in band order (band 0 on all rows, then band 1, ...), which is a valid
 * schedule because a band only reads its own cells and those of the band to its
 * left.
 */
module ColumnWavefront {
  import opened Recurrence
  import opened Partition

  /** The table has the allocated shape; the inputs have equal length or one is empty. */
  ghost predicate Shape(dp: array2<int>, s1: string, s2: string)
  {
    (|s1| == |s2| || |s1| == 0 || |s2| == 0)
    && dp.Length0 == |s1| + 1 && dp.Length1 == |s2| + 1
  }

  /** Every cell of every column before c holds its recurrence value. */
  ghost predicate ColumnsDone(dp: array2<int>, s1: string, s2: string, c: int)
    reads dp
    requires Shape(dp, s1, s2)
  {
    forall x, y {:trigger dp[x, y]} :: 0 <= x <= |s2| && 0 <= y < c && y <= |s1| && x < dp.Length0 && y < dp.Length1
      ==> dp[x, y] == Table(s2, s1, x, y)
  }

  /**
   * The band bounds, 1-based and inclusive (lines 82-96): band k starts right
   * after band k - 1, the bands cover 1..n, and band k holds n / T columns plus
   * one when k < n % T. These are the distributed solver's bands shifted by one.
   */
  method ColumnBands(n: nat, T: nat) returns (startx: seq<int>, endx: seq<int>)
    requires T >= 1
    ensures |startx| == T && |endx| == T
    ensures forall k {:trigger startx[k]} :: 0 <= k < T ==> startx[k] == BandStart(n, T, k) + 1 && endx[k] == BandEnd(n, T, k) + 1
    ensures startx[0] == 1 && endx[T - 1] == n
    ensures forall k :: 0 <= k < T - 1 ==> startx[k + 1] == endx[k] + 1
    ensures forall k :: 0 <= k < T ==> 1 <= startx[k] <= endx[k] + 1 <= n + 1
  {
    var minColumns := n / T;
    var excessColumns := n % T;
    var currColumn := 1;
    startx, endx := [], [];
    var i := 0;
    while i < T
      invariant 0 <= i <= T
      invariant |startx| == i && |endx| == i
      invariant forall k {:trigger startx[k]} :: 0 <= k < i ==> startx[k] == BandStart(n, T, k) + 1 && endx[k] == BandEnd(n, T, k) + 1
      invariant currColumn == BandStart(n, T, i) + 1
      invariant excessColumns == if i < n % T then n % T - i else 0
    {
      assert Width(n, T, i) == minColumns + (if excessColumns > 0 then 1 else 0);
      assert BandStart(n, T, i + 1) == BandStart(n, T, i) + Width(n, T, i);
      startx := startx + [currColumn];
      if excessColumns > 0 {
        endx := endx + [currColumn + minColumns];
        excessColumns := excessColumns - 1;
      } else {
        endx := endx + [currColumn + minColumns - 1];
      }
      assert startx[i] == BandStart(n, T, i) + 1 && endx[i] == BandEnd(n, T, i) + 1;
      currColumn := endx[i] + 1;
      i := i + 1;
    }
    BandsCover(n, T);
    forall k | 0 <= k < T
      ensures 1 <= startx[k] <= endx[k] + 1 <= n + 1
    {
      BandBounds(n, T, k);
    }
  }

  /**
   * One worker's whole job (lines 40-47): rows 1..m, and in each row the band's
   * columns start..end left to right. Given that every column left of the band
   * is finished, the band is finished afterwards; no cell outside the band's
   * rows 1..m changes.
   */
  method FillBand(dp: array2<int>, s1: string, s2: string, start: int, end: int)
    requires Shape(dp, s1, s2)
    requires 1 <= start <= end + 1 <= |s1| + 1
    requires ColumnsDone(dp, s1, s2, start)
    requires forall y :: start <= y <= end && y < dp.Length1 ==> dp[0, y] == 0
    modifies dp
    ensures ColumnsDone(dp, s1, s2, end + 1)
    ensures forall x, y :: 0 <= x < dp.Length0 && 0 <= y < dp.Length1 && !(1 <= x && start <= y <= end)
              ==> dp[x, y] == old(dp[x, y])
  {
    var i := 1;
    while i <= |s2|
      invariant 1 <= i <= |s2| + 1
      invariant ColumnsDone(dp, s1, s2, start)
      invariant forall x, y {:trigger dp[x, y]} :: 0 <= x < i && start <= y <= end && x < dp.Length0 && y < dp.Length1
                  ==> dp[x, y] == Table(s2, s1, x, y)
      invariant forall x, y :: 0 <= x < dp.Length0 && 0 <= y < dp.Length1 && !(1 <= x && start <= y <= end)
                  ==> dp[x, y] == old(dp[x, y])
    {
      var j := start;
      while j <= end
        invariant start <= j <= end + 1
        invariant ColumnsDone(dp, s1, s2, start)
        invariant forall x, y {:trigger dp[x, y]} :: 0 <= x < i && start <= y <= end && x < dp.Length0 && y < dp.Length1
                    ==> dp[x, y] == Table(s2, s1, x, y)
        invariant forall y {:trigger dp[i, y]} :: start <= y < j ==> dp[i, y] == Table(s2, s1, i, y)
        invariant forall x, y :: 0 <= x < dp.Length0 && 0 <= y < dp.Length1 && !(1 <= x && start <= y <= end)
                    ==> dp[x, y] == old(dp[x, y])
      {
        if s1[j - 1] == s2[i - 1] {
          dp[i, j] := dp[i - 1, j - 1] + 1;
        } else {
          dp[i, j] := Max(dp[i - 1, j], dp[i, j - 1]);
        }
        j := j + 1;
      }
      i := i + 1;
    }
  }

  /**
   * All workers' jobs in band order (lines 80-106): a zeroed table ends up
   * holding the recurrence in every cell, and its row 0 and column 0 stay 0.
   */
  method FillBands(dp: array2<int>, s1: string, s2: string, T: nat)
    requires Shape(dp, s1, s2) && T >= 1
    requires forall x, y :: 0 <= x < dp.Length0 && 0 <= y < dp.Length1 ==> dp[x, y] == 0
    modifies dp
    ensures ColumnsDone(dp, s1, s2, |s1| + 1)
    ensures forall y :: 0 <= y < dp.Length1 ==> dp[0, y] == 0
    ensures forall x :: 0 <= x < dp.Length0 ==> dp[x, 0] == 0
  {
    var startx, endx := ColumnBands(|s1|, T);
    var k := 0;
    ghost var done := 1;
    while k < T
      invariant 0 <= k <= T
      invariant ColumnsDone(dp, s1, s2, done)
      invariant k < T ==> done == startx[k]
      invariant k == T ==> done == |s1| + 1
      invariant forall y :: 0 <= y < dp.Length1 ==> dp[0, y] == 0
      invariant forall x :: 0 <= x < dp.Length0 ==> dp[x, 0] == 0
    {
      FillBand(dp, s1, s2, startx[k], endx[k]);
      done := endx[k] + 1;
      k := k + 1;
    }
  }

  /**
   * On a finished table row 0 and column 0 are still 0, and every cell keeps
   * the step invariant towards its up, left and up-left cells.
   */
  lemma FinishedTableInvariant(dp: array2<int>, s1: string, s2: string)
    requires Shape(dp, s1, s2) && ColumnsDone(dp, s1, s2, |s1| + 1)
    ensures forall x, y :: 0 <= x <= |s2| && 0 <= y <= |s1| && x < dp.Length0 && y < dp.Length1 && (x == 0 || y == 0)
              ==> dp[x, y] == 0
    ensures forall i, j :: 1 <= i <= |s2| && 1 <= j <= |s1| ==>
              dp[i - 1, j] <= dp[i, j] && dp[i, j - 1] <= dp[i, j] && dp[i, j] <= dp[i - 1, j - 1] + 1
  {
    forall i, j | 1 <= i <= |s2| && 1 <= j <= |s1|
      ensures dp[i - 1, j] <= dp[i, j] && dp[i, j - 1] <= dp[i, j] && dp[i, j] <= dp[i - 1, j - 1] + 1
    {
      TableSteps(s2, s1, i, j);
    }
  }

  /**
   * The backward walk (lines 108-123): from (m, n), emit and step up-left on a
   * match, else step up when the up cell is at least the left cell, else left;
   * then reverse. On a finished table this is Walk with ties going up.
   */
  method Reconstruct(dp: array2<int>, s1: string, s2: string) returns (lcs: string)
    requires Shape(dp, s1, s2) && ColumnsDone(dp, s1, s2, |s1| + 1)
    ensures lcs == Walk(s2, s1, |s2|, |s1|, true)
  {
    var acc := "";
    var i, j := |s2|, |s1|;
    while i > 0 && j > 0
      invariant 0 <= i <= |s2| && 0 <= j <= |s1|
      invariant Walk(s2, s1, |s2|, |s1|, true) == Walk(s2, s1, i, j, true) + Reverse(acc)
      decreases i + j
    {
      if s1[j - 1] == s2[i - 1] {
        assert Reverse(acc + [s1[j - 1]]) == [s1[j - 1]] + Reverse(acc) by {
          assert (acc + [s1[j - 1]])[..|acc|] == acc;
        }
        acc := acc + [s1[j - 1]];
        i, j := i - 1, j - 1;
      } else if dp[i - 1, j] >= dp[i, j - 1] {
        i := i - 1;
      } else {
        j := j - 1;
      }
    }
    lcs := Reverse(acc);
  }

  /**
   * The solver (lines 69-125). Its inputs have equal length or one is empty
   * (otherwise the fill leaves the table). With m >= 1 it needs 1 <= T <= m:
   * line 82 divides by T, and with T > m the gap m / T of line 33 is 0 and
   * line 50 divides by it. With m == 0 it needs T == 1: no row runs, so no
   * thread beyond the first is ever started, and line 105 would join one.
   * The reported length is the table corner, the reported string is the walk
   * with ties going up, it is a common subsequence of both inputs of exactly
   * that length, no common subsequence is longer, and an empty input gives
   * (0, "").
   */
  method Solve(s1: string, s2: string, T: nat) returns (length: int, lcs: string)
    requires |s1| == |s2| || |s1| == 0 || |s2| == 0
    requires 1 <= T && (if |s2| == 0 then T == 1 else T <= |s2|)
    ensures length == Table(s2, s1, |s2|, |s1|)
    ensures lcs == Walk(s2, s1, |s2|, |s1|, true)
    ensures IsSubseq(lcs, s1) && IsSubseq(lcs, s2) && |lcs| == length
    ensures forall c :: IsSubseq(c, s1) && IsSubseq(c, s2) ==> |c| <= length
    ensures |s1| == 0 || |s2| == 0 ==> length == 0 && lcs == []
  {
    var dp := new int[|s1| + 1, |s2| + 1]((_, _) => 0);
    FillBands(dp, s1, s2, T);
    lcs := Reconstruct(dp, s1, s2);
    length := dp[|s1|, |s2|];
    CornerIsLcsLength(s2, s1, true);
  }
}
