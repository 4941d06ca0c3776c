/**
 * The distributed solver of lcs_mpi.cpp.
 *
 * Sequence a (m symbols) indexes the rows and sequence b (n symbols) the
 * columns; cell (i, c) of the table is Table(a, b, i, c). The columns are split
 * among P ranks with the partition of module Partition. Each rank keeps only two
 * rows of its band plus one boundary cell: for every row it receives the left
 * neighbour's last cell, fills its band and sends its own last cell on.
 *
 * Rank r is modelled as a sequential program over the stream of values it
 * receives (one per row, in row order) and the stream it sends. The ranks are
 * composed by feeding rank r's sent stream to rank r + 1; since each rank reads
 * its messages in row order, this yields the same values as any interleaving of
 * the real processes.
 */
module DistributedPipeline {
  import opened Recurrence
  import opened Partition
  import opened Wrappers

  /**
   * The band [start, end] of a rank, 0-based and inclusive, as computed at lines
   * 75-84: it is the partition's band, and it holds n / P + 1 columns for the
   * first n % P ranks and n / P for the others.
   */
  function RankBand(n: nat, P: nat, rank: nat): (band: (int, int))
    requires P >= 1
    ensures band.0 == BandStart(n, P, rank) && band.1 == BandEnd(n, P, rank)
    ensures band.1 - band.0 + 1 == if rank < n % P then n / P + 1 else n / P
  {
    var minColumns := n / P;
    var excessColumns := n % P;
    BandStartClosedForm(n, P, rank);
    if rank < excessColumns then
      var start := rank * (minColumns + 1);
      (start, start + minColumns)
    else
      var start := excessColumns * (minColumns + 1) + (rank - excessColumns) * minColumns;
      (start, start + minColumns - 1)
  }

  /**
   * What rank `rank` receives: for every row i in 1..m, the table cell in row i
   * of the column just left of its band. Rank 0 receives nothing.
   */
  ghost predicate LeftBoundary(a: string, b: string, P: nat, rank: nat, received: seq<int>)
    requires P >= 1 && rank < P
  {
    BandBounds(|b|, P, rank);
    |received| == |a|
    && forall k :: 0 <= k < |a| ==> received[k] == Table(a, b, k + 1, BandStart(|b|, P, rank))
  }

  /**
   * The fill of one row of a band (lines 109-115). Entry k of the buffers
   * stands for column start + k of the table: above holds row i - 1, and row[0]
   * already holds the cell of row i left of the band. Afterwards row holds row i.
   */
  method FillRow(a: string, b: string, i: nat, start: nat, above: array<int>, row: array<int>)
    requires 1 <= i <= |a| && above != row && above.Length == row.Length >= 1
    requires start + row.Length - 1 <= |b|
    requires forall k :: 0 <= k < above.Length ==> above[k] == Table(a, b, i - 1, start + k)
    requires row[0] == Table(a, b, i, start)
    modifies row
    ensures forall k :: 0 <= k < row.Length ==> row[k] == Table(a, b, i, start + k)
  {
    var j := 1;
    while j < row.Length
      invariant 1 <= j <= row.Length
      invariant forall k :: 0 <= k < j ==> row[k] == Table(a, b, i, start + k)
    {
      if a[i - 1] == b[start + j - 1] {
        row[j] := above[j - 1] + 1;
      } else {
        row[j] := Max(above[j], row[j - 1]);
      }
      j := j + 1;
    }
  }

  /**
   * One rank's whole run (lines 90-124): two zeroed rows of band width + 1
   * cells; per row, swap them, take the received boundary value (ranks other
   * than 0), fill the band from the row above and the cell to the left, and send
   * the last cell on (ranks other than P - 1). The values sent are the table
   * cells of the band's last column, which is the column left of the next
   * rank's band, so they are exactly what that rank must receive; lastCell is
   * the last cell of row m (line 129). A rank with an empty band forwards what
   * it receives unchanged.
   */
  method RunRank(a: string, b: string, P: nat, rank: nat, received: seq<int>) returns (sent: seq<int>, lastCell: int)
    requires P >= 1 && rank < P
    requires rank != 0 ==> LeftBoundary(a, b, P, rank, received)
    ensures BandEnd(|b|, P, rank) + 1 <= |b| && lastCell == Table(a, b, |a|, BandEnd(|b|, P, rank) + 1)
    ensures rank == P - 1 ==> sent == []
    ensures rank != P - 1 ==> rank + 1 < P && LeftBoundary(a, b, P, rank + 1, sent)
    ensures rank != 0 && rank != P - 1 && Width(|b|, P, rank) == 0 ==> sent == received
  {
    var m := |a|;
    var band := RankBand(|b|, P, rank);
    var start, end := band.0, band.1;
    BandBounds(|b|, P, rank);
    var rowSize := (end - start + 1) + 1;
    var oldRow := new int[rowSize](_ => 0);
    var newRow := new int[rowSize](_ => 0);
    sent := [];
    var i := 1;
    while i < m + 1
      invariant 1 <= i <= m + 1
      invariant fresh(oldRow) && fresh(newRow)
      invariant oldRow.Length == rowSize && newRow.Length == rowSize && oldRow != newRow
      invariant forall k :: 0 <= k < rowSize ==> newRow[k] == Table(a, b, i - 1, start + k)
      invariant rank == 0 ==> oldRow[0] == 0 && newRow[0] == 0
      invariant rank == P - 1 ==> sent == []
      invariant rank != P - 1 ==> |sent| == i - 1
      invariant rank != P - 1 ==> forall k :: 0 <= k < i - 1 ==> sent[k] == Table(a, b, k + 1, end + 1)
    {
      oldRow, newRow := newRow, oldRow;
      if rank != 0 {
        newRow[0] := received[i - 1];
      }
      assert newRow[0] == Table(a, b, i, start);
      FillRow(a, b, i, start, oldRow, newRow);
      if rank != P - 1 {
        sent := sent + [newRow[rowSize - 1]];
      }
      i := i + 1;
    }
    lastCell := newRow[rowSize - 1];
  }

  /**
   * All ranks composed (lines 64-129): rank r runs on what rank r - 1 sent, and
   * the last rank's last cell, the reported length, is the corner of the full
   * table, which is the length of a longest common subsequence of a and b; it is
   * 0 when a is empty.
   */
  method Pipeline(a: string, b: string, P: nat) returns (length: int)
    requires P >= 1
    ensures length == Table(a, b, |a|, |b|)
    ensures |a| == 0 ==> length == 0
    ensures IsSubseq(Walk(a, b, |a|, |b|, true), a) && IsSubseq(Walk(a, b, |a|, |b|, true), b)
    ensures |Walk(a, b, |a|, |b|, true)| == length
    ensures forall c :: IsSubseq(c, a) && IsSubseq(c, b) ==> |c| <= length
  {
    var received: seq<int> := [];
    var r := 0;
    length := 0;
    while r < P
      invariant 0 <= r <= P
      invariant 0 < r < P ==> LeftBoundary(a, b, P, r, received)
      invariant r == P ==> BandEnd(|b|, P, P - 1) + 1 <= |b| && length == Table(a, b, |a|, BandEnd(|b|, P, P - 1) + 1)
    {
      var sent, lastCell := RunRank(a, b, P, r, received);
      received, length := sent, lastCell;
      r := r + 1;
    }
    BandsCover(|b|, P);
    CornerIsLcsLength(a, b, true);
  }

  /** The line with every ',' removed, the other symbols kept in order. */
  function WithoutCommas(line: string): (s: string)
    ensures ',' !in s && |s| <= |line|
  {
    if line == [] then []
    else
      var last := line[|line| - 1];
      WithoutCommas(line[..|line| - 1]) + (if last != ',' then [last] else [])
  }

  /**
   * Removing the commas deletes only commas: the result is a subsequence of the
   * line and holds every other symbol as often as the line does.
   */
  lemma {:induction false} WithoutCommasKeepsLetters(line: string)
    ensures IsSubseq(WithoutCommas(line), line)
    ensures forall ch :: ch != ',' ==> multiset(WithoutCommas(line))[ch] == multiset(line)[ch]
    decreases |line|
  {
    if line != [] {
      var rest := line[..|line| - 1];
      var last := line[|line| - 1];
      assert line == rest + [last];
      WithoutCommasKeepsLetters(rest);
      SubseqExtendOrSkip(WithoutCommas(rest), line, last != ',');
    }
  }

  /** Appending or skipping the last symbol of s keeps a subsequence of s without it. */
  lemma SubseqExtendOrSkip(c: string, s: string, keep: bool)
    requires s != [] && IsSubseq(c, s[..|s| - 1])
    ensures IsSubseq(c + (if keep then [s[|s| - 1]] else []), s)
  {
    assert s[..|s|] == s;
    if keep {
      SubseqExtend(c, s, |s|);
    } else {
      assert c + [] == c;
      SubseqOfLongerPrefix(c, s, |s|);
    }
  }

  /**
   * One line of the input file turned into a sequence (lines 22-26 and 31-35):
   * every symbol other than ',' is appended in order.
   */
  method StripCommas(line: string) returns (s: string)
    ensures s == WithoutCommas(line)
  {
    s := [];
    var k := 0;
    while k < |line|
      invariant 0 <= k <= |line|
      invariant s == WithoutCommas(line[..k])
    {
      assert line[..k + 1][..k] == line[..k];
      if line[k] != ',' {
        s := s + [line[k]];
      }
      k := k + 1;
    }
    assert line[..|line|] == line;
  }

  /**
   * The two sequences read from the input file (lines 10-37), given as its
   * lines, or None when it cannot be opened: both stay empty when the file is
   * missing, and a missing line leaves its sequence empty.
   */
  method ReadSequences(file: Option<seq<string>>) returns (a: string, b: string)
    ensures file.None? ==> a == [] && b == []
    ensures file.Some? && |file.value| >= 1 ==> a == WithoutCommas(file.value[0])
    ensures file.Some? && |file.value| < 1 ==> a == []
    ensures file.Some? && |file.value| >= 2 ==> b == WithoutCommas(file.value[1])
    ensures file.Some? && |file.value| < 2 ==> b == []
  {
    a, b := [], [];
    if file.None? {
      return;
    }
    var lines := file.value;
    if |lines| >= 1 {
      a := StripCommas(lines[0]);
    }
    if |lines| >= 2 {
      b := StripCommas(lines[1]);
    }
  }

  /** A line as the input generator writes it: the letters joined by ','. */
  function JoinWithCommas(letters: string): (line: string)
    ensures |letters| > 0 ==> |line| == 2 * |letters| - 1
  {
    if |letters| <= 1 then letters
    else JoinWithCommas(letters[..|letters| - 1]) + [',', letters[|letters| - 1]]
  }

  /** The generator's layout: the letters at the even positions, ',' at the odd ones. */
  lemma {:induction false} JoinWithCommasLayout(letters: string)
    ensures forall k :: 0 <= k < |letters| ==> JoinWithCommas(letters)[2 * k] == letters[k]
    ensures forall k :: 0 <= k < |letters| - 1 ==> JoinWithCommas(letters)[2 * k + 1] == ','
    decreases |letters|
  {
    if |letters| > 1 {
      var front := letters[..|letters| - 1];
      JoinWithCommasLayout(front);
      var line := JoinWithCommas(letters);
      var head := JoinWithCommas(front);
      assert line == head + [',', letters[|letters| - 1]];
      forall k | 0 <= k < |letters| - 1
        ensures line[2 * k] == letters[k] && line[2 * k + 1] == ','
      {
        assert line[2 * k] == head[2 * k] == front[k];
        if k < |letters| - 2 {
          assert line[2 * k + 1] == head[2 * k + 1];
        }
      }
    }
  }

  /** Stripping the commas from a generator line gives back its letters. */
  lemma {:induction false} CommaJoinRoundTrip(letters: string)
    requires ',' !in letters
    ensures WithoutCommas(JoinWithCommas(letters)) == letters
    decreases |letters|
  {
    if |letters| == 1 {
      assert JoinWithCommas(letters) == [] + [letters[0]];
    } else if |letters| > 1 {
      var front := letters[..|letters| - 1];
      var last := letters[|letters| - 1];
      assert letters == front + [last];
      assert ',' !in front;
      calc {
        WithoutCommas(JoinWithCommas(letters));
        WithoutCommas(JoinWithCommas(front) + [',', last]);
        { StripSeparatedLetter(JoinWithCommas(front), last); }
        WithoutCommas(JoinWithCommas(front)) + [last];
        { CommaJoinRoundTrip(front); }
        front + [last];
      }
    }
  }

  /** A ',' followed by a letter contributes just the letter. */
  lemma StripSeparatedLetter(head: string, last: char)
    requires last != ','
    ensures WithoutCommas(head + [',', last]) == WithoutCommas(head) + [last]
  {
    var line := head + [',', last];
    assert line[..|line| - 1] == head + [','];
    assert (head + [','])[..|head|] == head;
  }
}
