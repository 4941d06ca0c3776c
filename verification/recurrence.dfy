/**
 * The dynamic-programming recurrence that all three solvers share, stated once.
 *
 * Table(rows, cols, i, j) is the value the solvers store in the cell for the
 * prefixes rows[..i] and cols[..j]: 0 on the border, the up-left value plus one
 * when the two last symbols match, the larger of the up and left values
 * otherwise. The lemmas below show that this value is the length of a longest
 * common subsequence of the two prefixes, and Walk is the backward walk the two
 * thread-based solvers use to rebuild one such subsequence.
 */
module Recurrence {

  function Max(x: int, y: int): int
  {
    if x >= y then x else y
  }

  /** The recurrence table, cell (i, j). */
  function Table(rows: string, cols: string, i: nat, j: nat): (r: nat)
    requires i <= |rows| && j <= |cols|
    ensures r <= i && r <= j
    decreases i + j
  {
    if i == 0 || j == 0 then 0
    else if rows[i - 1] == cols[j - 1] then Table(rows, cols, i - 1, j - 1) + 1
    else Max(Table(rows, cols, i - 1, j), Table(rows, cols, i, j - 1))
  }

  /**
   * c can be obtained from s by deleting symbols: either the last symbols agree
   * and the rest of c is a subsequence of the rest of s, or c is a subsequence
   * of s without its last symbol.
   */
  predicate IsSubseq(c: string, s: string)
    decreases |s|
  {
    if c == [] then true
    else if s == [] then false
    else (c[|c| - 1] == s[|s| - 1] && IsSubseq(c[..|c| - 1], s[..|s| - 1]))
         || IsSubseq(c, s[..|s| - 1])
  }

  /** Dropping the last symbol of s keeps every subsequence of the shorter prefix. */
  lemma SubseqOfLongerPrefix(c: string, s: string, k: nat)
    requires 1 <= k <= |s| && IsSubseq(c, s[..k - 1])
    ensures IsSubseq(c, s[..k])
  {
    assert s[..k][..k - 1] == s[..k - 1];
  }

  /** Appending the symbol s[k-1] to a subsequence of s[..k-1] gives one of s[..k]. */
  lemma SubseqExtend(c: string, s: string, k: nat)
    requires 1 <= k <= |s| && IsSubseq(c, s[..k - 1])
    ensures IsSubseq(c + [s[k - 1]], s[..k])
  {
    var c' := c + [s[k - 1]];
    assert c'[..|c'| - 1] == c;
    assert s[..k][..k - 1] == s[..k - 1];
  }

  /**
   * The invariant every filled cell satisfies: a step up or left loses at most
   * one and never gains, and a cell exceeds its up-left neighbour by at most one.
   */
  lemma {:induction false} TableSteps(rows: string, cols: string, i: nat, j: nat)
    requires 1 <= i <= |rows| && 1 <= j <= |cols|
    ensures Table(rows, cols, i - 1, j) <= Table(rows, cols, i, j) <= Table(rows, cols, i - 1, j) + 1
    ensures Table(rows, cols, i, j - 1) <= Table(rows, cols, i, j) <= Table(rows, cols, i, j - 1) + 1
    ensures Table(rows, cols, i, j) <= Table(rows, cols, i - 1, j - 1) + 1
    decreases i + j
  {
    if i > 1 {
      TableSteps(rows, cols, i - 1, j);
    }
    if j > 1 {
      TableSteps(rows, cols, i, j - 1);
    }
  }

  /** No common subsequence of rows[..i] and cols[..j] is longer than Table(i, j). */
  lemma {:induction false} CommonSubseqBound(rows: string, cols: string, i: nat, j: nat, c: string)
    requires i <= |rows| && j <= |cols|
    requires IsSubseq(c, rows[..i]) && IsSubseq(c, cols[..j])
    ensures |c| <= Table(rows, cols, i, j)
    decreases i + j
  {
    if c != [] {
      assert i > 0 && j > 0;
      assert rows[..i][..i - 1] == rows[..i - 1];
      assert cols[..j][..j - 1] == cols[..j - 1];
      if IsSubseq(c, rows[..i - 1]) {
        CommonSubseqBound(rows, cols, i - 1, j, c);
        TableSteps(rows, cols, i, j);
      } else if IsSubseq(c, cols[..j - 1]) {
        CommonSubseqBound(rows, cols, i, j - 1, c);
        TableSteps(rows, cols, i, j);
      } else {
        CommonSubseqBound(rows, cols, i - 1, j - 1, c[..|c| - 1]);
      }
    }
  }

  /**
   * The subsequence rebuilt by walking back from cell (i, j): emit the symbol
   * and move up-left on a match, otherwise move up when the up cell is larger
   * (or equal, when upOnTie holds) and left otherwise. The result is in forward
   * order, i.e. after the walk's reversal.
   */
  function Walk(rows: string, cols: string, i: nat, j: nat, upOnTie: bool): (w: string)
    requires i <= |rows| && j <= |cols|
    ensures |w| == Table(rows, cols, i, j)
    decreases i + j
  {
    if i == 0 || j == 0 then []
    else if rows[i - 1] == cols[j - 1] then Walk(rows, cols, i - 1, j - 1, upOnTie) + [rows[i - 1]]
    else if Table(rows, cols, i - 1, j) > Table(rows, cols, i, j - 1)
            || (upOnTie && Table(rows, cols, i - 1, j) == Table(rows, cols, i, j - 1))
    then Walk(rows, cols, i - 1, j, upOnTie)
    else Walk(rows, cols, i, j - 1, upOnTie)
  }

  /** Whatever the tie-break, the walk yields a common subsequence of the two prefixes. */
  lemma {:induction false} WalkIsCommonSubseq(rows: string, cols: string, i: nat, j: nat, upOnTie: bool)
    requires i <= |rows| && j <= |cols|
    ensures IsSubseq(Walk(rows, cols, i, j, upOnTie), rows[..i])
    ensures IsSubseq(Walk(rows, cols, i, j, upOnTie), cols[..j])
    decreases i + j
  {
    if i == 0 || j == 0 {
    } else if rows[i - 1] == cols[j - 1] {
      WalkIsCommonSubseq(rows, cols, i - 1, j - 1, upOnTie);
      SubseqExtend(Walk(rows, cols, i - 1, j - 1, upOnTie), rows, i);
      SubseqExtend(Walk(rows, cols, i - 1, j - 1, upOnTie), cols, j);
    } else if Table(rows, cols, i - 1, j) > Table(rows, cols, i, j - 1)
              || (upOnTie && Table(rows, cols, i - 1, j) == Table(rows, cols, i, j - 1)) {
      WalkIsCommonSubseq(rows, cols, i - 1, j, upOnTie);
      SubseqOfLongerPrefix(Walk(rows, cols, i - 1, j, upOnTie), rows, i);
    } else {
      WalkIsCommonSubseq(rows, cols, i, j - 1, upOnTie);
      SubseqOfLongerPrefix(Walk(rows, cols, i, j - 1, upOnTie), cols, j);
    }
  }

  /**
   * The corner of the table is the LCS length of the whole inputs, and the walk
   * from the corner attains it.
   */
  lemma CornerIsLcsLength(rows: string, cols: string, upOnTie: bool)
    ensures IsSubseq(Walk(rows, cols, |rows|, |cols|, upOnTie), rows)
    ensures IsSubseq(Walk(rows, cols, |rows|, |cols|, upOnTie), cols)
    ensures |Walk(rows, cols, |rows|, |cols|, upOnTie)| == Table(rows, cols, |rows|, |cols|)
    ensures forall c :: IsSubseq(c, rows) && IsSubseq(c, cols) ==> |c| <= Table(rows, cols, |rows|, |cols|)
  {
    assert rows[..|rows|] == rows;
    assert cols[..|cols|] == cols;
    WalkIsCommonSubseq(rows, cols, |rows|, |cols|, upOnTie);
    forall c | IsSubseq(c, rows) && IsSubseq(c, cols)
      ensures |c| <= Table(rows, cols, |rows|, |cols|)
    {
      CommonSubseqBound(rows, cols, |rows|, |cols|, c);
    }
  }

  /** The two tie-break rules are both valid but can rebuild different subsequences. */
  lemma TieBreaksCanDiffer()
    ensures Walk("AB", "BA", 2, 2, true) == "A"
    ensures Walk("AB", "BA", 2, 2, false) == "B"
  {
    assert Table("AB", "BA", 1, 1) == 0;
    assert Table("AB", "BA", 1, 2) == 1;
    assert Table("AB", "BA", 2, 1) == 1;
    assert Walk("AB", "BA", 1, 2, true) == Walk("AB", "BA", 0, 1, true) + ['A'];
    assert Walk("AB", "BA", 2, 1, false) == Walk("AB", "BA", 1, 0, false) + ['B'];
  }

  /** The library reversal the solvers apply to the symbols collected backwards. */
  function Reverse(s: string): (r: string)
    ensures |r| == |s|
    ensures forall k :: 0 <= k < |s| ==> r[k] == s[|s| - 1 - k]
  {
    if s == [] then [] else [s[|s| - 1]] + Reverse(s[..|s| - 1])
  }
}
