/**
 * The load-balanced split of n columns among P workers that both the column
 * solver and the distributed solver use: every worker gets n / P columns and the
 * first n % P workers one more, in worker order. Columns are 0-based here, as in
 * the distributed solver; the column solver's bands are the same shifted by one.
 */
module Partition {

  /** Number of columns worker r gets: an equal share, plus one for the first n % P workers. */
  function Width(n: nat, P: nat, r: nat): nat
    requires P >= 1
  {
    n / P + (if r < n % P then 1 else 0)
  }

  /** First column of worker r's band: the bands of workers 0..r-1 come before it. */
  function BandStart(n: nat, P: nat, r: nat): nat
    requires P >= 1
  {
    if r == 0 then 0 else BandStart(n, P, r - 1) + Width(n, P, r - 1)
  }

  /** Last column of worker r's band; one before its start when the band is empty. */
  function BandEnd(n: nat, P: nat, r: nat): int
    requires P >= 1
  {
    BandStart(n, P, r) + Width(n, P, r) - 1
  }

  lemma {:induction false} MulMonotone(a: int, b: int, c: nat)
    requires a <= b
    ensures a * c <= b * c
    decreases c
  {
    if c > 0 {
      MulMonotone(a, b, c - 1);
      assert a * c == a * (c - 1) + a;
      assert b * c == b * (c - 1) + b;
    }
  }

  /**
   * The band start in closed form, as the distributed solver computes it: with
   * q = n / P and e = n % P, r * (q + 1) for the first e workers and
   * e * (q + 1) + (r - e) * q after them.
   */
  lemma {:induction false} BandStartClosedForm(n: nat, P: nat, r: nat)
    requires P >= 1
    ensures BandStart(n, P, r)
              == if r < n % P then r * (n / P + 1) else n % P * (n / P + 1) + (r - n % P) * (n / P)
    decreases r
  {
    var q := n / P;
    var e := n % P;
    if r > 0 {
      BandStartClosedForm(n, P, r - 1);
      if r <= e {
        assert r * (q + 1) == (r - 1) * (q + 1) + q + 1;
      } else {
        assert (r - e) * q == (r - 1 - e) * q + q;
      }
    }
  }

  /** All n columns are handed out: the band of the (virtual) worker P starts at n. */
  lemma BandsCover(n: nat, P: nat)
    requires P >= 1
    ensures BandStart(n, P, 0) == 0
    ensures BandStart(n, P, P) == n
    ensures BandEnd(n, P, P - 1) == n - 1
  {
    BandStartClosedForm(n, P, P);
    var q := n / P;
    var e := n % P;
    assert e * (q + 1) + (P - e) * q == P * q + e;
  }

  /** Band starts never decrease with the worker index. */
  lemma {:induction false} BandStartMonotone(n: nat, P: nat, r1: nat, r2: nat)
    requires P >= 1 && r1 <= r2
    ensures BandStart(n, P, r1) <= BandStart(n, P, r2)
    decreases r2 - r1
  {
    if r1 < r2 {
      BandStartMonotone(n, P, r1, r2 - 1);
    }
  }

  /** Every band lies within the n columns (and may be empty). */
  lemma BandBounds(n: nat, P: nat, r: nat)
    requires P >= 1 && r < P
    ensures 0 <= BandStart(n, P, r) <= BandEnd(n, P, r) + 1 <= n
  {
    BandsCover(n, P);
    BandStartMonotone(n, P, r + 1, P);
  }

  /** Different workers' bands share no column. */
  lemma BandsDisjoint(n: nat, P: nat, r1: nat, r2: nat)
    requires P >= 1 && r1 < r2
    ensures BandEnd(n, P, r1) < BandStart(n, P, r2)
  {
    BandStartMonotone(n, P, r1 + 1, r2);
  }

  /** The worker whose band holds column c, searched downwards from worker r. */
  function Owner(n: nat, P: nat, c: nat, r: nat): (o: nat)
    requires P >= 1 && c <= BandEnd(n, P, r)
    ensures o <= r && BandStart(n, P, o) <= c <= BandEnd(n, P, o)
    decreases r
  {
    if BandStart(n, P, r) <= c then r else Owner(n, P, c, r - 1)
  }

  /** Every column 0 <= c < n lies in exactly one worker's band. */
  lemma ColumnOwnedOnce(n: nat, P: nat, c: nat)
    requires P >= 1 && c < n
    ensures BandEnd(n, P, P - 1) == n - 1
    ensures var o := Owner(n, P, c, P - 1);
      o < P && BandStart(n, P, o) <= c <= BandEnd(n, P, o)
      && forall r: nat :: BandStart(n, P, r) <= c <= BandEnd(n, P, r) ==> r == o
  {
    BandsCover(n, P);
    var o := Owner(n, P, c, P - 1);
    forall r: nat | BandStart(n, P, r) <= c <= BandEnd(n, P, r)
      ensures r == o
    {
      if r < o {
        BandsDisjoint(n, P, r, o);
      } else if o < r {
        BandsDisjoint(n, P, o, r);
      }
    }
  }
}
