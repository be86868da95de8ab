/** Counting the free units of a unit table. */
module FreeSpace {
  import opened Machine
  import opened MemTable

  /** First unit of the run of zero words that holds unit i. */
  ghost function Head(t: Table, i: int): int
    requires 0 <= i < |t|
    decreases i
  {
    if i > 0 && t[i] == 0 && t[i - 1] == 0 then Head(t, i - 1) else i
  }

  lemma {:induction false} HeadRun(t: Table, i: int)
    requires 0 <= i < |t| && t[i] == 0
    ensures 0 <= Head(t, i) <= i && IsZero(t, Head(t, i), i + 1)
    ensures Head(t, i) > 0 ==> t[Head(t, i) - 1] != 0
    decreases i
  {
    if i > 0 && t[i - 1] == 0 { HeadRun(t, i - 1); }
  }

  /** The free units whose run starts at a unit in heads. */
  ghost function UnitsOf(t: Table, heads: set<u32>): set<int> {
    set i | 0 <= i < |t| && t[i] == 0 && Head(t, i) in heads
  }

  ghost function ZeroUnits(t: Table): set<int> {
    set i | 0 <= i < |t| && t[i] == 0
  }

  ghost function Interval(lo: int, n: nat): (r: set<int>)
    ensures forall i :: i in r <==> lo <= i < lo + n
    ensures |r| == n
  {
    if n == 0 then {} else Interval(lo, n - 1) + {lo + n - 1}
  }

  lemma RunUnits(t: Table, S: map<u32, u32>, u: u32, i: int)
    requires Tiled(t) && Runs(t, S) && |t| < TWO32 && u in S
    ensures u <= i < u + S[u] <==> 0 <= i < |t| && t[i] == 0 && Head(t, i) == u
  {
    assert FreeRun(t, u, S[u]);
    if u <= i < u + S[u] {
      HeadRun(t, i);
      assert Head(t, i) >= u;
      assert Head(t, i) == u;
    }
    if 0 <= i < |t| && t[i] == 0 && Head(t, i) == u {
      HeadRun(t, i);
      RunOf(t, S, u, i);
    }
  }

  /** One more run adds as many units as it is long. */
  lemma CountRun(t: Table, S: map<u32, u32>, heads: set<u32>, u: u32)
    requires Tiled(t) && Runs(t, S) && |t| < TWO32 && u in S && u !in heads
    ensures |UnitsOf(t, heads + {u})| == |UnitsOf(t, heads)| + S[u]
  {
    forall i
      ensures i in UnitsOf(t, heads + {u}) <==> i in UnitsOf(t, heads) || i in Interval(u, S[u])
      ensures !(i in UnitsOf(t, heads) && i in Interval(u, S[u]))
    {
      RunUnits(t, S, u, i);
    }
    assert UnitsOf(t, heads + {u}) == UnitsOf(t, heads) + Interval(u, S[u]);
    assert UnitsOf(t, heads) !! Interval(u, S[u]);
  }

  /** All runs together cover every free unit. */
  lemma CountAll(t: Table, S: map<u32, u32>, heads: set<u32>)
    requires Tiled(t) && Runs(t, S) && |t| < TWO32 && forall u :: u in S ==> u in heads
    ensures UnitsOf(t, heads) == ZeroUnits(t)
  {
    forall i | i in ZeroUnits(t)
      ensures i in UnitsOf(t, heads)
    {
      HeadRun(t, i);
      var h := Head(t, i);
      assert IsHead(t, h);
    }
  }

  lemma NoUnits(t: Table)
    ensures |UnitsOf(t, {})| == 0
  {
    assert UnitsOf(t, {}) == {};
  }

  /** size bytes is the length of a largest free run, or 0 if there is none. */
  ghost predicate LargestRun(t: Table, size: nat) {
    && (forall u, n :: FreeRun(t, u, n) ==> n * UNIT <= size)
    && (size != 0 ==> exists u, n :: FreeRun(t, u, n) && n * UNIT == size)
  }

  lemma LargestListed(t: Table, S: map<u32, u32>, size: nat)
    requires Runs(t, S) && |t| < TWO32
    requires forall u :: u in S ==> S[u] * UNIT <= size
    requires size != 0 ==> exists u :: u in S && S[u] * UNIT == size
    ensures LargestRun(t, size)
  {
    forall u, n | FreeRun(t, u, n)
      ensures n * UNIT <= size
    {
      RunIsListed(t, S, u, n);
    }
    if size != 0 {
      var u :| u in S && S[u] * UNIT == size;
      assert FreeRun(t, u, S[u]);
    }
  }
}
