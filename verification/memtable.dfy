/**
 * The unit table of the system allocator: one 32-bit word for every 64 KB unit.
 * A word is 0 in free memory, the byte size at the first unit of a used block,
 * and FFFF in the rest of that block.
 */
module MemTable {
  import opened Machine

  const UNIT: int := 0x1_0000

  /** Largest byte count whose rounding up to whole units does not wrap around. */
  const MAXSIZE: int := 0xFFFF_0000

  type Table = seq<u32>

  /** The rounding macro, in 32-bit arithmetic. */
  function Round64k(x: u32): u32 {
    (x + 0xFFFF) % TWO32 / UNIT * UNIT
  }

  /** Number of units of a block of x bytes; UnitsOfRounded ties it to the macro. */
  function Units(x: u32): (m: nat)
    ensures 0 < x <= MAXSIZE ==> m * UNIT - UNIT < x <= m * UNIT
  {
    if x <= MAXSIZE then (x + 0xFFFF) / UNIT else 0
  }

  /** The macro rounds up exactly as long as the sum fits into 32 bits. */
  lemma UnitsOfRounded(x: u32)
    ensures Round64k(x) / UNIT == Units(x)
    ensures (Round64k(x) >= x) <==> x <= MAXSIZE
  {
    if x <= MAXSIZE {
      assert (x + 0xFFFF) % TWO32 == x + 0xFFFF;
    } else {
      assert (x + 0xFFFF) % TWO32 == x + 0xFFFF - TWO32;
    }
  }

  ghost predicate IsStart(t: Table, i: int) {
    0 <= i < |t| && t[i] != 0 && t[i] != FFFF
  }

  lemma StartIs(t: Table, i: int)
    requires 0 <= i < |t| && t[i] != 0 && t[i] != FFFF
    ensures IsStart(t, i)
  {
  }

  ghost predicate IsZero(t: Table, lo: int, hi: int) {
    0 <= lo <= hi <= |t| && forall j :: lo <= j < hi ==> t[j] == 0
  }

  /** Unit i starts a used block that covers exactly m units. */
  ghost predicate UsedRun(t: Table, i: int, m: int) {
    && IsStart(t, i)
    && t[i] <= MAXSIZE
    && m == Units(t[i])
    && 0 < m
    && i + m <= |t|
    && (forall j :: i < j < i + m ==> t[j] == FFFF)
    && (i + m < |t| ==> t[i + m] != FFFF)
  }

  ghost predicate IsHead(t: Table, u: int) {
    0 < u < |t| && t[u] == 0 && t[u - 1] != 0
  }

  /** Units u .. u+n are free and cannot be extended to either side. */
  ghost predicate FreeRun(t: Table, u: int, n: int) {
    && IsHead(t, u)
    && 0 < n
    && u + n <= |t|
    && IsZero(t, u, u + n)
    && (u + n < |t| ==> t[u + n] != 0)
  }

  /** A word that continues a used block has a used word before it. */
  ghost predicate Follows(t: Table, i: int)
    requires 0 < i < |t|
  {
    t[i] == FFFF ==> t[i - 1] != 0
  }

  /** Table consistency, stated word by word; TiledIffRendered gives its meaning. */
  ghost predicate Tiled(t: Table) {
    && IsStart(t, 0)
    && (forall i :: IsStart(t, i) ==> UsedRun(t, i, Units(t[i])))
    && (forall i :: 0 < i < |t| ==> Follows(t, i))
  }

  // ----- the two table updates -----

  function Mark(t: Table, p: nat, size: u32): (r: Table)
    requires p + Units(size) <= |t|
  {
    seq(|t|, i requires 0 <= i < |t| =>
      if i == p then size else if p < i < p + Units(size) then FFFF else t[i])
  }

  function Clear(t: Table, lo: nat, hi: nat): (r: Table)
    requires lo <= hi <= |t|
  {
    seq(|t|, i requires 0 <= i < |t| => if lo <= i < hi then 0 else t[i])
  }

  /** The block at p gets a new size word and loses or gains units at its end. */
  function Resize(t: Table, p: nat, size: u32): (r: Table)
    requires p < |t| && p + Units(size) <= |t|
  {
    seq(|t|, i requires 0 <= i < |t| =>
      if i == p then size
      else if p < i < p + Units(size) then FFFF
      else if p + Units(size) <= i < p + Units(t[p]) then 0 else t[i])
  }

  lemma RunsApart(t: Table, i: int, p: int)
    requires Tiled(t) && IsStart(t, i) && IsStart(t, p) && i != p
    ensures UsedRun(t, i, Units(t[i])) && UsedRun(t, p, Units(t[p]))
    ensures i + Units(t[i]) <= p || p + Units(t[p]) <= i
  {
  }

  lemma MarkKeepsTiled(t: Table, p: nat, size: u32)
    requires Tiled(t) && 0 < p && 0 < size <= MAXSIZE && p + Units(size) <= |t|
    requires IsZero(t, p, p + Units(size))
    ensures Tiled(Mark(t, p, size))
    ensures UsedRun(Mark(t, p, size), p, Units(size))
  {
    var r := Mark(t, p, size);
    var m := Units(size);
    assert t[p + m - 1] == 0;
    forall i | IsStart(r, i)
      ensures UsedRun(r, i, Units(r[i]))
    {
      if i != p {
        assert IsStart(t, i) && UsedRun(t, i, Units(t[i]));
        var e := i + Units(t[i]);
        assert forall j :: i <= j < e ==> t[j] != 0;
        assert forall j :: i <= j < e ==> r[j] == t[j];
        if e < |t| && p <= e < p + m {
          assert t[e - 1] != 0;
          assert e == p;
        }
      } else if p + m < |t| {
        assert Follows(t, p + m);
      }
    }
    forall i | 0 < i < |r|
      ensures Follows(r, i)
    {
      assert Follows(t, i);
    }
  }

  lemma ClearKeepsTiled(t: Table, p: nat)
    requires Tiled(t) && 0 < p && IsStart(t, p)
    ensures p + Units(t[p]) <= |t| && Tiled(Clear(t, p, p + Units(t[p])))
  {
    var m := Units(t[p]);
    assert UsedRun(t, p, m);
    var r := Clear(t, p, p + m);
    forall i | IsStart(r, i)
      ensures UsedRun(r, i, Units(r[i]))
    {
      RunsApart(t, i, p);
    }
    forall i | 0 < i < |r|
      ensures Follows(r, i)
    {
      assert Follows(t, i);
    }
  }

  lemma ResizeEnd(t: Table, p: nat, size: u32)
    requires Tiled(t) && IsStart(t, p) && 0 < size <= MAXSIZE && p + Units(size) <= |t|
    requires Units(t[p]) < Units(size) ==> IsZero(t, p + Units(t[p]), p + Units(size))
    ensures UsedRun(Resize(t, p, size), p, Units(size))
    ensures forall i | 0 < i < |t| :: Follows(Resize(t, p, size), i)
  {
    var r := Resize(t, p, size);
    var m := Units(t[p]);
    var n := Units(size);
    assert UsedRun(t, p, m);
    if m < n {
      assert t[p + n - 1] == 0;
      if p + n < |t| { assert Follows(t, p + n); }
    }
    forall i | 0 < i < |t|
      ensures Follows(r, i)
    {
      assert Follows(t, i);
    }
  }

  /** Resizing a block in place, over the free units behind it if it grows. */
  lemma ResizeKeepsTiled(t: Table, p: nat, size: u32)
    requires Tiled(t) && IsStart(t, p) && 0 < size <= MAXSIZE && p + Units(size) <= |t|
    requires Units(t[p]) < Units(size) ==> IsZero(t, p + Units(t[p]), p + Units(size))
    ensures Tiled(Resize(t, p, size))
  {
    var r := Resize(t, p, size);
    ResizeEnd(t, p, size);
    forall i | IsStart(r, i) && i != p
      ensures UsedRun(r, i, Units(r[i]))
    {
      ResizeOthers(t, p, size, i);
    }
  }

  lemma ResizeOthers(t: Table, p: nat, size: u32, i: nat)
    requires Tiled(t) && IsStart(t, p) && 0 < size <= MAXSIZE && p + Units(size) <= |t|
    requires Units(t[p]) < Units(size) ==> IsZero(t, p + Units(t[p]), p + Units(size))
    requires i != p && IsStart(Resize(t, p, size), i)
    ensures IsStart(t, i) && UsedRun(Resize(t, p, size), i, Units(t[i]))
  {
    var r := Resize(t, p, size);
    var e := p + Units(size);
    assert UsedRun(t, p, Units(t[p]));
    assert !(p < i < p + Units(t[p]));
    RunsApart(t, i, p);
    if p < i {
      assert p + Units(size) <= i;
    }
    assert forall j :: i <= j < i + Units(t[i]) ==> r[j] == t[j];
  }

  /** Freeing what was just allocated gives back the very same table. */
  lemma FreeUndoesAlloc(t: Table, p: nat, size: u32)
    requires 0 < size <= MAXSIZE && p + Units(size) <= |t| && IsZero(t, p, p + Units(size))
    ensures Units(size) > 0 && Mark(t, p, size)[p] == size
    ensures Clear(Mark(t, p, size), p, p + Units(size)) == t
  {
  }

  lemma UnitsPositive(size: u32)
    requires 0 < size <= MAXSIZE
    ensures 0 < Units(size) < TWO32
  {
  }

  /** Units whose read-only mark is cleared at the start: the last bits of an incomplete byte are left out. */
  function Sure(n: nat): (k: nat)
    ensures k <= n && (n > 0 ==> k > 0) && (k == n <==> n % 8 == 0 || n < 8)
  {
    if n < 8 then n else n / 8 * 8
  }

  /** The block of the tables comes first and is read-only; of the units that had their mark cleared at the start only
      used blocks carry one. */
  ghost predicate ReadOnlyMarks(t: Table, ro: seq<bool>) {
    && 0 < |ro| == |t| < 0x1_0000 && t[0] == TableSize(|t|) && ro[0]
    && (forall i :: 0 <= i < Sure(|t|) && ro[i] ==> IsStart(t, i))
  }

  lemma MarksAfterMark(t: Table, ro: seq<bool>, p: nat, size: u32, readonly: bool)
    requires ReadOnlyMarks(t, ro) && 0 < p && 0 < size <= MAXSIZE && p + Units(size) <= |t|
    requires IsZero(t, p, p + Units(size))
    ensures ReadOnlyMarks(Mark(t, p, size), ro[p := readonly])
  {
  }

  // ----- the free runs of a table -----

  /** S maps the first unit of every maximal free run to the length of that run. */
  ghost predicate Runs(t: Table, S: map<u32, u32>) {
    && (forall u: u32 :: u in S <==> IsHead(t, u))
    && (forall u | u in S :: FreeRun(t, u, S[u]))
  }

  lemma RunEnds(t: Table, S: map<u32, u32>, u: u32, e: nat)
    requires Runs(t, S) && IsHead(t, u) && IsZero(t, u, e) && u < e && (e < |t| ==> t[e] != 0)
    ensures u in S && S[u] == e - u
  {
    assert FreeRun(t, u, S[u]);
    assert u + S[u] >= e;
  }

  /** Every free unit lies in the run that starts at the nearest head below it. */
  lemma RunOf(t: Table, S: map<u32, u32>, u: u32, p: nat)
    requires Runs(t, S) && IsHead(t, u) && u <= p < |t| && IsZero(t, u, p + 1)
    ensures u in S && p < u + S[u]
  {
    assert FreeRun(t, u, S[u]);
    assert p < u + S[u];
  }

  /** The run that arises when the used units lo .. hi become free, joined with both neighbours. */
  lemma JoinedRun(t: Table, S: map<u32, u32>, r: Table, lo: nat, hi: nat, stp: u32)
    requires Runs(t, S) && |r| == |t| < TWO32 && 0 < stp <= lo < hi <= |t|
    requires forall i :: 0 <= i < |t| ==> if lo <= i < hi then t[i] != 0 && r[i] == 0 else t[i] == 0 <==> r[i] == 0
    requires IsZero(t, stp, lo) && t[stp - 1] != 0
    ensures hi in S ==> hi + S[hi] <= |t|
    ensures FreeRun(r, stp, (if hi in S then hi + S[hi] else hi) - stp)
  {
    if hi in S {
      assert FreeRun(t, hi, S[hi]);
    } else if hi < |t| {
      assert !IsHead(t, hi);
    }
  }

  lemma RunsAfterClear(t: Table, S: map<u32, u32>, r: Table, lo: nat, hi: u32, stp: u32, S': map<u32, u32>)
    requires Runs(t, S) && |r| == |t| < TWO32 && 0 < stp <= lo < hi <= |t|
    requires forall i :: 0 <= i < |t| ==> if lo <= i < hi then t[i] != 0 && r[i] == 0 else t[i] == 0 <==> r[i] == 0
    requires IsZero(t, stp, lo) && t[stp - 1] != 0
    requires (hi in S ==> hi + S[hi] < TWO32) && S' == Joined(S, stp, hi)
    ensures Runs(r, S')
  {
    JoinedRun(t, S, r, lo, hi, stp);
    forall u: u32 | IsHead(r, u) && u != stp
      ensures u in S'
    {
      ClearedHead(t, S, r, lo, hi, stp, u);
    }
    forall u | u in S' && u != stp
      ensures FreeRun(r, u, S'[u])
    {
      ClearedRun(t, S, r, lo, hi, stp, u);
    }
  }

  /** A head elsewhere was a head before. */
  lemma ClearedHead(t: Table, S: map<u32, u32>, r: Table, lo: nat, hi: u32, stp: u32, u: u32)
    requires Runs(t, S) && |r| == |t| < TWO32 && 0 < stp <= lo < hi <= |t|
    requires forall i :: 0 <= i < |t| ==> if lo <= i < hi then t[i] != 0 && r[i] == 0 else t[i] == 0 <==> r[i] == 0
    requires IsZero(t, stp, lo) && IsHead(r, u) && u != stp
    ensures u in S && u != hi
  {
    assert u < stp || u >= hi;
    assert IsHead(t, u);
  }

  /** A run elsewhere is still one. */
  lemma ClearedRun(t: Table, S: map<u32, u32>, r: Table, lo: nat, hi: u32, stp: u32, u: u32)
    requires Runs(t, S) && |r| == |t| < TWO32 && 0 < stp <= lo < hi <= |t|
    requires forall i :: 0 <= i < |t| ==> if lo <= i < hi then t[i] != 0 && r[i] == 0 else t[i] == 0 <==> r[i] == 0
    requires IsZero(t, stp, lo) && t[stp - 1] != 0 && u in S && u != hi && u != stp
    ensures FreeRun(r, u, S[u])
  {
    assert FreeRun(t, u, S[u]) && IsHead(t, u) && !(lo <= u < hi);
    if u < lo { assert u + S[u] < stp; }
  }

  /** How the run lengths change when units p .. q of run u become used. */
  ghost predicate CutRun(S: map<u32, u32>, u: u32, p: nat, q: nat, S': map<u32, u32>)
    requires u in S
  {
    && (forall v :: v in S' <==> (v in S && v != u) || (v == u && u < p) || (v == q && q < u + S[u]))
    && (forall v :: v in S' ==> S'[v] == (if v == u then p - u else if v == q
      && q < u + S[u] then u + S[u] - q else S[v]))
  }

  lemma HeadsAfterMark(t: Table, S: map<u32, u32>, r: Table, u: u32, p: nat, q: nat, S': map<u32, u32>)
    requires Runs(t, S) && |r| == |t| < TWO32 && u in S && u <= p < q <= u + S[u] && CutRun(S, u, p, q, S')
    requires forall i :: 0 <= i < |t| ==> if p <= i < q then r[i] != 0 else t[i] == 0 <==> r[i] == 0
    ensures forall v: u32 :: v in S' <==> IsHead(r, v)
  {
    assert FreeRun(t, u, S[u]);
    var e := u + S[u];
    assert forall i :: u <= i < e ==> t[i] == 0;
    forall v: u32
      ensures v in S' <==> IsHead(r, v)
    {
      if v < u || v >= e { assert IsHead(t, v) <==> IsHead(r, v); }
    }
  }

  /** Runs after the units p .. q of the free run u became used. */
  lemma RunsAfterMark(t: Table, S: map<u32, u32>, r: Table, u: u32, p: nat, q: nat, S': map<u32, u32>)
    requires Runs(t, S) && |r| == |t| < TWO32 && u in S && u <= p < q <= u + S[u] && CutRun(S, u, p, q, S')
    requires forall i :: 0 <= i < |t| ==> if p <= i < q then r[i] != 0 else t[i] == 0 <==> r[i] == 0
    ensures Runs(r, S')
  {
    HeadsAfterMark(t, S, r, u, p, q, S');
    assert FreeRun(t, u, S[u]);
    var e := u + S[u];
    forall v | v in S'
      ensures FreeRun(r, v, S'[v])
    {
      assert IsHead(r, v);
      if v != u && !(v == q && q < e) {
        assert v in S && FreeRun(t, v, S[v]);
        assert v < u || v >= e;
        assert v < u ==> v + S[v] < u;
      }
    }
  }

  lemma RunIsListed(t: Table, S: map<u32, u32>, u: int, n: int)
    requires Runs(t, S) && |t| < TWO32
    ensures FreeRun(t, u, n) <==> u in S && S[u] == n
  {
    if FreeRun(t, u, n) {
      RunEnds(t, S, u, u + n);
    }
  }

  /** The unit behind a used one is free exactly if a free run starts there. */
  lemma NextRun(t: Table, S: map<u32, u32>, hi: nat)
    requires Runs(t, S) && 0 < hi < |t| < TWO32 && t[hi - 1] != 0
    ensures t[hi] == 0 <==> hi in S
    ensures hi in S ==> hi + S[hi] <= |t|
  {
    assert IsHead(t, hi) <==> t[hi] == 0;
    if hi in S { assert FreeRun(t, hi, S[hi]); }
  }

  /** Run lengths after units stp .. hi joined the free run behind them, if there is one. */
  function Joined(S: map<u32, u32>, stp: u32, hi: u32): map<u32, u32>
    requires stp < hi && (hi in S ==> hi + S[hi] < TWO32)
  {
    var n: u32 := (if hi in S then hi + S[hi] else hi) - stp;
    (S - {stp, hi})[stp := n]
  }

  lemma JoinedIs(S: map<u32, u32>, stp: u32, hi: u32)
    requires stp < hi && stp !in S && (hi in S ==> hi + S[hi] < TWO32)
    ensures hi in S ==> Joined(S, stp, hi) == (S - {hi})[stp := hi + S[hi] - stp]
    ensures hi !in S ==> Joined(S, stp, hi) == S[stp := hi - stp]
  {
    assert S - {stp, hi} == S - {hi};
    if hi !in S { assert S - {hi} == S; }
  }

  lemma JoinedSkips(S: map<u32, u32>, stp: u32, hi: u32)
    requires stp < hi && (hi in S ==> hi + S[hi] < TWO32)
    ensures stp !in S - {stp} && (hi in S - {stp} <==> hi in S)
    ensures Joined(S - {stp}, stp, hi) == Joined(S, stp, hi)
    ensures stp !in S ==> S - {stp} == S
  {
    assert S - {stp} - {stp, hi} == S - {stp, hi};
  }

  /** What the table says before the block at pos is freed; stp is the start of the free run below it. */
  lemma FreeingFacts(t: Table, S: map<u32, u32>, pos: u32, stp: u32)
    requires Tiled(t) && Runs(t, S) && |t| < TWO32 && 0 < stp <= pos && IsStart(t, pos)
    requires IsZero(t, stp, pos) && t[stp - 1] != 0
    ensures var hi := pos + Units(t[pos]);
            && pos < hi <= |t|
            && (forall i :: pos < i < hi ==> t[i] == FFFF)
            && (stp < pos <==> stp in S) && (stp < pos ==> S[stp] == pos - stp)
            && (hi < |t| ==> (t[hi] == 0 <==> hi in S))
            && (hi in S ==> hi + S[hi] <= |t|)
    ensures forall v :: v in S ==> v < |t| && t[v] == 0
  {
    assert UsedRun(t, pos, Units(t[pos]));
    var hi := pos + Units(t[pos]);
    if stp < pos { RunEnds(t, S, stp, pos); } else { assert !IsHead(t, pos); }
    if hi < |t| {
      NextRun(t, S, hi);
    } else {
      assert !IsHead(t, hi);
    }
    forall v | v in S ensures v < |t| && t[v] == 0 { assert IsHead(t, v); }
  }

  /** Freeing the block at pos: the table stays consistent and its runs are the joined ones. */
  lemma FreedRuns(t: Table, S: map<u32, u32>, pos: u32, stp: u32)
    requires Tiled(t) && Runs(t, S) && |t| < TWO32 && 0 < stp <= pos && IsStart(t, pos)
    requires IsZero(t, stp, pos) && t[stp - 1] != 0
    ensures var hi := pos + Units(t[pos]);
            && hi <= |t| && (hi in S ==> hi + S[hi] <= |t|)
            && Tiled(Clear(t, pos, hi))
            && Runs(Clear(t, pos, hi), Joined(S, stp, hi))
  {
    assert |t| < 0x1_0000_0000;
    hide *;
    FreeingFacts(t, S, pos, stp);
    var hi := pos + Units(t[pos]);
    ClearKeepsTiled(t, pos);
    ClearedWords(t, pos);
    RunsAfterClear(t, S, Clear(t, pos, hi), pos, hi, stp, Joined(S, stp, hi));
  }

  lemma ClearedWords(t: Table, pos: u32)
    requires Tiled(t) && IsStart(t, pos)
    ensures var hi := pos + Units(t[pos]);
            && pos < hi <= |t| && |Clear(t, pos, hi)| == |t|
            && forall i :: 0 <= i < |t| ==>
                 if pos <= i < hi then t[i] != 0 && Clear(t, pos, hi)[i] == 0 else Clear(t, pos, hi)[i] == t[i]
  {
    assert UsedRun(t, pos, Units(t[pos]));
  }

  lemma ClearHides(t: Table, pos: nat, w: u32, hi: nat)
    requires pos < hi <= |t|
    ensures Clear(t[pos := w], pos, hi) == Clear(t, pos, hi)
  {
  }

  lemma ZeroStart(t: Table, pos: nat) returns (stp: nat)
    requires 0 < pos <= |t| && t[0] != 0
    ensures 0 < stp <= pos && t[stp - 1] != 0 && IsZero(t, stp, pos)
  {
    stp := pos;
    while t[stp - 1] == 0
      invariant 0 < stp <= pos && IsZero(t, stp, pos)
      decreases stp
    {
      stp := stp - 1;
    }
  }

  /**
   * Freeing the block at pos without the free run below it leaves a consistent list of runs exactly if there is none.
   */
  lemma LostRuns(t: Table, S: map<u32, u32>, pos: u32)
    requires Tiled(t) && Runs(t, S) && |t| < TWO32 && 0 < pos && IsStart(t, pos)
    ensures var hi := pos + Units(t[pos]);
            && pos < hi <= |t| && pos !in S && (hi in S ==> hi + S[hi] <= |t|)
            && (hi < |t| ==> (t[hi] == 0 <==> hi in S))
            && Tiled(Clear(t, pos, hi))
            && (Runs(Clear(t, pos, hi), Joined(S, pos, hi)) <==> t[pos - 1] != 0)
  {
    var stp := ZeroStart(t, pos);
    FreeingFacts(t, S, pos, stp);
    FreedRuns(t, S, pos, stp);
    var hi := pos + Units(t[pos]);
    if t[pos - 1] == 0 {
      assert pos in Joined(S, pos, hi) && !IsHead(Clear(t, pos, hi), pos);
    }
  }

  lemma MarksAfterClear(t: Table, ro: seq<bool>, p: nat)
    requires Tiled(t) && ReadOnlyMarks(t, ro) && IsStart(t, p) && !ro[p] && p + Units(t[p]) <= |t|
    ensures ReadOnlyMarks(Clear(t, p, p + Units(t[p])), ro)
  {
    assert UsedRun(t, p, Units(t[p]));
  }

  lemma InsideRun(t: Table, S: map<u32, u32>, u: u32, v: u32)
    requires Runs(t, S) && u in S && u < v < u + S[u]
    ensures v !in S
  {
    assert FreeRun(t, u, S[u]);
    assert t[v - 1] == 0;
  }

  /** Lengths of the free runs after m units were cut from the low or high end of run u. */
  function Carved(S: map<u32, u32>, u: u32, m: u32, high: bool): map<u32, u32>
    requires u in S && m <= S[u] && u + S[u] < TWO32
  {
    if S[u] == m then S - {u}
    else if high then S[u := S[u] - m]
    else (S - {u})[u + m := S[u] - m]
  }

  lemma CarvedRuns(t: Table, S: map<u32, u32>, u: u32, size: u32, high: bool)
    requires Tiled(t) && Runs(t, S) && |t| < TWO32 && u in S && 0 < size <= MAXSIZE && Units(size) <= S[u]
    ensures u + S[u] <= |t|
    ensures var p := if high then u + S[u] - Units(size) else u as int;
            && 0 < p && p + Units(size) <= |t| && IsZero(t, p, p + Units(size))
            && Tiled(Mark(t, p, size))
            && Runs(Mark(t, p, size), Carved(S, u, Units(size), high))
  {
    assert FreeRun(t, u, S[u]);
    var m := Units(size);
    var p := if high then u + S[u] - m else u as int;
    MarkKeepsTiled(t, p, size);
    CarvedIsMarked(t, S, u, size, high, p);
  }

  lemma CarvedIsMarked(t: Table, S: map<u32, u32>, u: u32, size: u32, high: bool, p: nat)
    requires Runs(t, S) && |t| < TWO32 && u in S && 0 < size <= MAXSIZE && Units(size) <= S[u] && u + S[u] <= |t|
    requires p == if high then u + S[u] - Units(size) else u
    ensures Runs(Mark(t, p, size), Carved(S, u, Units(size), high))
  {
    var m := Units(size);
    var r := Mark(t, p, size);
    assert forall i :: 0 <= i < |t| ==> if p <= i < p + m then r[i] != 0 else r[i] == t[i];
    if p + m < u + S[u] { InsideRun(t, S, u, p + m); }
    assert |r| == |t|;
    hide Mark, FreeRun;
    RunsAfterMark(t, S, r, u, p, p + m, Carved(S, u, m, high));
  }

  lemma RunsSameZeros(t: Table, S: map<u32, u32>, r: Table)
    requires Runs(t, S) && |r| == |t|
    requires forall i :: 0 <= i < |t| ==> (r[i] == 0 <==> t[i] == 0)
    ensures Runs(r, S)
  {
    forall u: u32 ensures u in S <==> IsHead(r, u) { assert IsHead(r, u) <==> IsHead(t, u); }
    forall u | u in S ensures FreeRun(r, u, S[u]) { assert FreeRun(t, u, S[u]); }
  }

  lemma MarksAfterResize(t: Table, ro: seq<bool>, p: nat, size: u32)
    requires Tiled(t) && ReadOnlyMarks(t, ro) && IsStart(t, p) && 0 < p && 0 < size <= MAXSIZE && p + Units(size) <= |t|
    requires Units(t[p]) < Units(size) ==> IsZero(t, p + Units(t[p]), p + Units(size))
    ensures ReadOnlyMarks(Resize(t, p, size), ro)
  {
    assert UsedRun(t, p, Units(t[p]));
  }

  /** A resize within the same units changes the size word only. */
  lemma SameUnits(t: Table, S: map<u32, u32>, p: u32, size: u32)
    requires Tiled(t) && Runs(t, S) && IsStart(t, p) && 0 < size <= MAXSIZE && Units(size) == Units(t[p])
    ensures p + Units(size) <= |t| && Resize(t, p, size) == t[p := size]
    ensures Tiled(Resize(t, p, size)) && Runs(Resize(t, p, size), S)
  {
    assert UsedRun(t, p, Units(t[p]));
    assert Resize(t, p, size) == t[p := size];
    ResizeKeepsTiled(t, p, size);
    RunsSameZeros(t, S, t[p := size]);
  }

  /** A shrink frees the units at the end of the block. */
  lemma ShrunkRuns(t: Table, S: map<u32, u32>, p: u32, size: u32)
    requires Tiled(t) && Runs(t, S) && |t| < TWO32 && IsStart(t, p) && 0 < size <= MAXSIZE && Units(size) < Units(t[p])
    ensures var lo := p + Units(size); var hi := p + Units(t[p]);
            && hi <= |t| && lo !in S
            && (hi < |t| ==> (t[hi] == 0 <==> hi in S))
            && (hi in S ==> hi < |t| && hi + S[hi] <= |t|)
            && Resize(t, p, size) == Clear(t[p := size], lo, hi)
            && Tiled(Resize(t, p, size)) && Runs(Resize(t, p, size), Joined(S, lo, hi))
  {
    assert UsedRun(t, p, Units(t[p]));
    var lo := p + Units(size);
    var hi := p + Units(t[p]);
    var r := Resize(t, p, size);
    assert r == Clear(t[p := size], lo, hi);
    ResizeKeepsTiled(t, p, size);
    assert !IsHead(t, lo);
    if hi < |t| { NextRun(t, S, hi); } else { assert !IsHead(t, hi); }
    assert forall i :: 0 <= i < |t| ==> if lo <= i < hi then t[i] != 0 && r[i] == 0 else t[i] == 0 <==> r[i] == 0;
    assert t[lo - 1] != 0 && IsZero(t, lo, lo);
    hide Tiled, Resize, Clear, Runs, UsedRun;
    RunsAfterClear(t, S, r, lo, hi, lo, Joined(S, lo, hi));
  }

  /** Can the block at p grow to n units without moving? */
  ghost predicate CanGrow(t: Table, p: nat, n: nat)
    requires p < |t|
  {
    p + n <= |t| && p + Units(t[p]) <= p + n && IsZero(t, p + Units(t[p]), p + n)
  }

  /** The test for growing in place: the free run behind the block is long enough. */
  lemma GrowTest(t: Table, S: map<u32, u32>, p: u32, n: nat)
    requires Tiled(t) && Runs(t, S) && |t| < TWO32 && IsStart(t, p) && Units(t[p]) < n
    ensures var hi := p + Units(t[p]);
            && hi <= |t|
            && (hi < |t| ==> (t[hi] == 0 <==> hi in S))
            && (hi in S ==> hi < |t| && hi + S[hi] <= |t|)
            && (CanGrow(t, p, n) <==> hi in S && n <= Units(t[p]) + S[hi])
  {
    assert UsedRun(t, p, Units(t[p]));
    var hi := p + Units(t[p]);
    if hi < |t| { NextRun(t, S, hi); } else { assert !IsHead(t, hi); }
    if hi in S { assert FreeRun(t, hi, S[hi]); }
    if CanGrow(t, p, n) { assert hi in S; }
  }

  lemma GrownWords(t: Table, p: u32, size: u32)
    requires Tiled(t) && IsStart(t, p) && size <= MAXSIZE && Units(t[p]) < Units(size) && CanGrow(t, p, Units(size))
    ensures Tiled(Resize(t, p, size)) && t[p] < size && IsZero(t, p + Units(t[p]), p + Units(size))
    ensures var r := Resize(t, p, size);
            && |r| == |t| && IsStart(r, p) && r[p] == size
            && forall i :: 0 <= i < |t| ==>
                 if p + Units(t[p]) <= i < p + Units(size) then r[i] != 0 else t[i] == 0 <==> r[i] == 0
  {
    assert UsedRun(t, p, Units(t[p]));
    ResizeKeepsTiled(t, p, size);
  }

  /** Free runs keep off the units of a used block. */
  lemma BlockApart(t: Table, S: map<u32, u32>, p: nat)
    requires Tiled(t) && Runs(t, S) && IsStart(t, p)
    ensures p + Units(t[p]) <= |t| && 0 < Units(t[p]) && t[p] <= MAXSIZE
    ensures forall v :: v in S ==> v < |t| && t[v] == 0 && (v < p || p + Units(t[p]) <= v)
  {
    assert UsedRun(t, p, Units(t[p]));
    forall v | v in S
      ensures v < |t| && t[v] == 0 && (v < p || p + Units(t[p]) <= v)
    {
      assert IsHead(t, v);
    }
  }

  lemma GrowFacts(t: Table, S: map<u32, u32>, pos: u32, size: u32, hi: u32, k: u32)
    requires Tiled(t) && Runs(t, S) && |t| < 0x1_0000 && IsStart(t, pos) && size <= MAXSIZE
    requires Units(t[pos]) < Units(size) && CanGrow(t, pos, Units(size))
    requires hi == pos + Units(t[pos]) && k == Units(size) - Units(t[pos])
    requires hi in S && k <= S[hi] && hi + S[hi] <= |t|
    ensures hi + S[hi] < TWO32 && t[pos] < size && IsZero(t, pos + Units(t[pos]), pos + Units(size))
    ensures Tiled(Resize(t, pos, size)) && Runs(Resize(t, pos, size), Carved(S, hi, k, false))
    ensures var S' := Carved(S, hi, k, false); forall v :: v in S' ==> v < pos || pos + Units(size) <= v
  {
    GrownWords(t, pos, size);
    var r := Resize(t, pos, size);
    var S' := Carved(S, hi, k, false);
    if k < S[hi] { InsideRun(t, S, hi, hi + k); }
    hide Tiled, Resize, Runs, UsedRun, CanGrow, FreeRun, Units, IsZero;
    RunsAfterMark(t, S, r, hi, hi, hi + k, S');
    BlockApart(r, S', pos);
  }

  /** The block at pos is still there after a block of size bytes was put into free units at p. */
  lemma MarkedTable(t: Table, pos: u32, p: u32, size: u32)
    requires Tiled(t) && IsStart(t, pos) && 0 < p && 0 < size <= MAXSIZE && p + Units(size) <= |t|
    requires IsZero(t, p, p + Units(size))
    ensures pos + Units(t[pos]) <= |t| && (pos + Units(t[pos]) <= p || p + Units(size) <= pos)
    ensures var r := Mark(t, p, size);
            && |r| == |t| && IsStart(r, pos) && r[pos] == t[pos] && IsStart(r, p) && r[p] == size
            && var s := Clear(r, pos, pos + Units(t[pos]));
               && |s| == |t| && IsStart(s, p) && s[p] == size
               && forall v: u32 :: v < |t| && t[v] != 0 && !(pos <= v < pos + Units(t[pos])) ==> s[v] != 0
  {
    assert UsedRun(t, pos, Units(t[pos]));
    assert t[p] == 0;
    assert !(pos < p < pos + Units(t[pos]));
  }

  /** How a realloc changes the table if the block has to move. */
  ghost predicate MovedTables(t: Table, ro: seq<bool>, align: Align, pos: nat, size: u32, r: nat, t': Table,
      ro': seq<bool>)
    requires pos < |t| == |ro|
  {
    && Chosen(t, Units(size), align, r)
    && if r == 0 then t' == t && ro' == ro
       else
         && r + Units(size) <= |t| && pos + Units(t[pos]) <= |t| && r < |ro| && ro' == ro[r := false]
         && t' == Clear(Mark(t, r, size), pos, pos + Units(t[pos]))
  }

  /** How a realloc changes the table: in place if the size or the free units behind permit, else by moving. */
  ghost predicate Reallocated(t: Table, ro: seq<bool>, align: Align, pos: nat, size: u32, r: nat, t': Table,
      ro': seq<bool>)
    requires pos < |t| == |ro|
  {
    if Units(size) <= Units(t[pos]) || CanGrow(t, pos, Units(size)) then
      && r == pos && pos + Units(size) <= |t|
      && t' == Resize(t, pos, size) && ro' == ro
    else
      MovedTables(t, ro, align, pos, size, r, t', ro')
  }

  lemma ResizedWords(t: Table, pos: u32, size: u32)
    requires Tiled(t) && IsStart(t, pos) && 0 < size <= MAXSIZE && Units(size) <= Units(t[pos])
    ensures pos + Units(t[pos]) <= |t| && Units(size) > 0 && size <= Units(size) * UNIT
    ensures var r := Resize(t, pos, size);
            && |r| == |t| && IsStart(r, pos) && r[pos] == size
            && (forall v: u32 :: v < |t| && t[v] != 0 && !(pos <= v < pos + Units(t[pos])) ==> r[v] != 0)
  {
    assert UsedRun(t, pos, Units(t[pos]));
  }

  lemma GrownTable(t: Table, r: Table, pos: u32, size: u32)
    requires Tiled(t) && IsStart(t, pos) && size <= MAXSIZE && Units(t[pos]) < Units(size) && pos + Units(size) <= |t|
    requires |r| == |t|
    requires forall i :: 0 <= i < |t| ==>
               r[i] == if i == pos then size else if pos + Units(t[pos]) <= i < pos + Units(size) then FFFF else t[i]
    ensures r == Resize(t, pos, size)
  {
    assert UsedRun(t, pos, Units(t[pos]));
  }

  /** Run lengths after units p .. q were cut out of run u. */
  function Split(S: map<u32, u32>, u: u32, p: u32, q: u32): map<u32, u32>
    requires u in S && u <= p < q <= u + S[u]
  {
    var below := if u < p then S[u := p - u] else S - {u};
    if q < u + S[u] then below[q := u + S[u] - q] else below
  }

  lemma SplitIs(S: map<u32, u32>, u: u32, p: u32, q: u32)
    requires u in S && u <= p < q <= u + S[u]
    ensures var below := if u < p then (S - {u})[u := p - u] else S - {u};
            Split(S, u, p, q) == if q < u + S[u] then below[q := u + S[u] - q] else below
  {
    assert (S - {u})[u := p - u] == S[u := p - u];
  }

  /** Marking free units keeps the words of all used ones. */
  lemma MarkKeepsUsed(t: Table, p: nat, size: u32)
    requires 0 < size <= MAXSIZE && p + Units(size) <= |t| && IsZero(t, p, p + Units(size))
    ensures forall i :: 0 <= i < |t| && t[i] != 0 ==> Mark(t, p, size)[i] == t[i]
    ensures Mark(t, p, size)[p] != 0 && !IsZero(Mark(t, p, size), p, p + Units(size))
  {
  }

  lemma ReservedIsFree(t: Table, ro: seq<bool>, p: u32, size: u32)
    requires Tiled(t) && ReadOnlyMarks(t, ro) && 0 < size <= MAXSIZE && p + Units(size) <= |t|
    requires IsZero(t, p, p + Units(size))
    ensures 0 < p < |ro| && (p < Sure(|t|) ==> !ro[p]) && t[0] != 0 && t[p] == 0
  {
  }

  lemma RunAround(t: Table, S: map<u32, u32>, u: u32, p: nat, q: nat)
    requires Runs(t, S) && |t| < TWO32 && 0 < u <= p < q <= |t|
    requires IsZero(t, u, p) && t[u - 1] != 0 && IsZero(t, p, q)
    ensures u in S && q <= u + S[u] <= |t|
    ensures q < u + S[u] ==> q !in S && t[q] == 0
  {
    assert t[u] == 0 && IsHead(t, u);
    assert IsZero(t, u, q);
    RunOf(t, S, u, q - 1);
    assert FreeRun(t, u, S[u]);
    if q < u + S[u] { InsideRun(t, S, u, q); }
  }

  /** Reserving size bytes at p inside the free run that starts at u. */
  lemma ReservedRuns(t: Table, S: map<u32, u32>, u: u32, p: u32, size: u32)
    requires Tiled(t) && Runs(t, S) && |t| < TWO32 && 0 < size <= MAXSIZE && 0 < u <= p && p + Units(size) <= |t|
    requires IsZero(t, u, p) && t[u - 1] != 0 && IsZero(t, p, p + Units(size))
    ensures u in S && p + Units(size) <= u + S[u] <= |t| && 0 < Units(size)
    ensures p + Units(size) < u + S[u] ==> p + Units(size) !in S && t[p + Units(size)] == 0
    ensures Tiled(Mark(t, p, size)) && Runs(Mark(t, p, size), Split(S, u, p, p + Units(size)))
  {
    RunAround(t, S, u, p, p + Units(size));
    MarkKeepsTiled(t, p, size);
    SplitRuns(t, S, u, p, size);
  }

  lemma SplitRuns(t: Table, S: map<u32, u32>, u: u32, p: u32, size: u32)
    requires Runs(t, S) && |t| < TWO32 && 0 < size <= MAXSIZE && 0 < u <= p && 0 < Units(size)
    requires u in S && p + Units(size) <= u + S[u] <= |t| && IsZero(t, p, p + Units(size))
    requires p + Units(size) < u + S[u] ==> p + Units(size) !in S
    ensures Runs(Mark(t, p, size), Split(S, u, p, p + Units(size)))
  {
    var q := p + Units(size);
    var r := Mark(t, p, size);
    MarkChanges(t, p, size);
    SplitCuts(S, u, p, q);
    hide *;
    RunsAfterMark(t, S, r, u, p, q, Split(S, u, p, q));
  }

  lemma SplitCuts(S: map<u32, u32>, u: u32, p: u32, q: u32)
    requires u in S && u <= p < q <= u + S[u]
    ensures CutRun(S, u, p, q, Split(S, u, p, q))
  {
  }

  lemma MarkChanges(t: Table, p: u32, size: u32)
    requires 0 < size && 0 < Units(size) && p + Units(size) <= |t|
    ensures |Mark(t, p, size)| == |t|
    ensures forall i :: 0 <= i < |t| ==>
      if p <= i < p + Units(size) then Mark(t, p, size)[i] != 0 else Mark(t, p, size)[i] == t[i]
  {
    hide Units;
  }

  // ----- which place an allocation takes -----

  datatype Align = Lowest | Highest | BestFit

  ghost predicate Fits(t: Table, m: int, u: int, n: int) {
    FreeRun(t, u, n) && m <= n
  }

  ghost predicate NoneFits(t: Table, m: int) {
    forall u, n :: FreeRun(t, u, n) ==> n < m
  }

  ghost predicate StartOfLowest(t: Table, m: int, p: int) {
    exists n :: Fits(t, m, p, n) && forall v, k :: Fits(t, m, v, k) ==> p <= v
  }

  ghost predicate TailOfHighest(t: Table, m: int, p: int) {
    exists u, n :: Fits(t, m, u, n) && p == u + n - m && forall v, k :: Fits(t, m, v, k) ==> v <= u
  }

  ghost predicate StartOfSmallest(t: Table, m: int, p: int) {
    exists n :: Fits(t, m, p, n) && forall v, k :: Fits(t, m, v, k) ==> n <= k
  }

  /** Where a block of m units goes: 0 if it fits nowhere, else the place the strategy asks for. */
  ghost predicate Chosen(t: Table, m: int, align: Align, p: int) {
    if p == 0 then NoneFits(t, m)
    else match align
      case Lowest => StartOfLowest(t, m, p)
      case Highest => TailOfHighest(t, m, p)
      case BestFit => StartOfSmallest(t, m, p)
  }

  /** The address strategies leave no freedom, and best fit none about the run length. */
  lemma ChoiceIsUnique(t: Table, m: int, align: Align, p: int, q: int)
    requires 0 < m && Chosen(t, m, align, p) && Chosen(t, m, align, q)
    ensures p == 0 <==> q == 0
    ensures !align.BestFit? ==> p == q
    ensures align.BestFit? ==> forall n, k :: FreeRun(t, p, n) && FreeRun(t, q, k) ==> n == k
  {
    if p != 0 && q != 0 {
      match align {
        case Lowest =>
          var n :| Fits(t, m, p, n);
          var k :| Fits(t, m, q, k);
        case Highest =>
          var u, n :| Fits(t, m, u, n) && p == u + n - m && forall v, k :: Fits(t, m, v, k) ==> v <= u;
          var v, k :| Fits(t, m, v, k) && q == v + k - m && forall w, k :: Fits(t, m, w, k) ==> w <= v;
          assert u == v;
          RunLengthUnique(t, u, n, k);
        case BestFit =>
          var n :| Fits(t, m, p, n) && forall v, k :: Fits(t, m, v, k) ==> n <= k;
          var k :| Fits(t, m, q, k) && forall v, l :: Fits(t, m, v, l) ==> k <= l;
          forall n', k' | FreeRun(t, p, n') && FreeRun(t, q, k')
            ensures n' == k'
          {
            RunLengthUnique(t, p, n, n');
            RunLengthUnique(t, q, k, k');
          }
      }
    }
  }

  lemma RunLengthUnique(t: Table, u: int, n: int, k: int)
    requires FreeRun(t, u, n) && FreeRun(t, u, k)
    ensures n == k
  {
    assert !(n < k) && !(k < n);
  }

  // ----- what a consistent table means -----

  datatype Tile = Used(bytes: u32) | Free(units: nat)

  ghost predicate GoodTile(e: Tile) {
    match e
    case Used(b) => 0 < b <= MAXSIZE
    case Free(n) => 0 < n
  }

  ghost function Words(e: Tile): Table {
    match e
    case Used(b) => [b] + seq(if Units(b) > 0 then Units(b) - 1 else 0, _ => FFFF)
    case Free(n) => seq(n, _ => 0)
  }

  ghost function Render(tiles: seq<Tile>): Table {
    if tiles == [] then [] else Words(tiles[0]) + Render(tiles[1..])
  }

  /** A layout: good tiles, and no two free tiles next to each other. */
  ghost predicate Layout(tiles: seq<Tile>) {
    && (forall i :: 0 <= i < |tiles| ==> GoodTile(tiles[i]))
    && (forall i :: 0 < i < |tiles| ==> tiles[i - 1].Used? || tiles[i].Used?)
  }

  /** Tiled from unit k on, for a unit k that does not continue a used block. */
  ghost predicate TiledTail(t: Table) {
    && (t != [] ==> t[0] != FFFF)
    && (forall i :: IsStart(t, i) ==> UsedRun(t, i, Units(t[i])))
    && (forall i :: 0 < i < |t| ==> Follows(t, i))
  }

  lemma TailOfTail(t: Table, k: nat)
    requires TiledTail(t) && k <= |t| && (k < |t| ==> t[k] != FFFF)
    ensures TiledTail(t[k..])
  {
    var r := t[k..];
    forall i | IsStart(r, i)
      ensures UsedRun(r, i, Units(r[i]))
    {
      assert IsStart(t, k + i) && UsedRun(t, k + i, Units(t[k + i]));
      forall j | i < j < i + Units(r[i]) ensures r[j] == FFFF { assert t[k + j] == FFFF; }
    }
    forall i | 0 < i < |r|
      ensures Follows(r, i)
    {
      assert Follows(t, k + i);
    }
  }

  lemma FirstNonZero(t: Table) returns (n: nat)
    ensures n <= |t| && IsZero(t, 0, n) && (n < |t| ==> t[n] != 0)
  {
    n := 0;
    while n < |t| && t[n] == 0
      invariant n <= |t| && IsZero(t, 0, n)
    {
      n := n + 1;
    }
  }

  lemma FirstTile(t: Table) returns (e: Tile)
    requires TiledTail(t) && t != []
    ensures GoodTile(e) && Words(e) <= t && Words(e) != [] && (e.Free? <==> t[0] == 0)
    ensures |Words(e)| < |t| ==> t[|Words(e)|] != FFFF && (e.Free? ==> t[|Words(e)|] != 0)
  {
    if t[0] == 0 {
      var n := FirstNonZero(t);
      if n < |t| { assert t[n - 1] == 0 && Follows(t, n); }
      e := Free(n);
      assert t[..n] == Words(e);
    } else {
      assert UsedRun(t, 0, Units(t[0]));
      e := Used(t[0]);
      assert t[..Units(t[0])] == Words(e);
    }
  }

  lemma PrependLayout(e: Tile, rest: seq<Tile>)
    requires GoodTile(e) && Layout(rest) && (rest != [] ==> e.Used? || rest[0].Used?)
    ensures Layout([e] + rest) && Render([e] + rest) == Words(e) + Render(rest)
  {
    var tiles := [e] + rest;
    assert tiles[1..] == rest;
    forall i | 0 < i < |tiles|
      ensures tiles[i - 1].Used? || tiles[i].Used?
    {
      if i > 1 { assert rest[i - 2].Used? || rest[i - 1].Used?; }
    }
  }

  lemma ParseTail(t: Table) returns (tiles: seq<Tile>)
    requires TiledTail(t)
    ensures Layout(tiles) && Render(tiles) == t
    ensures t != [] ==> tiles != [] && (tiles[0].Free? <==> t[0] == 0)
    ensures t == [] ==> tiles == []
    decreases |t|
  {
    hide *;
    if t == [] {
      tiles := [];
      EmptyLayout();
    } else {
      var e := FirstTile(t);
      var n, r := |Words(e)|, t[|Words(e)|..];
      TailOfTail(t, n);
      var rest := ParseTail(r);
      PrependLayout(e, rest);
      tiles := [e] + rest;
      WordsPrefix(t, Words(e));
    }
  }

  lemma EmptyLayout()
    ensures Layout([]) && Render([]) == []
  {
  }

  lemma WordsPrefix(t: Table, w: Table)
    requires w <= t
    ensures w + t[|w|..] == t
  {
  }

  lemma PrependTile(e: Tile, r: Table)
    requires GoodTile(e) && TiledTail(r)
    ensures TiledTail(Words(e) + r)
  {
    var w := Words(e);
    var t := w + r;
    forall i | IsStart(t, i)
      ensures UsedRun(t, i, Units(t[i]))
    {
      if i < |w| {
        assert i == 0;
      } else {
        assert UsedRun(r, i - |w|, Units(r[i - |w|]));
        forall j | i < j < i + Units(t[i]) ensures t[j] == FFFF { assert r[j - |w|] == FFFF; }
      }
    }
    forall i | 0 < i < |t|
      ensures Follows(t, i)
    {
      if i > |w| { assert Follows(r, i - |w|); }
    }
  }

  lemma {:induction false} RenderTail(tiles: seq<Tile>)
    requires Layout(tiles)
    ensures TiledTail(Render(tiles))
    ensures tiles != [] ==> Render(tiles) != [] && Render(tiles)[0] == (if tiles[0].Used? then tiles[0].bytes else 0)
  {
    if tiles != [] {
      RenderTail(tiles[1..]);
      PrependTile(tiles[0], Render(tiles[1..]));
    }
  }

  /**
   * The table is consistent exactly when it is the concatenation of used blocks
   * (size word, then FFFF words) and maximal free runs, starting with a used block.
   */
  lemma TiledIffRendered(t: Table)
    ensures Tiled(t) <==> exists tiles: seq<Tile> ::
      tiles != [] && tiles[0].Used? && Layout(tiles)
      && Render(tiles) == t
  {
    if Tiled(t) {
      var tiles := ParseTail(t);
      assert tiles != [] && tiles[0].Used? && Layout(tiles) && Render(tiles) == t;
    }
    forall tiles: seq<Tile> | tiles != [] && tiles[0].Used? && Layout(tiles) && Render(tiles) == t
      ensures Tiled(t)
    {
      RenderTail(tiles);
    }
  }

  // ----- read-only blocks -----

  /** Every read-only block is still there, read-only and of the same size. */
  ghost predicate Permanent(t: Table, ro: seq<bool>, t': Table, ro': seq<bool>) {
    && |t'| == |t| && |ro'| == |ro| == |t|
    && forall i :: 0 <= i < |ro| && IsStart(t, i) && ro[i] ==> ro'[i] && t'[i] == t[i]
  }

  lemma PermanentTrans(t: Table, ro: seq<bool>, t1: Table, ro1: seq<bool>, t2: Table, ro2: seq<bool>)
    requires Permanent(t, ro, t1, ro1) && Permanent(t1, ro1, t2, ro2)
    ensures Permanent(t, ro, t2, ro2)
  {
  }

  lemma PermanentMark(t: Table, ro: seq<bool>, p: nat, size: u32, readonly: bool)
    requires |ro| == |t| && 0 < size <= MAXSIZE && p + Units(size) <= |t| && IsZero(t, p, p + Units(size))
    ensures Permanent(t, ro, Mark(t, p, size), ro[p := readonly])
  {
  }

  lemma PermanentClear(t: Table, ro: seq<bool>, pos: nat)
    requires Tiled(t) && ReadOnlyMarks(t, ro) && IsStart(t, pos) && !ro[pos] && pos + Units(t[pos]) <= |t|
    ensures Permanent(t, ro, Clear(t, pos, pos + Units(t[pos])), ro)
  {
    assert UsedRun(t, pos, Units(t[pos]));
  }

  lemma PermanentResize(t: Table, ro: seq<bool>, pos: nat, size: u32)
    requires Tiled(t) && ReadOnlyMarks(t, ro) && IsStart(t, pos) && !ro[pos]
    requires 0 < size <= MAXSIZE && pos + Units(size) <= |t|
    requires Units(t[pos]) < Units(size) ==> IsZero(t, pos + Units(t[pos]), pos + Units(size))
    ensures Permanent(t, ro, Resize(t, pos, size), ro)
  {
    assert UsedRun(t, pos, Units(t[pos]));
  }

  lemma ChosenIsFree(t: Table, m: int, align: Align, p: int)
    requires 0 < m && Chosen(t, m, align, p) && p != 0
    ensures 0 < p && p + m <= |t| && IsZero(t, p, p + m)
  {
    match align {
      case Lowest => var n :| Fits(t, m, p, n);
      case Highest => var u, n :| Fits(t, m, u, n) && p == u + n - m;
      case BestFit => var n :| Fits(t, m, p, n);
    }
  }

  lemma PermanentRealloc(t: Table, ro: seq<bool>, align: Align, pos: u32, size: u32, r: u32, t': Table, ro': seq<bool>)
    requires Tiled(t) && ReadOnlyMarks(t, ro) && IsStart(t, pos) && !ro[pos] && 0 < size <= MAXSIZE
    requires Reallocated(t, ro, align, pos, size, r, t', ro')
    ensures Permanent(t, ro, t', ro')
  {
    assert UsedRun(t, pos, Units(t[pos]));
    if Units(size) <= Units(t[pos]) || CanGrow(t, pos, Units(size)) {
      PermanentResize(t, ro, pos, size);
    } else if r != 0 {
      ChosenIsFree(t, Units(size), align, r);
      MarkedTable(t, pos, r, size);
      PermanentMark(t, ro, r, size, false);
      MarkKeepsTiled(t, r, size);
      MarksAfterMark(t, ro, r, size, false);
      PermanentClear(Mark(t, r, size), ro[r := false], pos);
      PermanentTrans(t, ro, Mark(t, r, size), ro[r := false], t', ro');
    }
  }

  // ----- which blocks were asked to be read-only -----

  /** Live blocks carry the read-only mark exactly if that was asked for; units whose mark was never cleared are left
      out. */
  ghost predicate Truthful(t: Table, ro: seq<bool>, asked: set<u32>)
    requires |ro| == |t|
  {
    forall i: u32 | i < Sure(|t|) && IsStart(t, i) :: ro[i] <==> i in asked
  }

  function Ask(asked: set<u32>, p: u32, readonly: bool): set<u32> {
    if p == 0 then asked else if readonly then asked + {p} else asked - {p}
  }

  lemma TruthfulMark(t: Table, ro: seq<bool>, asked: set<u32>, p: u32, size: u32, mark: bool, readonly: bool)
    requires |ro| == |t| && Truthful(t, ro, asked) && 0 < p && 0 < size <= MAXSIZE && p + Units(size) <= |t|
    requires IsZero(t, p, p + Units(size)) && (p < Sure(|t|) ==> mark == readonly)
    ensures Truthful(Mark(t, p, size), ro[p := mark], Ask(asked, p, readonly))
  {
  }

  lemma TruthfulClear(t: Table, ro: seq<bool>, asked: set<u32>, pos: nat)
    requires |ro| == |t| && Truthful(t, ro, asked) && pos < |t| && pos + Units(t[pos]) <= |t|
    ensures Truthful(Clear(t, pos, pos + Units(t[pos])), ro, asked)
  {
  }

  lemma TruthfulUnasked(t: Table, ro: seq<bool>, asked: set<u32>, pos: u32)
    requires |ro| == |t| && Truthful(t, ro, asked) && pos < |t| && !ro[pos]
    ensures Truthful(t, ro, Ask(asked, pos, false))
  {
  }

  lemma TruthfulResize(t: Table, ro: seq<bool>, asked: set<u32>, pos: u32, size: u32)
    requires Tiled(t) && |ro| == |t| && Truthful(t, ro, asked) && IsStart(t, pos) && !ro[pos] && 0 < pos
    requires 0 < size <= MAXSIZE && pos + Units(size) <= |t|
    requires Units(t[pos]) < Units(size) ==> IsZero(t, pos + Units(t[pos]), pos + Units(size))
    ensures Truthful(Resize(t, pos, size), ro, Ask(asked, pos, false))
  {
    assert UsedRun(t, pos, Units(t[pos]));
  }

  lemma TruthfulRealloc(t: Table, ro: seq<bool>, asked: set<u32>, align: Align, pos: u32, size: u32, r: u32, t': Table,
      ro': seq<bool>)
    requires Tiled(t) && |ro| == |t| && Truthful(t, ro, asked) && IsStart(t, pos) && !ro[pos] && 0 < pos
      && 0 < size <= MAXSIZE
    requires Reallocated(t, ro, align, pos, size, r, t', ro')
    ensures |ro'| == |t'| && Truthful(t', ro', Ask(asked, r, false))
  {
    assert UsedRun(t, pos, Units(t[pos]));
    if Units(size) <= Units(t[pos]) || CanGrow(t, pos, Units(size)) {
      TruthfulResize(t, ro, asked, pos, size);
    } else if r != 0 {
      ChosenIsFree(t, Units(size), align, r);
      MarkedTable(t, pos, r, size);
      TruthfulMark(t, ro, asked, r, size, false, false);
      TruthfulClear(Mark(t, r, size), ro[r := false], Ask(asked, r, false), pos);
    }
  }

  // ----- the limit of the rounding macro -----

  /** What the shrinking branch of hlp_memrealloc stores when the new size is rounded with the macro. */
  function Shrunk(t: Table, pos: nat, size: u32): Table
    requires pos < |t| && Round64k(size) / UNIT < Units(t[pos]) && pos + Units(t[pos]) <= |t|
  {
    Clear(t[pos := size], pos + Round64k(size) / UNIT, pos + Units(t[pos]))
  }

  /** Above MAXSIZE the macro gives 0, every size takes the shrinking branch, and the block is lost. */
  lemma ShrinkKeepsBlockIff(t: Table, pos: nat, size: u32)
    requires Tiled(t) && IsStart(t, pos) && 0 < size && Round64k(size) / UNIT < Units(t[pos])
    ensures pos + Units(t[pos]) <= |t|
    ensures UsedRun(Shrunk(t, pos, size), pos, Units(size)) <==> size <= MAXSIZE
    ensures size > MAXSIZE ==> Shrunk(t, pos, size) == Clear(t, pos, pos + Units(t[pos]))
  {
    assert UsedRun(t, pos, Units(t[pos]));
    UnitsOfRounded(size);
    var r := Shrunk(t, pos, size);
    assert forall i :: 0 <= i < |t| ==>
      r[i] == if pos + Units(size) <= i < pos + Units(t[pos]) then 0 else if i == pos then size else t[i];
    if size > MAXSIZE { assert Units(size) == 0 && r[pos] == 0; }
  }

  /** In a heap of 8 MB with blocks at units 0 and 2, resizing the second to the largest 32-bit size frees it without
      joining the free unit below, so that the runs in the lists are no longer those of the table. */
  lemma OversizedRealloc()
    ensures Units(TableSize(128)) == 1 == Units(1) && Round64k(FFFF) == 0
    ensures var t := Mark(InitialTable(128), 2, 1);
            var S: map<u32, u32> := map[1 := 1, 3 := 125];
            && Tiled(t) && Runs(t, S) && IsStart(t, 2) && Shrunk(t, 2, FFFF) == InitialTable(128)
            && !Runs(InitialTable(128), Joined(S, 2, 3))
  {
    var t := Mark(InitialTable(128), 2, 1);
    TwoBlocks();
    UnitsOfRounded(FFFF);
    assert Shrunk(t, 2, FFFF) == InitialTable(128);
    assert Clear(t, 2, 3) == InitialTable(128);
    hide Runs, Tiled, Mark, Clear;
    LostRuns(t, map[1 := 1, 3 := 125], 2);
  }

  lemma TwoBlocks()
    ensures Units(TableSize(128)) == 1 == Units(1) && IsZero(InitialTable(128), 2, 3)
    ensures Tiled(Mark(InitialTable(128), 2, 1)) && Runs(Mark(InitialTable(128), 2, 1), map[1 := 1, 3 := 125])
  {
    var t0, t := InitialTable(128), Mark(InitialTable(128), 2, 1);
    InitialRuns(128, seq(128, _ => 0));
    MarkKeepsTiled(t0, 2, 1);
    hide Tiled;
    assert forall i :: 0 <= i < 128 ==> (t[i] == 0 <==> i == 1 || i >= 3);
    assert FreeRun(t, 1, 1) && FreeRun(t, 3, 125);
    assert forall u: u32 :: u == 1 || u == 3 <==> IsHead(t, u);
  }

  // ----- a reservation of no units -----

  /** The marking loop of memreserve with k iterations left: None is the consistency panic on a word in use. */
  function MarkRest(t: seq<u32>, pos: nat, k: nat): Option<seq<u32>>
    decreases k
  {
    if k == 0 then Some(t)
    else if pos + 1 >= |t| || t[pos + 1] != 0 then None
    else MarkRest(t[pos + 1 := FFFF], pos + 1, k - 1)
  }

  /**
   * The loop counts down from the number of units, before the test and in 32 bits: no units are 2^32 - 1 iterations.
   */
  function Iterations(units: nat): nat
    requires units < TWO32
  {
    if units == 0 then TWO32 - 1 else units - 1
  }

  /** The loop ends without a panic exactly if all words it reaches are free. */
  lemma {:induction false} MarkRestIff(t: seq<u32>, pos: nat, k: nat)
    requires pos < |t|
    ensures MarkRest(t, pos, k).Some? <==> pos + k < |t| && IsZero(t, pos + 1, pos + k + 1)
    decreases k
  {
    if k > 0 && pos + 1 < |t| && t[pos + 1] == 0 {
      var r := t[pos + 1 := FFFF];
      MarkRestIff(r, pos + 1, k - 1);
      assert forall j :: pos + 2 <= j < |t| ==> r[j] == t[j];
    }
  }

  /**
   * The word behind the table is the signature of the block of the tables, which is not zero. A reservation of no
   * units therefore always ends in the panic.
   */
  lemma EmptyReservation(t: Table, behind: seq<u32>, pos: nat)
    requires pos < |t| && behind != [] && behind[0] != 0 && |t| + |behind| < TWO32
    ensures MarkRest((t + behind)[pos := 0], pos, Iterations(0)) == None
  {
    MarkRestIff((t + behind)[pos := 0], pos, Iterations(0));
  }

  // ----- the table memmgr_init builds -----

  /** Bytes taken by the four word tables and the read-only bits of a heap of n units. */
  function TableSize(n: nat): u32
    requires n < 0x1_0000
  {
    n * 4 * 4 + n / 8
  }

  function InitialWord(n: nat, i: int): u32
    requires n < 0x1_0000
  {
    if i == 0 then TableSize(n) else if i < Units(TableSize(n)) then FFFF else 0
  }

  function InitialTable(n: nat): Table
    requires n < 0x1_0000
  {
    seq(n, i => InitialWord(n, i))
  }

  lemma TableSizeBounds(n: nat)
    requires 0 < n < 0x1_0000
    ensures 0 < TableSize(n) <= MAXSIZE && 0 < Units(TableSize(n))
  {
  }

  lemma InitialRuns(n: nat, zero: Table)
    requires 1 < n < 0x1_0000 && Units(TableSize(n)) < n
    requires |zero| == n && forall i :: 0 <= i < n ==> zero[i] == 0
    ensures IsZero(zero, 0, Units(TableSize(n))) && Mark(zero, 0, TableSize(n)) == InitialTable(n)
    ensures Tiled(InitialTable(n))
    ensures Runs(InitialTable(n), map[Units(TableSize(n)) := n - Units(TableSize(n))])
  {
    TableSizeBounds(n);
    var t := InitialTable(n);
    var m := Units(TableSize(n));
    assert UsedRun(t, 0, m);
    assert IsHead(t, m) && FreeRun(t, m, n - m);
    forall u: u32
      ensures u == m <==> IsHead(t, u)
    {
    }
  }

  lemma InitialMarks(n: nat, ro: seq<bool>)
    requires 1 < n < 0x1_0000 && Units(TableSize(n)) < n
    requires |ro| == n && forall i :: 0 <= i < Sure(n) ==> (ro[i] <==> i == 0)
    ensures ReadOnlyMarks(InitialTable(n), ro)
  {
    TableSizeBounds(n);
  }
}
