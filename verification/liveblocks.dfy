/** What a change of the heap leaves of the blocks it is not about: their size words and their bytes. */
module LiveBlocks {
  import opened Machine
  import opened MemTable

  /** The block at unit p is still there, with the same size and the same bytes in all of its units. */
  ghost predicate BlockKept(t: Table, m: seq<byte>, t': Table, m': seq<byte>, p: int) {
    && 0 <= p < |t| == |t'| && |m| == |m'|
    && t'[p] == t[p]
    && forall a :: p * UNIT <= a < (p + Units(t[p])) * UNIT && a < |m| ==> m'[a] == m[a]
  }

  /** All blocks behind the block of the tables are kept, but for the one at unit pos. */
  ghost predicate OthersKept(t: Table, m: seq<byte>, t': Table, m': seq<byte>, pos: int) {
    |t'| == |t| && forall p :: 0 < p && IsStart(t, p) && p != pos ==> BlockKept(t, m, t', m', p)
  }

  lemma SameKept(t: Table, m: seq<byte>, pos: int)
    ensures OthersKept(t, m, t, m, pos)
  {
  }

  /** Blocks but that at pos keep their size words. */
  ghost predicate StartsKept(t: Table, t': Table, pos: int) {
    |t'| == |t| && forall p :: IsStart(t, p) && p != pos ==> t'[p] == t[p]
  }

  lemma StartsSame(t: Table, pos: int)
    ensures StartsKept(t, t, pos)
  {
  }

  lemma StartsMark(t: Table, p: nat, size: u32, pos: int)
    requires p + Units(size) <= |t| && IsZero(t, p, p + Units(size)) && 0 < Units(size)
    ensures StartsKept(t, Mark(t, p, size), pos)
  {
  }

  lemma StartsClear(t: Table, pos: nat)
    requires Tiled(t) && IsStart(t, pos) && pos + Units(t[pos]) <= |t|
    ensures StartsKept(t, Clear(t, pos, pos + Units(t[pos])), pos)
  {
    assert UsedRun(t, pos, Units(t[pos]));
  }

  lemma StartsResize(t: Table, pos: nat, size: u32)
    requires Tiled(t) && IsStart(t, pos) && 0 < size <= MAXSIZE && pos + Units(size) <= |t|
    requires Units(t[pos]) < Units(size) ==> IsZero(t, pos + Units(t[pos]), pos + Units(size))
    ensures StartsKept(t, Resize(t, pos, size), pos)
  {
    assert UsedRun(t, pos, Units(t[pos]));
  }

  lemma StartsRealloc(t: Table, ro: seq<bool>, align: Align, pos: u32, size: u32, r: u32, t': Table, ro': seq<bool>)
    requires Tiled(t) && |ro| == |t| && IsStart(t, pos) && 0 < size <= MAXSIZE
    requires Reallocated(t, ro, align, pos, size, r, t', ro')
    ensures StartsKept(t, t', pos) && r < |t|
  {
    assert UsedRun(t, pos, Units(t[pos]));
    if Units(size) <= Units(t[pos]) || CanGrow(t, pos, Units(size)) {
      StartsResize(t, pos, size);
    } else if r != 0 {
      ChosenIsFree(t, Units(size), align, r);
      MarkedTable(t, pos, r, size);
      MarkKeepsTiled(t, r, size);
      StartsMark(t, r, size, pos);
      StartsClear(Mark(t, r, size), pos);
      assert forall p :: IsStart(t, p) ==> IsStart(Mark(t, r, size), p);
    }
  }

  /** The units of another block are used, and lie apart from those of the block at pos. */
  lemma OtherUnits(t: Table, pos: int, p: int, u: int)
    requires Tiled(t) && IsStart(t, pos) && IsStart(t, p) && p != pos && p <= u < p + Units(t[p])
    ensures u < |t| && t[u] != 0 && !(pos <= u < pos + Units(t[pos]))
  {
    RunsApart(t, pos, p);
    if u == p { } else { assert t[u] == FFFF; }
  }

  /** Blocks live before a run of calls, none of them about these blocks. */
  ghost predicate UntouchedKept(targets: set<nat>, t: Table, m: seq<byte>, t': Table, m': seq<byte>) {
    |t'| == |t| && forall p :: 0 < p && IsStart(t, p) && p !in targets ==> BlockKept(t, m, t', m', p)
  }

  lemma UntouchedStart(t: Table, m: seq<byte>)
    ensures UntouchedKept({}, t, m, t, m)
  {
  }

  lemma UntouchedStep(targets: set<nat>, t: Table, m: seq<byte>, t1: Table, m1: seq<byte>, t2: Table, m2: seq<byte>,
      pos: nat)
    requires UntouchedKept(targets, t, m, t1, m1) && OthersKept(t1, m1, t2, m2, pos)
    ensures UntouchedKept(targets + {pos}, t, m, t2, m2)
  {
    forall p | 0 < p && IsStart(t, p) && p !in targets + {pos}
      ensures BlockKept(t, m, t2, m2, p)
    {
      assert BlockKept(t, m, t1, m1, p) && IsStart(t1, p);
      assert BlockKept(t1, m1, t2, m2, p);
    }
  }

  // ----- new blocks -----

  /** Every block that is new is read-only, and every block that was there keeps its size word and its mark. */
  ghost predicate AddedReadOnly(t: Table, ro: seq<bool>, t': Table, ro': seq<bool>) {
    && |t'| == |t| == |ro| == |ro'|
    && forall i :: 0 <= i < |t| ==>
         (IsStart(t, i) ==> t'[i] == t[i] && ro'[i] == ro[i]) && (IsStart(t', i) && !IsStart(t, i) ==> ro'[i])
  }

  lemma AddedNone(t: Table, ro: seq<bool>)
    requires |t| == |ro|
    ensures AddedReadOnly(t, ro, t, ro)
  {
  }

  lemma AddedMark(t: Table, ro: seq<bool>, p: nat, size: u32)
    requires |t| == |ro| && p + Units(size) <= |t| && IsZero(t, p, p + Units(size)) && 0 < Units(size)
    ensures AddedReadOnly(t, ro, Mark(t, p, size), ro[p := true])
  {
    hide Units;
  }

  lemma AddedTrans(t: Table, ro: seq<bool>, t1: Table, ro1: seq<bool>, t2: Table, ro2: seq<bool>)
    requires AddedReadOnly(t, ro, t1, ro1) && AddedReadOnly(t1, ro1, t2, ro2)
    ensures AddedReadOnly(t, ro, t2, ro2)
  {
  }
}
