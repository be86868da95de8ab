/** What each call of the allocator interface does to the table and the read-only marks. */
module HeapCalls {
  import opened Machine
  import opened MemTable

  /** A call of the allocator interface. */
  datatype Call =
    | CallAlloc(size: u32, maxaddr: bool, minaddr: bool, readonly: bool, noclear: bool)
    | CallFree(pos: u32)
    | CallRealloc(pos: u32, newsize: u32)
    | CallReserve(physaddr: u32, length: u32, readonly: bool)

  /** The words of the table and the marks of all units. */
  datatype Heap = Heap(t: Table, ro: seq<bool>)

  ghost predicate Same(h: Heap, r: int, h': Heap) {
    r == 0 && h' == h
  }

  /** The block goes where the flags ask for; there is none if nothing fits or the size is out of range. */
  ghost predicate Allocated(efi: bool, size: u32, maxaddr: bool, minaddr: bool, readonly: bool, h: Heap, r: nat,
      h': Heap)
    requires |h.t| == |h.ro|
  {
    if size == 0 || size >= |h.t| * UNIT || NoneFits(h.t, Units(size)) then Same(h, r, h')
    else
      && 0 < r < |h.t| && r + Units(size) <= |h.t|
      && (if maxaddr then TailOfHighest(h.t, Units(size), r)
          else if minaddr || !efi then StartOfLowest(h.t, Units(size), r)
          else StartOfSmallest(h.t, Units(size), r))
      && h' == Heap(Mark(h.t, r, size), h.ro[r := readonly])
  }

  /** A live block that is not read-only becomes free. */
  ghost predicate Released(pos: nat, h: Heap, r: nat, h': Heap)
    requires |h.t| == |h.ro|
  {
    if !IsStart(h.t, pos) || h.ro[pos] then Same(h, r, h')
    else
      && r == 0 && pos + Units(h.t[pos]) <= |h.t|
      && h' == Heap(Clear(h.t, pos, pos + Units(h.t[pos])), h.ro)
  }

  /** A block that moves goes to the lowest free run that fits, on EFI to a smallest one. A size of 0 counts as 1. */
  ghost predicate Resized(efi: bool, pos: nat, newsize: u32, h: Heap, r: nat, h': Heap)
    requires |h.t| == |h.ro|
  {
    if !IsStart(h.t, pos) || h.ro[pos] then Same(h, r, h')
    else if newsize <= 0xFFFF_0000 then
      Reallocated(h.t, h.ro, if efi then BestFit else Lowest, pos, if newsize == 0 then 1 else newsize, r, h'.t, h'.ro)
    else if pos > 0 && h.t[pos - 1] != 0 then
      && r == pos && pos + Units(h.t[pos]) <= |h.t|
      && h' == Heap(Clear(h.t, pos, pos + Units(h.t[pos])), h.ro)
    else Same(h, r, h')
  }

  /** The units of an address range, cut at the end of the heap, become a block if all are free; base is unit 0. */
  ghost predicate Claimed(base: u32, physaddr: u32, length: u32, readonly: bool, h: Heap, r: nat, h': Heap)
    requires |h.t| == |h.ro|
  {
    var top := base + |h.t| * 0x1_0000;
    if physaddr < base || physaddr >= top then Same(h, r, h')
    else
      var u, off := (physaddr - base) / 0x1_0000, (physaddr - base) % 0x1_0000;
      var cut := if (physaddr + length) % 0x1_0000_0000 > top then top - physaddr else length;
      var len := (cut + off) % 0x1_0000_0000;
      if Units(len) == 0 || !IsZero(h.t, u, u + Units(len)) then Same(h, r, h')
      else
        && r == u && u + Units(len) <= |h.t|
        && h' == Heap(Mark(h.t, u, len), h.ro[u := readonly || h.ro[u]])
  }

  ghost predicate Effect(efi: bool, base: u32, c: Call, h: Heap, r: nat, h': Heap)
    requires |h.t| == |h.ro|
  {
    match c
    case CallAlloc(size, maxaddr, minaddr, readonly, noclear) =>
      Allocated(efi, size, maxaddr, minaddr, readonly, h, r, h')
    case CallFree(pos) => Released(pos, h, r, h')
    case CallRealloc(pos, newsize) => Resized(efi, pos, newsize, h, r, h')
    case CallReserve(physaddr, length, readonly) => Claimed(base, physaddr, length, readonly, h, r, h')
  }

  /** The states of a heap over a run of calls with these results. */
  ghost predicate History(efi: bool, base: u32, calls: seq<Call>, results: seq<u32>, hs: seq<Heap>) {
    && |results| == |calls| && |hs| == |calls| + 1
    && (forall i :: 0 <= i < |hs| ==> |hs[i].t| == |hs[i].ro|)
    && (forall i :: 0 <= i < |calls| ==> Effect(efi, base, calls[i], hs[i], results[i], hs[i + 1]))
  }

  // ----- on a BIOS machine the calls leave no choice -----

  lemma EffectLength(efi: bool, base: u32, c: Call, h: Heap, r: nat, h': Heap)
    requires |h.t| == |h.ro| && Effect(efi, base, c, h, r, h')
    ensures |h'.t| == |h.t| && |h'.ro| == |h.ro|
  {
    hide NoneFits, IsZero, IsStart, CanGrow, Chosen, TailOfHighest, StartOfLowest, StartOfSmallest, Units;
    match c
    case CallAlloc(size, maxaddr, minaddr, readonly, noclear) =>
    case CallFree(pos) =>
    case CallRealloc(pos, newsize) =>
    case CallReserve(physaddr, length, readonly) =>
  }

  lemma AllocatedIsUnique(size: u32, maxaddr: bool, minaddr: bool, readonly: bool, h: Heap, r: nat, h1: Heap, q: nat,
      h2: Heap)
    requires |h.t| == |h.ro| < 0x1_0000
    requires Allocated(false, size, maxaddr, minaddr, readonly, h, r, h1)
      && Allocated(false, size, maxaddr, minaddr, readonly, h, q, h2)
    ensures r == q && h1 == h2
  {
    if 0 < size < |h.t| * UNIT && !NoneFits(h.t, Units(size)) {
      assert Units(size) > 0;
      hide NoneFits, TailOfHighest, StartOfLowest;
      ChoiceIsUnique(h.t, Units(size), if maxaddr then Highest else Lowest, r, q);
    }
  }

  lemma MoveIsUnique(h: Heap, pos: nat, size: u32, r: nat, h1: Heap, q: nat, h2: Heap)
    requires pos < |h.t| == |h.ro| && 0 < size <= 0xFFFF_0000
    requires Reallocated(h.t, h.ro, Lowest, pos, size, r, h1.t, h1.ro)
      && Reallocated(h.t, h.ro, Lowest, pos, size, q, h2.t, h2.ro)
    ensures r == q && h1 == h2
  {
    assert Units(size) > 0;
    hide Chosen, CanGrow;
    if !(Units(size) <= Units(h.t[pos]) || CanGrow(h.t, pos, Units(size))) {
      ChoiceIsUnique(h.t, Units(size), Lowest, r, q);
    }
  }

  /** On a BIOS machine a call has only one possible result and effect. */
  lemma EffectIsUnique(base: u32, c: Call, h: Heap, r: nat, h1: Heap, q: nat, h2: Heap)
    requires |h.t| == |h.ro| < 0x1_0000
    requires Effect(false, base, c, h, r, h1) && Effect(false, base, c, h, q, h2)
    ensures r == q && h1 == h2
  {
    hide Allocated, Reallocated;
    match c
    case CallAlloc(size, maxaddr, minaddr, readonly, noclear) =>
      AllocatedIsUnique(size, maxaddr, minaddr, readonly, h, r, h1, q, h2);
    case CallFree(pos) =>
    case CallRealloc(pos, newsize) =>
      if IsStart(h.t, pos) && !h.ro[pos] && newsize <= 0xFFFF_0000 {
        MoveIsUnique(h, pos, if newsize == 0 then 1 else newsize, r, h1, q, h2);
      }
    case CallReserve(physaddr, length, readonly) =>
  }

  /** On a BIOS machine the calls determine all results and all states. */
  lemma {:induction false} HistoryIsUnique(base: u32, calls: seq<Call>, rs: seq<u32>, hs: seq<Heap>, qs: seq<u32>,
      gs: seq<Heap>)
    requires History(false, base, calls, rs, hs) && History(false, base, calls, qs, gs) && hs[0] == gs[0]
    requires |hs[0].t| < 0x1_0000
    ensures rs == qs && hs == gs
  {
    forall i: nat | i < |hs|
      ensures hs[i] == gs[i] && (i < |rs| ==> rs[i] == qs[i])
    {
      HistoryAt(base, calls, rs, hs, qs, gs, i);
    }
  }

  lemma {:induction false} HistoryAt(base: u32, calls: seq<Call>, rs: seq<u32>, hs: seq<Heap>, qs: seq<u32>,
      gs: seq<Heap>, i: nat)
    requires History(false, base, calls, rs, hs) && History(false, base, calls, qs, gs) && hs[0] == gs[0]
    requires |hs[0].t| < 0x1_0000 && i < |hs|
    ensures hs[i] == gs[i] && |hs[i].t| == |hs[0].t| && (i < |rs| ==> rs[i] == qs[i])
  {
    hide Effect;
    if i > 0 {
      HistoryAt(base, calls, rs, hs, qs, gs, i - 1);
      EffectLength(false, base, calls[i - 1], hs[i - 1], rs[i - 1], hs[i]);
      EffectIsUnique(base, calls[i - 1], hs[i - 1], rs[i - 1], hs[i], qs[i - 1], gs[i]);
    }
    if i < |rs| { EffectIsUnique(base, calls[i], hs[i], rs[i], hs[i + 1], qs[i], gs[i + 1]); }
  }

  // ----- how the methods meet this -----

  lemma AllocatedIs(efi: bool, base: u32, size: u32, maxaddr: bool, minaddr: bool, readonly: bool, noclear: bool,
      h: Heap, r: nat, h': Heap)
    requires |h.t| == |h.ro| && (r != 0 ==> r < |h.t| && r + Units(size) <= |h.t|)
    requires h' == if r == 0 then h else Heap(Mark(h.t, r, size), h.ro[r := readonly])
    requires size == 0 || size >= |h.t| * UNIT ==> r == 0
    requires 0 < size < |h.t| * UNIT ==> (r == 0 <==> NoneFits(h.t, Units(size)))
    requires r != 0 && maxaddr ==> TailOfHighest(h.t, Units(size), r)
    requires r != 0 && !maxaddr && (minaddr || !efi) ==> StartOfLowest(h.t, Units(size), r)
    requires r != 0 && !maxaddr && !minaddr && efi ==> StartOfSmallest(h.t, Units(size), r)
    ensures Effect(efi, base, CallAlloc(size, maxaddr, minaddr, readonly, noclear), h, r, h')
  {
    hide NoneFits, TailOfHighest, StartOfLowest, StartOfSmallest;
  }

  lemma ReleasedIs(efi: bool, base: u32, pos: u32, h: Heap, h': Heap)
    requires |h.t| == |h.ro| && IsStart(h.t, pos) && pos < |h.t| && pos + Units(h.t[pos]) <= |h.t|
    requires h' == Heap(if h.ro[pos] then h.t else Clear(h.t, pos, pos + Units(h.t[pos])), h.ro)
    ensures Effect(efi, base, CallFree(pos), h, 0, h')
  {
  }

  lemma ResizedIs(efi: bool, base: u32, pos: u32, newsize: u32, h: Heap, r: u32, h': Heap)
    requires |h.t| == |h.ro| && IsStart(h.t, pos) && pos < |h.t| && !h.ro[pos] && newsize <= MAXSIZE
    requires Reallocated(h.t, h.ro, if efi then BestFit else Lowest, pos, if newsize == 0 then 1 else newsize, r, h'.t,
      h'.ro)
    ensures Effect(efi, base, CallRealloc(pos, newsize), h, r, h')
  {
    hide Reallocated;
  }

  lemma LostIs(efi: bool, base: u32, pos: u32, newsize: u32, h: Heap, h': Heap)
    requires |h.t| == |h.ro| && IsStart(h.t, pos) && 0 < pos < |h.t| && !h.ro[pos] && newsize > MAXSIZE
    requires h.t[pos - 1] != 0 && pos + Units(h.t[pos]) <= |h.t|
    requires h' == Heap(Clear(h.t, pos, pos + Units(h.t[pos])), h.ro)
    ensures Effect(efi, base, CallRealloc(pos, newsize), h, pos, h')
  {
  }

  /** No block starts there, or it is read-only. */
  lemma NotReleased(efi: bool, base: u32, c: Call, h: Heap)
    requires |h.t| == |h.ro| && (c.CallFree? || c.CallRealloc?) && (!IsStart(h.t, c.pos) || h.ro[c.pos])
    ensures Effect(efi, base, c, h, 0, h)
  {
  }

  /** A wrapping size for a block that lies above free memory: such calls are left out. */
  lemma NotLost(efi: bool, base: u32, pos: u32, newsize: u32, h: Heap)
    requires |h.t| == |h.ro| && newsize > MAXSIZE && 0 < pos <= |h.t| && h.t[pos - 1] == 0
    ensures Effect(efi, base, CallRealloc(pos, newsize), h, 0, h)
  {
  }

  lemma HistoryStart(efi: bool, base: u32, h: Heap)
    requires |h.t| == |h.ro|
    ensures History(efi, base, [], [], [h])
  {
  }

  lemma HistoryGrows(efi: bool, base: u32, calls: seq<Call>, results: seq<u32>, hs: seq<Heap>, c: Call, r: u32, h: Heap)
    requires History(efi, base, calls, results, hs) && |h.t| == |h.ro| && |hs[|calls|].t| == |hs[|calls|].ro|
    requires Effect(efi, base, c, hs[|calls|], r, h)
    ensures History(efi, base, calls + [c], results + [r], hs + [h])
  {
    hide Effect;
  }
}
