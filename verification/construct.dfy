/** Building the decoding tables of a canonical code from its code lengths. */
module Construction {
  import opened Machine
  import opened BitStream
  import opened Huffman
  import opened Canonical
  import opened Inflate

  // ----- counting -----

  lemma CountStep(L: seq<nat>, i: nat, len: nat)
    requires i < |L|
    ensures Count(L[..i + 1], len) == Count(L[..i], len) + if L[i] == len then 1 else 0
    ensures SymbolsOf(L[..i + 1], len) == SymbolsOf(L[..i], len) + if L[i] == len then [i] else []
  {
    assert L[..i + 1][..i] == L[..i];
  }

  lemma {:induction false} CountMonotonic(L: seq<nat>, i: nat, len: nat)
    requires i <= |L|
    ensures Count(L[..i], len) <= Count(L, len)
    decreases |L| - i
  {
    if i == |L| {
      assert L[..i] == L;
    } else {
      CountStep(L, i, len);
      CountMonotonic(L, i + 1, len);
    }
  }

  lemma {:induction false} OffsetAddOne(count: seq<nat>, l: nat, len: nat)
    requires |count| == MAXBITS + 1 && 1 <= len <= MAXBITS + 1 && l <= MAXBITS
    ensures Offset(count[l := count[l] + 1], len) == Offset(count, len) + if 1 <= l < len then 1 else 0
  {
    if len > 1 { OffsetAddOne(count, l, len - 1); }
  }

  lemma {:induction false} OffsetZero(count: seq<nat>, len: nat)
    requires |count| == MAXBITS + 1 && len <= MAXBITS + 1
    requires forall l :: 1 <= l <= MAXBITS ==> count[l] == 0
    ensures Offset(count, len) == 0
  {
    if len > 1 { OffsetZero(count, len - 1); }
  }

  /** Every symbol has a code or the length zero. */
  lemma {:induction false} CountsTotal(L: seq<nat>)
    requires Lengths(L)
    ensures Offset(Counts(L), MAXBITS + 1) + Count(L, 0) == |L|
  {
    if L == [] {
      OffsetZero(Counts(L), MAXBITS + 1);
    } else {
      var L', l := L[..|L| - 1], L[|L| - 1];
      CountsTotal(L');
      CountsLast(L);
      hide Offset, Counts;
      OffsetAddOne(Counts(L'), l, MAXBITS + 1);
    }
  }

  /** A list without codes. */
  lemma {:induction false} NoCodes(L: seq<nat>)
    requires Lengths(L) && Count(L, 0) == |L|
    ensures Kraft(L) == 0 && forall len :: 1 <= len <= MAXBITS ==> Count(L, len) == 0
  {
    if L != [] {
      var L', l := L[..|L| - 1], L[|L| - 1];
      CountsTotal(L');
      NoCodes(L');
    }
  }

  // ----- filling the symbol array -----

  ghost predicate Ready(count: seq<nat>, L: seq<nat>, symbols: nat) {
    && Lengths(L) && count == Counts(L) && |L| <= symbols
    && Offset(count, MAXBITS + 1) <= symbols
  }

  /** Where the next symbol of each length goes once i lengths are done. */
  ghost predicate OffsAt(offs: seq<nat>, count: seq<nat>, L: seq<nat>, i: nat)
    requires |count| == MAXBITS + 1 && i <= |L|
  {
    |offs| == MAXBITS + 1 && forall len :: 1 <= len <= MAXBITS ==> OffAt(offs, count, L, i, len)
  }

  ghost predicate OffAt(offs: seq<nat>, count: seq<nat>, L: seq<nat>, i: nat, len: nat)
    requires |count| == MAXBITS + 1 && i <= |L| && |offs| == MAXBITS + 1 && len <= MAXBITS
  {
    offs[len] == Offset(count, len) + Count(L[..i], len)
  }

  ghost predicate Placed(sym: seq<nat>, count: seq<nat>, L: seq<nat>, i: nat, len: nat, r: nat)
    requires |count| == MAXBITS + 1 && i <= |L| && len <= MAXBITS && r < Count(L[..i], len)
  {
    Offset(count, len) + r < |sym| && sym[Offset(count, len) + r] == SymbolsOf(L[..i], len)[r]
  }

  /** The symbols among the first i have been put in place. */
  ghost predicate Filled(sym: seq<nat>, count: seq<nat>, L: seq<nat>, i: nat)
    requires |count| == MAXBITS + 1 && i <= |L|
  {
    forall len, r | 1 <= len <= MAXBITS && 0 <= r < Count(L[..i], len) :: Placed(sym, count, L, i, len, r)
  }

  /** Slots of different symbols are different. */
  lemma SlotsDiffer(count: seq<nat>, l: nat, r: nat, l': nat, r': nat)
    requires |count| == MAXBITS + 1 && 1 <= l <= MAXBITS && 1 <= l' <= MAXBITS
    requires r < count[l] && r' < count[l'] && (l != l' || r != r')
    ensures Offset(count, l) + r != Offset(count, l') + r'
  {
    if l < l' {
      OffsetMonotonic(count, l + 1, l');
    } else if l' < l {
      OffsetMonotonic(count, l' + 1, l);
    }
  }

  lemma SlotInside(count: seq<nat>, l: nat, r: nat)
    requires |count| == MAXBITS + 1 && 1 <= l <= MAXBITS && r < count[l]
    ensures Offset(count, l) + r < Offset(count, MAXBITS + 1)
  {
    OffsetMonotonic(count, l + 1, MAXBITS + 1);
  }

  lemma FillSkip(sym: seq<nat>, count: seq<nat>, L: seq<nat>, i: nat)
    requires |count| == MAXBITS + 1 && i < |L| && L[i] == 0 && Filled(sym, count, L, i)
    ensures Filled(sym, count, L, i + 1)
  {
    hide Offset, Count, SymbolsOf;
    var j := i + 1;
    forall len: nat, r: nat | 1 <= len <= MAXBITS && r < Count(L[..j], len)
      ensures Placed(sym, count, L, j, len, r)
    {
      CountStep(L, i, len);
      assert Placed(sym, count, L, i, len, r);
    }
  }

  lemma FillOne(sym: seq<nat>, count: seq<nat>, L: seq<nat>, i: nat)
    requires |count| == MAXBITS + 1 && i < |L| && Ready(count, L, |sym|) && L[i] > 0 && Filled(sym, count, L, i)
    ensures var slot := Offset(count, L[i]) + Count(L[..i], L[i]);
            slot < |sym| && Filled(sym[slot := i], count, L, i + 1)
  {
    hide Offset, Count, SymbolsOf;
    var l, q := L[i], Count(L[..i], L[i]);
    CountPrefix(L, i, l);
    SlotInside(count, l, q);
    var slot := Offset(count, l) + q;
    var sym', j := sym[slot := i], i + 1;
    forall len: nat, r: nat | 1 <= len <= MAXBITS && r < Count(L[..j], len)
      ensures Placed(sym', count, L, j, len, r)
    {
      CountStep(L, i, len);
      if len != l || r != q {
        assert Placed(sym, count, L, i, len, r);
        CountMonotonic(L, i, len);
        SlotsDiffer(count, l, q, len, r);
      }
    }
  }

  lemma OffsStep(offs: seq<nat>, count: seq<nat>, L: seq<nat>, i: nat)
    requires |count| == MAXBITS + 1 && i < |L| && L[i] <= MAXBITS && OffsAt(offs, count, L, i)
    ensures L[i] > 0 ==> OffsAt(offs[L[i] := offs[L[i]] + 1], count, L, i + 1)
    ensures L[i] == 0 ==> OffsAt(offs, count, L, i + 1)
  {
    hide Offset, Count, SymbolsOf;
    var offs', j := if L[i] > 0 then offs[L[i] := offs[L[i]] + 1] else offs, i + 1;
    forall len: nat | 1 <= len <= MAXBITS
      ensures OffAt(offs', count, L, j, len)
    {
      CountStep(L, i, len);
      assert OffAt(offs, count, L, i, len);
    }
  }

  lemma FilledIsTable(sym: seq<nat>, count: seq<nat>, L: seq<nat>)
    requires |count| == MAXBITS + 1 && Ready(count, L, |sym|) && Filled(sym, count, L, |L|)
    ensures IsTable(Table(count, sym), L)
  {
    hide Offset, Count, SymbolsOf;
    var h := Table(count, sym);
    assert L[..|L|] == L;
    forall len: nat, r: nat | 1 <= len <= MAXBITS && r < Count(L, len)
      ensures SymbolAt(h, L, len, r)
    {
      assert Placed(sym, count, L, |L|, len, r);
    }
  }

  lemma NothingFilled(sym: seq<nat>, count: seq<nat>, L: seq<nat>)
    requires |count| == MAXBITS + 1
    ensures Filled(sym, count, L, 0)
  {
    assert L[..0] == [];
  }

  lemma FirstOffs(offs: seq<nat>, count: seq<nat>, L: seq<nat>)
    requires |count| == MAXBITS + 1 && |offs| == MAXBITS + 1
    requires forall len :: 1 <= len <= MAXBITS ==> offs[len] == Offset(count, len)
    ensures OffsAt(offs, count, L, 0)
  {
    assert L[..0] == [];
  }

  lemma IsReady(L: seq<nat>, symbols: nat)
    requires Lengths(L) && |L| <= symbols
    ensures Ready(Counts(L), L, symbols)
  {
    CountsTotal(L);
  }

  lemma NoCodesTable(L: seq<nat>, sym: seq<nat>)
    requires Lengths(L) && Count(L, 0) == |L| && |L| <= |sym|
    ensures IsTable(Table(Counts(L), sym), L)
  {
    NoCodes(L);
    CountsTotal(L);
  }

  // ----- construct -----

  /** The first loop of construct: how many symbols have each length. */
  method CountLengths(h: Code, length: array<nat>, start: nat, n: nat)
    requires start + n <= length.Length && Lengths(length[start..start + n]) && h.count.Length == MAXBITS + 1
    requires length != h.count
    modifies h.count
    ensures h.count[..] == Counts(length[start..start + n])
  {
    ghost var L := length[start..start + n];
    var len := 0;
    while len <= MAXBITS
      invariant 0 <= len <= MAXBITS + 1
      invariant forall l :: 0 <= l < len ==> h.count[l] == 0
    {
      h.count[len] := 0;
      len := len + 1;
    }
    var symbol := 0;
    assert L[..0] == [];
    while symbol < n
      invariant 0 <= symbol <= n && L == length[start..start + n]
      invariant forall l :: 0 <= l <= MAXBITS ==> h.count[l] == Count(L[..symbol], l)
    {
      forall l: nat | l <= MAXBITS
        ensures Count(L[..symbol + 1], l) == Count(L[..symbol], l) + if L[symbol] == l then 1 else 0 {
        CountStep(L, symbol, l);
      }
      h.count[length[start + symbol]] := h.count[length[start + symbol]] + 1;
      symbol := symbol + 1;
    }
    assert L[..n] == L;
  }

  /** construct: the tables of the code with the n lengths from start on; the result compares the code space with its
      use. */
  method Construct(h: Code, length: array<nat>, start: nat, n: nat) returns (left: int)
    requires start + n <= length.Length && Lengths(length[start..start + n])
    requires h.count.Length == MAXBITS + 1 && n <= h.symbol.Length
    requires length != h.count && length != h.symbol && h.count != h.symbol
    modifies h.count, h.symbol
    ensures var L := length[start..start + n];
            && h.count[..] == Counts(L)
            && (left < 0 <==> Kraft(L) > Pow2(MAXBITS))
            && (left > 0 <==> 0 < Kraft(L) < Pow2(MAXBITS))
            && (left >= 0 ==> IsTable(h.View(), L))
  {
    hide Offset, Count, SymbolsOf, Kraft, Left, Pow2, Filled, OffsAt, Ready, IsTable, Counts;
    ghost var L := length[start..start + n];
    CountLengths(h, length, start, n);
    ghost var count := h.count[..];
    CountsAt(L);
    if h.count[0] == n {
      NoCodes(L);
      NoCodesTable(L, h.symbol[..]);
      Pow2Positive(MAXBITS);
      return 0;
    }
    SomeCode(L);
    LeftComparesKraft(L);
    left := SpaceLeft(h);
    if left < 0 {
      return;
    }
    IsReady(L, h.symbol.Length);
    var offs := new nat[MAXBITS + 1](i => 0);
    var len := 1;
    OffsetOne(count);
    while len < MAXBITS
      invariant 1 <= len <= MAXBITS && h.count[..] == count
      invariant forall l :: 1 <= l <= len ==> offs[l] == Offset(count, l)
    {
      OffsetStep(count, len);
      offs[len + 1] := offs[len] + h.count[len];
      len := len + 1;
    }
    FirstOffs(offs[..], count, L);
    NothingFilled(h.symbol[..], count, L);
    var symbol := 0;
    while symbol < n
      invariant 0 <= symbol <= n && h.count[..] == count && L == length[start..start + n]
      invariant OffsAt(offs[..], count, L, symbol) && Filled(h.symbol[..], count, L, symbol)
    {
      ghost var sym, off := h.symbol[..], offs[..];
      var l := length[start + symbol];
      assert l == L[symbol];
      OffsStep(off, count, L, symbol);
      if l != 0 {
        FillOne(sym, count, L, symbol);
        OffsGive(off, count, L, symbol, l);
        h.symbol[offs[l]] := symbol;
        offs[l] := offs[l] + 1;
      } else {
        FillSkip(sym, count, L, symbol);
      }
      symbol := symbol + 1;
    }
    FilledIsTable(h.symbol[..], count, L);
  }

  lemma CountsAt(L: seq<nat>)
    ensures Counts(L)[0] == Count(L, 0)
  {
  }

  lemma Pow2Positive(n: nat)
    ensures Pow2(n) > 0
  {
  }

  lemma OffsetStep(count: seq<nat>, len: nat)
    requires |count| == MAXBITS + 1 && 1 <= len <= MAXBITS
    ensures Offset(count, len + 1) == Offset(count, len) + count[len]
  {
  }

  lemma OffsGive(offs: seq<nat>, count: seq<nat>, L: seq<nat>, i: nat, len: nat)
    requires |count| == MAXBITS + 1 && i <= |L| && OffsAt(offs, count, L, i) && 1 <= len <= MAXBITS
    ensures offs[len] == Offset(count, len) + Count(L[..i], len)
  {
    assert OffAt(offs, count, L, i, len);
  }

  lemma {:induction false} SomeCode(L: seq<nat>)
    requires Lengths(L) && Count(L, 0) != |L|
    ensures Kraft(L) > 0
  {
    if L != [] {
      if L[|L| - 1] == 0 { SomeCode(L[..|L| - 1]); }
    }
  }

  /** The second loop of construct. */
  method SpaceLeft(h: Code) returns (left: int)
    requires h.count.Length == MAXBITS + 1
    ensures left < 0 <==> Left(h.count[..], MAXBITS) < 0
    ensures left >= 0 ==> left == Left(h.count[..], MAXBITS)
  {
    left := 1;
    ghost var count := h.count[..];
    var len := 1;
    while len <= MAXBITS
      invariant 1 <= len <= MAXBITS + 1 && left == Left(count, len - 1) >= 0
    {
      left := 2 * left;
      left := left - h.count[len];
      assert left == Left(count, len);
      if left < 0 {
        LeftStaysNegative(count, len, MAXBITS);
        return;
      }
      len := len + 1;
    }
  }
}
