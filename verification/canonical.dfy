/** The canonical code that a list of code lengths stands for, and what decoding makes of it. */
module Canonical {
  import opened Machine
  import opened BitStream
  import opened Huffman

  ghost predicate Lengths(L: seq<nat>) {
    forall i :: 0 <= i < |L| ==> L[i] <= MAXBITS
  }

  /** Number of symbols of code length len. */
  function Count(L: seq<nat>, len: nat): nat {
    if L == [] then 0 else Count(L[..|L| - 1], len) + if L[|L| - 1] == len then 1 else 0
  }

  function Counts(L: seq<nat>): (r: seq<nat>)
    ensures |r| == MAXBITS + 1
  {
    seq(MAXBITS + 1, len requires 0 <= len => Count(L, len))
  }

  /** The symbols of code length len in ascending order. */
  function SymbolsOf(L: seq<nat>, len: nat): (r: seq<nat>)
    ensures |r| == Count(L, len)
  {
    if L == [] then [] else SymbolsOf(L[..|L| - 1], len) + if L[|L| - 1] == len then [|L| - 1] else []
  }

  /** h holds the counts of L and its symbols sorted by code length. */
  ghost predicate IsTable(h: Table, L: seq<nat>) {
    && TableOk(h) && h.count == Counts(L)
    && forall len, r | 1 <= len <= MAXBITS && 0 <= r < Count(L, len) :: SymbolAt(h, L, len, r)
  }

  ghost predicate SymbolAt(h: Table, L: seq<nat>, len: nat, r: nat)
    requires TableOk(h) && 1 <= len <= MAXBITS && r < Count(L, len)
  {
    Offset(h.count, len) + r < |h.symbol| && h.symbol[Offset(h.count, len) + r] == SymbolsOf(L, len)[r]
  }

  /** Codes of length len that remain free after all codes of at most that length were given out. */
  function Left(count: seq<nat>, len: nat): int
    requires |count| == MAXBITS + 1 && len <= MAXBITS
  {
    if len == 0 then 1 else 2 * Left(count, len - 1) - count[len]
  }

  /** The code of a symbol: the codes of one length are consecutive, in symbol order. */
  function CodeOf(L: seq<nat>, s: nat): nat
    requires s < |L| && Lengths(L)
  {
    FirstCode(Counts(L), L[s]) + Count(L[..s], L[s])
  }

  /** The n low bits of v, high bit first, as codes are stored in the stream. */
  function MsbBits(v: nat, n: nat): (r: seq<bit>)
    ensures |r| == n
  {
    if n == 0 then [] else MsbBits(v / 2, n - 1) + [v % 2]
  }

  function Codeword(L: seq<nat>, s: nat): seq<bit>
    requires s < |L| && Lengths(L)
  {
    MsbBits(CodeOf(L, s), L[s])
  }

  // ----- the Kraft sum -----

  /** Kraft sum of the code in units of 2^-MAXBITS. */
  function Kraft(L: seq<nat>): nat
    requires Lengths(L)
  {
    if L == [] then 0
    else Kraft(L[..|L| - 1]) + if L[|L| - 1] == 0 then 0 else Pow2(MAXBITS - L[|L| - 1])
  }

  /** The same sum, length by length up to len. */
  function KraftUpTo(count: seq<nat>, len: nat): nat
    requires |count| == MAXBITS + 1 && len <= MAXBITS
  {
    if len == 0 then 0 else KraftUpTo(count, len - 1) + count[len] * Pow2(MAXBITS - len)
  }

  lemma {:induction false} KraftAddOne(count: seq<nat>, l: nat, len: nat)
    requires |count| == MAXBITS + 1 && len <= MAXBITS && 1 <= l <= MAXBITS
    ensures KraftUpTo(count[l := count[l] + 1], len) == KraftUpTo(count, len) + if l <= len then Pow2(MAXBITS - l)
      else 0
  {
    if len > 0 {
      KraftAddOne(count, l, len - 1);
      if l == len {
        assert (count[l] + 1) * Pow2(MAXBITS - l) == count[l] * Pow2(MAXBITS - l) + Pow2(MAXBITS - l);
      }
    }
  }

  lemma {:induction false} KraftIgnoresZero(count: seq<nat>, n: nat, len: nat)
    requires |count| == MAXBITS + 1 && len <= MAXBITS
    ensures KraftUpTo(count[0 := n], len) == KraftUpTo(count, len)
  {
    if len > 0 { KraftIgnoresZero(count, n, len - 1); }
  }

  lemma {:induction false} KraftZero(count: seq<nat>, len: nat)
    requires |count| == MAXBITS + 1 && len <= MAXBITS
    requires forall l :: 1 <= l <= MAXBITS ==> count[l] == 0
    ensures KraftUpTo(count, len) == 0
  {
    if len > 0 { KraftZero(count, len - 1); }
  }

  lemma CountsLast(L: seq<nat>)
    requires L != [] && Lengths(L)
    ensures var l := L[|L| - 1]; Counts(L) == Counts(L[..|L| - 1])[l := Count(L[..|L| - 1], l) + 1]
  {
  }

  lemma {:induction false} KraftByLength(L: seq<nat>)
    requires Lengths(L)
    ensures Kraft(L) == KraftUpTo(Counts(L), MAXBITS)
  {
    if L == [] {
      KraftZero(Counts(L), MAXBITS);
    } else {
      var L', l := L[..|L| - 1], L[|L| - 1];
      KraftByLength(L');
      CountsLast(L);
      if l == 0 {
        KraftIgnoresZero(Counts(L'), Count(L', 0) + 1, MAXBITS);
      } else {
        KraftAddOne(Counts(L'), l, MAXBITS);
      }
    }
  }

  lemma Halve(x: int, c: int, p: int)
    ensures (2 * x - c) * p == x * (2 * p) - c * p
  {
  }

  lemma {:induction false} LeftIsRest(count: seq<nat>, len: nat)
    requires |count| == MAXBITS + 1 && len <= MAXBITS
    ensures Left(count, len) * Pow2(MAXBITS - len) == Pow2(MAXBITS) - KraftUpTo(count, len)
  {
    if len > 0 {
      LeftIsRest(count, len - 1);
      assert Pow2(MAXBITS - (len - 1)) == 2 * Pow2(MAXBITS - len);
      assert Left(count, len) == 2 * Left(count, len - 1) - count[len];
      assert KraftUpTo(count, len) == KraftUpTo(count, len - 1) + count[len] * Pow2(MAXBITS - len);
      hide Left, KraftUpTo, Pow2;
      Halve(Left(count, len - 1), count[len], Pow2(MAXBITS - len));
    }
  }

  /** The sign of the codes left over compares the Kraft sum with one. */
  lemma LeftComparesKraft(L: seq<nat>)
    requires Lengths(L)
    ensures Left(Counts(L), MAXBITS) == Pow2(MAXBITS) - Kraft(L)
  {
    KraftByLength(L);
    LeftIsRest(Counts(L), MAXBITS);
    assert Pow2(0) == 1;
  }

  /** Once over-subscribed, a code stays so. */
  lemma {:induction false} LeftStaysNegative(count: seq<nat>, l: nat, len: nat)
    requires |count| == MAXBITS + 1 && l <= len <= MAXBITS && Left(count, l) < 0
    ensures Left(count, len) < 0
    decreases len
  {
    if l < len { LeftStaysNegative(count, l, len - 1); }
  }

  lemma {:induction false} LeftStaysPositive(count: seq<nat>, l: nat, len: nat)
    requires |count| == MAXBITS + 1 && l <= len <= MAXBITS && Left(count, len) >= 0
    ensures Left(count, l) >= 0
    ensures Left(count, len) > 0 ==> Left(count, l) > 0
    decreases len
  {
    if l < len { LeftStaysPositive(count, l, len - 1); }
  }

  // ----- decoding a codeword -----

  /** Codes of length len are numbers of len bits as long as the code is not over-subscribed. */
  lemma {:induction false} FirstCodeBound(count: seq<nat>, len: nat)
    requires |count| == MAXBITS + 1 && 1 <= len <= MAXBITS
    ensures FirstCode(count, len) + count[len] == Pow2(len) - Left(count, len)
  {
    if len == 1 {
      assert Left(count, 0) == 1;
    } else {
      FirstCodeBound(count, len - 1);
    }
  }

  lemma FirstCodeNext(count: seq<nat>, n: nat)
    requires |count| == MAXBITS + 1 && 1 <= n <= MAXBITS
    ensures FirstCode(count, n + 1) == 2 * (FirstCode(count, n) + count[n])
  {
  }

  lemma MsbSplit(s: seq<bit>, p: nat, v: nat, n: nat)
    requires 1 <= n && p + n <= |s| && s[p..p + n] == MsbBits(v, n)
    ensures s[p..p + n - 1] == MsbBits(v / 2, n - 1) && s[p + n - 1] == v % 2
  {
    assert s[p..p + n][..n - 1] == s[p..p + n - 1] && s[p..p + n][n - 1] == s[p + n - 1];
    assert MsbBits(v, n) == MsbBits(v / 2, n - 1) + [v % 2];
  }

  lemma DecodeStart(s: seq<bit>, p: nat, h: Table)
    requires TableOk(h)
    ensures FirstCode(h.count, 1) == 0 && Offset(h.count, 1) == 0
    ensures Decode(s, p, h) == DecodeFrom(s, p, h, 1, 0, 0, 0)
  {
  }

  /** Reading a prefix that lies beyond all codes of its length leads to the next length. */
  lemma {:induction false} ReadPrefix(s: seq<bit>, p: nat, h: Table, v: nat, n: nat)
    requires TableOk(h) && n <= MAXBITS && p + n <= |s| && s[p..p + n] == MsbBits(v, n)
    requires v < Pow2(n) && (n > 0 ==> FirstCode(h.count, n) + h.count[n] <= v)
    ensures FirstCode(h.count, n + 1) <= 2 * v
    ensures Decode(s, p, h) == DecodeFrom(s, p + n, h, n + 1, 2 * v, FirstCode(h.count, n + 1), Offset(h.count, n + 1))
  {
    hide DecodeFrom, Offset, MsbBits, FirstCode, Decode;
    if n == 0 {
      DecodeStart(s, p, h);
    } else {
      MsbSplit(s, p, v, n);
      FirstCodeNext(h.count, n);
      if n > 1 { FirstCodeNext(h.count, n - 1); }
      ReadPrefix(s, p, h, v / 2, n - 1);
      DecodeStep(s, p + n - 1, h, n, 2 * (v / 2), FirstCode(h.count, n), Offset(h.count, n));
    }
  }

  lemma {:induction false} CountPrefix(L: seq<nat>, s: nat, len: nat)
    requires s < |L| && L[s] == len
    ensures Count(L[..s], len) < Count(L, len)
    ensures SymbolsOf(L, len)[Count(L[..s], len)] == s
  {
    var last := |L| - 1;
    if s < last {
      CountPrefix(L[..last], s, len);
      assert L[..last][..s] == L[..s];
    } else {
      assert L[..s] == L[..last];
    }
  }

  lemma DecodeLast(st: seq<bit>, p: nat, h: Table, v: nat, n: nat)
    requires TableOk(h) && 1 <= n <= MAXBITS && p + n <= |st| && st[p..p + n] == MsbBits(v, n)
    requires FirstCode(h.count, n) <= v < FirstCode(h.count, n) + h.count[n] <= Pow2(n)
    ensures var i := Offset(h.count, n) + (v - FirstCode(h.count, n));
            i < |h.symbol| && Decode(st, p, h) == Symbol(h.symbol[i], p + n)
  {
    hide DecodeFrom, Offset, MsbBits, FirstCode, Decode;
    MsbSplit(st, p, v, n);
    if n > 1 { FirstCodeNext(h.count, n - 1); }
    ReadPrefix(st, p, h, v / 2, n - 1);
    DecodeStep(st, p + n - 1, h, n, 2 * (v / 2), FirstCode(h.count, n), Offset(h.count, n));
  }

  lemma CodeAt(h: Table, L: seq<nat>, s: nat)
    requires Lengths(L) && IsTable(h, L) && s < |L| && L[s] > 0
    ensures TableOk(h) && 1 <= L[s] <= MAXBITS && h.count[L[s]] == Count(L, L[s]) && h.count == Counts(L)
    ensures var r := CodeOf(L, s) - FirstCode(h.count, L[s]);
            0 <= r < Count(L, L[s])
            && Offset(h.count, L[s]) + r < |h.symbol| && h.symbol[Offset(h.count, L[s]) + r] == s
  {
    hide TableOk, Offset, FirstCode, Count, SymbolsOf;
    CountPrefix(L, s, L[s]);
    assert SymbolAt(h, L, L[s], Count(L[..s], L[s]));
  }

  /** Decoding the codeword of a symbol gives that symbol and consumes exactly the codeword. */
  lemma DecodeCodeword(st: seq<bit>, p: nat, h: Table, L: seq<nat>, s: nat)
    requires Lengths(L) && IsTable(h, L) && Kraft(L) <= Pow2(MAXBITS) && s < |L| && L[s] > 0
    requires p + L[s] <= |st| && st[p..p + L[s]] == Codeword(L, s)
    ensures Decode(st, p, h) == Symbol(s, p + L[s])
  {
    hide TableOk, Offset, FirstCode, Count, SymbolsOf, Decode, IsTable, CodeOf, Kraft, Left, Lengths, Counts, MsbBits;
    var n, v := L[s], CodeOf(L, s);
    CodeAt(h, L, s);
    LeftComparesKraft(L);
    LeftStaysPositive(h.count, n, MAXBITS);
    FirstCodeBound(h.count, n);
    DecodeLast(st, p, h, v, n);
  }

  // ----- complete and incomplete codes -----

  /** A code that is read to the end without a symbol lies in a gap left by the code lengths. */
  lemma {:induction false} BadCodeInGap(s: seq<bit>, p: nat, h: Table, len: nat, code: nat)
    requires TableOk(h) && 1 <= len <= MAXBITS + 1 && FirstCode(h.count, len) <= code && code + 2 <= Pow2(len)
    requires DecodeFrom(s, p, h, len, code, FirstCode(h.count, len), Offset(h.count, len)).BadCode?
    ensures Left(h.count, MAXBITS) > 0
    decreases MAXBITS + 1 - len
  {
    hide DecodeFrom, Offset, FirstCode, Left;
    if len > MAXBITS {
      FirstCodeNext(h.count, MAXBITS);
      FirstCodeBound(h.count, MAXBITS);
      assert Pow2(MAXBITS + 1) == 2 * Pow2(MAXBITS);
    } else {
      DecodeStop(s, p, h, len, code, FirstCode(h.count, len), Offset(h.count, len));
      DecodeStep(s, p, h, len, code, FirstCode(h.count, len), Offset(h.count, len));
      FirstCodeNext(h.count, len);
      BadCodeInGap(s, p + 1, h, len + 1, 2 * (code + s[p]));
    }
  }

  lemma {:induction false} OnesAsCode(s: seq<bit>, p: nat, n: nat)
    requires p + n <= |s| && forall i :: p <= i < p + n ==> s[i] == 1
    ensures s[p..p + n] == MsbBits(Pow2(n) - 1, n)
  {
    if n > 0 {
      OnesAsCode(s, p, n - 1);
      assert (Pow2(n) - 1) / 2 == Pow2(n - 1) - 1 && (Pow2(n) - 1) % 2 == 1;
      assert s[p..p + n] == s[p..p + n - 1] + [s[p + n - 1]];
    }
  }

  /** While codes are left over, a run of ones is no codeword. */
  lemma OnesAreBad(s: seq<bit>, p: nat, h: Table)
    requires TableOk(h) && Left(h.count, MAXBITS) > 0
    requires p + MAXBITS <= |s| && forall i :: p <= i < p + MAXBITS ==> s[i] == 1
    ensures Decode(s, p, h) == BadCode(p + MAXBITS)
  {
    hide DecodeFrom, Offset, FirstCode, Left, Decode, MsbBits, Pow2;
    OnesAsCode(s, p, MAXBITS);
    FirstCodeBound(h.count, MAXBITS);
    ReadPrefix(s, p, h, Pow2(MAXBITS) - 1, MAXBITS);
    DecodeStop(s, p + MAXBITS, h, MAXBITS
      + 1, 2 * (Pow2(MAXBITS) - 1), FirstCode(h.count, MAXBITS + 1), Offset(h.count, MAXBITS + 1));
  }

  lemma {:induction false} EnoughFrom(s: seq<bit>, p: nat, h: Table, len: nat, code: nat, first: nat, index: nat)
    requires TableOk(h) && 1 <= len <= MAXBITS + 1 && first <= code && index == Offset(h.count, len)
    requires p + MAXBITS + 1 - len <= |s|
    ensures !DecodeFrom(s, p, h, len, code, first, index).OutOfInput?
    decreases MAXBITS + 1 - len
  {
    hide Offset;
    if len <= MAXBITS && code + s[p] - h.count[len] >= first {
      OffsetNext(h, len);
      EnoughFrom(s, p + 1, h, len + 1, 2 * (code + s[p]), 2 * (first + h.count[len]), index + h.count[len]);
    }
  }

  /** Decoding fails on some input with -10 exactly when the code lengths leave codes over. */
  lemma IncompleteIff(h: Table, L: seq<nat>)
    requires Lengths(L) && IsTable(h, L)
    ensures (exists s: seq<bit>, p: nat :: Decode(s, p, h).BadCode?) <==> Kraft(L) < Pow2(MAXBITS)
  {
    hide Kraft, Left, Offset, DecodeFrom, FirstCode;
    LeftComparesKraft(L);
    if Kraft(L) < Pow2(MAXBITS) {
      var ones: seq<bit> := seq(MAXBITS, i => 1);
      OnesAreBad(ones, 0, h);
      assert Decode(ones, 0, h).BadCode?;
    }
    if s: seq<bit>, p: nat :| Decode(s, p, h).BadCode? {
      DecodeStart(s, p, h);
      assert Pow2(1) == 2 by { assert Pow2(0) == 1; }
      BadCodeInGap(s, p, h, 1, 0);
    }
  }

  /** A complete code decodes every sufficiently long input to a symbol. */
  lemma CompleteAlwaysDecodes(s: seq<bit>, p: nat, h: Table, L: seq<nat>)
    requires Lengths(L) && IsTable(h, L) && Kraft(L) == Pow2(MAXBITS) && p + MAXBITS <= |s|
    ensures Decode(s, p, h).Symbol?
  {
    hide Kraft, Left, Offset, DecodeFrom, FirstCode;
    IncompleteIff(h, L);
    OffsetOne(h.count);
    EnoughFrom(s, p, h, 1, 0, 0, 0);
  }

  // ----- reading a symbol, stated without tables -----

  /** The codeword of symbol x comes next in the stream. */
  ghost predicate CodewordAt(s: seq<bit>, p: nat, L: seq<nat>, x: nat)
    requires Lengths(L)
  {
    x < |L| && L[x] > 0 && p + L[x] <= |s| && s[p..p + L[x]] == Codeword(L, x)
  }

  /** What comes next: the symbol whose codeword it is, no codeword at all, or too little to tell. */
  ghost function ReadSymbol(s: seq<bit>, p: nat, L: seq<nat>): (r: Decoded)
    requires Lengths(L)
    ensures r.Symbol? ==> p < r.pos <= |s| && r.symbol < |L|
  {
    if exists x: nat :: CodewordAt(s, p, L, x) then
      var x: nat :| CodewordAt(s, p, L, x);
      Symbol(x, p + L[x])
    else if p + MAXBITS <= |s| then BadCode(p + MAXBITS)
    else OutOfInput
  }

  lemma {:induction false} SymbolsOfAt(L: seq<nat>, len: nat, r: nat)
    requires r < Count(L, len)
    ensures var x := SymbolsOf(L, len)[r]; x < |L| && L[x] == len && Count(L[..x], len) == r
  {
    var n := |L| - 1;
    if r < Count(L[..n], len) {
      SymbolsOfAt(L[..n], len, r);
      var x := SymbolsOf(L[..n], len)[r];
      assert L[..n][..x] == L[..x];
    }
  }

  lemma MsbExtend(s: seq<bit>, p: nat, q: nat, code: nat, n: nat)
    requires p + n == q < |s| && code % 2 == 0 && s[p..q] == MsbBits(code / 2, n)
    ensures s[p..q + 1] == MsbBits(code + s[q], n + 1)
  {
    assert s[p..q + 1] == s[p..q] + [s[q]];
    assert (code + s[q]) / 2 == code / 2 && (code + s[q]) % 2 == s[q];
  }

  lemma SymbolHasCode(s: seq<bit>, p: nat, h: Table, L: seq<nat>, len: nat, r: nat)
    requires Lengths(L) && IsTable(h, L) && 1 <= len <= MAXBITS && r < h.count[len] && p + len <= |s|
    requires s[p..p + len] == MsbBits(FirstCode(h.count, len) + r, len)
    ensures Offset(h.count, len) + r < |h.symbol|
    ensures var x := h.symbol[Offset(h.count, len) + r]; CodewordAt(s, p, L, x) && L[x] == len
  {
    hide Offset, FirstCode, Count, SymbolsOf, MsbBits;
    assert SymbolAt(h, L, len, r);
    SymbolsOfAt(L, len, r);
  }

  lemma {:induction false} DecodedFrom(s: seq<bit>, p0: nat, p: nat, h: Table, L: seq<nat>, len: nat, code: nat)
    requires Lengths(L) && IsTable(h, L) && 1 <= len <= MAXBITS + 1 && p == p0 + len - 1 <= |s|
    requires FirstCode(h.count, len) <= code && code % 2 == 0 && s[p0..p] == MsbBits(code / 2, len - 1)
    ensures var d := DecodeFrom(s, p, h, len, code, FirstCode(h.count, len), Offset(h.count, len));
            d.Symbol? ==> CodewordAt(s, p0, L, d.symbol) && d.pos == p0 + L[d.symbol]
    decreases MAXBITS + 1 - len
  {
    hide DecodeFrom, Offset, FirstCode, MsbBits, IsTable, CodewordAt, Lengths;
    TableParts(h, L);
    DecodeStop(s, p, h, len, code, FirstCode(h.count, len), Offset(h.count, len));
    if len <= MAXBITS && p < |s| {
      DecodeStep(s, p, h, len, code, FirstCode(h.count, len), Offset(h.count, len));
      MsbExtend(s, p0, p, code, len - 1);
      var c := code + s[p];
      FirstCodeNext(h.count, len);
      if c - h.count[len] < FirstCode(h.count, len) {
        SymbolHasCode(s, p0, h, L, len, c - FirstCode(h.count, len));
      } else {
        DecodedFrom(s, p0, p + 1, h, L, len + 1, 2 * c);
      }
    }
  }

  lemma TableParts(h: Table, L: seq<nat>)
    requires IsTable(h, L)
    ensures TableOk(h) && |h.count| == MAXBITS + 1
  {
  }

  /** Decoding by tables reads exactly the symbol whose codeword comes next. */
  lemma DecodeMeans(s: seq<bit>, p: nat, h: Table, L: seq<nat>)
    requires Lengths(L) && IsTable(h, L) && Kraft(L) <= Pow2(MAXBITS)
    ensures TableOk(h) && Decode(s, p, h) == ReadSymbol(s, p, L)
  {
    hide DecodeFrom, Decode, Offset, FirstCode, MsbBits, IsTable, Lengths, Kraft, TableOk, Codeword;
    TableParts(h, L);
    DecodeStart(s, p, h);
    var d := Decode(s, p, h);
    if p <= |s| { NoBitsYet(s, p); DecodedFrom(s, p, p, h, L, 1, 0); }
    if x: nat :| CodewordAt(s, p, L, x) {
      forall x: nat | CodewordAt(s, p, L, x) ensures d == Symbol(x, p + L[x]) {
        DecodeCodeword(s, p, h, L, x);
      }
    } else {
      if p > |s| { NothingRead(s, p, h); }
      if p + MAXBITS <= |s| { EnoughFrom(s, p, h, 1, 0, 0, 0); }
    }
  }

  lemma NoBitsYet(s: seq<bit>, p: nat)
    requires p <= |s|
    ensures s[p..p] == MsbBits(0, 0)
  {
  }

  lemma NothingRead(s: seq<bit>, p: nat, h: Table)
    requires TableOk(h) && p > |s|
    ensures Decode(s, p, h).OutOfInput?
  {
  }

  // ----- every list of lengths has its table -----

  function AllSymbols(L: seq<nat>, len: nat): seq<nat> {
    if len == 0 then [] else AllSymbols(L, len - 1) + SymbolsOf(L, len)
  }

  lemma {:induction false} AllSymbolsAt(L: seq<nat>, upTo: nat, len: nat, r: nat)
    requires upTo <= MAXBITS
    ensures |AllSymbols(L, upTo)| == Offset(Counts(L), upTo + 1)
    ensures 1 <= len <= upTo && r < Count(L, len) ==>
              Offset(Counts(L), len) + r < |AllSymbols(L, upTo)|
              && AllSymbols(L, upTo)[Offset(Counts(L), len) + r] == SymbolsOf(L, len)[r]
  {
    hide SymbolsOf, Count;
    if upTo > 0 { AllSymbolsAt(L, upTo - 1, len, r); }
  }

  lemma TableExists(L: seq<nat>)
    ensures IsTable(Table(Counts(L), AllSymbols(L, MAXBITS)), L)
  {
    hide SymbolsOf, Count, Offset, AllSymbols;
    var h := Table(Counts(L), AllSymbols(L, MAXBITS));
    AllSymbolsAt(L, MAXBITS, 0, 0);
    forall len: nat, r: nat | 1 <= len <= MAXBITS && r < Count(L, len) ensures SymbolAt(h, L, len, r) {
      AllSymbolsAt(L, MAXBITS, len, r);
    }
  }

  /** No codeword is a prefix of another: at most one symbol can come next. */
  lemma ReadCodeword(s: seq<bit>, p: nat, L: seq<nat>, x: nat)
    requires Lengths(L) && Kraft(L) <= Pow2(MAXBITS) && CodewordAt(s, p, L, x)
    ensures ReadSymbol(s, p, L) == Symbol(x, p + L[x])
  {
    hide Decode, IsTable, Kraft, TableOk, Codeword, ReadSymbol, AllSymbols, Counts;
    TableExists(L);
    var h := Table(Counts(L), AllSymbols(L, MAXBITS));
    DecodeMeans(s, p, h, L);
    DecodeCodeword(s, p, h, L, x);
  }
}
