/** The fixed codes as the format lists them, and two compressed streams with the text they stand for. */
module DeflateVectors {
  import opened Machine
  import opened BitStream
  import opened Huffman
  import opened Canonical
  import opened Deflate
  import opened Encoder

  // ----- codes of lists that consist of runs -----

  lemma {:induction false} CountConcat(a: seq<nat>, b: seq<nat>, len: nat)
    ensures Count(a + b, len) == Count(a, len) + Count(b, len)
  {
    if b == [] {
      assert a + b == a;
    } else {
      CountConcat(a, b[..|b| - 1], len);
      assert (a + b)[..|a + b| - 1] == a + b[..|b| - 1];
    }
  }

  lemma {:induction false} CountRep(n: nat, x: nat, len: nat)
    ensures Count(Rep(n, x), len) == if x == len then n else 0
  {
    if n > 0 {
      CountRep(n - 1, x, len);
      assert Rep(n, x)[..n - 1] == Rep(n - 1, x);
    }
  }

  lemma CountOne(x: nat, len: nat)
    ensures Count([x], len) == if x == len then 1 else 0
  {
    assert [x][..0] == [];
  }

  /** How often each length occurs in the fixed literal code. */
  lemma FixedCount(len: nat)
    ensures Count(FixedLit(), len) == if len == 7 then 24 else if len == 8 then 152 else if len == 9 then 112 else 0
  {
    var a, b, c, d := Rep(144, 8), Rep(112, 9), Rep(24, 7), Rep(8, 8);
    CountConcat(a + b + c, d, len);
    CountConcat(a + b, c, len);
    CountConcat(a, b, len);
    CountRep(144, 8, len);
    CountRep(112, 9, len);
    CountRep(24, 7, len);
    CountRep(8, 8, len);
  }

  /** The first codes of seven, eight and nine bits when no code is shorter. */
  lemma FirstFixed(count: seq<nat>)
    requires |count| == 16 && count[1] == count[2] == count[3] == count[4] == count[5] == count[6] == 0
    requires count[7] == 24 && count[8] == 152
    ensures |count| == MAXBITS + 1 && FirstCode(count, 7) == 0 && FirstCode(count, 8) == 48
    ensures FirstCode(count, 9) == 400
  {
    assert FirstCode(count, 2) == 0 && FirstCode(count, 3) == 0 && FirstCode(count, 4) == 0;
    assert FirstCode(count, 5) == 0 && FirstCode(count, 6) == 0;
  }

  /** Symbols of the same length before s. */
  lemma FixedRank(s: nat)
    requires s < 288
    ensures Count(FixedLit()[..s], FixedLit()[s])
            == if s < 144 then s else if s < 256 then s - 144 else if s < 280 then s - 256 else s - 280 + 144
  {
    var a, b, c, d := Rep(144, 8), Rep(112, 9), Rep(24, 7), Rep(8, 8);
    var len := FixedLit()[s];
    CountRep(144, 8, len);
    CountRep(112, 9, len);
    CountRep(24, 7, len);
    if s < 144 {
      assert FixedLit()[..s] == Rep(s, 8);
      CountRep(s, 8, len);
    } else if s < 256 {
      assert FixedLit()[..s] == a + Rep(s - 144, 9);
      CountConcat(a, Rep(s - 144, 9), len);
      CountRep(s - 144, 9, len);
    } else if s < 280 {
      assert FixedLit()[..s] == a + b + Rep(s - 256, 7);
      CountConcat(a + b, Rep(s - 256, 7), len);
      CountConcat(a, b, len);
      CountRep(s - 256, 7, len);
    } else {
      assert FixedLit()[..s] == a + b + c + Rep(s - 280, 8);
      CountConcat(a + b + c, Rep(s - 280, 8), len);
      CountConcat(a + b, c, len);
      CountConcat(a, b, len);
      CountRep(s - 280, 8, len);
    }
  }

  /** The fixed literal and length codes, as section 3.2.6 of RFC 1951 lists them. */
  lemma FixedCodewords(s: nat)
    requires s < 288
    ensures Codeword(FixedLit(), s) ==
      if s < 144 then MsbBits(0x30 + s, 8)
      else if s < 256 then MsbBits(0x190 + s - 144, 9)
      else if s < 280 then MsbBits(s - 256, 7)
      else MsbBits(0xC0 + s - 280, 8)
  {
    hide Count, Rep, FirstCode, MsbBits;
    FixedLengths(s);
    FixedRank(s);
    forall len: nat | len <= 15
      ensures Counts(FixedLit())[len] == Count(FixedLit(), len)
    {
    }
    FixedCount(1);
    FixedCount(2);
    FixedCount(3);
    FixedCount(4);
    FixedCount(5);
    FixedCount(6);
    FixedCount(7);
    FixedCount(8);
    hide FixedLit;
    FirstFixed(Counts(FixedLit()));
  }

  lemma FixedLengths(s: nat)
    requires s < 288
    ensures |FixedLit()| == 288
    ensures FixedLit()[s] == if s < 144 then 8 else if s < 256 then 9 else if s < 280 then 7 else 8
  {
  }

  /** The fixed distance codes are the five-bit numbers. */
  lemma FixedDistances(d: nat)
    requires d < 30
    ensures Codeword(FixedDist(), d) == MsbBits(d, 5)
  {
    hide MsbBits;
    assert FixedDist()[..d] == Rep(d, 5);
    CountRep(d, 5, 5);
    var count := Counts(FixedDist());
    CountRep(30, 5, 1);
    CountRep(30, 5, 2);
    CountRep(30, 5, 3);
    CountRep(30, 5, 4);
    assert FirstCode(count, 2) == 0 && FirstCode(count, 3) == 0 && FirstCode(count, 4) == 0;
  }

  // ----- two streams -----

  /** The codewords of 'a', of a match and of the end of the block, one after the other. */
  lemma FourBytes(s: seq<bit>, LL: seq<nat>, DL: seq<nat>, p: nat, q: nat, r: nat, t: nat, u: nat)
    requires CodesOk(LL, DL)
    requires ReadSymbol(s, p, LL) == Symbol(97, q) && ReadSymbol(s, q, LL) == Symbol(257, r)
    requires ReadSymbol(s, r, DL) == Symbol(0, t) && ReadSymbol(s, t, LL) == Symbol(256, u)
    ensures Codes(s, p, LL, DL, [], None) == Done(u, [97, 97, 97, 97])
  {
    hide ReadSymbol, Kraft, Codes, ReadMatch;
    CodesLiteral(s, p, LL, DL, q);
    MatchOfThree(s, r, DL, t);
    CodesMatch(s, q, LL, DL, r, t);
    EndOfBlock(s, t, LL, DL, [97, 97, 97, 97]);
  }

  lemma MatchOfThree(s: seq<bit>, r: nat, DL: seq<nat>, t: nat)
    requires Lengths(DL) && |DL| <= MAXDCODES && ReadSymbol(s, r, DL) == Symbol(0, t)
    ensures |LENS| == 29 && ReadMatch(s, r, 0, DL) == Copy(3, 1, t)
  {
    hide ReadSymbol;
    assert r < t <= |s| && s[r..r] == [] && s[t..t] == [];
  }

  lemma CodesLiteral(s: seq<bit>, p: nat, LL: seq<nat>, DL: seq<nat>, q: nat)
    requires Lengths(LL) && Lengths(DL) && |DL| <= MAXDCODES && ReadSymbol(s, p, LL) == Symbol(97, q)
    ensures Codes(s, p, LL, DL, [], None) == Codes(s, q, LL, DL, [97], None)
  {
    hide ReadSymbol, ReadMatch;
    assert [] + [97] == [97];
  }

  lemma CodesMatch(s: seq<bit>, p: nat, LL: seq<nat>, DL: seq<nat>, q: nat, r: nat)
    requires Lengths(LL) && Lengths(DL) && |DL| <= MAXDCODES && ReadSymbol(s, p, LL) == Symbol(257, q)
    requires |LENS| == 29 && ReadMatch(s, q, 0, DL) == Copy(3, 1, r)
    ensures Codes(s, p, LL, DL, [97], None) == Codes(s, r, LL, DL, [97, 97, 97, 97], None)
  {
    hide ReadSymbol, ReadMatch, CopyBack;
    Repeated();
  }

  lemma Repeated()
    ensures CopyBack([97], 1, 3) == [97, 97, 97, 97]
  {
    assert [97] + [97] == [97, 97];
    assert [97, 97] + [97] == [97, 97, 97] && [97, 97, 97] + [97] == [97, 97, 97, 97];
    assert CopyBack([97, 97, 97], 1, 1) == CopyBack([97, 97, 97, 97], 1, 0);
    assert CopyBack([97, 97], 1, 2) == CopyBack([97, 97, 97], 1, 1);
  }

  /** Bits from byte i of a stream on, up to the end of the next one. */
  lemma Window(inp: seq<byte>, i: nat, a: seq<bit>, b: seq<bit>, k: nat, n: nat, e: seq<bit>)
    requires i + 1 < |inp| && LowBits(inp[i], 8) == a && LowBits(inp[i + 1], 8) == b && k <= 8 <= k + n <= 16
    requires a[k..] + b[..k + n - 8] == e
    ensures 8 * i + 16 <= |BitsOf(inp)| && BitsOf(inp)[8 * i + k..8 * i + k + n] == e
  {
    hide *;
    ByteAt(inp, i);
    ByteAt(inp, i + 1);
    Straddle(BitsOf(inp), 8 * i, a, b, k, n);
  }

  lemma Straddle(s: seq<bit>, p: nat, a: seq<bit>, b: seq<bit>, k: nat, n: nat)
    requires |a| == |b| == 8 && p + 16 <= |s| && s[p..p + 8] == a && s[p + 8..p + 16] == b && k <= 8 <= k + n <= 16
    ensures s[p + k..p + k + n] == a[k..] + b[..k + n - 8]
  {
    SubSlice(s, p, a, k, 8 - k);
    SubSlice(s, p + 8, b, 0, k + n - 8);
    assert a[k..8] == a[k..] && b[0..k + n - 8] == b[..k + n - 8];
    Joined(s, p + k, a[k..], b[..k + n - 8]);
  }

  lemma Inside(inp: seq<byte>, i: nat, a: seq<bit>, k: nat, n: nat, e: seq<bit>)
    requires i < |inp| && LowBits(inp[i], 8) == a && k + n <= 8 && a[k..k + n] == e
    ensures BitsOf(inp)[8 * i + k..8 * i + k + n] == e
  {
    hide *;
    ByteAt(inp, i);
    SubSlice(BitsOf(inp), 8 * i, a, k, n);
  }

  lemma SubSlice(s: seq<bit>, p: nat, e: seq<bit>, k: nat, n: nat)
    requires p + |e| <= |s| && s[p..p + |e|] == e && k + n <= |e|
    ensures s[p + k..p + k + n] == e[k..k + n]
  {
    var u, v := s[p + k..p + k + n], e[k..k + n];
    forall i | 0 <= i < n
      ensures u[i] == v[i]
    {
      assert s[p..p + |e|][k + i] == e[k + i];
    }
  }

  lemma Joined(s: seq<bit>, p: nat, a: seq<bit>, b: seq<bit>)
    requires p + |a| + |b| <= |s| && s[p..p + |a|] == a && s[p + |a|..p + |a| + |b|] == b
    ensures s[p..p + |a| + |b|] == a + b
  {
  }

  lemma SymbolRead(s: seq<bit>, p: nat, L: seq<nat>, x: nat, e: seq<bit>)
    requires Lengths(L) && x < |L| && L[x] == |e| > 0 && Kraft(L) <= Pow2(MAXBITS) && Codeword(L, x) == e
    requires p + |e| <= |s| && s[p..p + |e|] == e
    ensures ReadSymbol(s, p, L) == Symbol(x, p + |e|)
  {
    hide Kraft, Pow2, ReadSymbol, Codeword;
    AtSymbol(s, p, L, x);
  }

  // ----- a fixed block -----

  const FIXED_STREAM: seq<byte> := [0x4B, 0x04, 0x02, 0x00]

  lemma FixedBits()
    ensures |BitsOf(FIXED_STREAM)| == 32 && BitsOf(FIXED_STREAM)[0..3] == [1, 1, 0]
    ensures BitsOf(FIXED_STREAM)[3..11] == [1, 0, 0, 1, 0, 0, 0, 1]
    ensures BitsOf(FIXED_STREAM)[11..18] == [0, 0, 0, 0, 0, 0, 1]
    ensures BitsOf(FIXED_STREAM)[18..23] == [0, 0, 0, 0, 0] && BitsOf(FIXED_STREAM)[23..30] == [0, 0, 0, 0, 0, 0, 0]
  {
    FixedByte0();
    FixedByte1();
    FixedByte2();
    hide LowBits, BitsOf;
    Inside(FIXED_STREAM, 0, [1, 1, 0, 1, 0, 0, 1, 0], 0, 3, [1, 1, 0]);
    Window(FIXED_STREAM, 0, [1, 1, 0, 1, 0, 0, 1, 0], [0, 0, 1, 0, 0, 0, 0, 0], 3, 8,
           [1, 0, 0, 1, 0, 0, 0, 1]);
    Window(FIXED_STREAM, 1, [0, 0, 1, 0, 0, 0, 0, 0], [0, 1, 0, 0, 0, 0, 0, 0], 3, 7,
           [0, 0, 0, 0, 0, 0, 1]);
    Inside(FIXED_STREAM, 2, [0, 1, 0, 0, 0, 0, 0, 0], 2, 5, [0, 0, 0, 0, 0]);
    Window(FIXED_STREAM, 2, [0, 1, 0, 0, 0, 0, 0, 0], [0, 0, 0, 0, 0, 0, 0, 0], 7, 7,
           [0, 0, 0, 0, 0, 0, 0]);
  }

  lemma FixedByte0()
    ensures LowBits(0x4B, 8) == [1, 1, 0, 1, 0, 0, 1, 0]
  {
  }

  lemma FixedByte1()
    ensures LowBits(0x04, 8) == [0, 0, 1, 0, 0, 0, 0, 0] && LowBits(0x00, 8) == [0, 0, 0, 0, 0, 0, 0, 0]
  {
  }

  lemma FixedByte2()
    ensures LowBits(0x02, 8) == [0, 1, 0, 0, 0, 0, 0, 0]
  {
  }

  lemma FixedBounds()
    ensures |FixedLit()| == 288 && |FixedDist()| == 30 && FixedDist()[0] == 5
    ensures Kraft(FixedLit()) <= Pow2(MAXBITS) && Kraft(FixedDist()) <= Pow2(MAXBITS)
  {
    FixedKraft();
  }

  lemma MsbNext(v: nat, n: nat, x: bit)
    ensures MsbBits(2 * v + x, n + 1) == MsbBits(v, n) + [x]
  {
    assert (2 * v + x) / 2 == v;
  }

  lemma Word97()
    ensures Codeword(FixedLit(), 97) == [1, 0, 0, 1, 0, 0, 0, 1] && FixedLit()[97] == 8
  {
    FixedCodewords(97);
    FixedLengths(97);
    hide Codeword, FixedLit;
    NineOne();
  }

  lemma NineOne()
    ensures MsbBits(0x91, 8) == [1, 0, 0, 1, 0, 0, 0, 1]
  {
    assert MsbBits(0x9, 4) == [1, 0, 0, 1];
    MsbNext(0x9, 4, 0);
    MsbNext(0x12, 5, 0);
    MsbNext(0x24, 6, 0);
    MsbNext(0x48, 7, 1);
    hide MsbBits;
    assert [1, 0, 0, 1] + [0] + [0] + [0] + [1] == [1, 0, 0, 1, 0, 0, 0, 1];
  }

  lemma SixZeros()
    ensures MsbBits(0, 6) == [0, 0, 0, 0, 0, 0]
  {
    assert MsbBits(0, 3) == [0, 0, 0];
  }

  lemma Word257()
    ensures Codeword(FixedLit(), 257) == [0, 0, 0, 0, 0, 0, 1] && FixedLit()[257] == 7
  {
    FixedCodewords(257);
    FixedLengths(257);
    hide Codeword, FixedLit, MsbBits;
    SixZeros();
    MsbNext(0, 6, 1);
  }

  lemma Word256()
    ensures Codeword(FixedLit(), 256) == [0, 0, 0, 0, 0, 0, 0] && FixedLit()[256] == 7
  {
    FixedCodewords(256);
    FixedLengths(256);
    hide Codeword, FixedLit, MsbBits;
    SixZeros();
    MsbNext(0, 6, 0);
  }

  lemma WordOfOne()
    ensures Codeword(FixedDist(), 0) == [0, 0, 0, 0, 0]
  {
    FixedDistances(0);
    hide Codeword, FixedDist;
    assert MsbBits(0, 5) == [0, 0, 0, 0, 0];
  }

  /** A fixed block: 'a', then three bytes from one byte back. */
  lemma FixedVector()
    ensures Inflated(FIXED_STREAM, None) == Done(30, [97, 97, 97, 97])
  {
    var s := BitsOf(FIXED_STREAM);
    FixedBits();
    FixedSymbols(s);
    TypeOne();
    hide *;
    FourBytes(s, FixedLit(), FixedDist(), 3, 11, 18, 23, 30);
    OneFixedBlock(FIXED_STREAM, 30, [97, 97, 97, 97]);
  }

  lemma TypeOne()
    ensures Value([1, 0]) == 1
  {
    assert [1, 0][1..] == [0] && [0][1..] == [];
  }

  /** A stream of a single fixed block. */
  lemma OneFixedBlock(inp: seq<byte>, end: nat, data: seq<byte>)
    requires |BitsOf(inp)| >= 3 && BitsOf(inp)[0..3] == [1, 1, 0] && Value([1, 0]) == 1
    requires Codes(BitsOf(inp), 3, FixedLit(), FixedDist(), [], None) == Done(end, data)
    ensures Inflated(inp, None) == Done(end, data)
  {
    hide Codes, BitsOf, Value, FixedLit, FixedDist;
    var s := BitsOf(inp);
    assert s[0] == s[0..3][0] && s[1..3] == s[0..3][1..] == [1, 0];
  }

  lemma FixedSymbols(s: seq<bit>)
    requires |s| == 32 && s[3..11] == [1, 0, 0, 1, 0, 0, 0, 1] && s[11..18] == [0, 0, 0, 0, 0, 0, 1]
    requires s[18..23] == [0, 0, 0, 0, 0] && s[23..30] == [0, 0, 0, 0, 0, 0, 0]
    ensures |FixedDist()| <= MAXDCODES && CodesOk(FixedLit(), FixedDist())
    ensures ReadSymbol(s, 3, FixedLit()) == Symbol(97, 11) && ReadSymbol(s, 11, FixedLit()) == Symbol(257, 18)
    ensures ReadSymbol(s, 18, FixedDist()) == Symbol(0, 23) && ReadSymbol(s, 23, FixedLit()) == Symbol(256, 30)
  {
    FixedBounds();
    Word97();
    Word257();
    Word256();
    WordOfOne();
    FixedCodesOk();
    hide *;
    SymbolRead(s, 3, FixedLit(), 97, [1, 0, 0, 1, 0, 0, 0, 1]);
    SymbolRead(s, 11, FixedLit(), 257, [0, 0, 0, 0, 0, 0, 1]);
    SymbolRead(s, 18, FixedDist(), 0, [0, 0, 0, 0, 0]);
    SymbolRead(s, 23, FixedLit(), 256, [0, 0, 0, 0, 0, 0, 0]);
  }

  // ----- a dynamic block -----

  const DYNAMIC_STREAM: seq<byte> :=
    [0x0D, 0xC0, 0x81, 0x00, 0x00, 0x00, 0x00, 0x80, 0x20, 0xD6, 0xFC, 0x25, 0x3E, 0x0B]

  /** The number of three bits at p. */
  ghost predicate Three(s: seq<bit>, p: nat, x: nat) {
    p + 3 <= |s| && Value(s[p..p + 3]) == x
  }

  lemma Value3(a: nat, b: nat, c: nat)
    requires a < 2 && b < 2 && c < 2
    ensures Value([a, b, c]) == a + 2 * b + 4 * c
  {
    assert [a, b, c][1..] == [b, c] && [b, c][1..] == [c] && [c][1..] == [];
    assert Value([c]) == c;
    assert Value([b, c]) == b + 2 * c;
  }

  lemma Byte00()
    ensures LowBits(0x00, 8) == [0, 0, 0, 0, 0, 0, 0, 0]
  {
  }

  lemma Byte0B()
    ensures LowBits(0x0B, 8) == [1, 1, 0, 1, 0, 0, 0, 0]
  {
  }

  lemma Byte0D()
    ensures LowBits(0x0D, 8) == [1, 0, 1, 1, 0, 0, 0, 0]
  {
  }

  lemma Byte20()
    ensures LowBits(0x20, 8) == [0, 0, 0, 0, 0, 1, 0, 0]
  {
  }

  lemma Byte25()
    ensures LowBits(0x25, 8) == [1, 0, 1, 0, 0, 1, 0, 0]
  {
  }

  lemma Byte3E()
    ensures LowBits(0x3E, 8) == [0, 1, 1, 1, 1, 1, 0, 0]
  {
  }

  lemma Byte80()
    ensures LowBits(0x80, 8) == [0, 0, 0, 0, 0, 0, 0, 1]
  {
  }

  lemma Byte81()
    ensures LowBits(0x81, 8) == [1, 0, 0, 0, 0, 0, 0, 1]
  {
  }

  lemma ByteC0()
    ensures LowBits(0xC0, 8) == [0, 0, 0, 0, 0, 0, 1, 1]
  {
  }

  lemma ByteD6()
    ensures LowBits(0xD6, 8) == [0, 1, 1, 0, 1, 0, 1, 1]
  {
  }

  lemma ByteFC()
    ensures LowBits(0xFC, 8) == [0, 0, 1, 1, 1, 1, 1, 1]
  {
  }

  /** The header of the block. */
  lemma HeaderBitsRead()
    ensures |BitsOf(DYNAMIC_STREAM)| == 112
    ensures BitsOf(DYNAMIC_STREAM)[0..3] == [1, 0, 1]
    ensures BitsOf(DYNAMIC_STREAM)[3..8] == [1, 0, 0, 0, 0]
    ensures BitsOf(DYNAMIC_STREAM)[8..13] == [0, 0, 0, 0, 0]
    ensures BitsOf(DYNAMIC_STREAM)[13..17] == [0, 1, 1, 1]
  {
    Byte0D();
    Byte81();
    ByteC0();
    hide LowBits, BitsOf;
    Inside(DYNAMIC_STREAM, 0, [1, 0, 1, 1, 0, 0, 0, 0], 0, 3, [1, 0, 1]);
    Inside(DYNAMIC_STREAM, 0, [1, 0, 1, 1, 0, 0, 0, 0], 3, 5, [1, 0, 0, 0, 0]);
    Inside(DYNAMIC_STREAM, 1, [0, 0, 0, 0, 0, 0, 1, 1], 0, 5, [0, 0, 0, 0, 0]);
    Window(DYNAMIC_STREAM, 1, [0, 0, 0, 0, 0, 0, 1, 1], [1, 0, 0, 0, 0, 0, 0, 1], 5, 4, [0, 1, 1, 1]);
  }

  /** Code length code lengths 0 to 5 in the order of transmission. */
  lemma CodeLengthBits0()
    ensures |BitsOf(DYNAMIC_STREAM)| == 112
    ensures Three(BitsOf(DYNAMIC_STREAM), 17, 0)
    ensures Three(BitsOf(DYNAMIC_STREAM), 20, 0)
    ensures Three(BitsOf(DYNAMIC_STREAM), 23, 1)
    ensures Three(BitsOf(DYNAMIC_STREAM), 26, 0)
    ensures Three(BitsOf(DYNAMIC_STREAM), 29, 0)
    ensures Three(BitsOf(DYNAMIC_STREAM), 32, 0)
  {
    Byte00();
    Byte81();
    hide LowBits, BitsOf;
    Value3(0, 0, 0);
    Value3(1, 0, 0);
    hide Value;
    Inside(DYNAMIC_STREAM, 2, [1, 0, 0, 0, 0, 0, 0, 1], 1, 3, [0, 0, 0]);
    Inside(DYNAMIC_STREAM, 2, [1, 0, 0, 0, 0, 0, 0, 1], 4, 3, [0, 0, 0]);
    Window(DYNAMIC_STREAM, 2, [1, 0, 0, 0, 0, 0, 0, 1], [0, 0, 0, 0, 0, 0, 0, 0], 7, 3, [1, 0, 0]);
    Inside(DYNAMIC_STREAM, 3, [0, 0, 0, 0, 0, 0, 0, 0], 2, 3, [0, 0, 0]);
    Inside(DYNAMIC_STREAM, 3, [0, 0, 0, 0, 0, 0, 0, 0], 5, 3, [0, 0, 0]);
    Inside(DYNAMIC_STREAM, 4, [0, 0, 0, 0, 0, 0, 0, 0], 0, 3, [0, 0, 0]);
  }

  /** Code length code lengths 6 to 11 in the order of transmission. */
  lemma CodeLengthBits1()
    ensures |BitsOf(DYNAMIC_STREAM)| == 112
    ensures Three(BitsOf(DYNAMIC_STREAM), 35, 0)
    ensures Three(BitsOf(DYNAMIC_STREAM), 38, 0)
    ensures Three(BitsOf(DYNAMIC_STREAM), 41, 0)
    ensures Three(BitsOf(DYNAMIC_STREAM), 44, 0)
    ensures Three(BitsOf(DYNAMIC_STREAM), 47, 0)
    ensures Three(BitsOf(DYNAMIC_STREAM), 50, 0)
  {
    Byte00();
    hide LowBits, BitsOf;
    Value3(0, 0, 0);
    hide Value;
    Inside(DYNAMIC_STREAM, 4, [0, 0, 0, 0, 0, 0, 0, 0], 3, 3, [0, 0, 0]);
    Window(DYNAMIC_STREAM, 4, [0, 0, 0, 0, 0, 0, 0, 0], [0, 0, 0, 0, 0, 0, 0, 0], 6, 3, [0, 0, 0]);
    Inside(DYNAMIC_STREAM, 5, [0, 0, 0, 0, 0, 0, 0, 0], 1, 3, [0, 0, 0]);
    Inside(DYNAMIC_STREAM, 5, [0, 0, 0, 0, 0, 0, 0, 0], 4, 3, [0, 0, 0]);
    Window(DYNAMIC_STREAM, 5, [0, 0, 0, 0, 0, 0, 0, 0], [0, 0, 0, 0, 0, 0, 0, 0], 7, 3, [0, 0, 0]);
    Inside(DYNAMIC_STREAM, 6, [0, 0, 0, 0, 0, 0, 0, 0], 2, 3, [0, 0, 0]);
  }

  /** Code length code lengths 12 to 17 in the order of transmission. */
  lemma CodeLengthBits2()
    ensures |BitsOf(DYNAMIC_STREAM)| == 112
    ensures Three(BitsOf(DYNAMIC_STREAM), 53, 0)
    ensures Three(BitsOf(DYNAMIC_STREAM), 56, 0)
    ensures Three(BitsOf(DYNAMIC_STREAM), 59, 0)
    ensures Three(BitsOf(DYNAMIC_STREAM), 62, 2)
    ensures Three(BitsOf(DYNAMIC_STREAM), 65, 0)
    ensures Three(BitsOf(DYNAMIC_STREAM), 68, 2)
  {
    Byte00();
    Byte20();
    Byte80();
    hide LowBits, BitsOf;
    Value3(0, 0, 0);
    Value3(0, 1, 0);
    hide Value;
    Inside(DYNAMIC_STREAM, 6, [0, 0, 0, 0, 0, 0, 0, 0], 5, 3, [0, 0, 0]);
    Inside(DYNAMIC_STREAM, 7, [0, 0, 0, 0, 0, 0, 0, 1], 0, 3, [0, 0, 0]);
    Inside(DYNAMIC_STREAM, 7, [0, 0, 0, 0, 0, 0, 0, 1], 3, 3, [0, 0, 0]);
    Window(DYNAMIC_STREAM, 7, [0, 0, 0, 0, 0, 0, 0, 1], [0, 0, 0, 0, 0, 1, 0, 0], 6, 3, [0, 1, 0]);
    Inside(DYNAMIC_STREAM, 8, [0, 0, 0, 0, 0, 1, 0, 0], 1, 3, [0, 0, 0]);
    Inside(DYNAMIC_STREAM, 8, [0, 0, 0, 0, 0, 1, 0, 0], 4, 3, [0, 1, 0]);
  }

  /** The list of code lengths, first part. */
  lemma ListBits0()
    ensures |BitsOf(DYNAMIC_STREAM)| == 112
    ensures BitsOf(DYNAMIC_STREAM)[71..72] == [0]
    ensures BitsOf(DYNAMIC_STREAM)[72..79] == [0, 1, 1, 0, 1, 0, 1]
    ensures BitsOf(DYNAMIC_STREAM)[79..81] == [1, 0]
    ensures BitsOf(DYNAMIC_STREAM)[81..82] == [0]
    ensures BitsOf(DYNAMIC_STREAM)[82..89] == [1, 1, 1, 1, 1, 1, 1]
  {
    Byte20();
    Byte25();
    ByteD6();
    ByteFC();
    hide LowBits, BitsOf;
    Inside(DYNAMIC_STREAM, 8, [0, 0, 0, 0, 0, 1, 0, 0], 7, 1, [0]);
    Inside(DYNAMIC_STREAM, 9, [0, 1, 1, 0, 1, 0, 1, 1], 0, 7, [0, 1, 1, 0, 1, 0, 1]);
    Window(DYNAMIC_STREAM, 9, [0, 1, 1, 0, 1, 0, 1, 1], [0, 0, 1, 1, 1, 1, 1, 1], 7, 2, [1, 0]);
    Inside(DYNAMIC_STREAM, 10, [0, 0, 1, 1, 1, 1, 1, 1], 1, 1, [0]);
    Window(DYNAMIC_STREAM, 10, [0, 0, 1, 1, 1, 1, 1, 1], [1, 0, 1, 0, 0, 1, 0, 0], 2, 7, [1, 1, 1, 1, 1, 1, 1]);
  }

  /** The rest of the list. */
  lemma ListBits1()
    ensures |BitsOf(DYNAMIC_STREAM)| == 112
    ensures BitsOf(DYNAMIC_STREAM)[89..90] == [0]
    ensures BitsOf(DYNAMIC_STREAM)[90..97] == [1, 0, 0, 1, 0, 0, 0]
    ensures BitsOf(DYNAMIC_STREAM)[97..99] == [1, 1]
    ensures BitsOf(DYNAMIC_STREAM)[99..101] == [1, 1]
    ensures BitsOf(DYNAMIC_STREAM)[101..103] == [1, 0]
  {
    Byte25();
    Byte3E();
    hide LowBits, BitsOf;
    Inside(DYNAMIC_STREAM, 11, [1, 0, 1, 0, 0, 1, 0, 0], 1, 1, [0]);
    Window(DYNAMIC_STREAM, 11, [1, 0, 1, 0, 0, 1, 0, 0], [0, 1, 1, 1, 1, 1, 0, 0], 2, 7, [1, 0, 0, 1, 0, 0, 0]);
    Inside(DYNAMIC_STREAM, 12, [0, 1, 1, 1, 1, 1, 0, 0], 1, 2, [1, 1]);
    Inside(DYNAMIC_STREAM, 12, [0, 1, 1, 1, 1, 1, 0, 0], 3, 2, [1, 1]);
    Inside(DYNAMIC_STREAM, 12, [0, 1, 1, 1, 1, 1, 0, 0], 5, 2, [1, 0]);
  }

  /** The compressed data. */
  lemma DataBits()
    ensures |BitsOf(DYNAMIC_STREAM)| == 112
    ensures BitsOf(DYNAMIC_STREAM)[103..104] == [0]
    ensures BitsOf(DYNAMIC_STREAM)[104..106] == [1, 1]
    ensures BitsOf(DYNAMIC_STREAM)[106..107] == [0]
    ensures BitsOf(DYNAMIC_STREAM)[107..109] == [1, 0]
  {
    Byte0B();
    Byte3E();
    hide LowBits, BitsOf;
    Inside(DYNAMIC_STREAM, 12, [0, 1, 1, 1, 1, 1, 0, 0], 7, 1, [0]);
    Inside(DYNAMIC_STREAM, 13, [1, 1, 0, 1, 0, 0, 0, 0], 0, 2, [1, 1]);
    Inside(DYNAMIC_STREAM, 13, [1, 1, 0, 1, 0, 0, 0, 0], 2, 1, [0]);
    Inside(DYNAMIC_STREAM, 13, [1, 1, 0, 1, 0, 0, 0, 0], 3, 2, [1, 0]);
  }

  /** In a code with one codeword of one bit: the codewords of one and two bits. */
  lemma ShortWords(L: seq<nat>, x: nat, k: bit)
    requires Lengths(L) && Count(L, 1) == 1 && x < |L|
    ensures L[x] == 1 && Count(L[..x], 1) == 0 ==> Codeword(L, x) == [0]
    ensures L[x] == 2 && Count(L[..x], 2) == k ==> Codeword(L, x) == [1, k]
  {
    hide Count, MsbBits;
    var count := Counts(L);
    assert count[1] == 1;
    assert FirstCode(count, 1) == 0 && FirstCode(count, 2) == 2;
    WordOfTwo(k);
  }

  lemma WordOfTwo(k: bit)
    ensures MsbBits(0, 1) == [0] && MsbBits(2 + k, 2) == [1, k]
  {
    MsbNext(1, 1, k);
    assert MsbBits(1, 1) == [1] && (2 + k) / 2 == 1;
  }

  lemma {:induction false} KraftZeros(n: nat)
    ensures Kraft(Rep(n, 0)) == 0
  {
    if n > 0 {
      KraftZeros(n - 1);
      assert Rep(n, 0)[..n - 1] == Rep(n - 1, 0);
    }
  }

  lemma KraftOne(x: nat)
    requires 1 <= x <= MAXBITS
    ensures Kraft([x]) == Pow2(MAXBITS - x)
  {
    assert [x][..0] == [];
  }

  /** The lengths of the code length code. */
  ghost function ListCode(): (L: seq<nat>)
    ensures |L| == 19
  {
    [0] + [2] + [2] + Rep(15, 0) + [1]
  }

  lemma ListCodeKraft()
    ensures Lengths(ListCode()) && Kraft(ListCode()) == Pow2(MAXBITS)
  {
    KraftZeros(1);
    assert Rep(1, 0) == [0];
    KraftOne(1);
    KraftOne(2);
    KraftZeros(15);
    KraftConcat([0], [2]);
    KraftConcat([0] + [2], [2]);
    KraftConcat([0] + [2] + [2], Rep(15, 0));
    KraftConcat([0] + [2] + [2] + Rep(15, 0), [1]);
    hide Kraft;
    assert Pow2(15) == 2 * Pow2(14) && Pow2(14) == 2 * Pow2(13);
  }

  lemma ListCodeCount(len: nat)
    requires 1 <= len <= 2
    ensures Count(ListCode(), len) == len
  {
    CountOne(0, len);
    CountOne(2, len);
    CountOne(1, len);
    CountRep(15, 0, len);
    CountConcat([0], [2], len);
    CountConcat([0] + [2], [2], len);
    CountConcat([0] + [2] + [2], Rep(15, 0), len);
    CountConcat([0] + [2] + [2] + Rep(15, 0), [1], len);
  }

  lemma ListWords()
    ensures Lengths(ListCode()) && ListCode()[18] == 1 && ListCode()[1] == ListCode()[2] == 2
    ensures Codeword(ListCode(), 18) == [0] && Codeword(ListCode(), 1) == [1, 0] && Codeword(ListCode(), 2) == [1, 1]
  {
    ListCodeKraft();
    ListCodeCount(1);
    CountOne(0, 2);
    CountOne(2, 2);
    CountConcat([0], [2], 2);
    assert ListCode()[..1] == [0] && ListCode()[..2] == [0] + [2];
    CountBefore(ListCode()[..18]);
    hide Codeword, Count, Kraft;
    ShortWords(ListCode(), 18, 0);
    ShortWords(ListCode(), 1, 0);
    ShortWords(ListCode(), 2, 1);
  }

  lemma {:induction false} CountBefore(L: seq<nat>)
    requires forall i :: 0 <= i < |L| ==> L[i] != 1
    ensures Count(L, 1) == 0
  {
    if L != [] { CountBefore(L[..|L| - 1]); }
  }

  /** The literal and length code: 'a' has one bit, the end of the block and the length 3 have two. */
  ghost function TextCode(): (L: seq<nat>)
    ensures |L| == 258 && L[97] == 1 && L[256] == L[257] == 2
  {
    [] + Rep(97, 0) + [1] + Rep(138, 0) + Rep(20, 0) + [2] + [2]
  }

  lemma TextCodeKraft()
    ensures Lengths(TextCode()) && Kraft(TextCode()) == Pow2(MAXBITS)
  {
    var a := [] + Rep(97, 0);
    assert a == Rep(97, 0);
    KraftZeros(97);
    KraftZeros(138);
    KraftZeros(20);
    KraftOne(1);
    KraftOne(2);
    KraftConcat(a, [1]);
    KraftConcat(a + [1], Rep(138, 0));
    KraftConcat(a + [1] + Rep(138, 0), Rep(20, 0));
    KraftConcat(a + [1] + Rep(138, 0) + Rep(20, 0), [2]);
    KraftConcat(a + [1] + Rep(138, 0) + Rep(20, 0) + [2], [2]);
    hide Kraft;
    assert Pow2(15) == 2 * Pow2(14) && Pow2(14) == 2 * Pow2(13);
  }

  lemma TextCounts(len: nat)
    requires 1 <= len <= 2
    ensures Count(TextCode(), len) == len && Count(TextCode()[..256], 2) == 0 && Count(TextCode()[..257], 2) == 1
    ensures Count(TextCode()[..97], 1) == 0
  {
    var a := Rep(97, 0);
    assert [] + a == a;
    var d := a + [1] + Rep(138, 0) + Rep(20, 0);
    assert TextCode()[..97] == a && TextCode()[..256] == d && TextCode()[..257] == d + [2];
    forall l | l == len || l == 2 || l == 1
      ensures Count(a, l) == 0 && Count(d, l) == (if l == 1 then 1 else 0)
      ensures Count(d + [2], l) == 1 && Count(TextCode(), l) == (if l == 1 then 1 else 2)
    {
      CountRep(97, 0, l);
      CountRep(138, 0, l);
      CountRep(20, 0, l);
      CountOne(1, l);
      CountOne(2, l);
      CountConcat(a, [1], l);
      CountConcat(a + [1], Rep(138, 0), l);
      CountConcat(a + [1] + Rep(138, 0), Rep(20, 0), l);
      CountConcat(d, [2], l);
      CountConcat(d + [2], [2], l);
    }
  }

  lemma TextWords()
    ensures Lengths(TextCode()) && Codeword(TextCode(), 97) == [0]
    ensures Codeword(TextCode(), 256) == [1, 0] && Codeword(TextCode(), 257) == [1, 1]
  {
    TextCodeKraft();
    TextCounts(1);
    hide TextCode, Codeword, Count, Kraft;
    ShortWords(TextCode(), 97, 0);
    ShortWords(TextCode(), 256, 0);
    ShortWords(TextCode(), 257, 1);
  }

  /** The distance code has one codeword of one bit. */
  lemma DistanceWord()
    ensures Lengths([1]) && Codeword([1], 0) == [0] && Kraft([1]) == Pow2(14) && Count([1], 1) == 1
  {
    CountOne(1, 1);
    KraftOne(1);
    assert [1][..0] == [];
    ShortWords([1], 0, 0);
  }

  lemma NumberIs(s: seq<bit>, p: nat, n: nat, x: nat, e: seq<bit>)
    requires p + n <= |s| && s[p..p + n] == e && LowBits(x, n) == e && x < Pow2(n)
    ensures Value(s[p..p + n]) == x
  {
    ValueOfLowBits(x, n);
  }

  /** What the header announces: 258 literal and length codes, one distance code, 18 code length codes. */
  lemma Announced()
    ensures |BitsOf(DYNAMIC_STREAM)| == 112 && BitsOf(DYNAMIC_STREAM)[0..3] == [1, 0, 1]
    ensures Value(BitsOf(DYNAMIC_STREAM)[3..8]) == 1 && Value(BitsOf(DYNAMIC_STREAM)[8..13]) == 0
    ensures Value(BitsOf(DYNAMIC_STREAM)[13..17]) == 14
  {
    HeaderBitsRead();
    SmallPowers();
    hide BitsOf, Value, Pow2;
    NumberIs(BitsOf(DYNAMIC_STREAM), 3, 5, 1, [1, 0, 0, 0, 0]);
    NumberIs(BitsOf(DYNAMIC_STREAM), 8, 5, 0, [0, 0, 0, 0, 0]);
    NumberIs(BitsOf(DYNAMIC_STREAM), 13, 4, 14, [0, 1, 1, 1]);
  }

  lemma Sent(k: nat)
    requires k < 18
    ensures Three(BitsOf(DYNAMIC_STREAM), 17 + 3 * k, if k == 2 then 1 else if k == 15 || k == 17 then 2 else 0)
  {
    CodeLengthBits0();
    CodeLengthBits1();
    CodeLengthBits2();
    hide *;
    if k < 6 {
      if k == 0 { } else if k == 1 { } else if k == 2 { } else if k == 3 { }
      else if k == 4 { } else { assert k == 5; }
    } else if k < 12 {
      if k == 6 { } else if k == 7 { } else if k == 8 { } else if k == 9 { }
      else if k == 10 { } else { assert k == 11; }
    } else if k < 15 {
      if k == 12 { } else if k == 13 { } else { assert k == 14; }
    } else {
      if k == 15 { } else if k == 16 { } else { assert k == 17; }
    }
  }

  lemma ListCodeOrder(k: nat)
    requires k < 19
    ensures ORDER[k] < 19
    ensures ListCode()[ORDER[k]] == if k == 2 then 1 else if k == 15 || k == 17 then 2 else 0
  {
    OrderRule(k);
    hide ORDER;
    if k == 2 { } else if k == 15 { } else if k == 17 { }
  }

  /** The code length code that the stream sends. */
  lemma ListCodeSent()
    ensures |BitsOf(DYNAMIC_STREAM)| == 112 && CodeLengthLengths(BitsOf(DYNAMIC_STREAM), 17, 18) == ListCode()
  {
    hide *;
    CodeLengthBits0();
    Sizes();
    forall k | 0 <= k < 18
      ensures ListCode()[ORDER[k]] == Value(BitsOf(DYNAMIC_STREAM)[17 + 3 * k..17 + 3 * k + 3])
    {
      ListCodeOrder(k);
      Sent(k);
      ThreeMeans(BitsOf(DYNAMIC_STREAM), 17 + 3 * k, if k == 2 then 1 else if k == 15 || k == 17 then 2 else 0);
    }
    ListCodeOrder(18);
    AllTransmitted(ListCode(), BitsOf(DYNAMIC_STREAM), 17, 18);
  }

  lemma ThreeMeans(s: seq<bit>, p: nat, x: nat)
    requires Three(s, p, x)
    ensures p + 3 <= |s| && Value(s[p..p + 3]) == x
  {
  }

  lemma Sizes()
    ensures |ORDER| == 19 && forall i :: 0 <= i < 19 ==> ORDER[i] < 19
  {
    RankInvertsOrder();
  }

  /** A run of zeros in the list of code lengths. */
  lemma ZerosRead(s: seq<bit>, p: nat, acc: seq<nat>, n: nat, e: seq<bit>)
    requires |s| == 112 && p + 8 <= 112 && s[p..p + 1] == [0] && s[p + 1..p + 8] == e
    requires Lengths(acc) && 11 <= n <= 138 && LowBits(n - 11, 7) == e && |acc| + n <= 259 && 0 < n
    ensures Lengths(ListCode()) && Lengths(acc + Rep(n, 0))
    ensures ReadLengths(s, p, ListCode(), 259, acc) == ReadLengths(s, p + 8, ListCode(), 259, acc + Rep(n, 0))
  {
    ListWords();
    ListCodeKraft();
    SmallPowers();
    hide Kraft, Codeword, ReadSymbol, Pow2, ListCode, Value, LowBits, ReadLengths, Rep, Lengths;
    SymbolRead(s, p, ListCode(), 18, [0]);
    NumberIs(s, p + 1, 7, n - 11, e);
    NextLength(s, p, ListCode(), 259, acc);
  }

  /** One length of the list. */
  lemma LengthRead(s: seq<bit>, p: nat, acc: seq<nat>, x: nat)
    requires |s| == 112 && p + 2 <= 112 && 1 <= x <= 2 && s[p..p + 2] == [1, x - 1] && Lengths(acc) && |acc| < 259
    ensures Lengths(ListCode()) && Lengths(acc + [x])
    ensures ReadLengths(s, p, ListCode(), 259, acc) == ReadLengths(s, p + 2, ListCode(), 259, acc + [x])
  {
    ListWords();
    ListCodeKraft();
    hide Kraft, Codeword, ReadSymbol, Pow2, ListCode, Value, LowBits, ReadLengths, Rep, Lengths;
    SymbolRead(s, p, ListCode(), x, [1, x - 1]);
    NextLength(s, p, ListCode(), 259, acc);
  }

  lemma SevenBits()
    ensures LowBits(86, 7) == [0, 1, 1, 0, 1, 0, 1] && LowBits(127, 7) == [1, 1, 1, 1, 1, 1, 1]
  {
  }

  lemma NineInSeven()
    ensures LowBits(9, 7) == [1, 0, 0, 1, 0, 0, 0]
  {
  }

  /** The list of code lengths that the stream sends. */
  lemma ListSent()
    ensures Lengths(ListCode())
    ensures ReadLengths(BitsOf(DYNAMIC_STREAM), 71, ListCode(), 259, []) == AllLengths(103, TextCode() + [1])
  {
    var s := BitsOf(DYNAMIC_STREAM);
    ListBits0();
    ListBits1();
    SevenBits();
    NineInSeven();
    hide *;
    var acc: seq<nat> := [];
    NoLengthYet();
    ZerosRead(s, 71, acc, 97, [0, 1, 1, 0, 1, 0, 1]);
    acc := acc + Rep(97, 0);
    LengthRead(s, 79, acc, 1);
    acc := acc + [1];
    ZerosRead(s, 81, acc, 138, [1, 1, 1, 1, 1, 1, 1]);
    acc := acc + Rep(138, 0);
    ZerosRead(s, 89, acc, 20, [1, 0, 0, 1, 0, 0, 0]);
    acc := acc + Rep(20, 0);
    LengthRead(s, 97, acc, 2);
    acc := acc + [2];
    LengthRead(s, 99, acc, 2);
    acc := acc + [2];
    TextCodeIs(acc);
    LengthRead(s, 101, acc, 1);
    acc := acc + [1];
    AllRead(s, 103, ListCode(), 259, acc);
  }

  lemma NoLengthYet()
    ensures Lengths([])
  {
  }

  lemma TextCodeIs(acc: seq<nat>)
    requires acc == [] + Rep(97, 0) + [1] + Rep(138, 0) + Rep(20, 0) + [2] + [2]
    ensures acc == TextCode()
  {
  }

  lemma TextSizes()
    ensures CodesOk(TextCode(), [1]) && Usable(TextCode()) && Usable([1])
  {
    TextCodeKraft();
    DistanceWord();
    CountOne(1, 0);
    assert Pow2(15) == 2 * Pow2(14);
    hide Kraft, Count, Pow2, TextCode;
  }

  /** The two codes that the list describes, and the data that they carry. */
  lemma TextRead()
    ensures |BitsOf(DYNAMIC_STREAM)| == 112 && CodesOk(TextCode(), [1]) && Usable(TextCode()) && Usable([1])
    ensures Codes(BitsOf(DYNAMIC_STREAM), 103, TextCode(), [1], [], None) == Done(109, [97, 97, 97, 97])
  {
    var s := BitsOf(DYNAMIC_STREAM);
    DataBits();
    TextWords();
    TextCodeKraft();
    DistanceWord();
    TextSizes();
    assert Pow2(14) <= Pow2(15);
    hide Kraft, Codeword, ReadSymbol, Pow2, TextCode, Codes, BitsOf, Count, Lengths, CodesOk, Usable;
    SymbolRead(s, 103, TextCode(), 97, [0]);
    SymbolRead(s, 104, TextCode(), 257, [1, 1]);
    SymbolRead(s, 106, [1], 0, [0]);
    SymbolRead(s, 107, TextCode(), 256, [1, 0]);
    FourBytes(s, TextCode(), [1], 103, 104, 106, 107, 109);
  }

  /** A dynamic block: its two codes are sent as a list with three runs of zeros, then the same four bytes. */
  lemma DynamicVector()
    ensures Inflated(DYNAMIC_STREAM, None) == Done(109, [97, 97, 97, 97])
  {
    var s := BitsOf(DYNAMIC_STREAM);
    Announced();
    ListCodeSent();
    ListCodeKraft();
    ListSent();
    TextRead();
    TypeTwo();
    hide BitsOf, Value, CodeLengthLengths, ReadLengths, Codes, ListCode, TextCode, Usable, Kraft, Pow2, Lengths;
    assert (TextCode() + [1])[..258] == TextCode() && (TextCode() + [1])[258..] == [1];
    assert DescribedBlock(s, 103, TextCode() + [1], 258, [], None) == Done(109, [97, 97, 97, 97]);
    hide DescribedBlock;
    assert DynamicCodes(s, 17, 258, 1, 18, [], None) == Done(109, [97, 97, 97, 97]);
    hide DynamicCodes;
    assert s[0] == s[0..3][0] && s[1..3] == s[0..3][1..] == [0, 1];
  }

  lemma TypeTwo()
    ensures Value([0, 1]) == 2
  {
    assert [0, 1][1..] == [1] && [1][1..] == [];
  }
}
