/**
 * The deflate format of RFC 1951 as a function from input bytes to output, including everything the
 * decoder reports about malformed, truncated or oversized data.
 */
module Deflate {
  import opened Machine
  import opened BitStream
  import opened Huffman
  import opened Canonical

  const MAXLCODES: nat := 286
  const MAXDCODES: nat := 30
  const FIXLCODES: nat := 288

  const LENS: seq<nat> := [3, 4, 5, 6, 7, 8, 9, 10, 11, 13, 15, 17, 19, 23, 27, 31,
                           35, 43, 51, 59, 67, 83, 99, 115, 131, 163, 195, 227, 258]
  const LEXT: seq<nat> := [0, 0, 0, 0, 0, 0, 0, 0, 1, 1, 1, 1, 2, 2, 2, 2,
                           3, 3, 3, 3, 4, 4, 4, 4, 5, 5, 5, 5, 0]
  const DISTS: seq<nat> := [1, 2, 3, 4, 5, 7, 9, 13, 17, 25, 33, 49, 65, 97, 129, 193,
                            257, 385, 513, 769, 1025, 1537, 2049, 3073, 4097, 6145,
                            8193, 12289, 16385, 24577]
  const DEXT: seq<nat> := [0, 0, 0, 0, 1, 1, 2, 2, 3, 3, 4, 4, 5, 5, 6, 6,
                           7, 7, 8, 8, 9, 9, 10, 10, 11, 11, 12, 12, 13, 13]

  /** Order in which code length code lengths are transmitted, and where each symbol stands in it. */
  const ORDER: seq<nat> := [16, 17, 18, 0, 8, 7, 9, 6, 10, 5, 11, 4, 12, 3, 13, 2, 14, 1, 15]
  const RANK: seq<nat> := [3, 17, 15, 13, 11, 9, 7, 5, 4, 6, 8, 10, 12, 14, 16, 18, 0, 1, 2]

  lemma RankInvertsOrder()
    ensures |ORDER| == 19 && |RANK| == 19
    ensures forall i :: 0 <= i < 19 ==> ORDER[i] < 19 && RANK[ORDER[i]] == i
    ensures forall i :: 0 <= i < 19 ==> RANK[i] < 19 && ORDER[RANK[i]] == i
  {
  }

  lemma SmallPowers()
    ensures Pow2(0) == 1 && Pow2(1) == 2 && Pow2(2) == 4 && Pow2(3) == 8 && Pow2(4) == 16 && Pow2(5) == 32
    ensures Pow2(6) == 64 && Pow2(7) == 128 && Pow2(8) == 256 && Pow2(9) == 512 && Pow2(10) == 1024
    ensures Pow2(11) == 2048 && Pow2(12) == 4096 && Pow2(13) == 8192
  {
    assert Pow2(4) == 2 * Pow2(3) && Pow2(6) == 2 * Pow2(5) && Pow2(8) == 2 * Pow2(7);
    assert Pow2(10) == 2 * Pow2(9) && Pow2(12) == 2 * Pow2(11);
  }

  /** Length symbols come in groups of four with the same number of extra bits. */
  lemma LengthTable(l: nat)
    requires l < 29
    ensures |LENS| == 29 == |LEXT|
    ensures LEXT[l] == if l < 8 || l == 28 then 0 else l / 4 - 1
    ensures LENS[l] == if l < 8 then l + 3 else if l == 28 then 258 else 3 + (4 + l % 4) * Pow2(LEXT[l])
  {
    SmallPowers();
    hide Pow2;
  }

  /** The lengths of neighbouring symbols adjoin and go from 3 to 258. */
  lemma LengthSpans(l: nat, e: nat)
    requires l < 29 && e < Pow2(LEXT[l])
    ensures LENS[0] == 3 && LENS[28] == 258
    ensures l < 27 ==> LENS[l + 1] == LENS[l] + Pow2(LEXT[l])
    ensures 3 <= LENS[l] + e <= 258
  {
    SmallPowers();
    hide Pow2;
  }

  /** Distance symbols come in pairs with the same number of extra bits. */
  lemma DistanceTable(d: nat)
    requires d < 30
    ensures |DISTS| == 30 == |DEXT|
    ensures DEXT[d] == if d < 4 then 0 else d / 2 - 1
    ensures DISTS[d] == if d < 4 then d + 1 else 1 + (2 + d % 2) * Pow2(DEXT[d])
  {
    SmallPowers();
    hide Pow2;
  }

  /** The distances of neighbouring symbols adjoin and go from 1 to 32768. */
  lemma DistanceSpans(d: nat)
    requires d < 30
    ensures DISTS[0] == 1
    ensures DISTS[d] + Pow2(DEXT[d]) == if d < 29 then DISTS[d + 1] else 32769
  {
    SmallPowers();
    hide Pow2;
  }

  /** The first three symbols sent are the repeats and the rest go outwards from 8. */
  lemma OrderRule(k: nat)
    requires k < 19
    ensures ORDER[k] == if k < 3 then 16 + k else if k == 3 then 0 else if k % 2 == 0 then 6 + k / 2 else 9 - k / 2
  {
  }

  /**
   * How decoding a block or a stream ends: complete at a bit position, invalid there with a return code,
   * out of input, or out of output space.
   */
  datatype Outcome =
    | Done(pos: nat, data: seq<byte>)
    | Invalid(code: int, pos: nat, data: seq<byte>)
    | NoInput
    | NoSpace

  /** Space for n more bytes; there is no limit while only the size is wanted. */
  predicate Fits(data: seq<byte>, n: nat, cap: Option<nat>) {
    cap.Some? ==> |data| + n <= cap.value
  }

  function Rep(n: nat, x: nat): (r: seq<nat>)
    ensures |r| == n && forall i :: 0 <= i < n ==> r[i] == x
  {
    seq(n, i => x)
  }

  // ----- stored blocks -----

  ghost function Stored(inp: seq<byte>, i: nat, data: seq<byte>, cap: Option<nat>): Outcome {
    if i + 4 > |inp| then NoInput
    else
      var len: nat := inp[i] as int + 0x100 * inp[i + 1] as int;
      if inp[i + 2] != 0xFF - inp[i] then Invalid(-2, 8 * (i + 3), data)
      else if inp[i + 3] != 0xFF - inp[i + 1] then Invalid(-2, 8 * (i + 4), data)
      else if i + 4 + len > |inp| then NoInput
      else if !Fits(data, len, cap) then NoSpace
      else Done(8 * (i + 4 + len), data + inp[i + 4..i + 4 + len])
  }

  // ----- compressed blocks -----

  /** The last bytes again: copying goes byte by byte, so a copy may overlap itself. */
  function CopyBack(data: seq<byte>, dist: nat, len: nat): (r: seq<byte>)
    requires 1 <= dist <= |data|
    ensures |r| == |data| + len && data <= r
    decreases len
  {
    if len == 0 then data else CopyBack(data + [data[|data| - dist]], dist, len - 1)
  }

  /** A copy repeats the last dist bytes as often as needed. */
  lemma {:induction false} CopyRepeats(data: seq<byte>, dist: nat, len: nat, i: nat)
    requires 1 <= dist <= |data| && |data| <= i < |data| + len
    ensures CopyBack(data, dist, len)[i] == CopyBack(data, dist, len)[i - dist]
    ensures CopyBack(data, dist, len)[i] == data[|data| - dist + (i - |data|) % dist]
    decreases len
  {
    var r, one := CopyBack(data, dist, len), data + [data[|data| - dist]];
    assert r == CopyBack(one, dist, len - 1);
    if i == |data| {
      assert r[i] == one[i];
    } else {
      CopyRepeats(one, dist, len - 1, i);
      CopyWrap(i - |data|, dist);
      assert one[|one| - dist + (i - |one|) % dist] == data[|data| - dist + (i - |data|) % dist];
    }
  }

  /** Moving the window by one byte. */
  lemma CopyWrap(k: nat, dist: nat)
    requires k >= 1 && dist >= 1
    ensures 1 + (k - 1) % dist == if k % dist == 0 then dist else k % dist
  {
    var q, r := (k - 1) / dist, (k - 1) % dist;
    assert k - 1 == q * dist + r;
    if r + 1 < dist {
      assert k == r + 1 + dist * q;
      DivModUnique(r + 1, q, dist);
    } else {
      assert k == 0 + dist * (q + 1);
      DivModUnique(0, q + 1, dist);
    }
  }

  lemma TableSizes()
    ensures |LENS| == 29 && |LEXT| == 29 && |DISTS| == 30 && |DEXT| == 30
  {
  }

  /** A length and a distance after a length symbol. */
  datatype MatchRead = Copy(len: nat, dist: nat, pos: nat) | BadMatch(pos: nat) | ShortMatch

  ghost function ReadMatch(s: seq<bit>, p: nat, lsym: nat, DL: seq<nat>): (r: MatchRead)
    requires Lengths(DL) && |DL| <= MAXDCODES && lsym < |LENS|
    ensures r.Copy? ==> p <= r.pos <= |s|
    ensures r.Copy? ==> r.dist > 0
  {
    hide ReadSymbol, Value;
    if p + LEXT[lsym] > |s| then ShortMatch
    else
      var q := p + LEXT[lsym];
      var len := LENS[lsym] + Value(s[p..q]);
      match ReadSymbol(s, q, DL)
      case OutOfInput => ShortMatch
      case BadCode(r) => BadMatch(r)
      case Symbol(y, r) =>
        if r + DEXT[y] > |s| then ShortMatch
        else Copy(len, DISTS[y] + Value(s[r..r + DEXT[y]]), r + DEXT[y])
  }

  /** Literals and matches up to the end-of-block symbol. */
  ghost function Codes(s: seq<bit>, p: nat, LL: seq<nat>, DL: seq<nat>, data: seq<byte>, cap: Option<nat>): (r: Outcome)
    requires Lengths(LL) && Lengths(DL) && |DL| <= MAXDCODES
    ensures r.Done? ==> p < r.pos <= |s|
    ensures r.Invalid? ==> r.code < 0
    decreases |s| - p
  {
    match ReadSymbol(s, p, LL)
    case OutOfInput => NoInput
    case BadCode(q) => Invalid(-10, q, data)
    case Symbol(x, q) =>
      if x < 256 then
        if !Fits(data, 1, cap) then NoSpace else Codes(s, q, LL, DL, data + [x], cap)
      else if x == 256 then Done(q, data)
      else if x - 257 >= 29 then Invalid(-10, q, data)
      else
        match ReadMatch(s, q, x - 257, DL)
        case ShortMatch => NoInput
        case BadMatch(r) => Invalid(-10, r, data)
        case Copy(len, dist, r) =>
          if dist > |data| then Invalid(-11, r, data)
          else if !Fits(data, len, cap) then NoSpace
          else Codes(s, r, LL, DL, CopyBack(data, dist, len), cap)
  }

  // ----- fixed blocks -----

  function FixedLit(): (r: seq<nat>)
    ensures |r| == 288 && Lengths(r)
  {
    Rep(144, 8) + Rep(112, 9) + Rep(24, 7) + Rep(8, 8)
  }

  function FixedDist(): (r: seq<nat>)
    ensures |r| == 30 && Lengths(r)
  {
    Rep(30, 5)
  }

  lemma {:induction false} KraftConcat(a: seq<nat>, b: seq<nat>)
    requires Lengths(a) && Lengths(b)
    ensures Lengths(a + b) && Kraft(a + b) == Kraft(a) + Kraft(b)
  {
    if b == [] {
      assert a + b == a;
    } else {
      KraftConcat(a, b[..|b| - 1]);
      assert (a + b)[..|a + b| - 1] == a + b[..|b| - 1];
    }
  }

  lemma {:induction false} KraftRep(n: nat, x: nat)
    requires 1 <= x <= MAXBITS
    ensures Kraft(Rep(n, x)) == n * Pow2(MAXBITS - x)
  {
    if n == 0 {
      assert Rep(n, x) == [];
    } else {
      KraftRep(n - 1, x);
      RepNext(n, x);
      KraftLast(Rep(n - 1, x), x);
      hide *;
      TimesNext(n, Pow2(MAXBITS - x));
    }
  }

  lemma RepNext(n: nat, x: nat)
    requires n > 0
    ensures Rep(n, x) == Rep(n - 1, x) + [x]
  {
  }

  lemma KraftLast(L: seq<nat>, x: nat)
    requires Lengths(L) && 1 <= x <= MAXBITS
    ensures Lengths(L + [x]) && Kraft(L + [x]) == Kraft(L) + Pow2(MAXBITS - x)
  {
    assert (L + [x])[..|L|] == L;
    hide Pow2;
  }

  lemma TimesNext(n: nat, p: nat)
    requires n > 0
    ensures n * p == (n - 1) * p + p
  {
  }

  lemma Powers()
    ensures Pow2(6) == 64 && Pow2(7) == 128 && Pow2(8) == 256 && Pow2(10) == 1024 && Pow2(15) == 32768
  {
    SmallPowers();
    Pow2Add(10, 5);
  }

  /** The fixed literal/length code is complete, the fixed distance code is not. */
  lemma FixedKraft()
    ensures Kraft(FixedLit()) == Pow2(MAXBITS) && Kraft(FixedDist()) < Pow2(MAXBITS)
  {
    hide Kraft, Pow2;
    var a, b, c, d := Rep(144, 8), Rep(112, 9), Rep(24, 7), Rep(8, 8);
    KraftRep(144, 8);
    KraftRep(112, 9);
    KraftRep(24, 7);
    KraftRep(8, 8);
    KraftRep(30, 5);
    KraftConcat(a, b);
    KraftConcat(a + b, c);
    KraftConcat(a + b + c, d);
    Powers();
  }

  // ----- dynamic blocks -----

  /** The code length code: three bits each in transmission order, the rest zero. */
  ghost function CodeLengthLengths(s: seq<bit>, p: nat, ncode: nat): (r: seq<nat>)
    requires ncode <= 19 && p + 3 * ncode <= |s|
    ensures |r| == 19 && Lengths(r)
  {
    seq(19, sym requires 0 <= sym < 19 => CodeLengthLength(s, p, ncode, sym))
  }

  ghost function CodeLengthLength(s: seq<bit>, p: nat, ncode: nat, sym: nat): (r: nat)
    requires ncode <= 19 && p + 3 * ncode <= |s| && sym < 19
    ensures r < 8
  {
    RankInvertsOrder();
    SmallPowers();
    var k := RANK[sym];
    if k < ncode then Value(s[p + 3 * k..p + 3 * k + 3]) else 0
  }

  /** The order of transmission reaches every symbol. */
  lemma AllTransmitted(l: seq<nat>, b: seq<bit>, p: nat, ncode: nat)
    requires |l| == 19 && ncode <= 19 && p + 3 * ncode <= |b|
    requires forall k :: 0 <= k < 19 ==> ORDER[k] < 19
    requires forall k :: 0 <= k < ncode ==> l[ORDER[k]] == Value(b[p + 3 * k..p + 3 * k + 3])
    requires forall k :: ncode <= k < 19 ==> l[ORDER[k]] == 0
    ensures l == CodeLengthLengths(b, p, ncode)
  {
    RankInvertsOrder();
    hide Value, ORDER, RANK;
    forall sym: nat | sym < 19 ensures l[sym] == CodeLengthLength(b, p, ncode, sym) {
      assert ORDER[RANK[sym]] == sym;
    }
  }

  datatype LengthsRead = AllLengths(pos: nat, lengths: seq<nat>) | BadLengths(code: int, pos: nat) | ShortLengths

  /** How often and what: the repeat symbols 16, 17 and 18. */
  function RepeatBits(x: nat): nat {
    if x == 16 then 2 else if x == 17 then 3 else 7
  }

  function RepeatBase(x: nat): nat {
    if x == 18 then 11 else 3
  }

  /** Symbol 16 repeats the last length 3 to 6 times; 17 and 18 stand for 3 to 10 and 11 to 138 zeros. */
  lemma RepeatSpans(x: nat, v: nat)
    requires 16 <= x <= 18 && v < Pow2(RepeatBits(x))
    ensures (if x == 18 then 11 else 3) <= RepeatBase(x) + v <= (if x == 16 then 6 else if x == 17 then 10 else 138)
    ensures RepeatBase(x) == if x == 18 then 11 else 3
    ensures RepeatBase(x) + Pow2(RepeatBits(x)) - 1 == if x == 16 then 6 else if x == 17 then 10 else 138
  {
    SmallPowers();
    hide Pow2;
  }

  /** The code lengths of both codes as one run-length coded list of total entries. */
  ghost function ReadLengths(s: seq<bit>, p: nat, CL: seq<nat>, total: nat, acc: seq<nat>): (r: LengthsRead)
    requires Lengths(CL) && |CL| <= 19 && Lengths(acc) && |acc| <= total
    ensures r.AllLengths? ==> p <= r.pos && |r.lengths| == total && Lengths(r.lengths)
    ensures r.AllLengths? && p <= |s| ==> r.pos <= |s|
    ensures r.BadLengths? ==> r.code < 0
    decreases total - |acc|
  {
    if |acc| == total then AllLengths(p, acc)
    else
      match ReadSymbol(s, p, CL)
      case OutOfInput => ShortLengths
      case BadCode(q) => BadLengths(-10, q)
      case Symbol(x, q) =>
        if x < 16 then ReadLengths(s, q, CL, total, acc + [x])
        else if x == 16 && acc == [] then BadLengths(-5, q)
        else
          var r := q + RepeatBits(x);
          if r > |s| then ShortLengths
          else
            var n := RepeatBase(x) + Value(s[q..r]);
            if |acc| + n > total then BadLengths(-6, r)
            else ReadLengths(s, r, CL, total, acc + Rep(n, if x == 16 then acc[|acc| - 1] else 0))
  }

  /** One symbol of the list. */
  lemma NextLength(b: seq<bit>, p: nat, CL: seq<nat>, total: nat, acc: seq<nat>)
    requires Lengths(CL) && |CL| <= 19 && Lengths(acc) && |acc| < total
    ensures match ReadSymbol(b, p, CL)
            case OutOfInput => ReadLengths(b, p, CL, total, acc) == ShortLengths
            case BadCode(q) => ReadLengths(b, p, CL, total, acc) == BadLengths(-10, q)
            case Symbol(x, q) =>
              if x < 16 then
                Lengths(acc + [x]) && ReadLengths(b, p, CL, total, acc) == ReadLengths(b, q, CL, total, acc + [x])
              else if x == 16 && acc == [] then ReadLengths(b, p, CL, total, acc) == BadLengths(-5, q)
              else if q + RepeatBits(x) > |b| then ReadLengths(b, p, CL, total, acc) == ShortLengths
              else
                var r := q + RepeatBits(x);
                var n, len := RepeatBase(x) + Value(b[q..r]), if x == 16 then acc[|acc| - 1] else 0;
                if |acc| + n > total then ReadLengths(b, p, CL, total, acc) == BadLengths(-6, r)
                else Lengths(acc + Rep(n, len))
                     && ReadLengths(b, p, CL, total, acc) == ReadLengths(b, r, CL, total, acc + Rep(n, len))
  {
    hide Value, ReadSymbol;
  }

  lemma AllRead(b: seq<bit>, p: nat, CL: seq<nat>, total: nat, acc: seq<nat>)
    requires Lengths(CL) && |CL| <= 19 && Lengths(acc) && |acc| == total
    ensures ReadLengths(b, p, CL, total, acc) == AllLengths(p, acc)
  {
  }

  /** An incomplete code is accepted only when it consists of a single code of length one, or of none. */
  ghost predicate Usable(L: seq<nat>)
    requires Lengths(L)
  {
    Kraft(L) <= Pow2(MAXBITS) && (Kraft(L) == Pow2(MAXBITS) || Kraft(L) == 0 || Count(L, 0) + Count(L, 1) == |L|)
  }

  ghost function Dynamic(s: seq<bit>, p: nat, data: seq<byte>, cap: Option<nat>): (r: Outcome)
    ensures r.Done? ==> p < r.pos <= |s|
    ensures r.Invalid? ==> r.code < 0
  {
    if p + 14 > |s| then NoInput
    else
      var nlen := Value(s[p..p + 5]) + 257;
      var ndist := Value(s[p + 5..p + 10]) + 1;
      var ncode := Value(s[p + 10..p + 14]) + 4;
      if nlen > 286 || ndist > 30 then Invalid(-3, p + 14, data)
      else
        assert ncode <= 19 by { SmallPowers(); }
        DynamicCodes(s, p + 14, nlen, ndist, ncode, data, cap)
  }

  ghost function DynamicCodes(s: seq<bit>, p: nat, nlen: nat, ndist: nat, ncode: nat, data: seq<byte>, cap: Option<nat>)
    : (r: Outcome)
    requires 257 <= nlen <= MAXLCODES && 1 <= ndist <= MAXDCODES && ncode <= 19
    ensures r.Done? ==> p < r.pos <= |s|
    ensures r.Invalid? ==> r.code < 0
  {
    hide Kraft, CodeLengthLengths, ReadLengths, DescribedBlock, Pow2;
    var q := p + 3 * ncode;
    if q > |s| then NoInput
    else
      var CL := CodeLengthLengths(s, p, ncode);
      if Kraft(CL) != Pow2(MAXBITS) && Kraft(CL) != 0 then Invalid(-4, q, data)
      else
        match ReadLengths(s, q, CL, nlen + ndist, [])
        case ShortLengths => NoInput
        case BadLengths(code, r) => Invalid(code, r, data)
        case AllLengths(r, lengths) => DescribedBlock(s, r, lengths, nlen, data, cap)
  }

  /** The compressed data after the description of its codes. */
  ghost function DescribedBlock(s: seq<bit>, p: nat, lengths: seq<nat>, nlen: nat, data: seq<byte>, cap: Option<nat>)
    : (r: Outcome)
    requires Lengths(lengths) && 257 <= nlen <= |lengths| <= nlen + MAXDCODES
    ensures r.Done? ==> p < r.pos <= |s|
    ensures r.Invalid? ==> r.code < 0
  {
    SplitLengths(lengths, nlen);
    if lengths[256] == 0 then Invalid(-9, p, data)
    else if !Usable(lengths[..nlen]) then Invalid(-7, p, data)
    else if !Usable(lengths[nlen..]) then Invalid(-8, p, data)
    else Codes(s, p, lengths[..nlen], lengths[nlen..], data, cap)
  }

  lemma SplitLengths(lengths: seq<nat>, n: nat)
    requires Lengths(lengths) && n <= |lengths|
    ensures Lengths(lengths[..n]) && Lengths(lengths[n..])
  {
  }

  // ----- the whole stream -----

  ghost function Block(inp: seq<byte>, p: nat, kind: nat, data: seq<byte>, cap: Option<nat>): (r: Outcome)
    ensures r.Done? ==> p < r.pos <= 8 * |inp|
    ensures r.Invalid? ==> r.code < 0
  {
    var s := BitsOf(inp);
    if kind == 0 then Stored(inp, (p + 7) / 8, data, cap)
    else if kind == 1 then Codes(s, p, FixedLit(), FixedDist(), data, cap)
    else if kind == 2 then Dynamic(s, p, data, cap)
    else Invalid(-1, p, data)
  }

  /** Blocks up to the one marked as last. */
  ghost function Blocks(inp: seq<byte>, p: nat, data: seq<byte>, cap: Option<nat>): (r: Outcome)
    ensures r.Done? ==> p < r.pos <= 8 * |inp|
    ensures r.Invalid? ==> r.code < 0
    decreases 8 * |inp| - p
  {
    var s := BitsOf(inp);
    if p + 3 > |s| then NoInput
    else
      var o := Block(inp, p + 3, Value(s[p + 1..p + 3]), data, cap);
      if o.Done? && s[p] == 0 then Blocks(inp, o.pos, o.data, cap) else o
  }

  /** Decompression of a byte sequence into a buffer of the given size, or of unlimited size when only scanning. */
  ghost function Inflated(inp: seq<byte>, cap: Option<nat>): Outcome {
    Blocks(inp, 0, [], cap)
  }

  // ----- scanning and writing agree -----

  /** Result of the same decoding into a limited buffer. */
  ghost function Limited(o: Outcome, cap: nat): Outcome {
    if o.NoInput? || o.NoSpace? || |o.data| <= cap then o else NoSpace
  }

  /** What a limited buffer makes of a decoding; a truncated input may run out of space first. */
  ghost predicate Agrees(free: Outcome, lim: Outcome, data: seq<byte>, cap: nat) {
    && !free.NoSpace?
    && (free.Done? || free.Invalid? ==> data <= free.data && lim == Limited(free, cap))
    && (free.NoInput? ==> lim.NoInput? || lim.NoSpace?)
  }

  lemma StoredAgrees(inp: seq<byte>, i: nat, data: seq<byte>, cap: nat)
    requires |data| <= cap
    ensures Agrees(Stored(inp, i, data, None), Stored(inp, i, data, Some(cap)), data, cap)
  {
  }

  lemma {:induction false} CodesAgree(s: seq<bit>, p: nat, LL: seq<nat>, DL: seq<nat>, data: seq<byte>, cap: nat)
    requires Lengths(LL) && Lengths(DL) && |DL| <= MAXDCODES && |data| <= cap
    ensures Agrees(Codes(s, p, LL, DL, data, None), Codes(s, p, LL, DL, data, Some(cap)), data, cap)
    decreases |s| - p
  {
    hide ReadSymbol, ReadMatch, CopyBack, Lengths;
    match ReadSymbol(s, p, LL)
    case OutOfInput =>
    case BadCode(q) =>
    case Symbol(x, q) =>
      if x < 256 {
        CodesAgree(s, q, LL, DL, data + [x], if |data| < cap then cap else |data| + 1);
      } else if 256 < x < 286 {
        match ReadMatch(s, q, x - 257, DL)
        case ShortMatch =>
        case BadMatch(r) =>
        case Copy(len, dist, r) =>
          if dist <= |data| {
            CodesAgree(s, r, LL, DL, CopyBack(data, dist, len), if |data| + len <= cap then cap else |data| + len);
          }
      }
  }

  lemma DynamicAgrees(s: seq<bit>, p: nat, data: seq<byte>, cap: nat)
    requires |data| <= cap
    ensures Agrees(Dynamic(s, p, data, None), Dynamic(s, p, data, Some(cap)), data, cap)
  {
    hide DynamicCodes;
    if p + 14 <= |s| {
      var nlen := Value(s[p..p + 5]) + 257;
      var ndist := Value(s[p + 5..p + 10]) + 1;
      var ncode := Value(s[p + 10..p + 14]) + 4;
      if nlen <= 286 && ndist <= 30 {
        assert ncode <= 19 by { SmallPowers(); }
        DynamicCodesAgree(s, p + 14, nlen, ndist, ncode, data, cap);
      }
    }
  }

  lemma DynamicCodesAgree(s: seq<bit>, p: nat, nlen: nat, ndist: nat, ncode: nat, data: seq<byte>, cap: nat)
    requires 257 <= nlen <= MAXLCODES && 1 <= ndist <= MAXDCODES && ncode <= 19 && |data| <= cap
    ensures Agrees(DynamicCodes(s, p, nlen, ndist, ncode, data, None),
                   DynamicCodes(s, p, nlen, ndist, ncode, data, Some(cap)), data, cap)
  {
    hide DescribedBlock, Kraft, CodeLengthLengths, ReadLengths, Pow2;
    var q := p + 3 * ncode;
    if q <= |s| {
      match ReadLengths(s, q, CodeLengthLengths(s, p, ncode), nlen + ndist, [])
      case ShortLengths =>
      case BadLengths(code, r) =>
      case AllLengths(r, lengths) => DescribedAgrees(s, r, lengths, nlen, data, cap);
    }
  }

  lemma DescribedAgrees(s: seq<bit>, p: nat, lengths: seq<nat>, nlen: nat, data: seq<byte>, cap: nat)
    requires Lengths(lengths) && 257 <= nlen <= |lengths| <= nlen + MAXDCODES && |data| <= cap
    ensures Agrees(DescribedBlock(s, p, lengths, nlen, data, None),
                   DescribedBlock(s, p, lengths, nlen, data, Some(cap)), data, cap)
  {
    hide Codes, Usable;
    SplitLengths(lengths, nlen);
    CodesAgree(s, p, lengths[..nlen], lengths[nlen..], data, cap);
  }

  lemma BlockAgrees(inp: seq<byte>, p: nat, kind: nat, data: seq<byte>, cap: nat)
    requires |data| <= cap
    ensures Agrees(Block(inp, p, kind, data, None), Block(inp, p, kind, data, Some(cap)), data, cap)
  {
    hide Stored, Codes, Dynamic;
    StoredAgrees(inp, (p + 7) / 8, data, cap);
    CodesAgree(BitsOf(inp), p, FixedLit(), FixedDist(), data, cap);
    DynamicAgrees(BitsOf(inp), p, data, cap);
  }

  lemma {:induction false} BlocksAgree(inp: seq<byte>, p: nat, data: seq<byte>, cap: nat)
    requires |data| <= cap
    ensures Agrees(Blocks(inp, p, data, None), Blocks(inp, p, data, Some(cap)), data, cap)
    decreases 8 * |inp| - p
  {
    hide Block, BitsOf, Value;
    var s := BitsOf(inp);
    if p + 3 <= |s| {
      BlockAgrees(inp, p + 3, Value(s[p + 1..p + 3]), data, cap);
      var o := Block(inp, p + 3, Value(s[p + 1..p + 3]), data, None);
      if o.Done? && s[p] == 0 {
        BlocksAgree(inp, o.pos, o.data, if |o.data| <= cap then cap else |o.data|);
      }
    }
  }

  /**
   * Scanning predicts writing: with a buffer of at least the scanned size every final outcome is the same,
   * with a smaller one space runs out.
   */
  lemma ScanPredictsWrite(inp: seq<byte>, cap: nat)
    requires Inflated(inp, None).Done? || Inflated(inp, None).Invalid?
    ensures var o := Inflated(inp, None);
            Inflated(inp, Some(cap)) == if |o.data| <= cap then o else NoSpace
  {
    BlocksAgree(inp, 0, [], cap);
  }
}
