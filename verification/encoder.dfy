/** A specification of deflate encoders, and the proof that decoding inverts every one of them. */
module Encoder {
  import opened Machine
  import opened BitStream
  import opened Huffman
  import opened Canonical
  import opened Deflate

  // ----- pieces of a bit stream -----

  /** The bits e stand at position p. */
  ghost predicate At(s: seq<bit>, p: nat, e: seq<bit>) {
    p + |e| <= |s| && s[p..p + |e|] == e
  }

  lemma AtSplit(s: seq<bit>, p: nat, a: seq<bit>, b: seq<bit>)
    requires At(s, p, a + b)
    ensures At(s, p, a) && At(s, p + |a|, b)
  {
    assert s[p..p + |a|] == (a + b)[..|a|];
    assert s[p + |a|..p + |a| + |b|] == (a + b)[|a|..];
  }

  lemma AtNumber(s: seq<bit>, p: nat, x: nat, n: nat)
    requires At(s, p, LowBits(x, n)) && x < Pow2(n)
    ensures p + n <= |s| && Value(s[p..p + n]) == x
  {
    ValueOfLowBits(x, n);
  }

  lemma AtSymbol(s: seq<bit>, p: nat, L: seq<nat>, x: nat)
    requires Lengths(L) && x < |L| && L[x] > 0 && Kraft(L) <= Pow2(MAXBITS) && At(s, p, Codeword(L, x))
    ensures |Codeword(L, x)| == L[x] && ReadSymbol(s, p, L) == Symbol(x, p + L[x])
  {
    assert CodewordAt(s, p, L, x);
    ReadCodeword(s, p, L, x);
  }

  // ----- lengths and distances -----

  /** The last entry of a base table, up to i, that does not exceed v. */
  function Search(bases: seq<nat>, v: nat, i: nat): (r: nat)
    requires i < |bases| && bases[0] <= v
    ensures r <= i && bases[r] <= v && (r < i ==> v < bases[r + 1])
  {
    if i == 0 || bases[i] <= v then i else Search(bases, v, i - 1)
  }

  function LenSym(len: nat): (r: nat)
    requires 3 <= len
    ensures r < 29
  {
    Search(LENS, len, 28)
  }

  function DistSym(dist: nat): (r: nat)
    requires 1 <= dist
    ensures r < 30
  {
    Search(DISTS, dist, 29)
  }

  function TwoTo(n: nat): nat {
    if n >= 13 then 8192 else if n == 12 then 4096 else if n == 11 then 2048 else if n == 10 then 1024
    else if n == 9 then 512 else if n == 8 then 256 else if n == 7 then 128 else if n == 6 then 64
    else if n == 5 then 32 else if n == 4 then 16 else if n == 3 then 8 else if n == 2 then 4 else if n ==
      1 then 2 else 1
  }

  lemma {:induction false} TwoToIsPow2(n: nat)
    requires n <= 13
    ensures TwoTo(n) == Pow2(n)
  {
    if n > 0 { TwoToIsPow2(n - 1); }
  }

  lemma LengthSteps(i: nat)
    requires i < 28
    ensures LENS[i + 1] - LENS[i] <= TwoTo(LEXT[i]) && LEXT[i] <= 13
  {
  }

  lemma DistanceSteps(i: nat)
    requires i < 29
    ensures DISTS[i + 1] - DISTS[i] <= TwoTo(DEXT[i]) && DEXT[i] <= 13
  {
  }

  /** Every length from 3 to 258 has a symbol whose extra bits reach it. */
  lemma LengthFits(len: nat)
    requires 3 <= len <= 258
    ensures LENS[LenSym(len)] <= len && len - LENS[LenSym(len)] < Pow2(LEXT[LenSym(len)])
  {
    var i := LenSym(len);
    if i < 28 {
      LengthSteps(i);
      TwoToIsPow2(LEXT[i]);
    }
  }

  /** Every distance from 1 to 32768 has a symbol whose extra bits reach it. */
  lemma DistanceFits(dist: nat)
    requires 1 <= dist <= 32768
    ensures DISTS[DistSym(dist)] <= dist && dist - DISTS[DistSym(dist)] < Pow2(DEXT[DistSym(dist)])
  {
    var i := DistSym(dist);
    if i < 29 {
      DistanceSteps(i);
      TwoToIsPow2(DEXT[i]);
    } else {
      TwoToIsPow2(13);
    }
  }

  // ----- tokens -----

  datatype Token = Literal(b: byte) | Match(len: nat, dist: nat)

  /** t can be sent with codes LL and DL after written bytes of output. */
  ghost predicate Sendable(t: Token, LL: seq<nat>, DL: seq<nat>, written: nat) {
    match t
    case Literal(b) => b < |LL| && LL[b] > 0
    case Match(len, dist) =>
      && 3 <= len <= 258 && 1 <= dist <= 32768 && dist <= written
      && 257 + LenSym(len) < |LL| && LL[257 + LenSym(len)] > 0
      && DistSym(dist) < |DL| && DL[DistSym(dist)] > 0
  }

  ghost function Put(t: Token, data: seq<byte>): seq<byte>
    requires t.Match? ==> 1 <= t.dist <= |data|
  {
    match t
    case Literal(b) => data + [b]
    case Match(len, dist) => CopyBack(data, dist, len)
  }

  /** All tokens can be sent one after the other. */
  ghost predicate AllSendable(ts: seq<Token>, LL: seq<nat>, DL: seq<nat>, data: seq<byte>) {
    ts != [] ==> Sendable(ts[0], LL, DL, |data|) && AllSendable(ts[1..], LL, DL, Put(ts[0], data))
  }

  /** The LZ77 expansion: each token appended to the output so far. */
  ghost function Expand(ts: seq<Token>, LL: seq<nat>, DL: seq<nat>, data: seq<byte>): seq<byte>
    requires AllSendable(ts, LL, DL, data)
  {
    if ts == [] then data else Expand(ts[1..], LL, DL, Put(ts[0], data))
  }

  ghost function LengthBits(len: nat, LL: seq<nat>): seq<bit>
    requires 3 <= len <= 258 && Lengths(LL) && 257 + LenSym(len) < |LL|
  {
    LengthFits(len);
    Codeword(LL, 257 + LenSym(len)) + LowBits(len - LENS[LenSym(len)], LEXT[LenSym(len)])
  }

  ghost function DistanceBits(dist: nat, DL: seq<nat>): seq<bit>
    requires 1 <= dist <= 32768 && Lengths(DL) && DistSym(dist) < |DL|
  {
    DistanceFits(dist);
    Codeword(DL, DistSym(dist)) + LowBits(dist - DISTS[DistSym(dist)], DEXT[DistSym(dist)])
  }

  ghost function TokenBits(t: Token, LL: seq<nat>, DL: seq<nat>, written: nat): seq<bit>
    requires Lengths(LL) && Lengths(DL) && Sendable(t, LL, DL, written)
  {
    match t
    case Literal(b) => Codeword(LL, b)
    case Match(len, dist) => LengthBits(len, LL) + DistanceBits(dist, DL)
  }

  /** The codes can carry tokens and the end-of-block symbol. */
  ghost predicate CodesOk(LL: seq<nat>, DL: seq<nat>) {
    && Lengths(LL) && Lengths(DL) && |LL| > 256 && LL[256] > 0 && |DL| <= MAXDCODES
    && Kraft(LL) <= Pow2(MAXBITS) && Kraft(DL) <= Pow2(MAXBITS)
  }

  ghost function TokensBits(ts: seq<Token>, LL: seq<nat>, DL: seq<nat>, data: seq<byte>): seq<bit>
    requires CodesOk(LL, DL) && AllSendable(ts, LL, DL, data)
  {
    if ts == [] then Codeword(LL, 256)
    else TokenBits(ts[0], LL, DL, |data|) + TokensBits(ts[1..], LL, DL, Put(ts[0], data))
  }

  lemma ReadMatchBack(s: seq<bit>, p: nat, len: nat, dist: nat, DL: seq<nat>)
    requires Lengths(DL) && |DL| <= MAXDCODES && Kraft(DL) <= Pow2(MAXBITS)
    requires 3 <= len <= 258 && 1 <= dist <= 32768 && DistSym(dist) < |DL| && DL[DistSym(dist)] > 0
    requires LENS[LenSym(len)] <= len
    requires At(s, p, LowBits(len - LENS[LenSym(len)], LEXT[LenSym(len)]) + DistanceBits(dist, DL))
    ensures ReadMatch(s, p, LenSym(len), DL) == Copy(len, dist, p + LEXT[LenSym(len)] + |DistanceBits(dist, DL)|)
  {
    hide At, Kraft, Codeword, LowBits, Value, ReadSymbol, Pow2, LenSym, DistSym, LENS, LEXT, DISTS, DEXT;
    LengthFits(len);
    DistanceFits(dist);
    TableSizes();
    var i, j := LenSym(len), DistSym(dist);
    var a, b := LowBits(len - LENS[i], LEXT[i]), LowBits(dist - DISTS[j], DEXT[j]);
    AtSplit(s, p, a, DistanceBits(dist, DL));
    AtNumber(s, p, len - LENS[i], LEXT[i]);
    var q := p + LEXT[i];
    AtSplit(s, q, Codeword(DL, j), b);
    AtSymbol(s, q, DL, j);
    AtNumber(s, q + DL[j], dist - DISTS[j], DEXT[j]);
  }

  /** One literal is read back. */
  lemma LiteralBack(s: seq<bit>, p: nat, b: byte, LL: seq<nat>, DL: seq<nat>, data: seq<byte>)
    requires CodesOk(LL, DL) && LL[b] > 0 && At(s, p, Codeword(LL, b))
    ensures Codes(s, p, LL, DL, data, None) == Codes(s, p + |Codeword(LL, b)|, LL, DL, data + [b], None)
  {
    hide At, Kraft, Codeword, ReadSymbol, ReadMatch, Pow2, CopyBack;
    AtSymbol(s, p, LL, b);
  }

  /** One match is read back. */
  lemma MatchBack(s: seq<bit>, p: nat, len: nat, dist: nat, LL: seq<nat>, DL: seq<nat>, data: seq<byte>)
    requires CodesOk(LL, DL) && Sendable(Match(len, dist), LL, DL, |data|)
    requires At(s, p, LengthBits(len, LL) + DistanceBits(dist, DL))
    ensures Codes(s, p, LL, DL, data, None)
            == Codes(s, p + |LengthBits(len, LL) + DistanceBits(dist, DL)|, LL, DL, CopyBack(data, dist, len), None)
  {
    hide At, Kraft, Codeword, LowBits, ReadSymbol, ReadMatch, Pow2, LenSym, DistSym, LENS, LEXT, CopyBack, DistanceBits;
    LengthFits(len);
    TableSizes();
    var c, e := Codeword(LL, 257 + LenSym(len)), LowBits(len - LENS[LenSym(len)], LEXT[LenSym(len)]);
    var d := DistanceBits(dist, DL);
    assert (c + e) + d == c + (e + d);
    AtSplit(s, p, c, e + d);
    AtSymbol(s, p, LL, 257 + LenSym(len));
    ReadMatchBack(s, p + |c|, len, dist, DL);
  }

  /** One token is read back. */
  lemma TokenBack(s: seq<bit>, p: nat, t: Token, LL: seq<nat>, DL: seq<nat>, data: seq<byte>)
    requires CodesOk(LL, DL) && Sendable(t, LL, DL, |data|) && At(s, p, TokenBits(t, LL, DL, |data|))
    ensures p + |TokenBits(t, LL, DL, |data|)| <= |s|
    ensures Codes(s, p, LL, DL, data, None) == Codes(s, p + |TokenBits(t, LL, DL, |data|)|, LL, DL, Put(t, data), None)
  {
    hide At, Kraft, Codeword, Codes, Pow2, LenSym, DistSym, CopyBack, DistanceBits, LengthBits;
    AtInside(s, p, TokenBits(t, LL, DL, |data|));
    match t
    case Literal(b) => LiteralBack(s, p, b, LL, DL, data);
    case Match(len, dist) => MatchBack(s, p, len, dist, LL, DL, data);
  }

  lemma AtInside(s: seq<bit>, p: nat, e: seq<bit>)
    requires At(s, p, e)
    ensures p + |e| <= |s|
  {
  }

  /** A compressed block decodes to the expansion of its tokens and ends after its end-of-block symbol. */
  lemma {:induction false} TokensBack(s: seq<bit>, p: nat, ts: seq<Token>, LL: seq<nat>, DL: seq<nat>, data: seq<byte>)
    requires CodesOk(LL, DL) && AllSendable(ts, LL, DL, data) && At(s, p, TokensBits(ts, LL, DL, data))
    ensures Codes(s, p, LL, DL, data, None)
            == Done(p + |TokensBits(ts, LL, DL, data)|, Expand(ts, LL, DL, data))
    decreases |ts|
  {
    hide At, Kraft, Codeword, ReadSymbol, ReadMatch, Pow2, Codes, TokenBits, Put, LenSym, DistSym;
    if ts == [] {
      AtSymbol(s, p, LL, 256);
      EndOfBlock(s, p, LL, DL, data);
    } else {
      var a, b := TokenBits(ts[0], LL, DL, |data|), TokensBits(ts[1..], LL, DL, Put(ts[0], data));
      AtSplit(s, p, a, b);
      TokenBack(s, p, ts[0], LL, DL, data);
      TokensBack(s, p + |a|, ts[1..], LL, DL, Put(ts[0], data));
    }
  }

  lemma EndOfBlock(s: seq<bit>, p: nat, LL: seq<nat>, DL: seq<nat>, data: seq<byte>)
    requires CodesOk(LL, DL) && ReadSymbol(s, p, LL).Symbol? && ReadSymbol(s, p, LL).symbol == 256
    ensures Codes(s, p, LL, DL, data, None) == Done(ReadSymbol(s, p, LL).pos, data)
  {
    hide ReadSymbol, Kraft;
  }

  /** Literals and matches within the bounds of the format. */
  ghost predicate InBounds(ts: seq<Token>, data: seq<byte>) {
    ts != [] ==>
      && (ts[0].Match? ==> 3 <= ts[0].len <= 258 && 1 <= ts[0].dist <= 32768 && ts[0].dist <= |data|)
      && InBounds(ts[1..], Put(ts[0], data))
  }

  lemma FixedAllCoded()
    ensures |FixedLit()| == FIXLCODES && |FixedDist()| == MAXDCODES
    ensures forall x :: 0 <= x < FIXLCODES ==> FixedLit()[x] > 0
    ensures forall x :: 0 <= x < MAXDCODES ==> FixedDist()[x] > 0
  {
  }

  /** The fixed codes can carry every literal and every match of the format. */
  lemma {:induction false} FixedCarriesAll(ts: seq<Token>, data: seq<byte>)
    requires InBounds(ts, data)
    ensures AllSendable(ts, FixedLit(), FixedDist(), data)
    decreases |ts|
  {
    FixedAllCoded();
    hide FixedLit, FixedDist, LenSym, DistSym, CopyBack;
    if ts != [] {
      FixedCarriesAll(ts[1..], Put(ts[0], data));
    }
  }

  // ----- descriptions of dynamic codes -----

  /** One step of the run-length coded list of code lengths. */
  datatype Item = Length(x: nat) | Repeat(n: nat) | Zeros(n: nat)

  /** item can follow the lengths acc in a list of total lengths sent with code CL. */
  ghost predicate ItemOk(item: Item, CL: seq<nat>, acc: seq<nat>, total: nat) {
    && ItemSym(item) < |CL| && CL[ItemSym(item)] > 0
    && match item
       case Length(x) => x <= MAXBITS && |acc| + 1 <= total
       case Repeat(n) => 3 <= n <= 6 && acc != [] && |acc| + n <= total
       case Zeros(n) => 3 <= n <= 138 && |acc| + n <= total
  }

  function ItemSym(item: Item): nat {
    match item
    case Length(x) => x
    case Repeat(n) => 16
    case Zeros(n) => if n <= 10 then 17 else 18
  }

  ghost function Extended(item: Item, acc: seq<nat>): seq<nat>
    requires item.Repeat? ==> acc != []
  {
    match item
    case Length(x) => acc + [x]
    case Repeat(n) => acc + Rep(n, acc[|acc| - 1])
    case Zeros(n) => acc + Rep(n, 0)
  }

  ghost predicate ItemsOk(items: seq<Item>, CL: seq<nat>, acc: seq<nat>, total: nat) {
    if items == [] then |acc| == total
    else |acc| < total && ItemOk(items[0], CL, acc, total) && ItemsOk(items[1..], CL, Extended(items[0], acc), total)
  }

  ghost function ListOf(items: seq<Item>, CL: seq<nat>, acc: seq<nat>, total: nat): seq<nat>
    requires ItemsOk(items, CL, acc, total)
  {
    if items == [] then acc else ListOf(items[1..], CL, Extended(items[0], acc), total)
  }

  ghost function ItemBits(item: Item, CL: seq<nat>, acc: seq<nat>, total: nat): seq<bit>
    requires Lengths(CL) && ItemOk(item, CL, acc, total)
  {
    Codeword(CL, ItemSym(item))
    + if item.Length? then [] else LowBits(item.n - RepeatBase(ItemSym(item)), RepeatBits(ItemSym(item)))
  }

  ghost function ItemsBits(items: seq<Item>, CL: seq<nat>, acc: seq<nat>, total: nat): seq<bit>
    requires Lengths(CL) && ItemsOk(items, CL, acc, total)
  {
    if items == [] then []
    else ItemBits(items[0], CL, acc, total) + ItemsBits(items[1..], CL, Extended(items[0], acc), total)
  }

  lemma ExtraFits(n: nat, sym: nat)
    requires sym == 16 ==> 3 <= n <= 6
    requires sym == 17 ==> 3 <= n <= 10
    requires sym == 18 ==> 11 <= n <= 138
    requires 16 <= sym <= 18
    ensures RepeatBase(sym) <= n && n - RepeatBase(sym) < Pow2(RepeatBits(sym))
  {
    Powers();
    SmallPowers();
  }

  lemma ExtendedLengths(item: Item, CL: seq<nat>, acc: seq<nat>, total: nat)
    requires Lengths(acc) && ItemOk(item, CL, acc, total)
    ensures Lengths(Extended(item, acc)) && |Extended(item, acc)| <= total
  {
  }

  lemma ItemBack(s: seq<bit>, p: nat, item: Item, CL: seq<nat>, acc: seq<nat>, total: nat)
    requires Lengths(CL) && |CL| <= 19 && Kraft(CL) <= Pow2(MAXBITS) && Lengths(acc) && |acc| < total
    requires ItemOk(item, CL, acc, total) && At(s, p, ItemBits(item, CL, acc, total))
    ensures Lengths(Extended(item, acc)) && |Extended(item, acc)| <= total
    ensures ReadLengths(s, p, CL, total, acc)
            == ReadLengths(s, p + |ItemBits(item, CL, acc, total)|, CL, total, Extended(item, acc))
  {
    hide At, Kraft, Codeword, LowBits, ReadSymbol, Pow2, Rep, Value, RepeatBase, RepeatBits, ReadLengths, Lengths;
    ExtendedLengths(item, CL, acc, total);
    var sym := ItemSym(item);
    NextLength(s, p, CL, total, acc);
    if item.Length? {
      assert ItemBits(item, CL, acc, total) == Codeword(CL, sym);
      AtSymbol(s, p, CL, sym);
    } else {
      ExtraFits(item.n, sym);
      var e := LowBits(item.n - RepeatBase(sym), RepeatBits(sym));
      AtSplit(s, p, Codeword(CL, sym), e);
      AtSymbol(s, p, CL, sym);
      AtNumber(s, p + CL[sym], item.n - RepeatBase(sym), RepeatBits(sym));
    }
  }

  lemma {:induction false} ItemsBack(s: seq<bit>, p: nat, items: seq<Item>, CL: seq<nat>, acc: seq<nat>, total: nat)
    requires Lengths(CL) && |CL| <= 19 && Kraft(CL) <= Pow2(MAXBITS) && Lengths(acc)
    requires ItemsOk(items, CL, acc, total) && At(s, p, ItemsBits(items, CL, acc, total)) && |acc| <= total
    ensures ReadLengths(s, p, CL, total, acc)
            == AllLengths(p + |ItemsBits(items, CL, acc, total)|, ListOf(items, CL, acc, total))
    decreases |items|
  {
    hide At, Kraft, ReadSymbol, ItemBits, ItemOk, Extended, Lengths, ReadLengths, Pow2;
    if items == [] {
      AllRead(s, p, CL, total, acc);
    } else {
      ItemKind(items[0], CL, acc, total);
      var a := ItemBits(items[0], CL, acc, total);
      AtSplit(s, p, a, ItemsBits(items[1..], CL, Extended(items[0], acc), total));
      ItemBack(s, p, items[0], CL, acc, total);
      ItemsBack(s, p + |a|, items[1..], CL, Extended(items[0], acc), total);
    }
  }

  lemma ItemKind(item: Item, CL: seq<nat>, acc: seq<nat>, total: nat)
    requires ItemOk(item, CL, acc, total)
    ensures item.Repeat? ==> acc != []
  {
  }

  /** The description of a pair of dynamic codes: counts, code length code and list of lengths. */
  datatype Description = Description(nlen: nat, ndist: nat, ncode: nat, CL: seq<nat>, items: seq<Item>)

  ghost predicate Described(d: Description) {
    && 257 <= d.nlen <= 286 && 1 <= d.ndist <= 30 && 4 <= d.ncode <= 19
    && |d.CL| == 19 && (forall x :: 0 <= x < 19 ==> d.CL[x] < 8 && (RANK[x] >= d.ncode ==> d.CL[x] == 0))
    && Lengths(d.CL) && Kraft(d.CL) == Pow2(MAXBITS)
    && ItemsOk(d.items, d.CL, [], d.nlen + d.ndist)
  }

  ghost function AllOf(d: Description): (r: seq<nat>)
    requires Described(d)
    ensures |r| == d.nlen + d.ndist && Lengths(r)
  {
    ListLengths(d.items, d.CL, [], d.nlen + d.ndist);
    ListOf(d.items, d.CL, [], d.nlen + d.ndist)
  }

  lemma {:induction false} ListLengths(items: seq<Item>, CL: seq<nat>, acc: seq<nat>, total: nat)
    requires ItemsOk(items, CL, acc, total) && Lengths(acc)
    ensures |ListOf(items, CL, acc, total)| == total && Lengths(ListOf(items, CL, acc, total))
    decreases |items|
  {
    hide Rep, Lengths;
    if items != [] {
      ExtendedLengths(items[0], CL, acc, total);
      ListLengths(items[1..], CL, Extended(items[0], acc), total);
    }
  }

  ghost function LitLengths(d: Description): (r: seq<nat>)
    requires Described(d)
    ensures Lengths(r)
  {
    AllOf(d)[..d.nlen]
  }

  ghost function DistLengths(d: Description): (r: seq<nat>)
    requires Described(d)
    ensures Lengths(r) && |r| == d.ndist
  {
    AllOf(d)[d.nlen..]
  }

  /** The codes described have an end-of-block symbol and use their code space as the decoder demands. */
  ghost predicate DescriptionOk(d: Description) {
    Described(d) && LitLengths(d)[256] > 0 && Usable(LitLengths(d)) && Usable(DistLengths(d))
  }

  /** A pair of lists of code lengths that a dynamic block can announce and the decoder accepts. */
  ghost predicate Announceable(L: seq<nat>, D: seq<nat>) {
    && Lengths(L) && Lengths(D) && 257 <= |L| <= 286 && 1 <= |D| <= 30
    && L[256] > 0 && Usable(L) && Usable(D)
  }

  /** A complete code for all 19 symbols of the run-length coded list. */
  function FlatLengths(): (r: seq<nat>)
    ensures |r| == 19 && Lengths(r) && forall x :: 0 <= x < 19 ==> 4 <= r[x] <= 5
  {
    Rep(13, 4) + Rep(6, 5)
  }

  lemma FlatKraft()
    ensures Kraft(FlatLengths()) == Pow2(MAXBITS)
  {
    KraftRep(13, 4);
    KraftRep(6, 5);
    KraftConcat(Rep(13, 4), Rep(6, 5));
    Powers();
    assert Pow2(11) == 2 * Pow2(10);
    hide *;
  }

  /** A list sent without runs. */
  function Plain(A: seq<nat>): seq<Item> {
    seq(|A|, i requires 0 <= i < |A| => Length(A[i]))
  }

  lemma {:induction false} PlainList(A: seq<nat>, acc: seq<nat>)
    requires Lengths(A)
    ensures ItemsOk(Plain(A), FlatLengths(), acc, |acc| + |A|)
    ensures ListOf(Plain(A), FlatLengths(), acc, |acc| + |A|) == acc + A
    decreases |A|
  {
    hide FlatLengths, Rep;
    if A == [] {
      assert acc + A == acc;
    } else {
      PlainList(A[1..], acc + [A[0]]);
      assert Plain(A)[1..] == Plain(A[1..]);
      assert acc + [A[0]] + A[1..] == acc + A;
    }
  }

  ghost predicate Announces(d: Description, L: seq<nat>, D: seq<nat>) {
    DescriptionOk(d) && LitLengths(d) == L && DistLengths(d) == D
  }

  /** The description that sends every length by itself. */
  function PlainDescription(L: seq<nat>, D: seq<nat>): Description {
    Description(|L|, |D|, 19, FlatLengths(), Plain(L + D))
  }

  lemma PlainDescribed(L: seq<nat>, D: seq<nat>)
    requires Announceable(L, D)
    ensures Described(PlainDescription(L, D)) && AllOf(PlainDescription(L, D)) == L + D
  {
    hide Kraft, FlatLengths, Usable, ListOf, ItemsOk;
    FlatKraft();
    PlainList(L + D, []);
    assert [] + (L + D) == L + D;
    RankInvertsOrder();
  }

  lemma ListsDescribed(d: Description, L: seq<nat>, D: seq<nat>)
    requires Described(d) && Lengths(L) && Lengths(D) && AllOf(d) == L + D && d.nlen == |L|
    ensures LitLengths(d) == L && DistLengths(d) == D
  {
    hide Described, AllOf;
    assert (L + D)[..|L|] == L && (L + D)[|L|..] == D;
  }

  /** The pairs of codes that descriptions can give are all pairs that the decoder accepts. */
  lemma DescribedIff(L: seq<nat>, D: seq<nat>)
    ensures Announceable(L, D) ==> Announces(PlainDescription(L, D), L, D)
    ensures Announceable(L, D) <==> exists d :: Announces(d, L, D)
  {
    hide Usable, Kraft, FlatLengths, ListOf, ItemsOk, AllOf, Lengths, LitLengths, DistLengths;
    if Announceable(L, D) {
      PlainDescribed(L, D);
      ListsDescribed(PlainDescription(L, D), L, D);
      hide Described;
    }
    forall d | Announces(d, L, D)
      ensures Announceable(L, D)
    {
      AnnouncedSizes(d, L, D);
    }
  }

  lemma AnnouncedSizes(d: Description, L: seq<nat>, D: seq<nat>)
    requires Announces(d, L, D)
    ensures Announceable(L, D)
  {
    hide Usable, Kraft, ItemsOk, ListOf;
  }

  function CodeLengthBits(CL: seq<nat>, k: nat, ncode: nat): (r: seq<bit>)
    requires |CL| == 19 && k <= ncode <= 19
    ensures |r| == 3 * (ncode - k)
    decreases ncode - k
  {
    if k == ncode then [] else LowBits(CL[ORDER[k]], 3) + CodeLengthBits(CL, k + 1, ncode)
  }

  ghost function HeaderBits(d: Description): seq<bit>
    requires Described(d)
  {
    LowBits(d.nlen - 257, 5) + (LowBits(d.ndist - 1, 5) + (LowBits(d.ncode - 4, 4)
    + (CodeLengthBits(d.CL, 0, d.ncode) + ItemsBits(d.items, d.CL, [], d.nlen + d.ndist))))
  }

  lemma {:induction false} CodeLengthBack(s: seq<bit>, p: nat, CL: seq<nat>, k: nat, ncode: nat)
    requires |CL| == 19 && k <= ncode <= 19 && (forall x :: 0 <= x < 19 ==> CL[x] < 8)
    requires At(s, p + 3 * k, CodeLengthBits(CL, k, ncode))
    ensures p + 3 * ncode <= |s|
    ensures forall i :: k <= i < ncode ==> ORDER[i] < 19 && Value(s[p + 3 * i..p + 3 * i + 3]) == CL[ORDER[i]]
    decreases ncode - k
  {
    hide Value, LowBits, Pow2, At, ORDER, RANK;
    OrderSmall();
    AtInside(s, p + 3 * k, CodeLengthBits(CL, k, ncode));
    if k < ncode {
      var x := CL[ORDER[k]];
      SmallPow();
      AtSplit(s, p + 3 * k, LowBits(x, 3), CodeLengthBits(CL, k + 1, ncode));
      AtNumber(s, p + 3 * k, x, 3);
      CodeLengthBack(s, p, CL, k + 1, ncode);
    }
  }

  lemma OrderSmall()
    ensures |ORDER| == 19 && forall i :: 0 <= i < 19 ==> ORDER[i] < 19
  {
    RankInvertsOrder();
  }

  lemma SmallPow()
    ensures Pow2(3) == 8 && Pow2(4) == 16 && Pow2(5) == 32
  {
    SmallPowers();
  }

  lemma CodeLengthCodeBack(s: seq<bit>, p: nat, d: Description)
    requires Described(d) && At(s, p, CodeLengthBits(d.CL, 0, d.ncode))
    ensures p + 3 * d.ncode <= |s| && CodeLengthLengths(s, p, d.ncode) == d.CL
  {
    hide Value, Kraft, ItemsOk, Lengths, At, CodeLengthLengths, CodeLengthBits;
    CodeLengthBack(s, p, d.CL, 0, d.ncode);
    RestUnsent(d);
    AllTransmitted(d.CL, s, p, d.ncode);
  }

  /** Symbols whose code length is not transmitted have none. */
  lemma RestUnsent(d: Description)
    requires Described(d)
    ensures |ORDER| == 19 && forall k :: 0 <= k < 19 ==> ORDER[k] < 19 && (d.ncode <= k ==> d.CL[ORDER[k]] == 0)
  {
    RankInvertsOrder();
    hide ORDER, RANK, Kraft, ItemsOk, Lengths;
    assert forall k :: d.ncode <= k < 19 ==> RANK[ORDER[k]] == k;
  }

  /** A dynamic block decodes to the expansion of its tokens. */
  lemma DynamicBack(s: seq<bit>, p: nat, d: Description, ts: seq<Token>, data: seq<byte>)
    requires DescriptionOk(d) && AllSendable(ts, LitLengths(d), DistLengths(d), data)
    requires CodesOk(LitLengths(d), DistLengths(d))
    requires At(s, p, HeaderBits(d) + TokensBits(ts, LitLengths(d), DistLengths(d), data))
    ensures Dynamic(s, p, data, None)
            == Done(p + |HeaderBits(d)|
              + |TokensBits(ts, LitLengths(d), DistLengths(d), data)|, Expand(ts, LitLengths(d), DistLengths(d), data))
  {
    hide At, Kraft, ReadLengths, Codes, LowBits, Value, Pow2, CodeLengthLengths, ItemsOk, ItemsBits, CodeLengthBits,
         Usable, TokensBits, Expand, AllSendable, ListOf, RANK;
    var t := TokensBits(ts, LitLengths(d), DistLengths(d), data);
    var c, l := CodeLengthBits(d.CL, 0, d.ncode), ItemsBits(d.items, d.CL, [], d.nlen + d.ndist);
    AtSplit(s, p, HeaderBits(d), t);
    SmallPow();
    var e := LowBits(d.ncode - 4, 4) + (c + l);
    AtSplit(s, p, LowBits(d.nlen - 257, 5), LowBits(d.ndist - 1, 5) + e);
    AtNumber(s, p, d.nlen - 257, 5);
    AtSplit(s, p + 5, LowBits(d.ndist - 1, 5), e);
    AtNumber(s, p + 5, d.ndist - 1, 5);
    AtSplit(s, p + 10, LowBits(d.ncode - 4, 4), c + l);
    AtNumber(s, p + 10, d.ncode - 4, 4);
    AtSplit(s, p + 14, c, l);
    CodeLengthCodeBack(s, p + 14, d);
    var q := p + 14 + 3 * d.ncode;
    ItemsBack(s, q, d.items, d.CL, [], d.nlen + d.ndist);
    TokensBack(s, q + |l|, ts, LitLengths(d), DistLengths(d), data);
  }

  // ----- blocks and streams -----

  /** Blocks as an encoder may choose them; the bits skipped before stored bytes can have any value. */
  datatype EncBlock =
    | StoredBytes(skipped: seq<bit>, bytes: seq<byte>)
    | FixedTokens(ts: seq<Token>)
    | DynamicTokens(d: Description, ts: seq<Token>)

  ghost predicate BlockOk(b: EncBlock, p: nat, data: seq<byte>) {
    match b
    case StoredBytes(skipped, bytes) => |skipped| < 8 && (p + |skipped|) % 8 == 0 && |bytes| < 0x1_0000
    case FixedTokens(ts) => AllSendable(ts, FixedLit(), FixedDist(), data)
    case DynamicTokens(d, ts) => DescriptionOk(d) && AllSendable(ts, LitLengths(d), DistLengths(d), data)
  }

  ghost function Meaning(b: EncBlock, p: nat, data: seq<byte>): seq<byte>
    requires BlockOk(b, p, data)
  {
    match b
    case StoredBytes(skipped, bytes) => data + bytes
    case FixedTokens(ts) => Expand(ts, FixedLit(), FixedDist(), data)
    case DynamicTokens(d, ts) => Expand(ts, LitLengths(d), DistLengths(d), data)
  }

  /** Tokens that a pair of codes can carry make up a dynamic block, whichever codes a decoder accepts are chosen. */
  lemma AnyCodes(L: seq<nat>, D: seq<nat>, ts: seq<Token>, p: nat, data: seq<byte>)
    requires Announceable(L, D) && AllSendable(ts, L, D, data)
    ensures var b := DynamicTokens(PlainDescription(L, D), ts);
            BlockOk(b, p, data) && Meaning(b, p, data) == Expand(ts, L, D, data)
  {
    DescribedIff(L, D);
    hide Described, Usable, Lengths;
  }

  function Kind(b: EncBlock): nat {
    match b
    case StoredBytes(skipped, bytes) => 0
    case FixedTokens(ts) => 1
    case DynamicTokens(d, ts) => 2
  }

  function StoredHeader(n: nat): (r: seq<byte>)
    requires n < 0x1_0000
    ensures |r| == 4
  {
    [n % 0x100, n / 0x100, 0xFF - n % 0x100, 0xFF - n / 0x100]
  }

  lemma FixedCodesOk()
    ensures CodesOk(FixedLit(), FixedDist())
  {
    FixedKraft();
  }

  lemma DynamicCodesOk(d: Description)
    requires DescriptionOk(d)
    ensures CodesOk(LitLengths(d), DistLengths(d))
  {
    hide Kraft, ItemsOk, Pow2;
  }

  /** The bits of a block after its three header bits, which end at p. */
  ghost function BlockBits(b: EncBlock, p: nat, data: seq<byte>): seq<bit>
    requires BlockOk(b, p, data)
  {
    hide CodesOk, FixedLit, FixedDist;
    match b
    case StoredBytes(skipped, bytes) => skipped + BitsOf(StoredHeader(|bytes|) + bytes)
    case FixedTokens(ts) =>
      FixedCodesOk();
      TokensBits(ts, FixedLit(), FixedDist(), data)
    case DynamicTokens(d, ts) =>
      DynamicCodesOk(d);
      HeaderBits(d) + TokensBits(ts, LitLengths(d), DistLengths(d), data)
  }

  /** A non-empty list of blocks, each valid after the output of those before it. */
  ghost predicate StreamOk(bs: seq<EncBlock>, p: nat, data: seq<byte>)
    decreases |bs|
  {
    && bs != [] && BlockOk(bs[0], p + 3, data)
    && (|bs| > 1 ==>
          StreamOk(bs[1..], p + 3 + |BlockBits(bs[0], p + 3, data)|, Meaning(bs[0], p + 3, data)))
  }

  ghost function StreamMeaning(bs: seq<EncBlock>, p: nat, data: seq<byte>): seq<byte>
    requires StreamOk(bs, p, data)
    decreases |bs|
  {
    hide BlockBits, Meaning, BlockOk;
    var d := Meaning(bs[0], p + 3, data);
    if |bs| == 1 then d else StreamMeaning(bs[1..], p + 3 + |BlockBits(bs[0], p + 3, data)|, d)
  }

  ghost function BlockStream(b: EncBlock, last: bool, p: nat, data: seq<byte>): seq<bit>
    requires BlockOk(b, p + 3, data)
  {
    [if last then 1 else 0] + (LowBits(Kind(b), 2) + BlockBits(b, p + 3, data))
  }

  /** The deflate stream from position p on: only the last block is marked as last. */
  ghost function StreamBits(bs: seq<EncBlock>, p: nat, data: seq<byte>): seq<bit>
    requires StreamOk(bs, p, data)
    decreases |bs|
  {
    hide BlockBits, Meaning, BlockOk, BlockStream;
    var b := BlockStream(bs[0], |bs| == 1, p, data);
    if |bs| == 1 then b
    else b + StreamBits(bs[1..], p + 3 + |BlockBits(bs[0], p + 3, data)|, Meaning(bs[0], p + 3, data))
  }

  lemma MiddleSlice(a: seq<bit>, m: seq<bit>, z: seq<bit>, i: nat, n: nat)
    requires |a| == i && |m| == n
    ensures (a + (m + z))[i..i + n] == m
  {
  }

  lemma BytesSplit(inp: seq<byte>, i: nat, n: nat)
    requires i + n <= |inp|
    ensures inp == inp[..i] + (inp[i..i + n] + inp[i + n..])
  {
    assert inp[i..] == inp[i..i + n] + inp[i + n..];
  }

  lemma BitsInside(inp: seq<byte>, i: nat, n: nat, p: nat, m: nat)
    requires i + n <= |inp| && p == 8 * i && m == 8 * n
    ensures BitsOf(inp)[p..p + m] == BitsOf(inp[i..i + n])
  {
    hide *;
    BytesSplit(inp, i, n);
    BitsConcat(inp[..i], inp[i..i + n] + inp[i + n..]);
    BitsConcat(inp[i..i + n], inp[i + n..]);
    assert |inp[..i]| == i && |inp[i..i + n]| == n;
    MiddleSlice(BitsOf(inp[..i]), BitsOf(inp[i..i + n]), BitsOf(inp[i + n..]), p, m);
  }

  lemma AtSlice(s: seq<bit>, p: nat, e: seq<bit>, n: nat, y: seq<bit>)
    requires At(s, p, e) && |e| == n && p + n <= |s| && s[p..p + n] == y
    ensures y == e
  {
  }

  lemma SameBits(x: seq<byte>, y: seq<byte>)
    requires BitsOf(x) == BitsOf(y)
    ensures x == y
  {
    hide *;
    PackOfBits(x);
    PackOfBits(y);
  }

  /** Whole bytes in a stream of bits. */
  lemma BytesAt(inp: seq<byte>, i: nat, x: seq<byte>, n: nat)
    requires |x| == n && i + n <= |inp| && At(BitsOf(inp), 8 * i, BitsOf(x))
    ensures inp[i..i + n] == x
  {
    hide *;
    var p, m := 8 * i, 8 * n;
    BitsInside(inp, i, n, p, m);
    AtSlice(BitsOf(inp), p, BitsOf(x), m, BitsOf(inp[i..i + n]));
    SameBits(inp[i..i + n], x);
  }

  lemma RoomFor(inp: seq<byte>, i: nat, x: seq<byte>)
    requires At(BitsOf(inp), 8 * i, BitsOf(x))
    ensures i + |x| <= |inp|
  {
    hide BitsOf;
  }

  lemma Aligned(p: nat, k: nat)
    requires k < 8 && (p + k) % 8 == 0
    ensures 8 * ((p + 7) / 8) == p + k
  {
  }

  /** A stored block decodes to its bytes, whatever the skipped bits are. */
  lemma StoredBack(inp: seq<byte>, p: nat, skipped: seq<bit>, bytes: seq<byte>, data: seq<byte>)
    requires |skipped| < 8 && (p + |skipped|) % 8 == 0 && |bytes| < 0x1_0000
    requires At(BitsOf(inp), p, skipped + BitsOf(StoredHeader(|bytes|) + bytes))
    ensures Stored(inp, (p + 7) / 8, data, None) == Done(p + |skipped| + 8 * (4 + |bytes|), data + bytes)
  {
    hide At, BitsOf;
    var x, i := StoredHeader(|bytes|) + bytes, (p + 7) / 8;
    Aligned(p, |skipped|);
    AtSplit(BitsOf(inp), p, skipped, BitsOf(x));
    RoomFor(inp, i, x);
    BytesAt(inp, i, x, |x|);
    assert forall k :: 0 <= k < 4 ==> inp[i + k] == x[k] == StoredHeader(|bytes|)[k];
    assert inp[i] == x[0] && inp[i + 1] == x[1] && inp[i + 2] == x[2] && inp[i + 3] == x[3];
    assert inp[i + 4..i + 4 + |bytes|] == x[4..] == bytes;
  }

  lemma BlockBack(inp: seq<byte>, p: nat, b: EncBlock, data: seq<byte>)
    requires BlockOk(b, p, data) && At(BitsOf(inp), p, BlockBits(b, p, data))
    ensures Block(inp, p, Kind(b), data, None) == Done(p + |BlockBits(b, p, data)|, Meaning(b, p, data))
  {
    hide At, BitsOf, Stored, Codes, Dynamic, TokensBits, Expand, HeaderBits, FixedLit, FixedDist, CodesOk, AllSendable,
         DescriptionOk;
    match b
    case StoredBytes(skipped, bytes) =>
      StoredBack(inp, p, skipped, bytes, data);
    case FixedTokens(ts) =>
      FixedCodesOk();
      TokensBack(BitsOf(inp), p, ts, FixedLit(), FixedDist(), data);
    case DynamicTokens(d, ts) =>
      DynamicCodesOk(d);
      DynamicBack(BitsOf(inp), p, d, ts, data);
  }

  /** Reading the three header bits. */
  lemma HeaderBack(s: seq<bit>, p: nat, last: bool, kind: nat, rest: seq<bit>)
    requires kind < 4 && At(s, p, [if last then 1 else 0] + (LowBits(kind, 2) + rest))
    ensures p + 3 <= |s| && (s[p] == 1 <==> last) && Value(s[p + 1..p + 3]) == kind && At(s, p + 3, rest)
  {
    hide LowBits;
    var bit0: seq<bit> := [if last then 1 else 0];
    AtSplit(s, p, bit0, LowBits(kind, 2) + rest);
    AtSplit(s, p + 1, LowBits(kind, 2), rest);
    SmallPowers();
    AtNumber(s, p + 1, kind, 2);
    assert s[p..p + 1][0] == s[p];
  }

  /** Decoding inverts encoding: every stream of blocks decodes to its meaning and ends at its last bit. */
  lemma {:induction false} StreamBack(inp: seq<byte>, p: nat, bs: seq<EncBlock>, data: seq<byte>)
    requires StreamOk(bs, p, data) && At(BitsOf(inp), p, StreamBits(bs, p, data))
    ensures Blocks(inp, p, data, None) == Done(p + |StreamBits(bs, p, data)|, StreamMeaning(bs, p, data))
    decreases |bs|
  {
    hide At, BitsOf, Value, Block, BlockBits, Meaning, BlockOk;
    var s, b := BitsOf(inp), BlockBits(bs[0], p + 3, data);
    if |bs| > 1 {
      AtSplit(s, p, BlockStream(bs[0], false, p, data),
              StreamBits(bs[1..], p + 3 + |b|, Meaning(bs[0], p + 3, data)));
    }
    HeaderBack(s, p, |bs| == 1, Kind(bs[0]), b);
    BlockBack(inp, p + 3, bs[0], data);
    if |bs| > 1 {
      StreamBack(inp, p + 3 + |b|, bs[1..], Meaning(bs[0], p + 3, data));
    }
  }

  // ----- whole files -----

  /** Zero bits up to a whole number of bytes. */
  function Filled(e: seq<bit>): (r: seq<bit>)
    ensures e <= r && |r| < |e| + 8 && |r| % 8 == 0
  {
    var n := (8 - |e| % 8) % 8;
    e + seq(n, i => 0)
  }

  /** The encoded blocks as bytes; the last byte is filled up with zero bits. */
  ghost function Compress(bs: seq<EncBlock>): seq<byte>
    requires StreamOk(bs, 0, [])
  {
    hide *;
    Pack(Filled(StreamBits(bs, 0, [])))
  }

  lemma WholeBytes(n: nat, k: nat)
    requires n <= 8 * k < n + 8
    ensures (n + 7) / 8 == k
  {
  }

  /**
   * puff restores what an encoder expressed and consumes exactly the bytes of its stream, whatever
   * follows them; into a buffer that is too small it reports lack of space.
   */
  lemma RoundTrip(bs: seq<EncBlock>, tail: seq<byte>, cap: Option<nat>)
    requires StreamOk(bs, 0, [])
    ensures var data := StreamMeaning(bs, 0, []);
            var o := Inflated(Compress(bs) + tail, cap);
            if Fits([], |data|, cap) then o.Done? && o.data == data && (o.pos + 7) / 8 == |Compress(bs)|
            else o.NoSpace?
  {
    hide StreamBits, StreamOk, StreamMeaning, BitsOf, Pack, Blocks, Filled;
    var e := StreamBits(bs, 0, []);
    var c := Compress(bs);
    BitsOfPack(Filled(e));
    BitsConcat(c, tail);
    assert At(BitsOf(c + tail), 0, e);
    StreamBack(c + tail, 0, bs, []);
    WholeBytes(|e|, |c|);
    if cap.Some? { ScanPredictsWrite(c + tail, cap.value); }
  }
}
