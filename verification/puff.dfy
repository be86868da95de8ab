/** puff: stored, fixed and dynamic blocks decoded in place into the output buffer. */
module Puff {
  import opened Machine
  import opened BitStream
  import opened Huffman
  import opened Canonical
  import opened Deflate
  import opened Inflate
  import opened Construction

  /** A pair of arrays usable as decoding table of the code with lengths L. */
  ghost predicate Coded(h: Code, L: seq<nat>)
    reads h.count, h.symbol
  {
    Lengths(L) && Kraft(L) <= Pow2(MAXBITS) && IsTable(h.View(), L)
  }

  ghost predicate Apart(s: State, h: Code) {
    s.out as object? != h.count && s.out as object? != h.symbol
  }

  /** The state and the result of a block decoder correspond to outcome o. */
  ghost predicate Ends(s: State, r: Option<int>, o: Outcome)
    reads s, s.out
  {
    && s.OutOk()
    && match o
       case Done(pos, data) => r == Some(0) && s.InOk() && s.Pos() == pos && s.data == data
       case Invalid(code, pos, data) => r == Some(code) && s.data == data && s.incnt == (pos + 7) / 8
       case NoInput => r == None || r == Some(2)
       case NoSpace => r == Some(1)
  }

  // ----- writing -----

  lemma PutOk(out: seq<byte>, data: seq<byte>, orig: seq<byte>, b: byte)
    requires |out| == |orig| && |data| < |orig| && out == data + orig[|data|..]
    ensures out[|data| := b] == (data + [b]) + orig[|data + [b]|..]
  {
  }

  /** The next output byte. */
  method Put(s: State, b: byte)
    requires s.OutOk() && s.out != null && s.outcnt < s.outlen
    modifies s.out, s`outcnt, s`data
    ensures s.OutOk() && s.data == old(s.data) + [b]
  {
    PutOk(s.out[..], s.data, s.orig, b);
    s.out[s.outcnt] := b;
    s.outcnt := s.outcnt + 1;
    s.data := s.data + [b];
  }

  lemma Written(s: State)
    requires s.OutOk()
    ensures s.outcnt == |s.data| && (s.out != null ==> s.outcnt <= s.outlen)
  {
  }

  lemma Scanned(s: State)
    requires s.out == null && s.outcnt == |s.data|
    ensures s.OutOk()
  {
  }

  lemma ByteBack(out: seq<byte>, data: seq<byte>, orig: seq<byte>, dist: nat)
    requires |data| <= |orig| && out == data + orig[|data|..] && 1 <= dist <= |data|
    ensures out[|data| - dist] == data[|data| - dist]
  {
  }

  /** Copies len bytes from dist bytes back, one at a time. */
  method CopyMatch(s: State, dist: nat, len: nat)
    requires s.OutOk() && 1 <= dist <= s.outcnt && Fits(s.data, len, s.Cap())
    modifies s.out, s`outcnt, s`data
    ensures s.OutOk() && s.data == CopyBack(old(s.data), dist, len)
  {
    ghost var all := CopyBack(s.data, dist, len);
    if s.out != null {
      var n := len;
      while n != 0
        invariant 0 <= n <= len && s.OutOk() && dist <= s.outcnt && s.outcnt + n == old(s.outcnt) + len
        invariant all == CopyBack(s.data, dist, n)
        decreases n
      {
        ByteBack(s.out[..], s.data, s.orig, dist);
        Put(s, s.out[s.outcnt - dist]);
        n := n - 1;
      }
    } else {
      s.data := all;
      s.outcnt := s.outcnt + len;
    }
  }

  // ----- stored blocks -----

  lemma Realigned(s: State, i: nat)
    requires s.OutOk() && s.incnt == i <= |s.inp| && s.bitcnt == 0 && s.bitbuf == 0
    ensures s.InOk() && s.Valid() && s.Pos() == 8 * i
  {
  }

  lemma Buffered(s: State)
    requires s.InOk()
    ensures s.incnt <= |s.inp| && s.bitcnt < 8 && 0 <= s.Pos() <= 8 * |s.inp|
    ensures s.incnt == (s.Pos() + 7) / 8
  {
  }

  lemma AlignUp(p: nat, i: nat, b: nat)
    requires p == 8 * i - b && b < 8
    ensures (p + 7) / 8 == i
  {
  }

  /** The copy loop of stored: the next len input bytes become output. */
  method CopyInput(s: State, len: nat)
    requires s.OutOk() && s.incnt + len <= |s.inp| && Fits(s.data, len, s.Cap())
    modifies s.out, s`outcnt, s`data, s`incnt
    ensures s.OutOk() && s.incnt == old(s.incnt) + len
    ensures s.data == old(s.data) + s.inp[old(s.incnt)..old(s.incnt) + len]
  {
    ghost var data, i := s.data, s.incnt;
    ghost var chunk := s.inp[i..i + len];
    if s.out != null {
      var n := len;
      while n != 0
        invariant 0 <= n <= len && s.OutOk() && s.incnt == i + (len - n) && s.outcnt + n == |data| + len
        invariant s.data == data + chunk[..len - n]
        decreases n
      {
        assert chunk[..len - n + 1] == chunk[..len - n] + [s.inp[s.incnt]];
        Put(s, s.inp[s.incnt]);
        s.incnt := s.incnt + 1;
        n := n - 1;
      }
    } else {
      s.outcnt := s.outcnt + len;
      s.data := s.data + chunk;
      s.incnt := s.incnt + len;
    }
  }

  /** The length of a stored block and its complement. */
  method StoredLength(s: State) returns (len: nat, ok: bool)
    requires s.incnt + 4 <= |s.inp|
    modifies s`incnt
    ensures var i := old(s.incnt);
            && len == s.inp[i] as int + 0x100 * s.inp[i + 1] as int
            && (ok <==> s.inp[i + 2] == 0xFF - s.inp[i] && s.inp[i + 3] == 0xFF - s.inp[i + 1])
            && s.incnt == if s.inp[i + 2] != 0xFF - s.inp[i] then i + 3 else i + 4
  {
    len := s.inp[s.incnt];
    s.incnt := s.incnt + 1;
    len := len + s.inp[s.incnt] as int * 0x100;
    s.incnt := s.incnt + 1;
    var first := s.inp[s.incnt];
    s.incnt := s.incnt + 1;
    if first != 0xFF - len % 0x100 {
      return len, false;
    }
    var second := s.inp[s.incnt];
    s.incnt := s.incnt + 1;
    ok := second == 0xFF - len / 0x100;
  }

  method StoredBlock(s: State) returns (r: Option<int>)
    requires s.Valid()
    modifies s, s.out
    ensures Ends(s, r, Stored(s.inp, (old(s.Pos()) + 7) / 8, old(s.data), s.Cap()))
  {
    hide BitsOf, Value, State.OutOk, State.InOk;
    ghost var i, data := s.incnt, s.data;
    Buffered(s);
    Written(s);
    AlignUp(s.Pos(), i, s.bitcnt);
    s.bitbuf := 0;
    s.bitcnt := 0;
    if s.incnt + 4 > |s.inp| {
      return Some(2);
    }
    var len, ok := StoredLength(s);
    if !ok {
      return Some(-2);
    }
    if s.incnt + len > |s.inp| {
      return Some(2);
    }
    if s.out != null && s.outcnt + len > s.outlen {
      return Some(1);
    }
    CopyInput(s, len);
    Realigned(s, i + 4 + len);
    r := Some(0);
  }

  // ----- compressed blocks -----

  /** decode for a code given by its lengths. */
  method ReadSym(s: State, h: Code, ghost L: seq<nat>) returns (r: Option<int>)
    requires s.Valid() && Coded(h, L)
    modifies s`incnt, s`bitbuf, s`bitcnt
    ensures var d := ReadSymbol(BitsOf(s.inp), old(s.Pos()), L);
            && Returned(r, d) && s.OutOk() == old(s.OutOk())
            && (d.Symbol? ==> s.Valid() && s.Pos() == d.pos)
            && (d.BadCode? ==> s.incnt == (d.pos + 7) / 8)
  {
    hide Decode, ReadSymbol, BitsOf, Value, IsTable, Kraft, Lengths, Offset;
    DecodeMeans(BitsOf(s.inp), s.Pos(), h.View(), L);
    r := s.FastDecode(h);
  }

  /** The match after a length symbol: length, distance symbol and distance, or a code to return. */
  method LengthAndDistance(s: State, lsym: nat, distcode: Code, ghost DL: seq<nat>)
    returns (len: nat, dist: nat, err: Option<int>)
    requires s.Valid() && Coded(distcode, DL) && |DL| <= MAXDCODES && lsym < |LENS|
    modifies s`incnt, s`bitbuf, s`bitcnt
    ensures s.OutOk()
    ensures match ReadMatch(BitsOf(s.inp), old(s.Pos()), lsym, DL)
            case Copy(l, d, pos) => err == Some(0) && len == l && dist == d && s.Valid() && s.Pos() == pos
            case BadMatch(pos) => err == Some(-10) && s.incnt == (pos + 7) / 8
            case ShortMatch => err == None
  {
    hide ReadSymbol, BitsOf, Value, Coded, LENS, LEXT, DISTS, DEXT, State.InOk, State.OutOk;
    TableSizes();
    Buffered(s);
    len, dist := 0, 0;
    var extra := s.Bits(LEXT[lsym]);
    if extra.None? {
      return len, dist, None;
    }
    len := LENS[lsym] + extra.value;
    var sym := ReadSym(s, distcode, DL);
    if sym.None? {
      return len, dist, None;
    }
    if sym.value < 0 {
      return len, dist, sym;
    }
    extra := s.Bits(DEXT[sym.value]);
    if extra.None? {
      return len, dist, None;
    }
    dist := DISTS[sym.value] + extra.value;
    err := Some(0);
  }

  /** Why the match that was read cannot be copied. */
  ghost function Refused(m: MatchRead, data: seq<byte>, cap: Option<nat>): Option<Outcome> {
    match m
    case ShortMatch => Some(NoInput)
    case BadMatch(pos) => Some(Invalid(-10, pos, data))
    case Copy(len, dist, pos) =>
      if dist > |data| then Some(Invalid(-11, pos, data))
      else if !Fits(data, len, cap) then Some(NoSpace)
      else None
  }

  /** A length symbol: reads the rest of the match and copies it; stop says that the block ends with result r. */
  method MatchStep(s: State, lsym: nat, distcode: Code, ghost DL: seq<nat>) returns (stop: bool, r: Option<int>)
    requires s.Valid() && Coded(distcode, DL) && |DL| <= MAXDCODES && lsym < |LENS|
    modifies s`incnt, s`bitbuf, s`bitcnt, s`outcnt, s`data, s.out
    ensures var m := ReadMatch(BitsOf(s.inp), old(s.Pos()), lsym, DL);
            match Refused(m, old(s.data), s.Cap())
            case Some(o) => stop && Ends(s, r, o)
            case None => !stop && s.Valid() && s.Pos() == m.pos && s.data == CopyBack(old(s.data), m.dist, m.len)
  {
    hide ReadSymbol, ReadMatch, BitsOf, Value, Coded, CopyBack, State.OutOk, State.InOk, LENS;
    stop := true;
    Written(s);
    var len, dist, err := LengthAndDistance(s, lsym, distcode, DL);
    if err != Some(0) {
      return true, err;
    }
    Buffered(s);
    if dist > s.outcnt {
      return true, Some(-11);
    }
    if s.out != null && s.outcnt + len > s.outlen {
      return true, Some(1);
    }
    CopyMatch(s, dist, len);
    stop, r := false, None;
  }

  method CodesBlock(s: State, lencode: Code, distcode: Code, ghost LL: seq<nat>, ghost DL: seq<nat>)
      returns (r: Option<int>)
    requires s.Valid() && Lengths(LL) && Lengths(DL) && Coded(lencode, LL) && Coded(distcode, DL) && |DL| <= MAXDCODES
    requires Apart(s, lencode) && Apart(s, distcode)
    modifies s, s.out
    ensures Ends(s, r, Codes(BitsOf(s.inp), old(s.Pos()), LL, DL, old(s.data), s.Cap()))
  {
    hide ReadSymbol, ReadMatch, BitsOf, Value, Coded, CopyBack, State.OutOk, State.InOk;
    ghost var b, cap := BitsOf(s.inp), s.Cap();
    Buffered(s);
    ghost var o := Codes(b, s.Pos(), LL, DL, s.data, cap);
    while true
      invariant 0 <= s.Pos() && s.Valid() && Coded(lencode, LL) && Coded(distcode, DL)
      invariant o == Codes(b, s.Pos(), LL, DL, s.data, cap) && s.Pos() <= |b|
      decreases |b| - s.Pos()
    {
      var symbol := ReadSym(s, lencode, LL);
      if symbol.None? || symbol.value < 0 {
        return symbol;
      }
      var x := symbol.value;
      Written(s);
      Buffered(s);
      if x < 256 {
        if s.out != null {
          if s.outcnt == s.outlen {
            return Some(1);
          }
          Put(s, x);
        } else {
          s.outcnt := s.outcnt + 1;
          s.data := s.data + [x];
          Scanned(s);
        }
      } else if x > 256 {
        x := x - 257;
        if x >= 29 {
          return Some(-10);
        }
        var stop, end := MatchStep(s, x, distcode, DL);
        if stop {
          return end;
        }
      } else {
        return Some(0);
      }
    }
  }

  // ----- fixed blocks -----

  /** The tables of the fixed codes, built on first use and kept. */
  class FixedCodes {
    var virgin: bool
    const lencode: Code
    const distcode: Code

    constructor ()
      ensures Valid() && virgin && fresh(lencode.count) && fresh(lencode.symbol) && fresh(distcode.count)
        && fresh(distcode.symbol)
    {
      virgin := true;
      lencode := new Code(FIXLCODES);
      distcode := new Code(MAXDCODES);
    }

    ghost predicate Sizes() {
      && lencode.count.Length == MAXBITS + 1 && lencode.symbol.Length == FIXLCODES
      && distcode.count.Length == MAXBITS + 1 && distcode.symbol.Length == MAXDCODES
      && lencode.count != lencode.symbol && distcode.count != distcode.symbol
      && lencode.count != distcode.count && lencode.count != distcode.symbol
      && lencode.symbol != distcode.count && lencode.symbol != distcode.symbol
    }

    ghost predicate Valid()
      reads this, lencode.count, lencode.symbol, distcode.count, distcode.symbol
    {
      Sizes() && (!virgin ==> Coded(lencode, FixedLit()) && Coded(distcode, FixedDist()))
    }

    /** The part of fixed that runs only once. */
    method Build()
      requires Sizes()
      modifies this, lencode.count, lencode.symbol, distcode.count, distcode.symbol
      ensures Valid() && !virgin
    {
      hide Kraft, IsTable, Pow2;
      var lengths := new nat[FIXLCODES](i => 0);
      FillLengths(lengths);
      FixedKraft();
      assert lengths[0..FIXLCODES] == FixedLit();
      var left := Construct(lencode, lengths, 0, FIXLCODES);
      var symbol := 0;
      while symbol < MAXDCODES
        invariant 0 <= symbol <= MAXDCODES && Coded(lencode, FixedLit())
        invariant forall i :: 0 <= i < symbol ==> lengths[i] == 5
        modifies lengths
      {
        lengths[symbol] := 5;
        symbol := symbol + 1;
      }
      assert lengths[0..MAXDCODES] == FixedDist();
      left := Construct(distcode, lengths, 0, MAXDCODES);
      virgin := false;
    }

    /** Literal/length code lengths of the fixed code. */
    method FillLengths(lengths: array<nat>)
      requires lengths.Length == FIXLCODES
      modifies lengths
      ensures lengths[..] == FixedLit()
    {
      var symbol := 0;
      while symbol < 144
        invariant 0 <= symbol <= 144 && forall i :: 0 <= i < symbol ==> lengths[i] == FixedLit()[i]
      {
        lengths[symbol] := 8;
        symbol := symbol + 1;
      }
      while symbol < 256
        invariant 144 <= symbol <= 256 && forall i :: 0 <= i < symbol ==> lengths[i] == FixedLit()[i]
      {
        lengths[symbol] := 9;
        symbol := symbol + 1;
      }
      while symbol < 280
        invariant 256 <= symbol <= 280 && forall i :: 0 <= i < symbol ==> lengths[i] == FixedLit()[i]
      {
        lengths[symbol] := 7;
        symbol := symbol + 1;
      }
      while symbol < FIXLCODES
        invariant 280 <= symbol <= FIXLCODES && forall i :: 0 <= i < symbol ==> lengths[i] == FixedLit()[i]
      {
        lengths[symbol] := 8;
        symbol := symbol + 1;
      }
    }
  }

  ghost predicate ApartFixed(s: State, f: FixedCodes) {
    Apart(s, f.lencode) && Apart(s, f.distcode)
  }

  method FixedBlock(s: State, f: FixedCodes) returns (r: Option<int>)
    requires s.Valid() && f.Valid() && ApartFixed(s, f)
    modifies s, s.out, f, f.lencode.count, f.lencode.symbol, f.distcode.count, f.distcode.symbol
    ensures f.Valid()
    ensures Ends(s, r, Codes(BitsOf(s.inp), old(s.Pos()), FixedLit(), FixedDist(), old(s.data), s.Cap()))
  {
    hide Codes, BitsOf, Coded, FixedLit, FixedDist, State.OutOk, State.InOk;
    if f.virgin {
      f.Build();
    }
    r := CodesBlock(s, f.lencode, f.distcode, FixedLit(), FixedDist());
  }

  // ----- dynamic blocks -----

  /** The code length code lengths. */
  method ReadCodeLengths(s: State, lengths: array<nat>, ncode: nat) returns (ok: bool)
    requires s.Valid() && lengths.Length >= 19 && 4 <= ncode <= 19 && s.out as object? != lengths
    modifies lengths, s`incnt, s`bitbuf, s`bitcnt
    ensures ok <==> old(s.Pos()) + 3 * ncode <= 8 * |s.inp|
    ensures s.OutOk()
    ensures ok ==> s.Valid() && s.Pos() == old(s.Pos()) + 3 * ncode && 0 <= old(s.Pos())
                   && lengths[..19] == CodeLengthLengths(BitsOf(s.inp), old(s.Pos()), ncode)
  {
    hide BitsOf, Value, State.InOk, State.OutOk, CodeLengthLengths;
    RankInvertsOrder();
    hide ORDER, RANK;
    Buffered(s);
    ghost var b, p := BitsOf(s.inp), s.Pos();
    var index := 0;
    while index < ncode
      invariant 0 <= index <= ncode && s.Valid() && s.Pos() == p + 3 * index <= |b|
      invariant forall k :: 0 <= k < index ==> lengths[ORDER[k]] == Value(b[p + 3 * k..p + 3 * k + 3])
    {
      var three := s.Bits(3);
      if three.None? {
        return false;
      }
      lengths[ORDER[index]] := three.value;
      index := index + 1;
    }
    while index < 19
      invariant ncode <= index <= 19
      invariant forall k :: 0 <= k < ncode ==> lengths[ORDER[k]] == Value(b[p + 3 * k..p + 3 * k + 3])
      invariant forall k :: ncode <= k < index ==> lengths[ORDER[k]] == 0
      modifies lengths
    {
      lengths[ORDER[index]] := 0;
      index := index + 1;
    }
    AllTransmitted(lengths[..19], b, p, ncode);
    ok := true;
  }

  method PutLength(lengths: array<nat>, index: nat, x: nat)
    requires index < lengths.Length
    modifies lengths
    ensures lengths[..index + 1] == old(lengths[..index]) + [x]
  {
    lengths[index] := x;
    assert lengths[..index + 1] == lengths[..index] + [x];
  }

  /** Repeats one length n times from index on. */
  method RepeatLength(lengths: array<nat>, index: nat, n: nat, len: nat)
    requires index + n <= lengths.Length
    modifies lengths
    ensures lengths[..index + n] == old(lengths[..index]) + Rep(n, len)
  {
    var i := index;
    while i < index + n
      invariant index <= i <= index + n && lengths[..index] == old(lengths[..index])
      invariant forall k :: index <= k < i ==> lengths[k] == len
    {
      lengths[i] := len;
      i := i + 1;
    }
  }

  /** How a run-length coded list of lengths was read. */
  ghost predicate ListEnds(s: State, lengths: seq<nat>, err: Option<int>, d: LengthsRead)
    reads s, s.out
  {
    && s.OutOk()
    && match d
       case AllLengths(pos, l) => err == Some(0) && s.InOk() && s.Pos() == pos && l <= lengths
       case BadLengths(code, pos) => err == Some(code) && s.incnt == (pos + 7) / 8
       case ShortLengths => err == None
  }

  /** Why a repeat symbol cannot be carried out. */
  ghost function RepeatRefused(b: seq<bit>, q: nat, x: nat, total: nat, acc: seq<nat>): Option<LengthsRead>
    requires 16 <= x <= 18
  {
    var r := q + RepeatBits(x);
    if x == 16 && acc == [] then Some(BadLengths(-5, q))
    else if r > |b| then Some(ShortLengths)
    else if |acc| + RepeatBase(x) + Value(b[q..r]) > total then Some(BadLengths(-6, r))
    else None
  }

  /** A repeat symbol: one length is written several times; stop says that the list ends with result err. */
  method RepeatStep(s: State, x: nat, lengths: array<nat>, index: nat, total: nat)
      returns (stop: bool, err: Option<int>, i: nat)
    requires s.Valid() && 16 <= x <= 18 && index < total <= lengths.Length && s.out as object? != lengths
    modifies lengths, s`incnt, s`bitbuf, s`bitcnt
    ensures 0 <= old(s.Pos())
    ensures var q, b, acc := old(s.Pos()), BitsOf(s.inp), old(lengths[..index]);
            match RepeatRefused(b, q, x, total, acc)
            case Some(o) => stop && ListEnds(s, lengths[..], err, o)
            case None =>
              !stop && s.Valid() && s.Pos() == q + RepeatBits(x) <= |b|
              && i > index && i == index + RepeatBase(x) + Value(b[q..q + RepeatBits(x)]) <= total
              && lengths[..i] == acc + Rep(i - index, if x == 16 then acc[index - 1] else 0)
  {
    hide BitsOf, Value, State.InOk, State.OutOk, Rep, RepeatBits;
    Buffered(s);
    stop, i := true, index;
    if x == 16 && index == 0 {
      return true, Some(-5), i;
    }
    var len := if x == 16 then lengths[index - 1] else 0;
    var extra := s.Bits(RepeatBits(x));
    if extra.None? {
      return true, None, i;
    }
    Buffered(s);
    var n := RepeatBase(x) + extra.value;
    if index + n > total {
      return true, Some(-6), i;
    }
    RepeatLength(lengths, index, n, len);
    stop, err, i := false, Some(0), index + n;
  }

  lemma NoLengths()
    ensures Lengths([])
  {
  }

  /** The code lengths of the literal/length and distance codes. */
  method ReadLengthList(s: State, h: Code, ghost CL: seq<nat>, lengths: array<nat>, total: nat)
      returns (err: Option<int>)
    requires s.Valid() && Lengths(CL) && Coded(h, CL) && |CL| <= 19 && total <= lengths.Length
    requires s.out as object? != lengths && h.count != lengths && h.symbol != lengths
    modifies lengths, s`incnt, s`bitbuf, s`bitcnt
    ensures 0 <= old(s.Pos()) && ListEnds(s, lengths[..], err, ReadLengths(BitsOf(s.inp), old(s.Pos()), CL, total, []))
  {
    NoLengths();
    hide BitsOf, Value, State.InOk, State.OutOk, ReadSymbol, Coded, ReadLengths, Rep, RepeatBits, RepeatBase, Lengths;
    Buffered(s);
    ghost var b := BitsOf(s.inp);
    ghost var d := ReadLengths(b, s.Pos(), CL, total, []);
    var index := 0;
    assert lengths[..0] == [];
    while index < total
      invariant 0 <= index <= total && 0 <= s.Pos() && s.Valid() && Coded(h, CL)
      invariant Lengths(lengths[..index]) && d == ReadLengths(b, s.Pos(), CL, total, lengths[..index])
    {
      var acc: seq<nat> := lengths[..index];
      NextLength(b, s.Pos(), CL, total, acc);
      var symbol := ReadSym(s, h, CL);
      if symbol.None? || symbol.value < 0 {
        return symbol;
      }
      Buffered(s);
      var x := symbol.value;
      if x < 16 {
        PutLength(lengths, index, x);
        index := index + 1;
      } else {
        var stop, end, i := RepeatStep(s, x, lengths, index, total);
        if stop {
          return end;
        }
        index := i;
      }
    }
    AllRead(b, s.Pos(), CL, total, lengths[..index]);
    err := Some(0);
  }

  /** What the result of construct says about the use of the code. */
  lemma UsableIff(L: seq<nat>, err: int)
    requires Lengths(L) && |L| > 0
    requires (err < 0 <==> Kraft(L) > Pow2(MAXBITS)) && (err > 0 <==> 0 < Kraft(L) < Pow2(MAXBITS))
    ensures Usable(L) <==> !(err != 0 && (err < 0 || |L| != Counts(L)[0] + Counts(L)[1]))
  {
    hide Kraft, Pow2;
  }

  lemma UsableBound(L: seq<nat>, err: int)
    requires Lengths(L) && (err < 0 <==> Kraft(L) > Pow2(MAXBITS))
    ensures err >= 0 <==> Kraft(L) <= Pow2(MAXBITS)
  {
  }

  /** construct, with its verdict on the code put in terms of the code lengths. */
  method ConstructUsable(h: Code, lengths: array<nat>, start: nat, n: nat) returns (usable: bool)
    requires start + n <= lengths.Length && 0 < n && Lengths(lengths[start..start + n])
    requires h.count.Length == MAXBITS + 1 && n <= h.symbol.Length
    requires lengths != h.count && lengths != h.symbol && h.count != h.symbol
    modifies h.count, h.symbol
    ensures usable <==> Usable(lengths[start..start + n])
    ensures usable ==> Coded(h, lengths[start..start + n])
  {
    hide Kraft, Pow2, IsTable, Usable, Counts;
    ghost var L := lengths[start..start + n];
    var err := Construct(h, lengths, start, n);
    UsableIff(L, err);
    UsableBound(L, err);
    usable := !(err != 0 && (err < 0 || n != h.count[0] + h.count[1]));
  }

  lemma HeaderBounds(b: seq<bit>, p: nat)
    requires p + 14 <= |b|
    ensures Value(b[p + 10..p + 14]) + 4 <= 19
  {
    SmallPowers();
  }

  method DynamicBlock(s: State) returns (r: Option<int>)
    requires s.Valid()
    modifies s, s.out
    ensures Ends(s, r, Dynamic(BitsOf(s.inp), old(s.Pos()), old(s.data), s.Cap()))
  {
    hide BitsOf, Value, State.InOk, State.OutOk, DynamicCodes;
    Buffered(s);
    var nlen := s.Bits(5);
    if nlen.None? {
      return None;
    }
    var ndist := s.Bits(5);
    if ndist.None? {
      return None;
    }
    var ncode := s.Bits(4);
    if ncode.None? {
      return None;
    }
    HeaderBounds(BitsOf(s.inp), old(s.Pos()));
    Buffered(s);
    if nlen.value + 257 > MAXLCODES || ndist.value + 1 > MAXDCODES {
      return Some(-3);
    }
    r := DescribedCodes(s, nlen.value + 257, ndist.value + 1, ncode.value + 4);
  }

  /** The code length code, which must be complete or empty. */
  method CodeLengthCode(s: State, h: Code, lengths: array<nat>, ncode: nat) returns (r: Option<int>)
    requires s.Valid() && lengths.Length >= 19 && 4 <= ncode <= 19 && Apart(s, h) && s.out as object? != lengths
    requires h.count.Length == MAXBITS + 1 && 19 <= h.symbol.Length
    requires lengths != h.count && lengths != h.symbol && h.count != h.symbol
    modifies lengths, h.count, h.symbol, s`incnt, s`bitbuf, s`bitcnt
    ensures s.OutOk() && 0 <= old(s.Pos())
    ensures var p, q := old(s.Pos()), old(s.Pos()) + 3 * ncode;
            if q > 8 * |s.inp| then r == None
            else
              var CL := CodeLengthLengths(BitsOf(s.inp), p, ncode);
              if Kraft(CL) != Pow2(MAXBITS) && Kraft(CL) != 0 then r == Some(-4) && s.incnt == (q + 7) / 8
              else r == Some(0) && s.Valid() && s.Pos() == q && Coded(h, CL)
  {
    hide BitsOf, Value, State.InOk, State.OutOk, CodeLengthLengths, Coded, Kraft, Pow2;
    Buffered(s);
    ghost var b, p := BitsOf(s.inp), s.Pos();
    var ok := ReadCodeLengths(s, lengths, ncode);
    if !ok {
      return None;
    }
    ghost var CL := CodeLengthLengths(b, p, ncode);
    Buffered(s);
    assert lengths[0..19] == CL;
    var err := Construct(h, lengths, 0, 19);
    if err != 0 {
      return Some(-4);
    }
    UsableBound(CL, err);
    Codes19(h, CL);
    r := Some(0);
  }

  /** dynamic after its three counts. */
  method DescribedCodes(s: State, nlen: nat, ndist: nat, ncode: nat) returns (r: Option<int>)
    requires s.Valid() && 257 <= nlen <= MAXLCODES && 1 <= ndist <= MAXDCODES && 4 <= ncode <= 19
    modifies s, s.out
    ensures 0 <= old(s.Pos())
    ensures Ends(s, r, DynamicCodes(BitsOf(s.inp), old(s.Pos()), nlen, ndist, ncode, old(s.data), s.Cap()))
  {
    hide BitsOf, Value, State.InOk, State.OutOk, DescribedBlock, ReadLengths, CodeLengthLengths, Coded, Kraft, Pow2;
    Buffered(s);
    ghost var b, p := BitsOf(s.inp), s.Pos();
    var lengths := new nat[MAXLCODES + MAXDCODES](i => 0);
    var lencode := new Code(MAXLCODES);
    var got := CodeLengthCode(s, lencode, lengths, ncode);
    if got != Some(0) {
      return got;
    }
    ghost var CL := CodeLengthLengths(b, p, ncode);
    got := ReadLengthList(s, lencode, CL, lengths, nlen + ndist);
    if got != Some(0) {
      return got;
    }
    ghost var list := ReadLengths(b, p + 3 * ncode, CL, nlen + ndist, []);
    r := BlockAfterLengths(s, lencode, lengths, nlen, ndist, list.lengths);
  }

  lemma Codes19(h: Code, CL: seq<nat>)
    requires Lengths(CL) && Kraft(CL) <= Pow2(MAXBITS) && IsTable(h.View(), CL)
    ensures Coded(h, CL)
  {
  }

  lemma Splits(l: seq<nat>, a: seq<nat>, nlen: nat, ndist: nat)
    requires a <= l && |a| == nlen + ndist && Lengths(a) && nlen > 256
    ensures l[256] == a[256] && l[0..nlen] == a[..nlen] && l[nlen..nlen + ndist] == a[nlen..]
    ensures Lengths(a[..nlen]) && Lengths(a[nlen..])
  {
  }

  /** dynamic after the code lengths have been read. */
  method BlockAfterLengths(s: State, lencode: Code, lengths: array<nat>, nlen: nat, ndist: nat, ghost list: seq<nat>)
    returns (r: Option<int>)
    requires s.Valid() && 257 <= nlen <= MAXLCODES && 1 <= ndist <= MAXDCODES
    requires lengths.Length == MAXLCODES + MAXDCODES && list <= lengths[..] && |list| == nlen + ndist && Lengths(list)
    requires lencode.count.Length == MAXBITS + 1 && lencode.symbol.Length == MAXLCODES && Apart(s, lencode)
    requires lengths != lencode.count && lengths != lencode.symbol && lencode.count != lencode.symbol
    modifies s, s.out, lencode.count, lencode.symbol
    ensures 0 <= old(s.Pos())
    ensures Ends(s, r, DescribedBlock(BitsOf(s.inp), old(s.Pos()), list, nlen, old(s.data), s.Cap()))
  {
    hide BitsOf, Value, State.InOk, State.OutOk, Codes, Usable, Coded;
    Buffered(s);
    Splits(lengths[..], list, nlen, ndist);
    var distcode := new Code(MAXDCODES);
    if lengths[256] == 0 {
      return Some(-9);
    }
    var ok := ConstructUsable(lencode, lengths, 0, nlen);
    if !ok {
      return Some(-7);
    }
    ok := ConstructUsable(distcode, lengths, nlen, ndist);
    if !ok {
      return Some(-8);
    }
    r := CodesBlock(s, lencode, distcode, list[..nlen], list[nlen..]);
  }

  // ----- puff -----

  /** One block of the given type; type 3 is invalid. */
  method DecodeBlock(s: State, kind: nat, f: FixedCodes) returns (r: Option<int>)
    requires s.Valid() && f.Valid() && ApartFixed(s, f)
    modifies s, s.out, f, f.lencode.count, f.lencode.symbol, f.distcode.count, f.distcode.symbol
    ensures f.Valid() && 0 <= old(s.Pos())
    ensures Ends(s, r, Block(s.inp, old(s.Pos()), kind, old(s.data), s.Cap()))
  {
    hide BitsOf, Value, State.InOk, State.OutOk, Stored, Codes, Dynamic, FixedLit, FixedDist, Coded;
    Buffered(s);
    if kind == 0 {
      r := StoredBlock(s);
    } else if kind == 1 {
      r := FixedBlock(s, f);
    } else if kind == 2 {
      r := DynamicBlock(s);
    } else {
      r := Some(-1);
    }
  }

  /** The block loop of puff; running out of input anywhere gives 2. */
  method DecodeBlocks(s: State, f: FixedCodes) returns (r: Option<int>)
    requires s.Valid() && f.Valid() && ApartFixed(s, f)
    modifies s, s.out, f, f.lencode.count, f.lencode.symbol, f.distcode.count, f.distcode.symbol
    ensures f.Valid() && 0 <= old(s.Pos())
    ensures Ends(s, r, Blocks(s.inp, old(s.Pos()), old(s.data), s.Cap()))
  {
    hide BitsOf, Value, State.InOk, State.OutOk, Block, FixedCodes.Valid;
    Buffered(s);
    ghost var b, cap := BitsOf(s.inp), s.Cap();
    ghost var o := Blocks(s.inp, s.Pos(), s.data, cap);
    while true
      invariant 0 <= s.Pos() && s.Valid() && f.Valid()
      invariant o == Blocks(s.inp, s.Pos(), s.data, cap)
      decreases 8 * |s.inp| - s.Pos()
    {
      ghost var p := s.Pos();
      var lastBit := s.Bits(1);
      if lastBit.None? {
        return None;
      }
      OneBit(b, p);
      var kind := s.Bits(2);
      if kind.None? {
        return None;
      }
      r := DecodeBlock(s, kind.value, f);
      if r != Some(0) || lastBit.value == 1 {
        return;
      }
      Buffered(s);
    }
  }

  /** What puff returns for an outcome. */
  function ReturnCode(o: Outcome): int {
    match o
    case Done(pos, data) => 0
    case Invalid(code, pos, data) => code
    case NoInput => 2
    case NoSpace => 1
  }

  lemma Unwritten(out: seq<byte>, data: seq<byte>, orig: seq<byte>, n: nat)
    requires |data| <= n <= |orig| && out == data + orig[|data|..]
    ensures out[n..] == orig[n..]
  {
  }

  /**
   * puff: decompresses source into dest, or only measures it when dest is null. The lengths are updated
   * unless input or output space ran out.
   */
  method Decompress(dest: array?<byte>, destlen: nat, source: seq<byte>, f: FixedCodes)
    returns (err: int, newdestlen: nat, newsourcelen: nat)
    requires dest != null ==> destlen <= dest.Length
    requires f.Valid()
    requires dest as object? != f.lencode.count && dest as object? != f.lencode.symbol
    requires dest as object? != f.distcode.count && dest as object? != f.distcode.symbol
    modifies dest, f, f.lencode.count, f.lencode.symbol, f.distcode.count, f.distcode.symbol
    ensures f.Valid()
    ensures var o := Inflated(source, if dest == null then None else Some(destlen));
            && err == ReturnCode(o)
            && (o.Done? || o.Invalid? ==>
                  && newdestlen == |o.data| && newsourcelen == (o.pos + 7) / 8
                  && (dest != null ==> |o.data| <= destlen && dest[..] == o.data + old(dest[..])[|o.data|..]))
            && (o.NoInput? || o.NoSpace? ==>
                  && newdestlen == destlen && newsourcelen == |source|
                  && (dest != null ==> dest[destlen..] == old(dest[destlen..])))
  {
    hide BitsOf, Value, State.InOk, Blocks, FixedCodes.Valid;
    var s := new State(source, dest, destlen);
    var r := DecodeBlocks(s, f);
    err := if r.None? then 2 else r.value;
    newdestlen, newsourcelen := destlen, |source|;
    if err <= 0 {
      newdestlen := s.outcnt;
      newsourcelen := s.incnt;
    }
    if s.InOk() { Buffered(s); }
    if dest != null { Unwritten(dest[..], s.data, s.orig, destlen); }
  }
}
