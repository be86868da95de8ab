/** The table-driven CRC-32 and the division it stands for. */
module Crc32 {
  type octet = bv8
  type word = bv32

  /** The polynomial without x^32, coefficient of x^0 in the highest bit. */
  const POLY: word := 0xEDB8_8320

  // ----- one bit at a time -----

  /** One step of polynomial division: the next message bit enters, and the register is multiplied by x. */
  function Shift(reg: word, b: bool): word {
    if ((reg & 1) == 1) != b then (reg >> 1) ^ POLY else reg >> 1
  }

  function Divide(reg: word, bits: seq<bool>): word
    decreases |bits|
  {
    if bits == [] then reg else Divide(Shift(reg, bits[0]), bits[1..])
  }

  /** The bits of a byte, least significant first. */
  function OctetBits(b: octet): (r: seq<bool>)
    ensures |r| == 8
  {
    [b & 1 == 1, b & 2 == 2, b & 4 == 4, b & 8 == 8, b & 0x10 == 0x10, b & 0x20 == 0x20, b & 0x40 == 0x40,
      b & 0x80 == 0x80]
  }

  function MessageBits(s: seq<octet>): seq<bool> {
    if s == [] then [] else OctetBits(s[0]) + MessageBits(s[1..])
  }

  function Xor(x: word, y: word): word {
    x ^ y
  }

  function Inverted(x: word): word {
    x ^ 0xFFFF_FFFF
  }

  /** The CRC of section 8 of RFC 1952, continued from an earlier value. */
  function Crc(crc: word, s: seq<octet>): word {
    Inverted(Divide(Inverted(crc), MessageBits(s)))
  }

  // ----- laws of the division -----

  lemma {:induction false} DivideConcat(reg: word, a: seq<bool>, b: seq<bool>)
    ensures Divide(reg, a + b) == Divide(Divide(reg, a), b)
    decreases |a|
  {
    if a == [] {
      assert a + b == b;
    } else {
      assert (a + b)[1..] == a[1..] + b;
      DivideConcat(Shift(reg, a[0]), a[1..], b);
    }
  }

  lemma {:induction false} MessageConcat(s: seq<octet>, t: seq<octet>)
    ensures MessageBits(s + t) == MessageBits(s) + MessageBits(t)
  {
    if s == [] {
      assert s + t == t;
    } else {
      assert (s + t)[1..] == s[1..] + t;
      MessageConcat(s[1..], t);
    }
  }

  lemma Twice(x: word)
    ensures Inverted(Inverted(x)) == x
  {
  }

  /** A CRC can be computed piece by piece. */
  lemma CrcConcat(crc: word, a: seq<octet>, b: seq<octet>)
    ensures Crc(Crc(crc, a), b) == Crc(crc, a + b)
  {
    hide Inverted, Divide, MessageBits;
    var reg := Inverted(crc);
    Twice(Divide(reg, MessageBits(a)));
    MessageConcat(a, b);
    DivideConcat(reg, MessageBits(a), MessageBits(b));
  }

  // ----- eight bits at a time -----

  function Zero(c: word): word {
    if c & 1 == 1 then POLY ^ (c >> 1) else c >> 1
  }

  /** What the register becomes when k zero bits enter. */
  function Zeros(c: word, k: nat): word
    decreases k
  {
    if k == 0 then c else Zeros(Zero(c), k - 1)
  }

  lemma ShiftXor(x: word, y: word)
    ensures (x ^ y) >> 1 == (x >> 1) ^ (y >> 1)
  {
  }

  lemma LowXor(x: word, y: word)
    ensures (x ^ y) & 1 == (x & 1) ^ (y & 1)
    ensures x & 1 == 0 || x & 1 == 1
  {
  }

  lemma XorCancel(p: word, a: word, b: word)
    ensures (p ^ a) ^ (p ^ b) == a ^ b
    ensures (p ^ a) ^ b == p ^ (a ^ b)
    ensures a ^ (p ^ b) == p ^ (a ^ b)
  {
  }

  lemma ZeroXor(x: word, y: word)
    ensures Zero(x ^ y) == Zero(x) ^ Zero(y)
  {
    ShiftXor(x, y);
    LowXor(x, y);
    LowXor(y, x);
    XorCancel(POLY, x >> 1, y >> 1);
  }

  lemma ZeroLinear(x: word, y: word)
    ensures Zero(Xor(x, y)) == Xor(Zero(x), Zero(y))
  {
    hide Zero;
    ZeroXor(x, y);
  }

  lemma {:induction false} ZerosLinear(x: word, y: word, k: nat)
    ensures Zeros(Xor(x, y), k) == Xor(Zeros(x, k), Zeros(y, k))
    decreases k
  {
    hide Zero, Xor;
    if k > 0 {
      ZeroLinear(x, y);
      ZerosLinear(Zero(x), Zero(y), k - 1);
    }
  }

  /** Entering a bit is entering a zero after adding the bit to the register. */
  lemma ShiftIsZero(reg: word, b: bool)
    ensures Shift(reg, b) == Zero(Xor(reg, if b then 1 else 0))
  {
    ShiftParts(reg, b);
    ZeroParts(Xor(reg, if b then 1 else 0));
    LowFlips(reg);
    XorNothing(reg);
    hide *;
  }

  lemma ShiftParts(reg: word, b: bool)
    ensures Shift(reg, b) == if (Low(reg) == 1) != b then Xor(POLY, Half(reg)) else Half(reg)
  {
    XorCommutes(POLY, Half(reg));
  }

  lemma ZeroParts(c: word)
    ensures Zero(c) == if Low(c) == 1 then Xor(POLY, Half(c)) else Half(c)
  {
  }

  function Low(u: word): word {
    u & 1
  }

  function Half(u: word): word {
    u >> 1
  }

  function Double(u: word): word {
    u << 1
  }

  lemma LowFlips(reg: word)
    ensures Half(Xor(reg, 1)) == Half(reg) && (Low(Xor(reg, 1)) == 1 <==> Low(reg) != 1)
  {
  }

  lemma XorNothing(reg: word)
    ensures Xor(reg, 0) == reg
  {
  }

  lemma XorCommutes(x: word, y: word)
    ensures x ^ y == y ^ x
  {
  }

  // ----- a byte at a time -----

  function ByteWord(b: octet): word {
    b as word
  }

  function Bit(b: octet, k: nat): bool
    requires k < 8
  {
    OctetBits(b)[k]
  }

  /** The bits of b from bit k on, as they stand in the register while they enter. */
  function Upper(b: octet, k: nat): word
    requires k <= 8
  {
    if k == 8 then 0 else if k == 0 then ByteWord(b) else if k == 1 then ByteWord(b) >> 1 else if k ==
      2 then ByteWord(b) >> 2
    else if k == 3 then ByteWord(b) >> 3 else if k == 4 then ByteWord(b) >> 4 else if k == 5 then ByteWord(b) >> 5
    else if k == 6 then ByteWord(b) >> 6 else ByteWord(b) >> 7
  }

  lemma UpperLow(b: octet, k: nat)
    requires k < 8
    ensures Low(Upper(b, k)) == (if Bit(b, k) then 1 else 0)
  {
  }

  lemma UpperShift(b: octet, k: nat)
    requires k < 8
    ensures Half(Upper(b, k)) == Upper(b, k + 1)
  {
  }

  lemma LowAndRest(u: word)
    ensures u == Xor(Low(u), Double(Half(u)))
    ensures Half(Double(Half(u))) == Half(u) && Low(Double(Half(u))) == 0
  {
  }

  lemma XorAssociates(a: word, b: word, c: word)
    ensures Xor(a, Xor(b, c)) == Xor(Xor(a, b), c) && Xor(a, 0) == a && Xor(a, b) == Xor(b, a)
  {
  }

  lemma ZeroOfDouble(v: word)
    requires Half(Double(v)) == v && Low(Double(v)) == 0
    ensures Zero(Double(v)) == v
  {
    hide Double;
  }

  /** Only the lowest bit takes part in the step; the rest moves down beside it. */
  lemma ZeroOfSum(reg: word, u: word)
    ensures Zero(Xor(reg, u)) == Xor(Zero(Xor(reg, Low(u))), Half(u))
  {
    LowAndRest(u);
    hide *;
    ZeroOfDouble(Half(u));
    XorAssociates(reg, Low(u), Double(Half(u)));
    ZeroLinear(Xor(reg, Low(u)), Double(Half(u)));
  }

  /** While a byte enters, the register holds what is left of the byte beside the true register. */
  lemma UpperStep(reg: word, b: octet, k: nat)
    requires k < 8
    ensures Zero(Xor(reg, Upper(b, k))) == Xor(Shift(reg, Bit(b, k)), Upper(b, k + 1))
  {
    hide *;
    UpperLow(b, k);
    UpperShift(b, k);
    ShiftIsZero(reg, Bit(b, k));
    ZeroOfSum(reg, Upper(b, k));
  }

  /** The register after the first k bits of a byte. */
  lemma {:induction false} FirstBits(reg: word, b: octet, k: nat)
    requires k <= 8
    ensures Zeros(Xor(reg, ByteWord(b)), k) == Xor(Divide(reg, OctetBits(b)[..k]), Upper(b, k))
  {
    hide *;
    if k == 0 {
      NoBits(reg, b);
    } else {
      FirstBits(reg, b, k - 1);
      ZerosLast(Xor(reg, ByteWord(b)), k - 1);
      DivideLast(reg, OctetBits(b)[..k - 1], Bit(b, k - 1));
      PrefixBit(b, k);
      UpperStep(Divide(reg, OctetBits(b)[..k - 1]), b, k - 1);
    }
  }

  lemma NoBits(reg: word, b: octet)
    ensures Zeros(Xor(reg, ByteWord(b)), 0) == Xor(Divide(reg, OctetBits(b)[..0]), Upper(b, 0))
  {
    hide OctetBits, Xor, ByteWord;
  }

  lemma PrefixBit(b: octet, k: nat)
    requires 0 < k <= 8
    ensures OctetBits(b)[..k] == OctetBits(b)[..k - 1] + [Bit(b, k - 1)]
  {
    hide OctetBits;
  }

  lemma {:induction false} ZerosLast(c: word, k: nat)
    ensures Zeros(c, k + 1) == Zero(Zeros(c, k))
    decreases k
  {
    hide Zero;
    if k > 0 { ZerosLast(Zero(c), k - 1); }
  }

  lemma DivideLast(reg: word, a: seq<bool>, b: bool)
    ensures Divide(reg, a + [b]) == Shift(Divide(reg, a), b)
  {
    hide Shift;
    DivideConcat(reg, a, [b]);
  }

  /** A byte enters as eight zero bits after it was added to the register. */
  lemma ByteEnters(reg: word, b: octet)
    ensures Divide(reg, OctetBits(b)) == Zeros(Xor(reg, ByteWord(b)), 8)
  {
    FirstBits(reg, b, 8);
    assert OctetBits(b)[..8] == OctetBits(b);
    assert Upper(b, 8) == 0;
    hide *;
    XorAssociates(Divide(reg, OctetBits(b)), 0, 0);
  }

  // ----- the table -----

  lemma EvenMoves(x: word, k: nat)
    requires k > 0 && Low(x) == 0
    ensures Zeros(x, k) == Zeros(Half(x), k - 1)
  {
    ZeroParts(x);
    hide Zero, Low, Half;
  }

  /** The low bits that enter while the high part moves down. */
  lemma HighLow(h: word)
    requires h & 0xFF == 0
    ensures Low(h) == 0 && Low(Half(h)) == 0 && Low(Half(Half(h))) == 0 && Low(Half(Half(Half(h)))) == 0
    ensures var q := Half(Half(Half(Half(h))));
      Low(q) == 0 && Low(Half(q)) == 0 && Low(Half(Half(q))) == 0 && Low(Half(Half(Half(q)))) == 0
      && Half(Half(Half(Half(q)))) == h >> 8
  {
  }

  /** High bits only move down. */
  lemma HighPart(c: word)
    ensures Zeros(c & 0xFFFF_FF00, 8) == c >> 8
  {
    var h := c & 0xFFFF_FF00;
    HighOnly(c);
    HighLow(h);
    hide *;
    EvenMoves(h, 8);
    EvenMoves(Half(h), 7);
    EvenMoves(Half(Half(h)), 6);
    EvenMoves(Half(Half(Half(h))), 5);
    var q := Half(Half(Half(Half(h))));
    EvenMoves(q, 4);
    EvenMoves(Half(q), 3);
    EvenMoves(Half(Half(q)), 2);
    EvenMoves(Half(Half(Half(q))), 1);
    NoZeros(Half(Half(Half(Half(q)))));
  }

  lemma HighOnly(c: word)
    ensures (c & 0xFFFF_FF00) & 0xFF == 0 && (c & 0xFFFF_FF00) >> 8 == c >> 8
  {
  }

  lemma NoZeros(c: word)
    ensures Zeros(c, 0) == c
  {
  }

  function Index(c: word): nat {
    ((c & 0xFF) as octet) as int
  }

  /** Entry n holds the CRC register of byte n. */
  ghost predicate TableOk(tab: seq<word>) {
    |tab| >= 256 && forall n: octet :: tab[n as int] == Zeros(ByteWord(n), 8)
  }

  lemma LowByte(c: word)
    ensures Index(c) < 256 && ByteWord((c & 0xFF) as octet) == c & 0xFF
    ensures c == Xor(c & 0xFF, c & 0xFFFF_FF00)
  {
  }

  lemma ByteShiftsOut(reg: word, b: octet)
    ensures Xor(reg, ByteWord(b)) >> 8 == reg >> 8
  {
  }

  /** One step of the byte-wise computation. */
  function Do1(tab: seq<word>, crc: word, b: octet): word
    requires |tab| >= 256
  {
    LowByte(Xor(crc, ByteWord(b)));
    tab[Index(Xor(crc, ByteWord(b)))] ^ (crc >> 8)
  }

  lemma EntryAt(tab: seq<word>, c: word)
    requires TableOk(tab)
    ensures Index(c) < |tab| && tab[Index(c)] == Zeros(c & 0xFF, 8)
  {
    hide Zeros;
    LowByte(c);
    assert tab[((c & 0xFF) as octet) as int] == Zeros(ByteWord((c & 0xFF) as octet), 8);
  }

  lemma Do1Is(tab: seq<word>, crc: word, b: octet)
    requires |tab| >= 256
    ensures Index(Xor(crc, ByteWord(b))) < |tab| && Do1(tab, crc, b) == Xor(tab[Index(Xor(crc, ByteWord(b)))], crc >> 8)
  {
    LowByte(Xor(crc, ByteWord(b)));
  }

  lemma TableStep(tab: seq<word>, crc: word, b: octet)
    requires TableOk(tab)
    ensures |tab| >= 256 && Do1(tab, crc, b) == Divide(crc, OctetBits(b))
  {
    var c := Xor(crc, ByteWord(b));
    EntryAt(tab, c);
    ByteShiftsOut(crc, b);
    HighPart(c);
    Do1Is(tab, crc, b);
    hide *;
    ByteEnters(crc, b);
    LowByte(c);
    ZerosLinear(c & 0xFF, c & 0xFFFF_FF00, 8);
  }

  // ----- make_crc_table -----

  const TERMS: seq<nat> := [0, 1, 2, 4, 5, 7, 8, 10, 11, 12, 16, 22, 23, 26]

  /** The register bit that stands for x^t: one shifted left by 31 - t. */
  function Term(t: nat): word
    requires t < 32
  {
    1 << (31 - t)
  }

  function Pattern(n: nat): word
    requires n <= |TERMS|
  {
    if n == 0 then 0 else Pattern(n - 1) | Term(TERMS[n - 1])
  }

  lemma TermValues()
    ensures Term(0) == 0x8000_0000 && Term(1) == 0x4000_0000 && Term(2) == 0x2000_0000 && Term(4) == 0x0800_0000
    ensures Term(5) == 0x0400_0000 && Term(7) == 0x0100_0000 && Term(8) == 0x0080_0000 && Term(10) == 0x0020_0000
    ensures Term(11) == 0x0010_0000 && Term(12) == 0x0008_0000 && Term(16) == 0x0000_8000 && Term(22) == 0x0000_0200
    ensures Term(23) == 0x0000_0100 && Term(26) == 0x0000_0020
  {
  }

  lemma PatternStep(n: nat, before: word, t: nat, bit: word)
    requires 0 < n <= |TERMS| && Pattern(n - 1) == before && TERMS[n - 1] == t && t < 32 && Term(t) == bit
    ensures Pattern(n) == before | bit
  {
    hide Term;
  }

  lemma NoPattern()
    ensures Pattern(0) == 0
  {
  }

  lemma PatternFirst()
    ensures Pattern(5) == 0xEC00_0000
  {
    TermValues();
    NoPattern();
    hide Pattern, Term;
    PatternStep(1, 0x00000000, 0, 0x80000000);
    PatternStep(2, 0x80000000, 1, 0x40000000);
    PatternStep(3, 0xC0000000, 2, 0x20000000);
    PatternStep(4, 0xE0000000, 4, 0x08000000);
    PatternStep(5, 0xE8000000, 5, 0x04000000);
  }

  lemma PatternSecond()
    ensures Pattern(10) == 0xEDB8_0000
  {
    TermValues();
    PatternFirst();
    hide Pattern, Term;
    PatternStep(6, 0xEC000000, 7, 0x01000000);
    PatternStep(7, 0xED000000, 8, 0x00800000);
    PatternStep(8, 0xED800000, 10, 0x00200000);
    PatternStep(9, 0xEDA00000, 11, 0x00100000);
    PatternStep(10, 0xEDB00000, 12, 0x00080000);
  }

  /** The terms add up to the reflected polynomial. */
  lemma PatternIsPoly()
    ensures Pattern(|TERMS|) == POLY
  {
    TermValues();
    PatternSecond();
    hide Pattern, Term;
    PatternStep(11, 0xEDB80000, 16, 0x00008000);
    PatternStep(12, 0xEDB88000, 22, 0x00000200);
    PatternStep(13, 0xEDB88200, 23, 0x00000100);
    PatternStep(14, 0xEDB88300, 26, 0x00000020);
  }

  function Number(n: nat): word
    requires n < 256
  {
    n as word
  }

  lemma OctetOfNumber(k: nat)
    requires k < 256
    ensures Number(k) == ByteWord(k as octet)
  {
  }

  lemma OctetBack(n: octet)
    ensures (n as int) as octet == n
  {
  }

  lemma NumberOfOctet(n: octet)
    ensures Number(n as int) == ByteWord(n)
  {
    hide Number, ByteWord;
    OctetBack(n);
    OctetOfNumber(n as int);
  }

  lemma TermsFit()
    ensures |TERMS| == 14 && forall k :: 0 <= k < |TERMS| ==> TERMS[k] < 32
  {
  }

  lemma PatternGrows(n: nat)
    requires n < |TERMS| && TERMS[n] < 32
    ensures Pattern(n + 1) == Pattern(n) | Term(TERMS[n])
  {
    hide Term;
  }

  lemma NoneYet(c: word)
    ensures Pattern(0) == 0 && Zeros(c, 0) == c
  {
  }

  method ZeroBit(c: word, poly: word) returns (r: word)
    requires poly == POLY
    ensures r == Zero(c)
  {
    r := if c & 1 == 1 then poly ^ (c >> 1) else c >> 1;
  }

  lemma TableMade(tab: seq<word>)
    requires |tab| >= 256
    requires forall k | 0 <= k < 256 :: tab[k] == Zeros(Number(k), 8)
    ensures TableOk(tab)
  {
    hide Zeros, Number;
    forall n: octet
      ensures tab[n as int] == Zeros(ByteWord(n), 8)
    {
      NumberOfOctet(n);
    }
  }

  /** The exclusive-or pattern, one bit per term of the polynomial. */
  method MakePattern() returns (poly: word)
    ensures poly == POLY
  {
    hide *;
    TermsFit();
    NoneYet(0);
    poly := 0;
    for n := 0 to |TERMS|
      invariant poly == Pattern(n)
    {
      PatternGrows(n);
      poly := poly | Term(TERMS[n]);
    }
    PatternIsPoly();
  }

  /** One table entry by eight single-bit steps. */
  method MakeEntry(n: nat, poly: word) returns (c: word)
    requires n < 256 && poly == POLY
    ensures c == Zeros(Number(n), 8)
  {
    hide *;
    c := Number(n);
    NoneYet(c);
    for k := 0 to 8
      invariant c == Zeros(Number(n), k)
    {
      ZerosLast(Number(n), k);
      c := ZeroBit(c, poly);
    }
  }

  /** make_crc_table: afterwards every entry is the register of its byte. */
  method MakeCrcTable(table: array<word>)
    requires table.Length >= 256
    modifies table
    ensures TableOk(table[..])
    ensures forall k :: 256 <= k < table.Length ==> table[k] == old(table[k])
  {
    hide *;
    var poly := MakePattern();
    for n := 0 to 256
      invariant forall k | 0 <= k < n :: table[k] == Zeros(Number(k), 8)
      invariant forall k :: 256 <= k < table.Length ==> table[k] == old(table[k])
    {
      var c := MakeEntry(n, poly);
      table[n] := c;
    }
    TableMade(table[..]);
  }

  // ----- crc32 -----

  /** The register after a stretch of the buffer. */
  function Register(reg: word, s: seq<octet>): word {
    Divide(reg, MessageBits(s))
  }

  lemma RegisterGrows(reg: word, s: seq<octet>, b: octet)
    ensures Register(reg, s + [b]) == Divide(Register(reg, s), OctetBits(b))
  {
    hide Divide, OctetBits;
    MessageConcat(s, [b]);
    assert MessageBits([b]) == OctetBits(b) + MessageBits([]);
    assert OctetBits(b) + [] == OctetBits(b);
    DivideConcat(reg, MessageBits(s), OctetBits(b));
  }

  lemma TableRegister(tab: seq<word>, reg: word, s: seq<octet>, n: nat)
    requires TableOk(tab) && n < |s|
    ensures |tab| >= 256 && Do1(tab, Register(reg, s[..n]), s[n]) == Register(reg, s[..n + 1])
  {
    hide *;
    TableStep(tab, Register(reg, s[..n]), s[n]);
    RegisterGrows(reg, s[..n], s[n]);
    assert s[..n + 1] == s[..n] + [s[n]];
  }

  /** One DO1 on the buffer. */
  method Do1At(tab: array<word>, crc: word, buf: array<octet>, n: nat, ghost reg: word) returns (r: word)
    requires TableOk(tab[..]) && n < buf.Length && crc == Register(reg, buf[..n])
    ensures r == Register(reg, buf[..n + 1])
  {
    hide *;
    TableRegister(tab[..], reg, buf[..], n);
    assert buf[..][..n] == buf[..n] && buf[..][..n + 1] == buf[..n + 1];
    LowByte(Xor(crc, ByteWord(buf[n])));
    Do1Is(tab[..], crc, buf[n]);
    r := Xor(tab[Index(Xor(crc, ByteWord(buf[n])))], crc >> 8);
  }

  /** crc32: 0 without a buffer or a table, otherwise the bit-by-bit CRC of the buffer's first len bytes. */
  method Crc32(crc: word, buf: array?<octet>, len: nat, tab: array?<word>) returns (r: word)
    requires buf != null ==> len <= buf.Length
    requires tab != null ==> TableOk(tab[..])
    ensures buf == null || tab == null ==> r == 0
    ensures buf != null && tab != null ==> r == Crc(crc, buf[..len])
  {
    hide *;
    if buf == null || tab == null { return 0; }
    ghost var reg := Inverted(crc);
    r := Inverted(crc);
    var left: nat := len;
    assert buf[..0] == [];
    NothingRead(reg);
    while left >= 8
      invariant left <= len && r == Register(reg, buf[..len - left])
    {
      r := Do1At(tab, r, buf, len - left, reg);
      r := Do1At(tab, r, buf, len - left + 1, reg);
      r := Do1At(tab, r, buf, len - left + 2, reg);
      r := Do1At(tab, r, buf, len - left + 3, reg);
      r := Do1At(tab, r, buf, len - left + 4, reg);
      r := Do1At(tab, r, buf, len - left + 5, reg);
      r := Do1At(tab, r, buf, len - left + 6, reg);
      r := Do1At(tab, r, buf, len - left + 7, reg);
      left := left - 8;
    }
    while left > 0
      invariant left <= len && r == Register(reg, buf[..len - left])
    {
      r := Do1At(tab, r, buf, len - left, reg);
      left := left - 1;
    }
    CrcIs(crc, buf[..len]);
    r := Inverted(r);
  }

  lemma NothingRead(reg: word)
    ensures Register(reg, []) == reg
  {
  }

  lemma CrcIs(crc: word, s: seq<octet>)
    ensures Crc(crc, s) == Inverted(Register(Inverted(crc), s))
  {
  }

  // ----- data followed by its CRC -----

  /** The four bytes of a word, the lowest first. */
  function LeOctets(c: word): (r: seq<octet>)
    ensures |r| == 4
  {
    [(c & 0xFF) as octet, ((c >> 8) & 0xFF) as octet, ((c >> 16) & 0xFF) as octet, ((c >> 24) & 0xFF) as octet]
  }

  /** What is left of a register after its lowest byte has gone. */
  ghost function Rest(x: word): word {
    x >> 8
  }

  /** The lowest byte of an inverted register. */
  ghost function Leaving(x: word): word {
    (x & 0xFF) ^ 0xFF
  }

  lemma LeOctetsAre(reg: word)
    ensures var b := LeOctets(Inverted(reg));
            && ByteWord(b[0]) == Leaving(reg) && ByteWord(b[1]) == Leaving(Rest(reg))
            && ByteWord(b[2]) == Leaving(Rest(Rest(reg))) && ByteWord(b[3]) == Leaving(Rest(Rest(Rest(reg))))
    ensures Rest(Rest(Rest(Rest(reg)))) == 0
  {
  }

  lemma XorApart(x: word, c: word)
    ensures Xor(Xor(x, c), Xor(x & 0xFF, 0xFF)) == Xor(x & 0xFFFF_FF00, Xor(c, 0xFF))
  {
  }

  /** A byte of the inverted register enters: whatever the register was, its own bits cancel. */
  lemma TrailStep(x: word, c: word, b: octet)
    requires ByteWord(b) == Leaving(x)
    ensures Divide(Xor(x, c), OctetBits(b)) == Xor(Rest(x), Zeros(Xor(c, 0xFF), 8))
  {
    assert ByteWord(b) == Xor(x & 0xFF, 0xFF) && Rest(x) == x >> 8;
    hide *;
    ByteEnters(Xor(x, c), b);
    XorApart(x, c);
    ZerosLinear(x & 0xFFFF_FF00, Xor(c, 0xFF), 8);
    HighPart(x);
  }

  lemma Trail1()
    ensures Zeros(0x000000FF, 8) == 0x2D02EF8D
  {
    assert Zeros(0xBDBDF213, 4) == 0x2D02EF8D by {
      assert Zero(0xBDBDF213) == 0xB3667A29 && Zero(0xB3667A29) == 0xB40BBE34;
      assert Zero(0xB40BBE34) == 0x5A05DF1A && Zero(0x5A05DF1A) == 0x2D02EF8D;
    }
    assert Zero(0x000000FF) == 0xEDB8835F && Zero(0xEDB8835F) == 0x9B64C28F;
    assert Zero(0x9B64C28F) == 0xA00AE267 && Zero(0xA00AE267) == 0xBDBDF213;
    assert Zeros(0x9B64C28F, 6) == Zeros(0xBDBDF213, 4);
  }

  lemma Trail2()
    ensures Zeros(0x2D02EF72, 8) == 0xBE2612FF
  {
    assert Zeros(0x39BE0E3F, 4) == 0xBE2612FF by {
      assert Zero(0x39BE0E3F) == 0xF167843F && Zero(0xF167843F) == 0x950B413F;
      assert Zero(0x950B413F) == 0xA73D23BF && Zero(0xA73D23BF) == 0xBE2612FF;
    }
    assert Zero(0x2D02EF72) == 0x168177B9 && Zero(0x168177B9) == 0xE6F838FC;
    assert Zero(0xE6F838FC) == 0x737C1C7E && Zero(0x737C1C7E) == 0x39BE0E3F;
    assert Zeros(0xE6F838FC, 6) == Zeros(0x39BE0E3F, 4);
  }

  lemma Trail3()
    ensures Zeros(0xBE261200, 8) == 0x00BE2612
  {
    assert Zeros(0x0BE26120, 4) == 0x00BE2612 by {
      assert Zero(0x0BE26120) == 0x05F13090 && Zero(0x05F13090) == 0x02F89848;
      assert Zero(0x02F89848) == 0x017C4C24 && Zero(0x017C4C24) == 0x00BE2612;
    }
    assert Zero(0xBE261200) == 0x5F130900 && Zero(0x5F130900) == 0x2F898480;
    assert Zero(0x2F898480) == 0x17C4C240 && Zero(0x17C4C240) == 0x0BE26120;
    assert Zeros(0x2F898480, 6) == Zeros(0x0BE26120, 4);
  }

  lemma Trail4()
    ensures Zeros(0x00BE26ED, 8) == 0xDEBB20E3
  {
    assert Zeros(0x86D830BA, 4) == 0xDEBB20E3 by {
      assert Zero(0x86D830BA) == 0x436C185D && Zero(0x436C185D) == 0xCC0E8F0E;
      assert Zero(0xCC0E8F0E) == 0x66074787 && Zero(0x66074787) == 0xDEBB20E3;
    }
    assert Zero(0x00BE26ED) == 0xEDE79056 && Zero(0xEDE79056) == 0x76F3C82B;
    assert Zero(0x76F3C82B) == 0xD6C16735 && Zero(0xD6C16735) == 0x86D830BA;
    assert Zeros(0x76F3C82B, 6) == Zeros(0x86D830BA, 4);
  }

  lemma TrailXors()
    ensures Xor(0, 0xFF) == 0xFF
    ensures Xor(0x2D02EF8D, 0xFF) == 0x2D02EF72
    ensures Xor(0xBE2612FF, 0xFF) == 0xBE261200
    ensures Xor(0x00BE2612, 0xFF) == 0x00BE26ED
    ensures Inverted(0xDEBB20E3) == 0x2144DF1C
  {
  }

  /** The four steps, with the constants that come up on the way named. */
  lemma TrailFrom(reg: word, c: seq<word>, d: seq<word>, b: seq<octet>)
    requires |b| == |d| == 4 && |c| == 5
    requires forall k | 0 <= k < 4 :: Xor(c[k], 0xFF) == d[k] && Zeros(d[k], 8) == c[k + 1]
    requires ByteWord(b[0]) == Leaving(reg) && ByteWord(b[1]) == Leaving(Rest(reg))
    requires ByteWord(b[2]) == Leaving(Rest(Rest(reg))) && ByteWord(b[3]) == Leaving(Rest(Rest(Rest(reg))))
    ensures Divide(Divide(Divide(Divide(Xor(reg, c[0]), OctetBits(b[0])), OctetBits(b[1])), OctetBits(b[2])),
      OctetBits(b[3])) == Xor(Rest(Rest(Rest(Rest(reg)))), c[4])
  {
    hide *;
    TrailStep(reg, c[0], b[0]);
    TrailStep(Rest(reg), c[1], b[1]);
    TrailStep(Rest(Rest(reg)), c[2], b[2]);
    TrailStep(Rest(Rest(Rest(reg))), c[3], b[3]);
  }

  /** The register after the four bytes of the inverted register have entered. */
  lemma TrailRegister(reg: word)
    ensures var b := LeOctets(Inverted(reg));
            Divide(Divide(Divide(Divide(reg, OctetBits(b[0])), OctetBits(b[1])), OctetBits(b[2])), OctetBits(b[3]))
            == 0xDEBB20E3
  {
    hide *;
    LeOctetsAre(reg);
    TrailXors();
    Trail1();
    Trail2();
    Trail3();
    Trail4();
    var c: seq<word> := [0, 0x2D02EF8D, 0xBE2612FF, 0x00BE2612, 0xDEBB20E3];
    var d: seq<word> := [0xFF, 0x2D02EF72, 0xBE261200, 0x00BE26ED];
    TrailFrom(reg, c, d, LeOctets(Inverted(reg)));
    XorAssociates(reg, 0, 0);
    XorAssociates(0, 0xDEBB20E3, 0);
    XorAssociates(0xDEBB20E3, 0, 0);
  }

  lemma FourOctets(reg: word, b: seq<octet>)
    requires |b| == 4
    ensures Divide(reg, MessageBits(b)) ==
      Divide(Divide(Divide(Divide(reg, OctetBits(b[0])), OctetBits(b[1])), OctetBits(b[2])), OctetBits(b[3]))
  {
    hide OctetBits, Divide;
    assert b == [] + [b[0]] + [b[1]] + [b[2]] + [b[3]];
    RegisterGrows(reg, [], b[0]);
    RegisterGrows(reg, [] + [b[0]], b[1]);
    RegisterGrows(reg, [] + [b[0]] + [b[1]], b[2]);
    RegisterGrows(reg, [] + [b[0]] + [b[1]] + [b[2]], b[3]);
    NothingRead(reg);
  }

  /** Data followed by its own CRC, lowest byte first, always has the same CRC. */
  lemma Residue(crc: word, s: seq<octet>)
    ensures Crc(crc, s + LeOctets(Crc(crc, s))) == 0x2144DF1C
  {
    hide LeOctets, Inverted, Divide, MessageBits;
    var reg := Divide(Inverted(crc), MessageBits(s));
    TrailXors();
    MessageConcat(s, LeOctets(Crc(crc, s)));
    DivideConcat(Inverted(crc), MessageBits(s), MessageBits(LeOctets(Crc(crc, s))));
    FourOctets(reg, LeOctets(Inverted(reg)));
    TrailRegister(reg);
  }
}
