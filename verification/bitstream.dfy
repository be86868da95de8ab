/** Bits of a byte sequence, least significant bit of each byte first, and the numbers they spell. */
module BitStream {
  import opened Machine

  type bit = x: int | 0 <= x < 2

  function Pow2(n: nat): (r: nat)
    ensures r > 0
  {
    if n == 0 then 1 else 2 * Pow2(n - 1)
  }

  lemma {:induction false} Pow2Add(m: nat, n: nat)
    ensures Pow2(m + n) == Pow2(m) * Pow2(n)
  {
    if m > 0 {
      Pow2Add(m - 1, n);
      assert Pow2(m) * Pow2(n) == 2 * (Pow2(m - 1) * Pow2(n));
    }
  }

  /** Bits 0 .. n of x, low bit first. */
  function LowBits(x: nat, n: nat): (r: seq<bit>)
    ensures |r| == n
  {
    if n == 0 then [] else [x % 2] + LowBits(x / 2, n - 1)
  }

  /** The number spelt by a bit sequence, low bit first. */
  function Value(b: seq<bit>): (r: nat)
    ensures r < Pow2(|b|)
  {
    if b == [] then 0 else b[0] + 2 * Value(b[1..])
  }

  lemma {:induction false} ValueOfLowBits(x: nat, n: nat)
    requires x < Pow2(n)
    ensures Value(LowBits(x, n)) == x
  {
    if n > 0 {
      ValueOfLowBits(x / 2, n - 1);
      assert LowBits(x, n)[1..] == LowBits(x / 2, n - 1);
    }
  }

  lemma {:induction false} LowBitsOfValue(b: seq<bit>)
    ensures LowBits(Value(b), |b|) == b
  {
    if b != [] {
      LowBitsOfValue(b[1..]);
      assert Value(b) / 2 == Value(b[1..]) && Value(b) % 2 == b[0];
    }
  }

  lemma Carry(bit0: nat, va: nat, p: nat, vb: nat)
    ensures bit0 + 2 * (va + p * vb) == (bit0 + 2 * va) + (2 * p) * vb
  {
  }

  lemma {:induction false} ValueConcat(a: seq<bit>, b: seq<bit>)
    ensures Value(a + b) == Value(a) + Pow2(|a|) * Value(b)
  {
    if a == [] {
      assert a + b == b;
    } else {
      ValueConcat(a[1..], b);
      assert (a + b)[1..] == a[1..] + b;
      assert Value(a + b) == a[0] + 2 * Value(a[1..] + b) && Value(a) == a[0] + 2 * Value(a[1..]);
      assert Pow2(|a|) == 2 * Pow2(|a[1..]|);
      hide *;
      Carry(a[0], Value(a[1..]), Pow2(|a[1..]|), Value(b));
    }
  }

  lemma {:induction false} MulAtLeast(k: nat, p: nat)
    requires k >= 1
    ensures k * p >= p
  {
    if k > 1 {
      MulAtLeast(k - 1, p);
      assert k * p == (k - 1) * p + p;
    }
  }

  lemma MulSmall(k: int, p: nat, d: int)
    requires k * p == d && d < p && 0 - d < p
    ensures k == 0
  {
    if k >= 1 { MulAtLeast(k, p); }
  }

  lemma QuotientUnique(q: int, r: int, y: int, x: int, p: nat)
    requires q * p + r == x + p * y && 0 <= r < p && 0 <= x < p
    ensures q == y && r == x
  {
    assert (q - y) * p == q * p - p * y;
    MulSmall(q - y, p, x - r);
  }

  lemma DivModUnique(x: nat, y: nat, p: nat)
    requires p > 0 && x < p
    ensures (x + p * y) % p == x && (x + p * y) / p == y
  {
    var n := x + p * y;
    assert n == n / p * p + n % p;
    QuotientUnique(n / p, n % p, y, x, p);
  }

  /** Splitting a number into its low n bits and the rest, as masks and shifts do. */
  lemma ValueSplit(b: seq<bit>, n: nat)
    requires n <= |b|
    ensures Value(b) % Pow2(n) == Value(b[..n]) && Value(b) / Pow2(n) == Value(b[n..])
  {
    hide *;
    ValueConcat(b[..n], b[n..]);
    assert b == b[..n] + b[n..] && |b[..n]| == n;
    DivModUnique(Value(b[..n]), Value(b[n..]), Pow2(n));
  }

  /** All bits of a byte sequence in stream order. */
  function BitsOf(s: seq<byte>): (r: seq<bit>)
    ensures |r| == 8 * |s|
  {
    if s == [] then [] else LowBits(s[0], 8) + BitsOf(s[1..])
  }

  lemma {:induction false} BitsConcat(s: seq<byte>, t: seq<byte>)
    ensures BitsOf(s + t) == BitsOf(s) + BitsOf(t)
  {
    if s == [] {
      assert s + t == t;
    } else {
      BitsConcat(s[1..], t);
      assert (s + t)[1..] == s[1..] + t;
      var h := LowBits(s[0], 8);
      assert BitsOf(s + t) == h + BitsOf(s[1..] + t) && BitsOf(s) == h + BitsOf(s[1..]);
      hide LowBits, BitsOf;
      assert h + (BitsOf(s[1..]) + BitsOf(t)) == (h + BitsOf(s[1..])) + BitsOf(t);
    }
  }

  lemma Pow8()
    ensures Pow2(8) == 0x100
  {
    assert Pow2(4) == 16;
  }

  lemma SliceAfter(h: seq<bit>, r: seq<bit>, i: nat, n: nat)
    requires |h| <= i && i + n <= |h| + |r|
    ensures (h + r)[i..i + n] == r[i - |h|..i - |h| + n]
  {
  }

  /** The eight bits of byte i of the stream spell it. */
  lemma {:induction false} ByteAt(s: seq<byte>, i: nat)
    requires i < |s|
    ensures BitsOf(s)[8 * i..8 * i + 8] == LowBits(s[i], 8)
    ensures Value(BitsOf(s)[8 * i..8 * i + 8]) == s[i]
  {
    Pow8();
    ValueOfLowBits(s[i], 8);
    var h, r := LowBits(s[0], 8), BitsOf(s[1..]);
    assert BitsOf(s) == h + r;
    hide LowBits, BitsOf, Value;
    if i == 0 {
      assert (h + r)[0..8] == h;
    } else {
      ByteAt(s[1..], i - 1);
      SliceAfter(h, r, 8 * i, 8);
    }
  }

  lemma SliceJoin(s: seq<bit>, p: nat, q: nat, r: nat)
    requires p <= q <= r <= |s|
    ensures s[p..r] == s[p..q] + s[q..r]
  {
  }

  /** Loading byte i of the stream above the bits p .. 8 * i. */
  lemma AppendByte(s: seq<byte>, i: nat, p: nat, val: nat)
    requires i < |s| && p <= 8 * i && val == Value(BitsOf(s)[p..8 * i])
    ensures val + s[i] * Pow2(8 * i - p) == Value(BitsOf(s)[p..8 * (i + 1)])
  {
    hide *;
    var b := BitsOf(s);
    ByteAt(s, i);
    SliceJoin(b, p, 8 * i, 8 * i + 8);
    ValueConcat(b[p..8 * i], b[8 * i..8 * i + 8]);
    assert |b[p..8 * i]| == 8 * i - p;
  }

  lemma OneBit(s: seq<bit>, p: nat)
    requires p < |s|
    ensures Value(s[p..p + 1]) == s[p]
  {
    assert s[p..p + 1] == [s[p]] && [s[p]][1..] == [];
  }

  /** The low bit and the rest of a buffered number. */
  lemma NextBit(s: seq<bit>, p: nat, q: nat)
    requires p < q <= |s|
    ensures Value(s[p..q]) % 2 == s[p] && Value(s[p..q]) / 2 == Value(s[p + 1..q])
  {
    assert s[p..q][1..] == s[p + 1..q];
  }

  /** Packs whole groups of eight bits into bytes. */
  function Pack(b: seq<bit>): (r: seq<byte>)
    requires |b| % 8 == 0
    ensures 8 * |r| == |b|
  {
    if b == [] then [] else
      var v := Value(b[..8]);
      Pow8();
      [v] + Pack(b[8..])
  }

  lemma {:induction false} BitsOfPack(b: seq<bit>)
    requires |b| % 8 == 0
    ensures BitsOf(Pack(b)) == b
  {
    if b != [] {
      Pow8();
      BitsOfPack(b[8..]);
      LowBitsOfValue(b[..8]);
      assert b == b[..8] + b[8..];
    }
  }

  lemma {:induction false} PackOfBits(s: seq<byte>)
    ensures Pack(BitsOf(s)) == s
  {
    if s != [] {
      Pow8();
      PackOfBits(s[1..]);
      ValueOfLowBits(s[0], 8);
      assert BitsOf(s)[..8] == LowBits(s[0], 8) && BitsOf(s)[8..] == BitsOf(s[1..]);
    }
  }

  /** A byte with bit j changed: what an exclusive or with one mask bit does. */
  function WithBit(b: byte, j: nat, x: bit): (r: byte)
    requires j < 8
    ensures LowBits(r, 8) == LowBits(b, 8)[j := x]
  {
    Pow8();
    LowBitsOfValue(LowBits(b, 8)[j := x]);
    Value(LowBits(b, 8)[j := x])
  }
}
