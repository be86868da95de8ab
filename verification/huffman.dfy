/** Canonical Huffman codes as the decoder stores them: counts per length and symbols in code order. */
module Huffman {
  import opened Machine
  import opened BitStream

  const MAXBITS: nat := 15

  /** count[len] codes of each length, symbols sorted by length. */
  datatype Table = Table(count: seq<nat>, symbol: seq<nat>)

  /** Number of codes shorter than len. */
  function Offset(count: seq<nat>, len: nat): nat
    requires |count| == MAXBITS + 1 && len <= MAXBITS + 1
  {
    if len <= 1 then 0 else Offset(count, len - 1) + count[len - 1]
  }

  /** The smallest code of length len: shorter codes used up everything below it. */
  function FirstCode(count: seq<nat>, len: nat): nat
    requires |count| == MAXBITS + 1 && len <= MAXBITS + 1
  {
    if len <= 1 then 0 else 2 * (FirstCode(count, len - 1) + count[len - 1])
  }

  /** The symbol array holds a symbol for every code. */
  ghost predicate TableOk(h: Table) {
    |h.count| == MAXBITS + 1 && Offset(h.count, MAXBITS + 1) <= |h.symbol|
  }

  lemma {:induction false} OffsetMonotonic(count: seq<nat>, j: nat, k: nat)
    requires |count| == MAXBITS + 1 && j <= k <= MAXBITS + 1
    ensures Offset(count, j) <= Offset(count, k)
    decreases k
  {
    if j < k { OffsetMonotonic(count, j, k - 1); }
  }

  lemma OffsetOne(count: seq<nat>)
    requires |count| == MAXBITS + 1
    ensures Offset(count, 1) == 0
  {
  }

  /**
   * Result of decoding one symbol: the symbol and the next bit position, a code outside the table, or no more input.
   */
  datatype Decoded = Symbol(symbol: nat, pos: nat) | BadCode(pos: nat) | OutOfInput

  /**
   * Bit-by-bit decoding from length len on: code holds the bits read so far, first and index belong
   * to the first code of length len.
   */
  ghost function DecodeFrom(s: seq<bit>, p: nat, h: Table, len: nat, code: nat, first: nat, index: nat): (r: Decoded)
    requires TableOk(h) && 1 <= len <= MAXBITS + 1 && first <= code && index == Offset(h.count, len)
    ensures r.Symbol? ==> p < r.pos <= |s|
    ensures r.BadCode? ==> r.pos == p + (MAXBITS + 1 - len) && (len <= MAXBITS ==> r.pos <= |s|)
    decreases MAXBITS + 1 - len
  {
    if len > MAXBITS then BadCode(p)
    else if p >= |s| then OutOfInput
    else
      var c := code + s[p];
      var n := h.count[len];
      if c - n < first then
        OffsetMonotonic(h.count, len + 1, MAXBITS + 1);
        Symbol(h.symbol[index + (c - first)], p + 1)
      else
        DecodeFrom(s, p + 1, h, len + 1, 2 * c, 2 * (first + n), index + n)
  }

  ghost function Decode(s: seq<bit>, p: nat, h: Table): (r: Decoded)
    requires TableOk(h)
    ensures r.Symbol? ==> p < r.pos <= |s|
    ensures r.BadCode? ==> r.pos == p + MAXBITS <= |s|
  {
    DecodeFrom(s, p, h, 1, 0, 0, 0)
  }

  lemma DecodeStop(s: seq<bit>, p: nat, h: Table, len: nat, code: nat, first: nat, index: nat)
    requires TableOk(h) && 1 <= len <= MAXBITS + 1 && first <= code && index == Offset(h.count, len)
    ensures len > MAXBITS ==> DecodeFrom(s, p, h, len, code, first, index) == BadCode(p)
    ensures len <= MAXBITS && p >= |s| ==> DecodeFrom(s, p, h, len, code, first, index) == OutOfInput
  {
    hide Offset, TableOk;
  }

  lemma OffsetNext(h: Table, len: nat)
    requires TableOk(h) && 1 <= len <= MAXBITS
    ensures Offset(h.count, len) + h.count[len] == Offset(h.count, len + 1) <= |h.symbol|
  {
    OffsetMonotonic(h.count, len + 1, MAXBITS + 1);
  }

  /** One bit of decoding. */
  lemma DecodeStep(s: seq<bit>, p: nat, h: Table, len: nat, code: nat, first: nat, index: nat)
    requires TableOk(h) && 1 <= len <= MAXBITS && first <= code && index == Offset(h.count, len) && p < |s|
    ensures index + h.count[len] == Offset(h.count, len + 1) <= |h.symbol|
    ensures code + s[p] - h.count[len] < first ==>
              DecodeFrom(s, p, h, len, code, first, index) == Symbol(h.symbol[index + (code + s[p] - first)], p + 1)
    ensures code + s[p] - h.count[len] >= first ==>
              DecodeFrom(s, p, h, len, code, first, index)
              == DecodeFrom(s, p + 1, h, len + 1, 2 * (code + s[p]), 2 * (first + h.count[len]), index + h.count[len])
  {
    hide Offset;
    OffsetNext(h, len);
  }

  /** What decode returns to its caller: the symbol, -10, or None when it gives up for lack of input. */
  ghost predicate Returned(r: Option<int>, d: Decoded) {
    match d
    case Symbol(symbol, pos) => r == Some(symbol)
    case BadCode(pos) => r == Some(-10)
    case OutOfInput => r == None
  }
}
