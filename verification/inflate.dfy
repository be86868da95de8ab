/** The inflate decoder: bit buffering, symbol decoding, stored, fixed and dynamic blocks. */
module Inflate {
  import opened Machine
  import opened BitStream
  import opened Huffman

  /** A table as the decoder keeps it, in two arrays. */
  class Code {
    const count: array<nat>
    const symbol: array<nat>

    constructor (symbols: nat)
      ensures count.Length == MAXBITS + 1 && symbol.Length == symbols
      ensures fresh(count) && fresh(symbol)
      ensures forall i :: 0 <= i < MAXBITS + 1 ==> count[i] == 0
    {
      count := new nat[MAXBITS + 1](i => 0);
      symbol := new nat[symbols](i => 0);
    }

    ghost function View(): Table
      reads count, symbol
    {
      Table(count[..], symbol[..])
    }
  }

  class State {
    const inp: seq<byte>
    const out: array?<byte>   // null while only the size is wanted
    const outlen: nat
    var outcnt: nat
    var incnt: nat
    var bitbuf: nat
    var bitcnt: nat
    ghost var data: seq<byte>    // the output so far, or what it would be while only scanning
    ghost const orig: seq<byte>  // the buffer before anything was written to it

    constructor (source: seq<byte>, dest: array?<byte>, destlen: nat)
      requires dest != null ==> destlen <= dest.Length
      ensures inp == source && out == dest && outlen == destlen && data == [] && Pos() == 0 && Valid()
      ensures dest != null ==> orig == dest[..]
    {
      inp, out, outlen := source, dest, destlen;
      outcnt, incnt, bitbuf, bitcnt := 0, 0, 0, 0;
      data := [];
      orig := if dest == null then [] else dest[..];
      new;
      Fresh();
    }

    lemma Fresh()
      requires outcnt == incnt == bitbuf == bitcnt == 0 && data == []
      requires out != null ==> outlen <= out.Length && orig == out[..]
      ensures Valid() && Pos() == 0
    {
      assert BitsOf(inp)[0..0] == [];
      if out != null { assert orig[0..] == orig; }
    }

    /** Space for output. */
    ghost function Cap(): Option<nat> {
      if out == null then None else Some(outlen)
    }

    /** Position of the next bit in the stream. */
    ghost function Pos(): int
      reads `incnt, `bitcnt
    {
      8 * incnt - bitcnt
    }

    /** Fewer than eight bits are buffered, and they are the next bits of the stream. */
    ghost predicate InOk()
      reads `incnt, `bitbuf, `bitcnt
    {
      && incnt <= |inp| && bitcnt < 8 && bitcnt <= 8 * incnt
      && bitbuf == Value(BitsOf(inp)[8 * incnt - bitcnt..8 * incnt])
    }

    /** The buffer holds the output so far and is untouched after it. */
    ghost predicate OutOk()
      reads `outcnt, `data, out
    {
      && outcnt == |data|
      && (out != null ==> outcnt <= outlen <= out.Length == |orig| && out[..] == data + orig[outcnt..])
    }

    ghost predicate Valid()
      reads this, out
    {
      InOk() && OutOk()
    }

    /** bits: the next need bits of the stream, low bit first, or None when the input ends before them. */
    method Bits(need: nat) returns (r: Option<nat>)
      requires Valid()
      modifies `incnt, `bitbuf, `bitcnt
      ensures if old(Pos()) + need <= 8 * |inp|
              then r == Some(Value(BitsOf(inp)[old(Pos())..old(Pos()) + need])) && Valid() && Pos() == old(Pos()) + need
              else r == None
    {
      hide Value, Pow2, BitsOf;
      ghost var s, p := BitsOf(inp), Pos();
      var val := bitbuf;
      while bitcnt < need
        invariant incnt <= |inp| && p == Pos() && bitcnt < need + 8 && p <= 8 * incnt
        invariant val == Value(s[p..8 * incnt])
        decreases need - bitcnt
      {
        if incnt == |inp| {
          return None;
        }
        AppendByte(inp, incnt, p, val);
        val := val + inp[incnt] * Pow2(bitcnt);
        incnt := incnt + 1;
        bitcnt := bitcnt + 8;
      }
      ValueSplit(s[p..8 * incnt], need);
      assert s[p..8 * incnt][..need] == s[p..p + need];
      assert s[p..8 * incnt][need..] == s[p + need..8 * incnt];
      bitbuf := val / Pow2(need);
      bitcnt := bitcnt - need;
      r := Some(val % Pow2(need));
    }

    /** The bit-by-bit version of decode. */
    method SlowDecode(h: Code) returns (r: Option<int>)
      requires Valid() && TableOk(h.View())
      modifies `incnt, `bitbuf, `bitcnt
      ensures var d := Decode(BitsOf(inp), old(Pos()), h.View());
              && Returned(r, d)
              && (!d.OutOfInput? ==> Valid() && Pos() == d.pos)
    {
      hide InOk, OutOk, DecodeFrom, Offset, BitsOf, Value;
      Start();
      ghost var s, t, d := BitsOf(inp), h.View(), Decode(BitsOf(inp), Pos(), h.View());
      var code: nat, first: nat, index: nat, len := 0, 0, 0, 1;
      OffsetOne(t.count);
      while len <= MAXBITS
        invariant 1 <= len <= MAXBITS + 1 && Valid() && t == h.View() && 0 <= Pos()
        invariant first <= code && index == Offset(t.count, len)
        invariant d == DecodeFrom(s, Pos(), t, len, code, first, index)
      {
        ghost var p := Pos();
        DecodeStop(s, p, t, len, code, first, index);
        var b := Bits(1);
        if b.None? {
          return None;
        }
        DecodeStep(s, p, t, len, code, first, index);
        OneBit(s, p);
        code := code + b.value;
        var count := h.count[len];
        if code - count < first {
          return Some(h.symbol[index + (code - first)]);
        }
        index := index + count;
        first := 2 * (first + count);
        code := 2 * code;
        len := len + 1;
      }
      DecodeStop(s, Pos(), t, len, code, first, index);
      r := Some(-10);
    }

    lemma Start()
      requires Valid()
      ensures OutOk() && 0 <= Pos() <= 8 * |inp| && incnt <= |inp| && bitcnt < 8 && Pos() <= 8 * incnt
      ensures bitbuf == Value(BitsOf(inp)[Pos()..8 * incnt])
    {
    }

    /** A whole byte as the bit buffer. */
    lemma FreshByte()
      requires incnt < |inp|
      ensures inp[incnt] == Value(BitsOf(inp)[8 * incnt..8 * (incnt + 1)])
    {
      ByteAt(inp, incnt);
    }

    lemma Buffered(p: nat)
      requires incnt <= |inp| && p + bitcnt == 8 * incnt && bitcnt < 8 && OutOk()
      requires bitbuf == Value(BitsOf(inp)[p..8 * incnt])
      ensures Valid() && Pos() == p
    {
    }

    /** Bits left in a byte after len bits were taken from a stream with left bits buffered: (left - len) & 7. */
    lemma LeftInByte(left: nat, len: nat, q: nat, k: nat)
      requires q < 8 && q == 8 * k + left - len
      ensures (left - len) % 8 == q
    {
    }

    /** Takes len bits for good, up to bit q of the stream. */
    method TakeBits(len: nat, ghost q: nat, ghost i0: nat)
      requires OutOk() && i0 <= incnt <= |inp| && 8 * i0 - bitcnt + len == q && 8 * incnt - 8 < q <= 8 * incnt
      requires bitbuf == Value(BitsOf(inp)[q..8 * incnt])
      modifies `bitcnt
      ensures Valid() && Pos() == q
    {
      hide OutOk, Value, BitsOf;
      LeftInByte(bitcnt, len, 8 * incnt - q, incnt - i0);
      bitcnt := (bitcnt - len) % 8;
      Buffered(q);
    }

    /** The version of decode that keeps the bits in local variables and loads whole bytes. */
    method FastDecode(h: Code) returns (r: Option<int>)
      requires Valid() && TableOk(h.View())
      modifies `incnt, `bitbuf, `bitcnt
      ensures var d := Decode(BitsOf(inp), old(Pos()), h.View());
              && Returned(r, d)
              && (d.Symbol? ==> Valid() && Pos() == d.pos)
              && (d.BadCode? ==> incnt == (d.pos + 7) / 8)
    {
      hide InOk, OutOk, Valid, Offset, BitsOf, Value, Progress, Decode, DecodeFrom;
      Start();
      ghost var s, t, p0, i0 := BitsOf(inp), h.View(), Pos(), incnt;
      ghost var d := Decode(s, p0, t);
      var st, left := Partial(0, 0, 0, 1, bitbuf), bitcnt;
      ProgressStart(s, p0, t, bitbuf, 8 * incnt);
      while true
        invariant t == h.View() && i0 <= incnt <= |inp| && 1 <= st.len <= MAXBITS + 1
        invariant 0 <= left <= 8 * incnt - (p0 + st.len - 1) <= 8 && st.len - 1 + left <= MAXBITS
        invariant left == 8 * incnt - (p0 + st.len - 1) || st.len - 1 + left == MAXBITS
        invariant 8 * incnt - (p0 + st.len - 1) == 8 ==> left != 0
        invariant Progress(s, p0, 8 * incnt, t, st, d)
        invariant bitcnt == old(bitcnt) && 8 * i0 - bitcnt == p0
        decreases MAXBITS + 1 - st.len, 8 - left
      {
        var found;
        found, st := ScanBuffer(h, st, left, s, p0, 8 * incnt, d);
        if found.Some? {
          bitbuf := st.buf;
          TakeBits(st.len, p0 + st.len, i0);
          return Some(found.value);
        }
        left := MAXBITS + 1 - st.len;
        ProgressStop(s, p0, 8 * incnt, t, st, d);
        if left == 0 {
          break;
        }
        if incnt == |inp| {
          return None;
        }
        FreshByte();
        ProgressLoad(s, p0, 8 * incnt, t, st, d, inp[incnt], 8 * (incnt + 1));
        st := st.(buf := inp[incnt]);
        incnt := incnt + 1;
        if left > 8 { left := 8; }
      }
      r := Some(-10);
    }

    /** The inner loop of decode: uses up left buffered bits, or stops at a symbol. */
    method ScanBuffer(h: Code, st0: Partial, left0: nat, ghost s: seq<bit>, ghost p0: nat, ghost q: nat,
        ghost d: Decoded)
      returns (found: Option<nat>, st: Partial)
      requires TableOk(h.View()) && Progress(s, p0, q, h.View(), st0, d)
      requires p0 + st0.len - 1 + left0 <= q && st0.len - 1 + left0 <= MAXBITS
      ensures match found
              case None => Progress(s, p0, q, h.View(), st, d) && st.len == st0.len + left0
              case Some(x) =>
                && d == Symbol(x, p0 + st.len) && st0.len <= st.len < st0.len + left0
                && p0 + st.len <= q <= |s| && st.buf == Value(s[p0 + st.len..q])
    {
      hide BitsOf, Value, Offset, DecodeFrom;
      ghost var t := h.View();
      st := st0;
      var left := left0;
      while left != 0
        invariant 0 <= left <= left0 && st.len + left == st0.len + left0
        invariant Progress(s, p0, q, t, st, d)
        decreases left
      {
        left := left - 1;
        ghost var p := p0 + st.len - 1;
        NextBit(s, p, q);
        DecodeStep(s, p, t, st.len, st.code, st.first, st.index);
        var code := st.code + st.buf % 2;
        var count := h.count[st.len];
        if code - count < st.first {
          st := st.(buf := st.buf / 2);
          return Some(h.symbol[st.index + (code - st.first)]), st;
        }
        st := Partial(2 * code, 2 * (st.first + count), st.index + count, st.len + 1, st.buf / 2);
      }
      found := None;
    }
  }

  /** The local variables of decode. */
  datatype Partial = Partial(code: nat, first: nat, index: nat, len: nat, buf: nat)

  /** After len - 1 bits from position p0 on, decoding goes on to result d; buf holds the bits up to q. */
  ghost predicate Progress(s: seq<bit>, p0: nat, q: nat, t: Table, st: Partial, d: Decoded) {
    && TableOk(t) && 1 <= st.len <= MAXBITS + 1 && st.first <= st.code && st.index == Offset(t.count, st.len)
    && p0 + st.len - 1 <= q <= |s| && st.buf == Value(s[p0 + st.len - 1..q])
    && d == DecodeFrom(s, p0 + st.len - 1, t, st.len, st.code, st.first, st.index)
  }

  lemma ProgressStart(s: seq<bit>, p0: nat, t: Table, buf: nat, q: nat)
    requires TableOk(t) && p0 <= q <= |s| && buf == Value(s[p0..q])
    ensures Progress(s, p0, q, t, Partial(0, 0, 0, 1, buf), Decode(s, p0, t))
  {
    hide Value, DecodeFrom;
  }

  lemma ProgressStop(s: seq<bit>, p0: nat, q: nat, t: Table, st: Partial, d: Decoded)
    requires Progress(s, p0, q, t, st, d)
    ensures st.len > MAXBITS ==> d == BadCode(p0 + MAXBITS)
    ensures st.len <= MAXBITS && p0 + st.len - 1 == |s| ==> d == OutOfInput
  {
    DecodeStop(s, p0 + st.len - 1, t, st.len, st.code, st.first, st.index);
  }

  lemma ProgressLoad(s: seq<bit>, p0: nat, q: nat, t: Table, st: Partial, d: Decoded, buf: nat, q': nat)
    requires Progress(s, p0, q, t, st, d) && p0 + st.len - 1 <= q' <= |s| && buf == Value(s[p0 + st.len - 1..q'])
    ensures Progress(s, p0, q', t, st.(buf := buf), d)
  {
  }
}
