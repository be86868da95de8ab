/** File allocation table entries as they are packed into bytes. */
module FatTable {
  import opened Machine
  import BitStream

  datatype Kind = Fat12 | Fat16 | Fat32 | ExFat

  /** First byte of the entry of cluster c, and how many bytes it touches. */
  function First(kind: Kind, c: nat): nat {
    match kind
    case Fat12 => c + c / 2
    case Fat16 => 2 * c
    case Fat32 => 4 * c
    case ExFat => 4 * c
  }

  function Width(kind: Kind): nat {
    if kind.Fat12? || kind.Fat16? then 2 else 4
  }

  ghost predicate InTable(kind: Kind, F: seq<byte>, c: nat) {
    First(kind, c) + Width(kind) <= |F|
  }

  /** What an entry can hold. */
  function Limit(kind: Kind): nat {
    match kind
    case Fat12 => 0x1000
    case Fat16 => 0x1_0000
    case Fat32 => 0x1000_0000
    case ExFat => 0x8000_0000
  }

  function Ld16(F: seq<byte>, k: nat): nat
    requires k + 2 <= |F|
  {
    F[k] as int + 0x100 * F[k + 1] as int
  }

  function Entry(kind: Kind, F: seq<byte>, c: nat): (r: nat)
    requires InTable(kind, F, c)
    ensures r < Limit(kind)
  {
    var b := First(kind, c);
    match kind
    case Fat12 => if c % 2 == 1 then Ld16(F, b) / 0x10 else Ld16(F, b) % 0x1000
    case Fat16 => Ld16(F, b)
    case Fat32 => Ld32(F[b..b + 4]) % 0x1000_0000
    case ExFat => Ld32(F[b..b + 4]) % 0x8000_0000
  }

  /** The bytes s written at k. */
  function Store(F: seq<byte>, k: nat, s: seq<byte>): (r: seq<byte>)
    requires k + |s| <= |F|
    ensures |r| == |F|
    ensures forall i :: 0 <= i < |F| ==> r[i] == if k <= i < k + |s| then s[i - k] else F[i]
  {
    F[..k] + s + F[k + |s|..]
  }

  /** The two bytes of a twelve-bit entry; each may share a byte with the entry next to it. */
  function LowByte(c: nat, p: byte, val: nat): byte {
    if c % 2 == 1 then p as int % 0x10 + 0x10 * (val % 0x10) else val % 0x100
  }

  function HighByte(c: nat, p: byte, val: nat): byte {
    if c % 2 == 1 then val / 0x10 % 0x100 else p as int / 0x10 * 0x10 + val / 0x100 % 0x10
  }

  /** The bytes of the entry of c, and their neighbours inside them, after storing val. */
  function NewBytes(kind: Kind, F: seq<byte>, c: nat, val: nat): (r: seq<byte>)
    requires InTable(kind, F, c)
    ensures |r| == Width(kind)
  {
    var b := First(kind, c);
    match kind
    case Fat12 => [LowByte(c, F[b], val), HighByte(c, F[b + 1], val)]
    case Fat16 => [val % 0x100, val / 0x100 % 0x100]
    case Fat32 => Le32(val % 0x1000_0000 + Ld32(F[b..b + 4]) as int / 0x1000_0000 * 0x1000_0000)
    case ExFat => Le32(val % TWO32)
  }

  function Put(kind: Kind, F: seq<byte>, c: nat, val: nat): (r: seq<byte>)
    requires InTable(kind, F, c)
    ensures |r| == |F| && forall d: nat :: InTable(kind, r, d) <==> InTable(kind, F, d)
  {
    Store(F, First(kind, c), NewBytes(kind, F, c, val))
  }

  /** Reading the bytes just stored. */
  lemma LoadStored(F: seq<byte>, k: nat, s: seq<byte>, j: nat, n: nat)
    requires k + |s| <= |F| && j + n <= |F|
    ensures j == k && n == |s| ==> Store(F, k, s)[j..j + n] == s
    ensures j + n <= k || k + |s| <= j ==> Store(F, k, s)[j..j + n] == F[j..j + n]
  {
  }

  lemma OddNibbles(x: nat, val: nat)
    requires x < 0x10
    ensures var w := x + 0x10 * (val % 0x10) + 0x100 * (val / 0x10 % 0x100);
            w / 0x10 == val % 0x1000 && w % 0x10 == x
  {
    var a, b := val % 0x10, val / 0x10 % 0x100;
    assert val % 0x1000 == a + 0x10 * b;
    BitStream.DivModUnique(x, a + 0x10 * b, 0x10);
  }

  lemma EvenNibbles(y: nat, val: nat)
    requires y < 0x10
    ensures var w := val % 0x100 + 0x100 * (y * 0x10 + val / 0x100 % 0x10);
            w % 0x1000 == val % 0x1000 && w / 0x1000 == y
  {
    var d, e := val % 0x100, val / 0x100 % 0x10;
    assert val % 0x1000 == d + 0x100 * e;
    BitStream.DivModUnique(d + 0x100 * e, y, 0x1000);
  }

  /** The stored entry comes back cut to what an entry can hold, and every other entry keeps its value. */
  lemma PutGet(kind: Kind, F: seq<byte>, c: nat, val: nat, d: nat)
    requires InTable(kind, F, c) && InTable(kind, F, d)
    ensures Entry(kind, Put(kind, F, c, val), d) == if d == c then val % Limit(kind) else Entry(kind, F, d)
  {
    hide Put, Entry;
    match kind
    case Fat12 => PutGet12(F, c, val, d);
    case Fat16 => PutGet16(F, c, val, d);
    case Fat32 => PutGet32(kind, F, c, val, d);
    case ExFat => PutGet32(kind, F, c, val, d);
  }

  lemma PutGet16(F: seq<byte>, c: nat, val: nat, d: nat)
    requires InTable(Fat16, F, c) && InTable(Fat16, F, d)
    ensures Entry(Fat16, Put(Fat16, F, c, val), d) == if d == c then val % 0x1_0000 else Entry(Fat16, F, d)
  {
    var s := [val % 0x100, val / 0x100 % 0x100];
    TwoBytes(val);
    assert NewBytes(Fat16, F, c, val) == s;
    LoadStored(F, 2 * c, s, 2 * d, 2);
    PairAt(F, 2 * d);
    PairAt(Store(F, 2 * c, s), 2 * d);
  }

  lemma TwoBytes(val: nat)
    ensures val % 0x1_0000 == val % 0x100 + 0x100 * (val / 0x100 % 0x100)
  {
    var q := val / 0x100;
    BitStream.DivModUnique(val % 0x100 + 0x100 * (q % 0x100), q / 0x100, 0x1_0000);
  }

  lemma PairAt(F: seq<byte>, k: nat)
    requires k + 2 <= |F|
    ensures Ld16(F, k) == F[k..k + 2][0] as int + 0x100 * F[k..k + 2][1] as int
  {
  }

  lemma PutGet32(kind: Kind, F: seq<byte>, c: nat, val: nat, d: nat)
    requires (kind.Fat32? || kind.ExFat?) && InTable(kind, F, c) && InTable(kind, F, d)
    ensures Entry(kind, Put(kind, F, c, val), d) == if d == c then val % Limit(kind) else Entry(kind, F, d)
  {
    hide Le32, Ld32, Store;
    var s := NewBytes(kind, F, c, val);
    LoadStored(F, 4 * c, s, 4 * d, 4);
    if c == d {
      if kind.Fat32? {
        var top := Ld32(F[4 * c..4 * c + 4]) as int / 0x1000_0000;
        LoadStore32(val % 0x1000_0000 + top * 0x1000_0000);
        BitStream.DivModUnique(val % 0x1000_0000, top, 0x1000_0000);
      } else {
        LoadStore32(val % TWO32);
        HalfWord(val);
      }
    }
  }

  lemma HalfWord(val: nat)
    ensures val % TWO32 % 0x8000_0000 == val % 0x8000_0000
  {
    var q := val / TWO32;
    assert val == TWO32 * q + val % TWO32;
    var r, t := val % TWO32 % 0x8000_0000, val % TWO32 / 0x8000_0000;
    assert val == r + 0x8000_0000 * (2 * q + t);
    BitStream.DivModUnique(r, 2 * q + t, 0x8000_0000);
  }

  lemma PutGet12(F: seq<byte>, c: nat, val: nat, d: nat)
    requires InTable(Fat12, F, c) && InTable(Fat12, F, d)
    ensures Entry(Fat12, Put(Fat12, F, c, val), d) == if d == c then val % 0x1000 else Entry(Fat12, F, d)
  {
    if c == d {
      Same12(F, c, val);
    } else {
      Other12(F, c, val, d);
    }
  }

  lemma Same12(F: seq<byte>, c: nat, val: nat)
    requires InTable(Fat12, F, c)
    ensures Entry(Fat12, Put(Fat12, F, c, val), c) == val % 0x1000
  {
    var b := First(Fat12, c);
    if c % 2 == 1 {
      OddNibbles(F[b] as int % 0x10, val);
    } else {
      EvenNibbles(F[b + 1] as int / 0x10, val);
    }
  }

  lemma Other12(F: seq<byte>, c: nat, val: nat, d: nat)
    requires InTable(Fat12, F, c) && InTable(Fat12, F, d) && c != d
    ensures Entry(Fat12, Put(Fat12, F, c, val), d) == Entry(Fat12, F, d)
  {
    var b, e := First(Fat12, c), First(Fat12, d);
    var s := NewBytes(Fat12, F, c, val);
    var G := Store(F, b, s);
    if c % 2 == 1 && d == c - 1 {
      KeptLow(F[b], val);
      assert G[b] as int % 0x10 == F[b] as int % 0x10 && G[e] == F[e] && b == e + 1;
      LowTwelve(F[e], F[b], G[b]);
    } else if c % 2 == 0 && d == c + 1 {
      KeptHigh(F[b + 1], val);
      assert G[b + 1] as int / 0x10 == F[b + 1] as int / 0x10 && G[e + 1] == F[e + 1] && e == b + 1;
      HighTwelve(F[b + 1], G[b + 1], F[e + 1]);
    } else {
      assert e + 2 <= b || b + 2 <= e;
    }
  }

  lemma KeptLow(x: byte, val: nat)
    ensures (x as int % 0x10 + 0x10 * (val % 0x10)) % 0x10 == x as int % 0x10
  {
  }

  lemma KeptHigh(x: byte, val: nat)
    ensures (x as int / 0x10 * 0x10 + val / 0x100 % 0x10) / 0x10 == x as int / 0x10
  {
  }

  /** Entries that share a byte do not share a nibble. */
  lemma LowTwelve(x: byte, y: byte, z: byte)
    requires y as int % 0x10 == z as int % 0x10
    ensures (x as int + 0x100 * y as int) % 0x1000 == (x as int + 0x100 * z as int) % 0x1000
  {
    var r := x as int + 0x100 * (y as int % 0x10);
    BitStream.DivModUnique(r, y as int / 0x10, 0x1000);
    BitStream.DivModUnique(r, z as int / 0x10, 0x1000);
  }

  lemma HighTwelve(x: byte, y: byte, z: byte)
    requires x as int / 0x10 == y as int / 0x10
    ensures (x as int + 0x100 * z as int) / 0x10 == (y as int + 0x100 * z as int) / 0x10
  {
    var q := x as int / 0x10 + 0x10 * z as int;
    BitStream.DivModUnique(x as int % 0x10, q, 0x10);
    BitStream.DivModUnique(y as int % 0x10, q, 0x10);
  }

  /** Storing into a FAT32 entry keeps its reserved top four bits. */
  lemma PutKeepsTop(F: seq<byte>, c: nat, val: nat)
    requires InTable(Fat32, F, c)
    ensures Ld32(Put(Fat32, F, c, val)[4 * c..4 * c + 4]) as int / 0x1000_0000 ==
      Ld32(F[4 * c..4 * c + 4]) as int / 0x1000_0000
  {
    hide Le32, Ld32, Store;
    var top := Ld32(F[4 * c..4 * c + 4]) as int / 0x1000_0000;
    LoadStored(F, 4 * c, NewBytes(Fat32, F, c, val), 4 * c, 4);
    LoadStore32(val % 0x1000_0000 + top * 0x1000_0000);
  }

  /** The first n entries of a table. */
  ghost function Entries(kind: Kind, F: seq<byte>, n: nat): (f: seq<nat>)
    requires forall c :: 0 <= c < n ==> InTable(kind, F, c)
    ensures |f| == n && forall c :: 0 <= c < n ==> f[c] == Entry(kind, F, c) < Limit(kind)
  {
    seq(n, c requires 0 <= c < n && InTable(kind, F, c) => Entry(kind, F, c))
  }

  lemma PutEntries(kind: Kind, F: seq<byte>, n: nat, c: nat, val: nat)
    requires (forall d :: 0 <= d < n ==> InTable(kind, F, d)) && c < n
    ensures Entries(kind, Put(kind, F, c, val), n) == Entries(kind, F, n)[c := val % Limit(kind)]
  {
    hide Put, Entry;
    forall d: nat | d < n
      ensures Entry(kind, Put(kind, F, c, val), d) == if d == c then val % Limit(kind) else Entry(kind, F, d) {
      PutGet(kind, F, c, val, d);
    }
  }
}
