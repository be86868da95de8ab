/** The read-only marks of the system allocator, one bit a unit, packed into bytes behind its word tables. */
module ReadOnlyFlags {
  import opened Machine
  import opened BitStream
  import opened MemTable
  import opened FreeList

  /** Where the marks begin: behind four tables of a word for every unit. */
  function FlagLo(n: nat): nat {
    16 * n
  }

  function FlagHi(n: nat): nat {
    16 * n + (n + 7) / 8
  }

  /** The byte of the mark of unit i. */
  function FlagAt(n: nat, i: nat): nat {
    16 * n + i / 8
  }

  function IsSet(b: byte, k: nat): bool
    requires k < 8
  {
    LowBits(b, 8)[k] == 1
  }

  /** The first n marks in a sequence of bytes. */
  function FlagsOf(s: seq<byte>, n: nat): (r: seq<bool>)
    requires n <= 8 * |s|
    ensures |r| == n
  {
    seq(n, i requires 0 <= i < n => IsSet(s[i / 8], i % 8))
  }

  function Changed(b: byte, k: nat, x: bool): byte
    requires k < 8
  {
    WithBit(b, k, if x then 1 else 0)
  }

  /** Changing one bit of one byte changes one mark. */
  lemma ChangedFlag(s: seq<byte>, n: nat, i: nat, x: bool)
    requires i < n <= 8 * |s|
    ensures i / 8 < |s| && FlagsOf(s[i / 8 := Changed(s[i / 8], i % 8, x)], n) == FlagsOf(s, n)[i := x]
  {
    hide LowBits, WithBit;
    var t := s[i / 8 := Changed(s[i / 8], i % 8, x)];
    forall j | 0 <= j < n
      ensures FlagsOf(t, n)[j] == FlagsOf(s, n)[i := x][j]
    {
      assert j / 8 == i / 8 && j % 8 == i % 8 ==> j == i;
    }
  }

  // ----- where the marks end -----

  /** All marks lie in the block of the tables. */
  predicate FlagsFit(n: nat)
    requires 0 < n < 0x1_0000
  {
    FlagAt(n, n - 1) < Units(TableSize(n)) * UNIT
  }

  lemma FlagPlaces(n: nat)
    requires 0 < n < 0x1_0000
    ensures FlagAt(n, n - 1) + 1 == FlagHi(n)
    ensures n % 8 == 0 ==> FlagHi(n) == TableSize(n)
    ensures n % 8 != 0 ==> FlagHi(n) == TableSize(n) + 1
    ensures forall i :: 0 <= i < n ==> FlagLo(n) <= FlagAt(n, i) < FlagHi(n)
  {
  }

  /** The size of the tables counts whole bytes of marks only: an incomplete last byte lies behind it, and outside the
      block of the tables exactly if they end at the end of a unit. */
  lemma FlagsFitIff(n: nat)
    requires 0 < n < 0x1_0000
    ensures FlagsFit(n) <==> n % 8 == 0 || TableSize(n) % UNIT != 0
  {
    FlagPlaces(n);
    TableSizeBounds(n);
    RoundedUp(TableSize(n));
    hide Units, TableSize;
  }

  lemma RoundedUp(size: u32)
    requires size <= MAXSIZE
    ensures size <= Units(size) * UNIT && (Units(size) * UNIT == size <==> size % UNIT == 0)
  {
  }

  /** Then the marks of the last units are bits of the first byte behind that block. */
  lemma FlagOutside(n: nat, i: nat)
    requires 0 < n < 0x1_0000 && !FlagsFit(n) && n / 8 * 8 <= i < n
    ensures FlagAt(n, i) == Units(TableSize(n)) * UNIT
  {
    FlagsFitIff(n);
    FlagPlaces(n);
    TableSizeBounds(n);
  }

  /** The heap sizes below 4 GB for which this happens. */
  lemma FlagOutsideSizes(n: nat)
    requires 0 < n < 0x1_0000
    ensures !FlagsFit(n) <==> n == 16257 || n == 32514 || n == 48771 || n == 65028
  {
    FlagsFitIff(n);
    var q: nat, r: nat := n / 8, n % 8;
    assert TableSize(n) == 129 * q + 16 * r;
    if TableSize(n) % UNIT == 0 { WholeUnits(q, r, TableSize(n) / UNIT); }
  }

  lemma WholeUnits(q: nat, r: nat, k: nat)
    requires r < 8 && 8 * q + r < 0x1_0000 && 129 * q + 16 * r == UNIT * k
    ensures k == 4 * r && q == 2032 * r
  {
    assert 129 * (q - 508 * k) == 4 * k - 16 * r;
  }

  // ----- what a mark outside does -----

  /** Changing a bit of the first byte of a header changes its signature. */
  lemma SignChanges(s: seq<byte>, k: nat, x: bool)
    requires |s| == HDR && k < 8 && IsSet(s[0], k) != x
    ensures Unpack(s[0 := Changed(s[0], k, x)]).sign != Unpack(s).sign
  {
    var b, c := s[0], Changed(s[0], k, x);
    assert LowBits(c, 8)[k] == (if x then 1 else 0);
    assert b != c;
    hide LowBits, WithBit;
    var t := s[0 := c];
    assert t[..4] == [c, s[1], s[2], s[3]] && s[..4] == [b, s[1], s[2], s[3]];
  }

  /**
   * Storing a mark that lies outside into the memory of a heap destroys the header of a free block that stands there.
   */
  lemma MarkBreaksHeader(mem: seq<byte>, n: nat, i: nat, x: bool)
    requires 0 < n < 0x1_0000 && !FlagsFit(n) && n / 8 * 8 <= i < n && FlagAt(n, i) + HDR <= |mem|
    requires Unpack(mem[FlagAt(n, i)..FlagAt(n, i) + HDR]).sign == FREE_SIGN && IsSet(mem[FlagAt(n, i)], i % 8) != x
    ensures var at := Units(TableSize(n)) * UNIT;
            && at + HDR <= |mem| && at == FlagAt(n, i)
            && Unpack(mem[at := Changed(mem[at], i % 8, x)][at..at + HDR]).sign != FREE_SIGN
  {
    FlagOutside(n, i);
    var at := FlagAt(n, i);
    var s := mem[at..at + HDR];
    SignChanges(s, i % 8, x);
    assert mem[at := Changed(mem[at], i % 8, x)][at..at + HDR] == s[0 := Changed(s[0], i % 8, x)];
  }

  // ----- the marks memmgr_init leaves -----

  /** The marks at the start: those of an incomplete last byte are whatever the memory held. */
  function InitialFlags(n: nat, ram: seq<byte>): (r: seq<bool>)
    requires FlagHi(n) <= |ram|
    ensures |r| == n
  {
    seq(n, i requires 0 <= i < n => if i < Sure(n) then i == 0 else IsSet(ram[FlagAt(n, i)], i % 8))
  }

  lemma SureAtStart(n: nat, ram: seq<byte>)
    requires 0 < n && FlagHi(n) <= |ram|
    ensures |InitialFlags(n, ram)| == n && forall i :: 0 <= i < Sure(n) ==> (InitialFlags(n, ram)[i] <==> i == 0)
  {
  }

  lemma {:induction false} ZeroBits(n: nat)
    ensures forall k :: 0 <= k < n ==> LowBits(0, n)[k] == 0
  {
    if n > 0 { ZeroBits(n - 1); }
  }

  lemma SmallBytes(k: nat)
    requires k < 8
    ensures !IsSet(0, k) && (IsSet(1, k) <==> k == 0)
  {
    ZeroBits(8);
    ZeroBits(7);
    assert LowBits(1, 8) == [1] + LowBits(0, 7);
  }

  lemma ByteOf(i: nat, n: nat)
    requires i < n
    ensures i / 8 <= n / 8 && (i / 8 == 0 <==> i < 8) && i % 8 < 8 && (i < 8 ==> i % 8 == i)
  {
  }

  lemma MarksCleared(n: nat, s: seq<byte>, ram: seq<byte>)
    requires 0 < n && FlagHi(n) <= |ram| && |s| == FlagHi(n) - FlagLo(n)
    requires s[0] == 1
    requires forall k :: 1 <= k < |s| ==> s[k] == if k < n / 8 then 0 else ram[FlagLo(n) + k]
    ensures FlagsOf(s, n) == InitialFlags(n, ram)
  {
    forall i | 0 <= i < n
      ensures FlagsOf(s, n)[i] == InitialFlags(n, ram)[i]
    {
      SmallBytes(i % 8);
      hide IsSet;
      ByteOf(i, n);
    }
  }

  /** All marks but that of the tables are clear at the start, whatever the memory held, exactly if the number of
      units is a multiple of eight. */
  lemma CleanStartIff(n: nat)
    requires 8 <= n
    ensures (forall ram: seq<byte>, i: nat | |ram| == FlagHi(n) && 0 < i < n :: !InitialFlags(n, ram)[i]) <==>
      n % 8 == 0
  {
    if n % 8 != 0 {
      var ram: seq<byte> := seq(FlagHi(n), _ => 0xFF);
      StaleLast(n, ram);
    } else {
      forall ram: seq<byte>, i: nat | |ram| == FlagHi(n) && 0 < i < n
        ensures !InitialFlags(n, ram)[i]
      {
        SureAtStart(n, ram);
        assert Sure(n) == n;
      }
    }
  }

  /** Memory full of ones marks the last unit. */
  lemma StaleLast(n: nat, ram: seq<byte>)
    requires 8 <= n && n % 8 != 0 && |ram| == FlagHi(n) && forall a | 0 <= a < |ram| :: ram[a] == 0xFF
    ensures InitialFlags(n, ram)[n - 1]
  {
    hide *;
    LastPlace(n);
    var k := (n - 1) % 8;
    InitialAt(n, ram, n - 1);
    FullByte(k);
  }

  lemma InitialAt(n: nat, ram: seq<byte>, i: nat)
    requires FlagHi(n) <= |ram| && i < n && FlagAt(n, i) < |ram|
    ensures InitialFlags(n, ram)[i] == if i < Sure(n) then i == 0 else IsSet(ram[FlagAt(n, i)], i % 8)
  {
    hide IsSet, Sure, FlagAt, FlagHi;
  }

  lemma LastPlace(n: nat)
    requires 8 <= n && n % 8 != 0
    ensures Sure(n) <= n - 1 && FlagAt(n, n - 1) < FlagHi(n)
  {
  }

  /** A heap of 1001 units: the byte of the last mark is the one behind the tables. */
  lemma StaleExample(ram: seq<byte>)
    requires |ram| == FlagHi(1001) && ram[16141] == 0xFF
    ensures FlagsFit(1001) && TableSize(1001) == 16141 == FlagAt(1001, 1000) && InitialFlags(1001, ram)[1000]
  {
    FlagsFitIff(1001);
    FullByte(0);
  }

  lemma FullByte(k: nat)
    requires k < 8
    ensures IsSet(0xFF, k)
  {
    Pow8();
    OnesBits(0xFF, 8, k);
  }

  lemma {:induction false} OnesBits(x: nat, n: nat, k: nat)
    requires k < n && x + 1 == Pow2(n)
    ensures LowBits(x, n)[k] == 1
  {
    if k > 0 { OnesBits(x / 2, n - 1, k - 1); }
  }
}
