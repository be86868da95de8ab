/** Long file names packed into directory slots of thirteen UTF-16 units. */
module LongNames {
  import opened Machine
  import opened FatTable

  const MAX_LFN: nat := 255
  const LLEF: nat := 0x40
  const AM_LFN: byte := 0x0F
  const SLOT: nat := 32

  /** Where the units of a slot stand. */
  const LFN_OFS: seq<nat> := [1, 3, 5, 7, 9, 14, 16, 18, 20, 22, 24, 28, 30]

  function Ofs(s: nat): (r: nat)
    requires s < 13
    ensures r == if s < 5 then 1 + 2 * s else if s < 11 then 4 + 2 * s else 6 + 2 * s
  {
    LFN_OFS[s]
  }

  // ----- what a slot says -----

  function Unit(D: seq<byte>, at: nat, s: nat): nat
    requires at + SLOT <= |D| && s < 13
  {
    Ld16(D, at + Ofs(s))
  }

  /** A name as put into slots: its units, a terminator, then padding. */
  function Piece(name: seq<u16>, i: nat): u16 {
    if i < |name| then name[i] else if i == |name| then 0 else 0xFFFF
  }

  function Position(ord: nat, s: nat): nat
    requires ord > 0
  {
    (ord - 1) * 13 + s
  }

  function OrdByte(name: seq<u16>, ord: nat): nat {
    if |name| <= 13 * ord then ord + 0x40 else ord
  }

  ghost predicate Heads(D: seq<byte>, at: nat, sum: byte)
    requires at + SLOT <= |D|
  {
    D[at + 11] == 0x0F && D[at + 12] == 0 && D[at + 13] == sum && D[at + 26] == 0 && D[at + 27] == 0
  }

  ghost predicate FirstUnits(D: seq<byte>, at: nat, name: seq<u16>, ord: nat, n: nat)
    requires at + SLOT <= |D| && n <= 13 && ord > 0
  {
    forall s :: 0 <= s < n ==> Unit(D, at, s) == Piece(name, Position(ord, s))
  }

  /** The 32 bytes at the given place are part ord of the name. */
  ghost predicate IsSlot(D: seq<byte>, at: nat, name: seq<u16>, ord: nat, sum: byte)
    requires at + SLOT <= |D| && ord > 0
  {
    D[at] == OrdByte(name, ord) && Heads(D, at, sum) && FirstUnits(D, at, name, ord, 13)
  }

  ghost predicate OnlySlot(D: seq<byte>, E: seq<byte>, at: nat) {
    |D| == |E| && forall k | 0 <= k < |D| && !(at <= k < at + 32) :: D[k] == E[k]
  }

  /** The buffer holds the name and its terminator. */
  ghost predicate Named(lfn: seq<u16>, name: seq<u16>) {
    |name| < |lfn| && lfn[..|name|] == name && lfn[|name|] == 0
    && Clean(name)
  }

  // ----- put_lfn -----

  method StWord(dir: array<byte>, k: nat, v: u16)
    requires k + 2 <= dir.Length
    modifies dir
    ensures dir[..] == old(dir[..])[k := v % 0x100][k + 1 := v / 0x100]
  {
    dir[k], dir[k + 1] := v % 0x100, v / 0x100;
  }

  lemma UnitStored(D: seq<byte>, E: seq<byte>, at: nat, name: seq<u16>, ord: nat, sum: byte, s: nat, v: u16)
    requires at + SLOT <= |D| && s < 13 && ord > 0
    requires Heads(D, at, sum) && FirstUnits(D, at, name, ord, s) && v == Piece(name, Position(ord, s))
    requires E == D[at + Ofs(s) := v % 0x100][at + Ofs(s) + 1 := v / 0x100]
    ensures |E| == |D| && Heads(E, at, sum) && FirstUnits(E, at, name, ord, s + 1) && OnlySlot(D, E, at)
  {
    hide Position, Piece;
    forall t | 0 <= t < s + 1
      ensures Unit(E, at, t) == Piece(name, Position(ord, t))
    {
      if t < s {
        assert Unit(D, at, t) == Piece(name, Position(ord, t));
        assert Ofs(t) + 2 <= Ofs(s);
      }
    }
  }

  lemma OnlySlotTrans(D: seq<byte>, E: seq<byte>, F: seq<byte>, at: nat)
    requires OnlySlot(D, E, at) && OnlySlot(E, F, at)
    ensures OnlySlot(D, F, at)
  {
  }

  method PutHeads(dir: array<byte>, at: nat, sum: byte)
    requires at + SLOT <= dir.Length
    modifies dir
    ensures Heads(dir[..], at, sum) && OnlySlot(old(dir[..]), dir[..], at)
  {
    dir[at + 13] := sum;
    dir[at + 11] := AM_LFN;
    dir[at + 12] := 0;
    StWord(dir, at + 26, 0);
  }

  lemma OrdStored(D: seq<byte>, at: nat, name: seq<u16>, ord: nat, sum: byte)
    requires at + SLOT <= |D| && 0 < ord && OrdByte(name, ord) < 0x100
    requires Heads(D, at, sum) && FirstUnits(D, at, name, ord, 13)
    ensures IsSlot(D[at := OrdByte(name, ord)], at, name, ord, sum) && OnlySlot(D, D[at := OrdByte(name, ord)], at)
  {
    hide OrdByte, Piece, Position;
    var E := D[at := OrdByte(name, ord)];
    forall s | 0 <= s < 13
      ensures Unit(E, at, s) == Piece(name, Position(ord, s))
    {
      assert Unit(D, at, s) == Piece(name, Position(ord, s));
    }
  }

  lemma PieceAt(lfn: seq<u16>, name: seq<u16>, i: nat)
    requires Named(lfn, name) && i <= |name|
    ensures i < |lfn| && lfn[i] == Piece(name, i) && (lfn[i] == 0 <==> i == |name|) && lfn[i] != 0xFFFF
  {
    if i < |name| { assert lfn[..|name|][i] == name[i]; }
  }

  /** One part of the name becomes one slot; only the top part carries the last-entry flag. */
  method PutLfn(lfn: array<u16>, dir: array<byte>, at: nat, ord: nat, sum: byte, ghost name: seq<u16>)
    requires Named(lfn[..], name) && at + SLOT <= dir.Length
    requires 0 < ord <= 20 && (ord - 1) * 13 <= |name|
    modifies dir
    ensures IsSlot(dir[..], at, name, ord, sum) && OnlySlot(old(dir[..]), dir[..], at)
  {
    hide Heads, FirstUnits, OnlySlot, IsSlot, Named, Piece, OrdByte, Position;
    PutHeads(dir, at, sum);
    var i: nat := (ord - 1) * 13;
    var s: nat := 0;
    var wc: u16 := 0;
    NoUnits(dir[..], at, name, ord);
    while s < 13
      invariant s <= 13 && i == (if Position(ord, s) <= |name| then Position(ord, s) else |name| + 1)
      invariant wc == 0xFFFF <==> Position(ord, s) > |name|
      invariant Heads(dir[..], at, sum) && FirstUnits(dir[..], at, name, ord, s)
      invariant OnlySlot(old(dir[..]), dir[..], at)
    {
      ghost var D := dir[..];
      NextPosition(ord, s);
      if wc != 0xFFFF {
        PieceAt(lfn[..], name, i);
        wc := lfn[i];
        i := i + 1;
      } else {
        PieceBeyond(name, Position(ord, s));
      }
      StWord(dir, at + Ofs(s), wc);
      UnitStored(D, dir[..], at, name, ord, sum, s, wc);
      OnlySlotTrans(old(dir[..]), D, dir[..], at);
      if wc == 0 { wc := 0xFFFF; }
      s := s + 1;
    }
    var last := wc == 0xFFFF;
    if !last {
      PieceAt(lfn[..], name, i);
      last := lfn[i] == 0;
    }
    OrdIs(name, ord, last);
    ghost var D := dir[..];
    dir[at] := if last then ord + LLEF else ord;
    OrdStored(D, at, name, ord, sum);
    OnlySlotTrans(old(dir[..]), D, dir[..], at);
  }

  lemma OrdIs(name: seq<u16>, ord: nat, last: bool)
    requires 0 < ord <= 20 && last == (Position(ord, 13) >= |name|)
    ensures OrdByte(name, ord) == (if last then ord + LLEF else ord)
  {
  }

  lemma NoUnits(D: seq<byte>, at: nat, name: seq<u16>, ord: nat)
    requires at + SLOT <= |D| && 0 < ord
    ensures FirstUnits(D, at, name, ord, 0) && Position(ord, 0) == (ord - 1) * 13
  {
  }

  lemma NextPosition(ord: nat, s: nat)
    requires 0 < ord
    ensures Position(ord, s + 1) == Position(ord, s) + 1
  {
  }

  lemma PieceBeyond(name: seq<u16>, i: nat)
    requires i > |name|
    ensures Piece(name, i) == 0xFFFF
  {
  }

  // ----- pick_lfn -----

  /** How many units of the slot belong to the name: all up to the first zero. */
  function Kept(D: seq<byte>, at: nat, s: nat): (r: nat)
    requires at + SLOT <= |D| && s <= 13
    ensures s <= r <= 13
    ensures forall t :: s <= t < r - 1 ==> Unit(D, at, t) != 0
    ensures r < 13 ==> r > s && Unit(D, at, r - 1) == 0
    decreases 13 - s
  {
    if s == 13 then 13 else if Unit(D, at, s) == 0 then s + 1 else Kept(D, at, s + 1)
  }

  /** Where the slot's units go; order 0 wraps around below zero. */
  function Start(D: seq<byte>, at: nat): nat
    requires at + SLOT <= |D|
  {
    if D[at] as int % 0x40 == 0 then TWO32 - 13 else (D[at] as int % 0x40 - 1) * 13
  }

  function IsTop(D: seq<byte>, at: nat): bool
    requires at + SLOT <= |D|
  {
    D[at] as int / 0x40 % 2 == 1
  }

  ghost predicate Padded(D: seq<byte>, at: nat, from: nat, to: nat)
    requires at + SLOT <= |D| && to <= 13
  {
    forall s :: from <= s < to ==> Unit(D, at, s) == 0xFFFF
  }

  ghost predicate Readable(D: seq<byte>, at: nat)
    requires at + SLOT <= |D|
  {
    && Ld16(D, at + 26) == 0
    && Padded(D, at, Kept(D, at, 0), 13)
    && Start(D, at) + Kept(D, at, 0) <= 255
    && (IsTop(D, at) ==> Start(D, at) + Kept(D, at, 0) < 255)
  }

  /** The first n units of the slot copied to their place, everything else as before. */
  ghost predicate Copied(was: seq<u16>, now: seq<u16>, D: seq<byte>, at: nat, n: nat)
    requires at + SLOT <= |D| && n <= 13
  {
    |now| == |was|
    && forall k | 0 <= k < |was| ::
         now[k] == (if Start(D, at) <= k < Start(D, at) + n then Unit(D, at, k - Start(D, at)) else was[k])
  }

  ghost predicate Picked(was: seq<u16>, now: seq<u16>, D: seq<byte>, at: nat)
    requires at + SLOT <= |D|
  {
    var end := Start(D, at) + Kept(D, at, 0);
    if IsTop(D, at) then end < |was| && exists mid: seq<u16> ::
      Copied(was, mid, D, at, Kept(D, at, 0))
      && now == mid[end := 0]
    else Copied(was, now, D, at, Kept(D, at, 0))
  }

  /** Nothing outside the slot's own stretch was touched. */
  ghost predicate OnlyStretch(was: seq<u16>, now: seq<u16>, start: nat) {
    |now| == |was| && forall k | 0 <= k < |was| && !(start <= k < start + 14) :: now[k] == was[k]
  }

  lemma CopiedNext(was: seq<u16>, mid: seq<u16>, D: seq<byte>, at: nat, s: nat)
    requires at + SLOT <= |D| && s < 13 && Copied(was, mid, D, at, s) && Start(D, at) + s < |was|
    ensures Unit(D, at, s) < 0x1_0000
    ensures Copied(was, mid[Start(D, at) + s := Unit(D, at, s)], D, at, s + 1)
  {
    hide Start;
  }

  lemma CopiedNone(was: seq<u16>, D: seq<byte>, at: nat)
    requires at + SLOT <= |D|
    ensures Copied(was, was, D, at, 0)
  {
  }

  lemma CopiedFrame(was: seq<u16>, now: seq<u16>, D: seq<byte>, at: nat, n: nat)
    requires at + SLOT <= |D| && n <= 13 && Copied(was, now, D, at, n)
    ensures OnlyStretch(was, now, Start(D, at))
  {
    hide Start;
  }

  lemma KeptNext(D: seq<byte>, at: nat, s: nat)
    requires at + SLOT <= |D| && s < 13
    ensures Kept(D, at, s) == if Unit(D, at, s) == 0 then s + 1 else Kept(D, at, s + 1)
    ensures Kept(D, at, 13) == 13
  {
  }

  /** A slot that breaks one of the rules is not readable. */
  lemma Overflows(D: seq<byte>, at: nat, s: nat)
    requires at + SLOT <= |D| && s < 13 && Kept(D, at, 0) == Kept(D, at, s) && Start(D, at) + s >= MAX_LFN
    ensures !Readable(D, at)
  {
    hide Start, Unit;
    assert Kept(D, at, s) >= s + 1;
  }

  lemma NotPadded(D: seq<byte>, at: nat, s: nat)
    requires at + SLOT <= |D| && s < 13 && Kept(D, at, 0) <= s && Unit(D, at, s) != 0xFFFF
    ensures !Readable(D, at)
  {
    hide Start, Unit, Kept;
  }

  lemma PaddedNext(D: seq<byte>, at: nat, from: nat, s: nat)
    requires at + SLOT <= |D| && s < 13 && Padded(D, at, from, s) && Unit(D, at, s) == 0xFFFF
    ensures Padded(D, at, from, s + 1)
  {
    hide Unit;
  }

  lemma ReadableIs(D: seq<byte>, at: nat)
    requires at + SLOT <= |D| && Ld16(D, at + 26) == 0 && Padded(D, at, Kept(D, at, 0), 13)
    requires Start(D, at) + Kept(D, at, 0) <= MAX_LFN
    ensures Readable(D, at) <==> !(IsTop(D, at) && Start(D, at) + Kept(D, at, 0) >= MAX_LFN)
  {
    hide Start, Unit, Kept, IsTop, Padded;
  }

  lemma PickedIs(was: seq<u16>, mid: seq<u16>, D: seq<byte>, at: nat)
    requires at + SLOT <= |D| && Start(D, at) + Kept(D, at, 0) < |was|
    requires Copied(was, mid, D, at, Kept(D, at, 0))
    ensures |mid| == |was|
    ensures IsTop(D, at) ==> Picked(was, mid[Start(D, at) + Kept(D, at, 0) := 0], D, at)
    ensures OnlyStretch(was, mid[Start(D, at) + Kept(D, at, 0) := 0], Start(D, at))
    ensures !IsTop(D, at) ==> Picked(was, mid, D, at)
    ensures OnlyStretch(was, mid, Start(D, at))
  {
    hide Start, Unit, Kept, IsTop;
  }

  method LdUnit(dir: array<byte>, at: nat, s: nat) returns (uc: u16)
    requires at + SLOT <= dir.Length && s < 13
    ensures uc == Unit(dir[..], at, s)
  {
    uc := dir[at + LFN_OFS[s]] as int + 0x100 * dir[at + LFN_OFS[s] + 1] as int;
  }

  /** The terminator after the units of the top slot. */
  method Terminate(lfnbuf: array<u16>, dir: array<byte>, at: nat, i: nat, ghost was: seq<u16>) returns (ok: bool)
    requires lfnbuf.Length == MAX_LFN + 1 && at + SLOT <= dir.Length
    requires Ld16(dir[..], at + 26) == 0 && Padded(dir[..], at, Kept(dir[..], at, 0), 13)
    requires i == Start(dir[..], at) + Kept(dir[..], at, 0) <= MAX_LFN && |was| == lfnbuf.Length
    requires Copied(was, lfnbuf[..], dir[..], at, Kept(dir[..], at, 0))
    modifies lfnbuf
    ensures ok <==> Readable(dir[..], at)
    ensures ok ==> Picked(was, lfnbuf[..], dir[..], at)
    ensures OnlyStretch(was, lfnbuf[..], Start(dir[..], at))
  {
    hide Start, Unit, Kept, Readable, Picked, Copied, OnlyStretch, Padded;
    ghost var mid := lfnbuf[..];
    ReadableIs(dir[..], at);
    PickedIs(was, mid, dir[..], at);
    if dir[at] / LLEF % 2 == 1 {
      if i >= MAX_LFN { return false; }
      lfnbuf[i] := 0;
      assert lfnbuf[..] == mid[i := 0];
    }
    ok := true;
  }

  /** Succeeds exactly on readable slots, and then the slot's units stand in the buffer. */
  method PickLfn(lfnbuf: array<u16>, dir: array<byte>, at: nat) returns (ok: bool)
    requires lfnbuf.Length == MAX_LFN + 1 && at + SLOT <= dir.Length
    modifies lfnbuf
    ensures ok <==> Readable(dir[..], at)
    ensures ok ==> Picked(old(lfnbuf[..]), lfnbuf[..], dir[..], at)
    ensures OnlyStretch(old(lfnbuf[..]), lfnbuf[..], Start(dir[..], at))
  {
    hide Start, Unit, Kept, Readable, Picked, Copied, OnlyStretch, Padded;
    ghost var D := dir[..];
    ghost var was := lfnbuf[..];
    CopiedNone(was, D, at);
    CopiedFrame(was, was, D, at, 0);
    if dir[at + 26] != 0 || dir[at + 27] != 0 {
      NotReadable(D, at);
      return false;
    }
    var ord: nat := dir[at] % 0x40;
    var i: nat := if ord == 0 then TWO32 - 13 else (ord - 1) * 13;
    StartIs(D, at, ord);
    var wc: u16 := 1;
    for s := 0 to 13
      invariant wc != 0 ==> i == Start(D, at) + s && Kept(D, at, 0) == Kept(D, at, s) && (s > 0 ==> i <= MAX_LFN)
      invariant wc == 0 ==> i == Start(D, at) + Kept(D, at, 0) <= MAX_LFN
      invariant wc == 0 ==> Kept(D, at, 0) <= s && Padded(D, at, Kept(D, at, 0), s)
      invariant Copied(was, lfnbuf[..], D, at, if wc != 0 then s else Kept(D, at, 0))
    {
      var uc := LdUnit(dir, at, s);
      KeptNext(D, at, s);
      if wc != 0 {
        if i >= MAX_LFN {
          Overflows(D, at, s);
          CopiedFrame(was, lfnbuf[..], D, at, s);
          return false;
        }
        CopiedNext(was, lfnbuf[..], D, at, s);
        wc := uc;
        ghost var mid := lfnbuf[..];
        lfnbuf[i] := wc;
        assert lfnbuf[..] == mid[i := wc];
        i := i + 1;
        if wc == 0 { NothingPadded(D, at, s + 1); }
      } else {
        if uc != 0xFFFF {
          NotPadded(D, at, s);
          CopiedFrame(was, lfnbuf[..], D, at, Kept(D, at, 0));
          return false;
        }
        PaddedNext(D, at, Kept(D, at, 0), s);
      }
    }
    KeptNext(D, at, 0);
    assert Kept(D, at, 13) == 13;
    NothingPadded(D, at, 13);
    ok := Terminate(lfnbuf, dir, at, i, was);
  }

  lemma NothingPadded(D: seq<byte>, at: nat, s: nat)
    requires at + SLOT <= |D| && s <= 13
    ensures Padded(D, at, s, s)
  {
  }

  // ----- a whole name -----

  /** Slots a name takes. */
  function Parts(name: seq<u16>): nat {
    (|name| + 12) / 13
  }

  ghost predicate Clean(name: seq<u16>) {
    forall k | 0 <= k < |name| :: name[k] != 0 && name[k] != 0xFFFF
  }

  ghost predicate SlotAt(D: seq<byte>, at: nat, name: seq<u16>, sum: byte, ord: nat)
    requires 0 < ord <= Parts(name) && at + SLOT * Parts(name) <= |D|
  {
    IsSlot(D, at + 32 * (Parts(name) - ord), name, ord, sum)
  }

  /** The parts above the given one stand in the directory, top part first. */
  ghost predicate SlotsOf(D: seq<byte>, at: nat, name: seq<u16>, sum: byte, above: nat) {
    at + SLOT * Parts(name) <= |D|
    && forall ord | above < ord <= Parts(name) :: SlotAt(D, at, name, sum, ord)
  }

  ghost predicate Outside(D: seq<byte>, E: seq<byte>, at: nat, n: nat) {
    |D| == |E| && forall k | 0 <= k < |D| && !(at <= k < at + n) :: D[k] == E[k]
  }

  /** What pick_lfn makes of a slot that put_lfn wrote. */
  lemma SlotMeans(D: seq<byte>, at: nat, name: seq<u16>, ord: nat, sum: byte)
    requires at + SLOT <= |D| && 0 < ord <= Parts(name) && |name| <= MAX_LFN && Clean(name)
      && IsSlot(D, at, name, ord, sum)
    ensures Start(D, at) == (ord - 1) * 13 && (IsTop(D, at) <==> ord == Parts(name)) && D[at + 13] == sum
    ensures D[at] as int == if ord == Parts(name) then ord + LLEF else ord
    ensures Kept(D, at, 0) == if 13 * ord <= |name| then 13 else |name| + 1 - (ord - 1) * 13
    ensures forall s :: 0 <= s < Kept(D, at, 0) ==> Unit(D, at, s) == Piece(name, (ord - 1) * 13 + s)
    ensures Readable(D, at) <==> |name| <= 253 || ord < Parts(name)
  {
    hide Unit, Kept, Piece;
    forall s | 0 <= s < 13
      ensures Unit(D, at, s) == Piece(name, (ord - 1) * 13 + s)
    {
      assert Unit(D, at, s) == Piece(name, Position(ord, s));
    }
    var kept := if 13 * ord <= |name| then 13 else |name| + 1 - (ord - 1) * 13;
    KeptIs(D, at, name, (ord - 1) * 13, 0);
    forall s | kept <= s < 13
      ensures Unit(D, at, s) == 0xFFFF
    {
      PieceBeyond(name, (ord - 1) * 13 + s);
    }
  }

  lemma {:induction false} KeptIs(D: seq<byte>, at: nat, name: seq<u16>, base: nat, s: nat)
    requires at + SLOT <= |D| && s <= 13 && base + s <= |name| && base < |name| && Clean(name)
    requires forall t :: 0 <= t < 13 ==> Unit(D, at, t) == Piece(name, base + t)
    ensures Kept(D, at, s) == if base + 13 <= |name| then 13 else |name| + 1 - base
    decreases 13 - s
  {
    hide Unit;
    if s < 13 {
      assert Unit(D, at, s) == Piece(name, base + s);
      if base + s < |name| { KeptIs(D, at, name, base, s + 1); }
    }
  }

  lemma SlotsNext(D: seq<byte>, E: seq<byte>, at: nat, name: seq<u16>, sum: byte, ord: nat)
    requires 0 < ord <= Parts(name) && SlotsOf(D, at, name, sum, ord)
    requires OnlySlot(D, E, at + SLOT * (Parts(name) - ord)) && SlotAt(E, at, name, sum, ord)
    ensures SlotsOf(E, at, name, sum, ord - 1)
  {
    hide Parts, IsSlot;
    forall o | ord - 1 < o <= Parts(name)
      ensures SlotAt(E, at, name, sum, o)
    {
      if o > ord {
        assert SlotAt(D, at, name, sum, o);
        SlotKept(D, E, at + SLOT * (Parts(name) - ord), at + SLOT * (Parts(name) - o), name, o, sum);
      }
    }
  }

  lemma SlotKept(D: seq<byte>, E: seq<byte>, hit: nat, at: nat, name: seq<u16>, ord: nat, sum: byte)
    requires OnlySlot(D, E, hit) && at + SLOT <= hit && at + SLOT <= |D| && ord > 0 && IsSlot(D, at, name, ord, sum)
    ensures IsSlot(E, at, name, ord, sum)
  {
    hide Piece, Position, OrdByte;
    forall s | 0 <= s < 13
      ensures Unit(E, at, s) == Piece(name, Position(ord, s))
    {
      assert Unit(D, at, s) == Piece(name, Position(ord, s));
    }
  }

  lemma OutsideNext(D: seq<byte>, E: seq<byte>, F: seq<byte>, at: nat, n: nat, hit: nat)
    requires Outside(D, E, at, n) && OnlySlot(E, F, hit) && at <= hit && hit + SLOT <= at + n
    ensures Outside(D, F, at, n)
  {
  }

  method NameLength(lfn: array<u16>, ghost name: seq<u16>) returns (nlen: nat)
    requires Named(lfn[..], name)
    ensures nlen == |name| < lfn.Length
  {
    nlen := 0;
    PieceAt(lfn[..], name, 0);
    while lfn[nlen] != 0
      invariant nlen <= |name| < lfn.Length
      invariant lfn[nlen] == 0 <==> nlen == |name|
      decreases |name| - nlen
    {
      nlen := nlen + 1;
      PieceAt(lfn[..], name, nlen);
    }
  }

  /** Stores the parts of a name, top part first, as a directory entry is registered. */
  method StoreName(lfn: array<u16>, dir: array<byte>, at: nat, sum: byte, ghost name: seq<u16>) returns (nent: nat)
    requires lfn.Length == MAX_LFN + 1 && Named(lfn[..], name) && at + SLOT * Parts(name) <= dir.Length
    modifies dir
    ensures nent == Parts(name) && SlotsOf(dir[..], at, name, sum, 0)
    ensures Outside(old(dir[..]), dir[..], at, SLOT * nent)
  {
    hide SlotsOf, IsSlot, OnlySlot, Outside, Named;
    var nlen := NameLength(lfn, name);
    nent := (nlen + 12) / 13;
    var ord: nat := nent;
    NoSlots(dir[..], at, name, sum);
    while ord > 0
      invariant ord <= nent && SlotsOf(dir[..], at, name, sum, ord)
      invariant Outside(old(dir[..]), dir[..], at, SLOT * nent)
    {
      ghost var D := dir[..];
      PutLfn(lfn, dir, at + SLOT * (nent - ord), ord, sum, name);
      SlotsNext(D, dir[..], at, name, sum, ord);
      OutsideNext(old(dir[..]), D, dir[..], at, SLOT * nent, at + SLOT * (nent - ord));
      ord := ord - 1;
    }
  }

  /** One step of reading a long name: a slot is taken when its order and checksum fit the run so far. */
  method Capture(lfnbuf: array<u16>, dir: array<byte>, at: nat, ord: byte, sum: byte) returns (ord': byte, sum': byte)
    requires lfnbuf.Length == MAX_LFN + 1 && at + SLOT <= dir.Length
    modifies lfnbuf
    ensures sum' == if IsTop(dir[..], at) then dir[at + 13] else sum
    ensures Fits(dir[..], at, ord, sum) && Readable(dir[..], at) ==>
      ord' == Before(if IsTop(dir[..], at) then dir[at] - LLEF else ord)
        && Picked(old(lfnbuf[..]), lfnbuf[..], dir[..], at)
    ensures !(Fits(dir[..], at, ord, sum) && Readable(dir[..], at)) ==> ord' == 0xFF
  {
    hide Readable, Picked;
    var c: byte := dir[at];
    ord', sum' := ord, sum;
    if c / LLEF % 2 == 1 {
      sum' := dir[at + 13];
      c := c - LLEF;
      ord' := c;
    }
    var ok := c == ord' && sum' == dir[at + 13];
    if ok { ok := PickLfn(lfnbuf, dir, at); }
    ord' := if ok then Before(ord') else 0xFF;
  }

  /** One less, as a byte. */
  function Before(ord: byte): byte {
    if ord == 0 then 0xFF else ord - 1
  }

  /** A top slot opens a run; any other must be the next one down with the run's checksum. */
  predicate Fits(D: seq<byte>, at: nat, ord: byte, sum: byte)
    requires at + SLOT <= |D|
  {
    IsTop(D, at) || (D[at] == ord && D[at + 13] == sum)
  }

  /** From the given part on, the name and its terminator stand in the buffer. */
  ghost predicate Gathered(buf: seq<u16>, name: seq<u16>, done: nat) {
    |name| < |buf| && forall k | 13 * done <= k <= |name| :: buf[k] == Piece(name, k)
  }

  lemma GatherMore(was: seq<u16>, now: seq<u16>, D: seq<byte>, at: nat, name: seq<u16>, ord: nat, sum: byte)
    requires at + SLOT <= |D| && 0 < ord <= Parts(name) && Clean(name) && IsSlot(D, at, name, ord, sum)
    requires |name| <= 253 && |was| == MAX_LFN + 1 && Picked(was, now, D, at)
    requires ord < Parts(name) ==> Gathered(was, name, ord)
    ensures Gathered(now, name, ord - 1) && |now| == |was|
  {
    PickedLength(was, now, D, at);
    forall k | 13 * (ord - 1) <= k <= |name|
      ensures now[k] == Piece(name, k)
    {
      GatheredAt(was, now, D, at, name, ord, sum, k);
    }
  }

  lemma PickedLength(was: seq<u16>, now: seq<u16>, D: seq<byte>, at: nat)
    requires at + SLOT <= |D| && Picked(was, now, D, at)
    ensures |now| == |was|
  {
    hide Unit, Kept, IsTop, Start;
  }

  lemma GatheredAt(was: seq<u16>, now: seq<u16>, D: seq<byte>, at: nat, name: seq<u16>, ord: nat, sum: byte, k: nat)
    requires at + SLOT <= |D| && 0 < ord <= Parts(name) && Clean(name) && IsSlot(D, at, name, ord, sum)
    requires |name| <= 253 && |was| == |now| == MAX_LFN + 1 && Picked(was, now, D, at)
    requires (ord < Parts(name) ==> Gathered(was, name, ord)) && 13 * (ord - 1) <= k <= |name|
    ensures now[k] == Piece(name, k)
  {
    SlotMeans(D, at, name, ord, sum);
    hide Unit, Kept, IsTop, Start, Clean, IsSlot, Readable;
    var s := k - 13 * (ord - 1);
    if s < Kept(D, at, 0) { assert Unit(D, at, s) == Piece(name, (ord - 1) * 13 + s); }
  }

  lemma GatheredAll(buf: seq<u16>, name: seq<u16>)
    requires Gathered(buf, name, 0)
    ensures |name| < |buf| && buf[..|name|] == name && buf[|name|] == 0
  {
    assert forall k | 0 <= k < |name| :: buf[k] == Piece(name, k);
  }

  /** Reading back the slots of a stored name gives the name, exactly when it has at most 253 units. */
  method ReadName(lfnbuf: array<u16>, dir: array<byte>, at: nat, n: nat, ghost name: seq<u16>, ghost sum: byte)
    returns (ord: byte, s: byte)
    requires lfnbuf.Length == MAX_LFN + 1 && n == Parts(name) && 1 <= |name| <= MAX_LFN && Clean(name)
    requires SlotsOf(dir[..], at, name, sum, 0)
    modifies lfnbuf
    ensures |name| <= 253 ==> ord == 0 && s == sum && Named(lfnbuf[..], name)
    ensures |name| > 253 ==> ord == 0xFF
  {
    hide SlotsOf, Gathered, Readable, Picked, IsSlot, Clean, IsTop, Named;
    ord, s := 0xFF, 0xFF;
    ReadStep(dir[..], at, name, sum, n);
    ghost var left: nat := n;
    for k := 0 to n
      invariant left == n - k && at + SLOT * n <= dir.Length
      invariant |name| <= 253 && k > 0 ==> ord == left && s == sum && Gathered(lfnbuf[..], name, left)
      invariant |name| > 253 && k > 0 ==> ord == 0xFF
    {
      ghost var was := lfnbuf[..];
      ReadStep(dir[..], at, name, sum, left);
      ord, s := Capture(lfnbuf, dir, at + SLOT * k, ord, s);
      if |name| <= 253 { GatherMore(was, lfnbuf[..], dir[..], at + SLOT * k, name, left, sum); }
      left := left - 1;
    }
    if |name| <= 253 {
      GatheredAll(lfnbuf[..], name);
      NamedIs(lfnbuf[..], name);
    }
  }

  lemma ReadStep(D: seq<byte>, at: nat, name: seq<u16>, sum: byte, ord: nat)
    requires SlotsOf(D, at, name, sum, 0) && 0 < ord <= Parts(name) && |name| <= MAX_LFN && Clean(name)
    ensures at + SLOT * (Parts(name) - ord) + SLOT <= at + SLOT * Parts(name) <= |D|
    ensures IsSlot(D, at + SLOT * (Parts(name) - ord), name, ord, sum)
    ensures var hit := at + SLOT * (Parts(name) - ord);
      && D[hit + 13] == sum && (IsTop(D, hit) <==> ord == Parts(name))
      && D[hit] as int == (if ord == Parts(name) then ord + LLEF else ord)
      && (Readable(D, hit) <==> |name| <= 253 || ord < Parts(name))
  {
    hide IsSlot, Clean, IsTop, Readable;
    assert SlotAt(D, at, name, sum, ord);
    SlotMeans(D, at + SLOT * (Parts(name) - ord), name, ord, sum);
  }

  lemma NotReadable(D: seq<byte>, at: nat)
    requires at + SLOT <= |D| && (D[at + 26] != 0 || D[at + 27] != 0)
    ensures !Readable(D, at)
  {
  }

  lemma StartIs(D: seq<byte>, at: nat, ord: nat)
    requires at + SLOT <= |D| && ord == D[at] as int % 0x40
    ensures Start(D, at) == if ord == 0 then TWO32 - 13 else (ord - 1) * 13
  {
  }

  lemma NoSlots(D: seq<byte>, at: nat, name: seq<u16>, sum: byte)
    requires at + SLOT * Parts(name) <= |D|
    ensures SlotsOf(D, at, name, sum, Parts(name)) && Outside(D, D, at, SLOT * Parts(name))
  {
  }

  lemma NamedIs(lfn: seq<u16>, name: seq<u16>)
    requires |name| < |lfn| && lfn[..|name|] == name && lfn[|name|] == 0 && Clean(name)
    ensures Named(lfn, name)
  {
  }
}
