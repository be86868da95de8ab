/** The 64 KB-unit system allocator. Addresses of units are unit numbers from the start of the heap. */
module Allocator {
  import opened Machine
  import opened MemTable
  import opened FreeList
  import opened FreeSpace
  import opened LiveBlocks
  import opened HeapCalls
  import opened ReadOnlyFlags

  /** The unit that holds byte a of the heap. */
  function UnitOf(a: nat): (u: nat)
    ensures u * UNIT <= a < u * UNIT + UNIT
  {
    a / UNIT
  }

  /** An entry of the physical memory map. */
  datatype PhysBlock = PhysBlock(start: u32, len: u32)

  datatype Reason = Reserved | Truncated | OutOfRange | InUse

  class MemManager {
    const efi: bool
    const phmembase: u32           // physical address of unit 0
    const memblocks: nat
    const memtable: array<u32>     // size word, 0 or FFFF per unit
    const memftable: array<u32>    // first free block of every size
    const mem: array<byte>         // the heap itself: free-block headers, and the read-only marks behind the tables

    ghost var H: map<u32, FreeBlock>     // headers of the listed free blocks
    ghost var lists: seq<seq<u32>>       // the free list of every size

    predicate Dims() {
      && 1 < memblocks < 0x1_0000
      && memtable.Length == memblocks && memftable.Length == memblocks
      && mem.Length == memblocks * UNIT
      && memtable != memftable
      && phmembase + memblocks * UNIT < TWO32
    }

    /** The read-only mark of every unit. */
    ghost function Flags(): (r: seq<bool>)
      requires Dims()
      reads mem
      ensures |r| == memblocks
    {
      FlagsOf(mem[FlagLo(memblocks)..FlagHi(memblocks)], memblocks)
    }

    /** The header that the first bytes of unit u spell. */
    function HeaderAt(u: u32): FreeBlock
      requires Dims() && u < memblocks
      reads mem
    {
      Unpack(mem[u * UNIT..u * UNIT + HDR])
    }

    /** Every listed header is stored in the first bytes of its block. */
    ghost predicate Stored()
      requires Dims()
      reads `H, mem
    {
      forall u | u in H :: u < memblocks && HeaderAt(u) == H[u]
    }

    /** The list heads, the lists and the stored headers agree. */
    ghost predicate Linked()
      requires Dims()
      reads `H, `lists, memftable, mem
    {
      |lists| == memblocks && Lists(lists, memftable[..], H) && Stored()
    }

    ghost function Sizes(): map<u32, u32>
      reads `H
    {
      SizesOf(H)
    }

    method GetHeader(u: u32) returns (h: FreeBlock)
      requires Dims() && u < memblocks
      ensures h == HeaderAt(u)
      ensures Stored() && u in H ==> h == H[u]
    {
      h := Unpack(mem[u * UNIT..u * UNIT + HDR]);
    }

    method StoreHeader(u: u32, h: FreeBlock)
      requires Dims() && u < memblocks
      modifies mem
      ensures HeaderAt(u) == h
      ensures forall v: u32 | v < memblocks && v != u :: HeaderAt(v) == old(HeaderAt(v))
      ensures forall a | 0 <= a < mem.Length && UnitOf(a) != u :: mem[a] == old(mem[a])
    {
      hide Unpack, Pack;
      var s := Pack(h);
      forall i | 0 <= i < HDR {
        mem[u * UNIT + i] := s[i];
      }
      assert mem[u * UNIT..u * UNIT + HDR] == s;
      UnpackPack(h);
      forall v: u32 | v < memblocks && v != u
        ensures HeaderAt(v) == old(HeaderAt(v))
      {
        assert mem[v * UNIT..v * UNIT + HDR] == old(mem[v * UNIT..v * UNIT + HDR]);
      }
    }

    /** Writes a header, which is tracked from then on if listed is set, and no more otherwise. */
    method PutHeader(u: u32, h: FreeBlock, ghost listed: bool)
      requires Dims() && Stored() && u < memblocks
      modifies `H, mem
      ensures Stored()
      ensures H == if listed then old(H)[u := h] else old(H) - {u}
      ensures forall a | 0 <= a < mem.Length && UnitOf(a) != u :: mem[a] == old(mem[a])
    {
      hide Unpack, Pack, UnitOf;
      StoreHeader(u, h);
      H := if listed then H[u := h] else H - {u};
    }

    /** The successor of p becomes n; without p, n becomes the head of list k. */
    method LinkNext(p: u32, n: u32, k: u32)
      requires Dims() && Stored() && k < memblocks && (p != 0 ==> p in H)
      modifies `H, memftable, mem
      ensures Stored()
      ensures H == if p == 0 then old(H) else old(H)[p := old(H)[p].(next := n)]
      ensures memftable[..] == if p == 0 then old(memftable[..])[k := n] else old(memftable[..])
      ensures forall a | 0 <= a < mem.Length && (p == 0 || UnitOf(a) != p) :: mem[a] == old(mem[a])
    {
      if p != 0 {
        var fb := GetHeader(p);
        PutHeader(p, fb.(next := n), true);
      } else {
        memftable[k] := n;
      }
    }

    /** The predecessor of n, if there is such a block, becomes p; its signature is checked if asked. */
    method LinkPrev(n: u32, p: u32, check: bool)
      requires Dims() && Stored() && (n != 0 ==> n in H && (check ==> H[n].sign == FREE_SIGN))
      modifies `H, mem
      ensures Stored()
      ensures H == if n == 0 then old(H) else old(H)[n := old(H)[n].(prev := p)]
      ensures forall a | 0 <= a < mem.Length && (n == 0 || UnitOf(a) != n) :: mem[a] == old(mem[a])
    {
      if n != 0 {
        var fb := GetHeader(n);
        if check && fb.sign != FREE_SIGN { assert false; }
        PutHeader(n, fb.(prev := p), true);
      }
    }

    /** The memory side of fb_add. */
    method PushHeaders(u: u32, k: u32)
      requires Dims() && Stored() && u < memblocks && u !in H && k < memblocks
      requires memftable[k] != 0 ==> memftable[k] in H && H[memftable[k]].sign == FREE_SIGN
      modifies `H, memftable, mem
      ensures Stored() && Pushed(u, k, old(memftable[k]), old(H), H)
      ensures Sizes() == old(Sizes())[u := k]
      ensures memftable[..] == old(memftable[..])[k := u]
      ensures forall a | 0 <= a < mem.Length && UnitOf(a) !in Sizes() :: mem[a] == old(mem[a])
    {
      hide HeaderAt, Stored, UnitOf;
      ghost var H0 := H;
      var head := memftable[k];
      LinkPrev(head, u, true);
      PutHeader(u, FreeBlock(FREE_SIGN, 0, head, k), true);
      memftable[k] := u;
      PushedHeaders(u, k, head, H0, H);
      SizesKeys();
    }

    lemma SizesKeys()
      ensures forall u :: u in Sizes() <==> u in H
      ensures forall u :: u in H ==> Sizes()[u] == H[u].size
    {
    }

    /** fb_add: put a block of k units in front of its list. */
    method FbAdd(u: u32, k: u32)
      requires Dims() && Linked()
      requires 0 < u < memblocks && u !in Sizes() && 0 < k < memblocks
      modifies `H, `lists, memftable, mem
      ensures Linked()
      ensures lists == old(lists)[k := [u] + old(lists[k])]
      ensures Sizes() == old(Sizes())[u := k]
      ensures old(Above()) && TableUnits() <= u ==> Above() && Flags() == old(Flags())
      ensures forall a | 0 <= a < mem.Length && UnitOf(a) !in Sizes() :: mem[a] == old(mem[a])
    {
      hide *;
      PushFacts(u, k);
      ghost var H0, heads0 := H, memftable[..];
      ghost var S, m := Sizes(), mem[..];
      FlagsAre();
      AboveParts();
      PushHeaders(u, k);
      ListsPush(lists, heads0, H0, u, k, H);
      lists := lists[k := [u] + lists[k]];
      LinkedIf();
      AboveParts();
      if FlagsFit(memblocks) && AllAbove(S) && TableUnits() <= u { AboveGrows(S, u, k, m); }
    }

    lemma PushFacts(u: u32, k: u32)
      requires Dims() && Linked() && u !in Sizes() && k < memblocks
      ensures u !in H && |lists| == memblocks == memftable.Length == memtable.Length && 0 < memblocks < 0x1_0000
      ensures Lists(lists, memftable[..], H) && Stored()
      ensures memftable[k] != 0 ==> memftable[k] in H && H[memftable[k]].sign == FREE_SIGN
    {
      if memftable[k] != 0 { HeadNode(lists, memftable[..], H, k); }
    }

    lemma AboveGrows(S: map<u32, u32>, u: u32, k: u32, m: seq<byte>)
      requires Dims() && FlagsFit(memblocks) && AllAbove(S) && TableUnits() <= u && Sizes() == S[u := k]
        && |m| == mem.Length
      requires forall a | 0 <= a < mem.Length && UnitOf(a) !in Sizes() :: mem[a] == m[a]
      ensures Above() && FlagHi(memblocks) <= |m|
        && Flags() == FlagsOf(m[FlagLo(memblocks)..FlagHi(memblocks)], memblocks)
    {
      hide *;
      AboveMore(S, u, k);
      MarksStay(m, Sizes());
      AboveParts();
    }

    /** The memory side of fb_del: u lies between p and n in list k. */
    method UnlinkHeaders(u: u32, k: u32, ghost l: seq<u32>, ghost i: nat)
      requires Dims() && Stored() && u < memblocks && k < memblocks
      requires u in H && H[u].sign == FREE_SIGN && H[u].size == k
      requires i < |l| && l[i] == u && H[u].prev == At(l, i - 1) && H[u].next == At(l, i + 1)
      requires H[u].prev == 0 <==> i == 0
      requires H[u].prev != 0 ==> H[u].prev in H && H[u].prev != u
      requires H[u].next != 0 ==> H[u].next in H && H[u].next != u && H[u].next != H[u].prev
      modifies `H, memftable, mem
      ensures Stored() && Relinked(l, i, k, old(memftable[..]), old(H), memftable[..], H)
      ensures Sizes() == old(Sizes()) - {u}
      ensures forall a | 0 <= a < mem.Length && UnitOf(a) !in old(Sizes()) :: mem[a] == old(mem[a])
    {
      SizesKeys();
      hide HeaderAt, Stored, UnitOf, SizesOf;
      ghost var H0, heads0 := H, memftable[..];
      var h := GetHeader(u);
      if h.sign != FREE_SIGN { assert false; }
      PutHeader(u, h.(sign := 0), false);
      LinkNext(h.prev, h.next, k);
      LinkPrev(h.next, h.prev, false);
      RelinkedHeaders(l, i, k, heads0, H0, memftable[..], H);
    }

    lemma FindHeader(u: u32) returns (i: nat)
      requires Dims() && Linked() && u in Sizes()
      ensures |lists| == memblocks == memftable.Length && Lists(lists, memftable[..], H) && Stored()
      ensures u in H && H[u].size == Sizes()[u] && H[u].sign == FREE_SIGN && u < memblocks && H[u].size < memblocks
      ensures i < |lists[H[u].size]| && lists[H[u].size][i] == u
      ensures H[u].prev == At(lists[H[u].size], i - 1) && H[u].next == At(lists[H[u].size], i + 1)
      ensures H[u].prev == 0 <==> i == 0
      ensures H[u].prev != 0 ==> H[u].prev in H && H[u].prev != u
      ensures H[u].next != 0 ==> H[u].next in H && H[u].next != u && H[u].next != H[u].prev
    {
      SizesKeys();
      i := FindNode(lists, memftable[..], H, u);
    }

    lemma LinkedIf()
      requires Dims() && |lists| == memblocks && Lists(lists, memftable[..], H) && Stored()
      ensures Linked()
    {
    }

    /** fb_del: take a block out of its list; k is the expected size or 0. */
    method FbDel(u: u32, k: u32)
      requires Dims() && Linked()
      requires u in Sizes() && (k != 0 ==> Sizes()[u] == k)
      modifies `H, `lists, memftable, mem
      ensures Linked()
      ensures Sizes() == old(Sizes()) - {u}
      ensures old(Above()) ==> Above() && Flags() == old(Flags())
      ensures forall a | 0 <= a < mem.Length && UnitOf(a) !in old(Sizes()) :: mem[a] == old(mem[a])
    {
      hide *;
      ghost var S, above, m := Sizes(), Above(), mem[..];
      FlagsAre();
      AboveParts();
      ghost var i := FindHeader(u);
      ghost var H0, heads0 := H, memftable[..];
      var h := GetHeader(u);
      var sz := if k == 0 then h.size else k;
      if h.size != sz { assert false; }
      UnlinkHeaders(u, sz, lists[sz], i);
      ListsUnlink(lists, heads0, H0, sz, i, memftable[..], H);
      lists := lists[sz := lists[sz][..i] + lists[sz][i + 1..]];
      LinkedIf();
      AboveParts();
      if above {
        AboveLess(S, u);
        MarksStay(m, S);
      }
    }

    ghost predicate Valid()
      reads this, memtable, memftable, mem
    {
      && Dims()
      && Linked()
      && Tiled(memtable[..])
      && Runs(memtable[..], Sizes())
      && FlagsFit(memblocks) && ReadOnlyMarks(memtable[..], Flags())
    }

    // ----- read-only marks -----

    /** Units of the block of the tables. */
    ghost function TableUnits(): nat
      requires Dims()
    {
      Units(TableSize(memblocks))
    }

    /** Free blocks at the units in S lie behind the block of the tables. */
    ghost predicate AllAbove(S: map<u32, u32>)
      requires Dims()
    {
      forall v | v in S :: TableUnits() <= v
    }

    /** The marks lie in the block of the tables, and no free block does. */
    ghost predicate Above()
      requires Dims()
      reads `H
    {
      FlagsFit(memblocks) && AllAbove(Sizes())
    }

    lemma AboveNow()
      requires Valid()
      ensures Above() && 0 < TableUnits() <= memblocks
    {
      BlockApart(memtable[..], Sizes(), 0);
      assert UsedRun(memtable[..], 0, Units(TableSize(memblocks)));
    }

    lemma MarksInTables()
      requires Dims() && FlagsFit(memblocks)
      ensures forall a: nat | FlagLo(memblocks) <= a < FlagHi(memblocks) :: UnitOf(a) < TableUnits()
    {
      FlagPlaces(memblocks);
    }

    lemma MarksEnd(u: nat)
      requires Dims() && FlagsFit(memblocks) && TableUnits() <= u
      ensures FlagHi(memblocks) <= u * UNIT
    {
      FlagPlaces(memblocks);
    }

    /** A change of free blocks leaves the marks. */
    lemma MarksStay(m: seq<byte>, S: map<u32, u32>)
      requires Dims() && FlagsFit(memblocks) && AllAbove(S) && |m| == mem.Length
      requires forall a | 0 <= a < mem.Length && UnitOf(a) !in S :: mem[a] == m[a]
      ensures FlagHi(memblocks) <= |m| && Flags() == FlagsOf(m[FlagLo(memblocks)..FlagHi(memblocks)], memblocks)
    {
      MarksInTables();
      hide FlagsOf, UnitOf, FlagsFit;
      MarksKept(m[FlagLo(memblocks)..FlagHi(memblocks)]);
    }

    lemma FlagsAre()
      requires Dims()
      ensures FlagHi(memblocks) <= mem.Length
      ensures Flags() == FlagsOf(mem[..][FlagLo(memblocks)..FlagHi(memblocks)], memblocks)
    {
      assert mem[..][FlagLo(memblocks)..FlagHi(memblocks)] == MarkBytes();
    }

    lemma AboveParts()
      requires Dims()
      ensures Above() <==> FlagsFit(memblocks) && AllAbove(Sizes())
      ensures |mem[..]| == mem.Length
    {
    }

    lemma AboveAt(u: u32)
      requires Dims() && Above() && u in Sizes()
      ensures TableUnits() <= u
    {
    }

    lemma AboveLess(S: map<u32, u32>, u: u32)
      requires Dims() && AllAbove(S)
      ensures AllAbove(S - {u})
    {
    }

    lemma AboveMore(S: map<u32, u32>, u: u32, k: u32)
      requires Dims() && AllAbove(S) && TableUnits() <= u
      ensures AllAbove(S[u := k])
    {
    }

    /** Byte a holds the mark of the new block p. */
    predicate IsMark(a: nat, p: nat) {
      p != 0 && a == FlagAt(memblocks, p)
    }

    ghost function MarkBytes(): (r: seq<byte>)
      requires Dims()
      reads mem
      ensures |r| == FlagHi(memblocks) - FlagLo(memblocks)
    {
      mem[FlagLo(memblocks)..FlagHi(memblocks)]
    }

    /** Marks do not change while their bytes stay. */
    lemma MarksKept(m: seq<byte>)
      requires Dims() && |m| == FlagHi(memblocks) - FlagLo(memblocks)
      requires forall a: nat | FlagLo(memblocks) <= a < FlagHi(memblocks) :: mem[a] == m[a - FlagLo(memblocks)]
      ensures MarkBytes() == m && Flags() == FlagsOf(m, memblocks)
    {
      var lo := FlagLo(memblocks);
      forall i | 0 <= i < |m|
        ensures MarkBytes()[i] == m[i]
      {
        assert mem[lo + i] == m[lo + i - lo];
      }
      assert MarkBytes() == m;
    }

    /** The marks lie below every block but that of the tables. */
    lemma MarksBelow(pos: nat)
      requires Valid() && IsStart(memtable[..], pos) && 0 < pos
      ensures TableUnits() <= pos
      ensures forall a: nat | FlagLo(memblocks) <= a < FlagHi(memblocks) :: UnitOf(a) < pos
      ensures forall i: nat | i < memblocks :: UnitOf(FlagAt(memblocks, i)) < pos
    {
      var t := memtable[..];
      MarksInTables();
      FlagPlaces(memblocks);
      assert UsedRun(t, 0, Units(TableSize(memblocks)));
    }

    method IsReadOnly(pos: u32) returns (b: bool)
      requires Dims() && pos < memblocks
      ensures b == Flags()[pos]
    {
      FlagPlace(pos);
      FlagIs(pos);
      hide *;
      b := IsSet(mem[FlagAt(memblocks, pos)], pos % 8);
    }

    lemma FlagIs(pos: u32)
      requires Dims() && pos < memblocks
      ensures FlagAt(memblocks, pos) < mem.Length && Flags()[pos] == IsSet(mem[FlagAt(memblocks, pos)], pos % 8)
    {
      FlagPlace(pos);
      hide IsSet, UnitOf;
      assert MarkBytes()[pos / 8] == mem[FlagLo(memblocks) + pos / 8];
    }

    /** Stores the mark of unit p. */
    method SetFlag(p: u32, x: bool)
      requires Dims() && Linked() && p < memblocks && UnitOf(FlagAt(memblocks, p)) !in Sizes()
      modifies mem
      ensures Linked() && Flags() == old(Flags())[p := x]
      ensures forall a | 0 <= a < mem.Length && a != FlagAt(memblocks, p) :: mem[a] == old(mem[a])
    {
      hide Linked, SizesOf, FlagsOf, Changed, IsSet, TableUnits, FlagsFit, Flags;
      FlagPlace(p);
      var at := FlagAt(memblocks, p);
      ghost var ms := MarkBytes();
      var b := Changed(mem[at], p % 8, x);
      ChangedMark(p, x);
      StoreByte(at, b);
      MarksKept(ms[p / 8 := b]);
    }

    lemma FlagPlace(p: u32)
      requires Dims() && p < memblocks
      ensures FlagLo(memblocks) <= FlagAt(memblocks, p) < FlagHi(memblocks) <= mem.Length
      ensures FlagAt(memblocks, p) - FlagLo(memblocks) == p / 8
    {
    }

    lemma MarkBytesEnough()
      requires Dims()
      ensures memblocks <= 8 * |MarkBytes()|
    {
    }

    lemma ChangedMark(p: u32, x: bool)
      requires Dims() && p < memblocks
      ensures p / 8 < |MarkBytes()| && FlagAt(memblocks, p) < mem.Length
      ensures FlagsOf(MarkBytes()[p / 8 := Changed(mem[FlagAt(memblocks, p)], p % 8, x)], memblocks) == Flags()[p := x]
    {
      FlagPlace(p);
      MarkBytesEnough();
      MarkByteIs(p);
      hide *;
      ChangedFlag(MarkBytes(), memblocks, p, x);
    }

    lemma MarkByteIs(p: u32)
      requires Dims() && p < memblocks
      ensures p / 8 < |MarkBytes()| && FlagAt(memblocks, p) < mem.Length
      ensures MarkBytes()[p / 8] == mem[FlagAt(memblocks, p)] && Flags() == FlagsOf(MarkBytes(), memblocks)
    {
      hide FlagsOf;
      FlagPlace(p);
    }

    /** Stores a byte into a unit that is not free. */
    method StoreByte(at: nat, b: byte)
      requires Dims() && Linked() && at < mem.Length && UnitOf(at) !in Sizes()
      modifies mem
      ensures Linked()
      ensures forall a | 0 <= a < mem.Length :: mem[a] == if a == at then b else old(mem[a])
    {
      SizesKeys();
      hide Linked, SizesOf, FlagsOf, TableUnits, FlagsFit;
      StoreBytes(UnitOf(at), at, [b]);
      assert mem[at..at + 1][0] == b;
    }

    /** Is fb a better place than the one found before? */
    static predicate Better(align: Align, fb: u32, ps: u32) {
      !align.BestFit? && ((fb < ps) == align.Lowest?)
    }

    ghost predicate Best(align: Align, result: u32, seen: set<u32>)
    {
      && (result == 0 <==> seen == {})
      && (result != 0 ==> result in seen)
      && (forall u :: u in seen ==> if align.Lowest? then result <= u else align.Highest? ==> u <= result)
    }

    lemma NodeFacts(ii: u32, j: nat)
      requires Valid() && ii < memblocks && ii < |lists| && j < |lists[ii]|
      ensures Dims() && Stored() && ii < memftable.Length
      ensures var fb := lists[ii][j];
              && fb in H && fb in Sizes() && Sizes()[fb] == ii && 0 < fb < memtable.Length && memtable[fb] == 0
              && H[fb].sign == FREE_SIGN && H[fb].next == At(lists[ii], j + 1) && H[fb].next < memblocks
              && (H[fb].next == 0 <==> j + 1 == |lists[ii]|)
              && (fb == memftable[..][ii] ==> H[fb].prev == 0)
      ensures lists[ii][j] !in lists[ii][..j]
    {
      hide *;
      Unfold();
      UnfoldLinked();
      SizesKeys();
      FreeUnits();
      WalkNode(lists, memftable[..], H, ii, j);
      WalkNode(lists, memftable[..], H, ii, j + 1);
    }

    lemma UnfoldLinked()
      requires Dims() && Linked()
      ensures |lists| == memblocks == memftable.Length == memtable.Length
      ensures Lists(lists, memftable[..], H) && Stored()
    {
    }

    /** The header checks of a list walk on element j of list ii; returns the next element. */
    method VisitNode(ii: u32, fb: u32, ghost j: nat) returns (next: u32)
      requires Valid() && ii < memblocks && ii < |lists| && j < |lists[ii]| && fb == lists[ii][j]
      ensures fb != 0 && fb in Sizes() && Sizes()[fb] == ii && fb !in lists[ii][..j]
      ensures next == At(lists[ii], j + 1) && (next == 0 <==> j + 1 == |lists[ii]|)
      ensures fb < memtable.Length && memtable[fb] == 0
      ensures lists[ii][..j + 1] == lists[ii][..j] + [fb]
    {
      hide *;
      NodeFacts(ii, j);
      PrefixGrows(lists[ii], j);
      SizesBounded();
      var h := GetHeader(fb);
      if h.sign != FREE_SIGN { assert false; }
      if (fb == memftable[ii] && h.prev != 0) || h.next >= memblocks { assert false; }
      next := h.next;
    }

    /** The head of list ii, 0 exactly if there is no block of ii units. */
    method HeadOf(ii: u32) returns (head: u32)
      requires Valid() && ii < memblocks
      ensures ii < |lists| && head == At(lists[ii], 0) && (head == 0 <==> lists[ii] == [])
      ensures forall u :: u in lists[ii] <==> u in Sizes() && Sizes()[u] == ii
      ensures head != 0 ==> head in Sizes() && Sizes()[head] == ii
    {
      ListMembers(lists, memftable[..], H, ii);
      WalkNode(lists, memftable[..], H, ii, 0);
      head := memftable[ii];
    }

    /** One free list of the search of alloc_worker; best fit stops at its first block. */
    method PickFromList(ii: u32, align: Align, result0: u32, ghost seen0: set<u32>)
        returns (result: u32, ghost seen: set<u32>)
      requires Valid() && ii < memblocks && Best(align, result0, seen0)
      requires align.BestFit? ==> result0 == 0
      ensures Best(align, result, seen) && ii < |lists|
      ensures !align.BestFit? ==> forall u :: u in seen <==> u in seen0 || u in lists[ii]
      ensures align.BestFit? ==> (result == 0 <==> lists[ii] == []) && (result != 0 ==> result in lists[ii])
    {
      hide Valid;
      result, seen := result0, seen0;
      var fb := HeadOf(ii);
      ghost var l, j := lists[ii], 0;
      while fb != 0
        invariant j <= |l| && fb == At(l, j) && (fb == 0 <==> j == |l|)
        invariant Best(align, result, seen)
        invariant forall u :: u in seen <==> u in seen0 || u in l[..j]
        invariant align.BestFit? ==> j == 0 && result == 0
        decreases |l| - j
      {
        var next := VisitNode(ii, fb, j);
        if memtable[fb] != 0 { assert false; }
        seen := seen + {fb};
        if result == 0 || Better(align, fb, result) {
          result := fb;
          if align.BestFit? { break; }
        }
        fb, j := next, j + 1;
      }
      assert l[..|l|] == l;
    }

    /** The best of the free blocks of at least m units, given the length of every free block. */
    ghost predicate Picked(S: map<u32, u32>, m: u32, align: Align, result: u32) {
      && (result == 0 ==> forall u :: u in S ==> S[u] < m)
      && (result != 0 ==> result in S && m <= S[result])
      && (result != 0 ==> forall u :: u in S && m <= S[u] ==>
            match align
            case Lowest => result <= u
            case Highest => u <= result
            case BestFit => S[result] <= S[u])
    }

    /** One step of the search of alloc_worker: all free blocks of ii units. */
    method ScanList(ii: u32, align: Align, result0: u32, fbsize0: u32, ghost seen0: set<u32>,
                    ghost S: map<u32, u32>)
      returns (result: u32, fbsize: u32, ghost seen: set<u32>)
      requires Valid() && S == Sizes() && 0 < ii < memblocks && Best(align, result0, seen0)
      requires align.BestFit? ==> result0 == 0
      ensures Best(align, result, seen)
      ensures !align.BestFit? ==> forall u :: u in seen <==> u in seen0 || (u in S && S[u] == ii)
      ensures (result == result0 && fbsize == fbsize0) || (result in S && S[result] == fbsize == ii)
      ensures align.BestFit? && result == 0 ==> forall u :: u in S ==> S[u] != ii
    {
      hide Valid;
      result, fbsize, seen := result0, fbsize0, seen0;
      var head := HeadOf(ii);
      assert forall u :: u in S && S[u] == ii ==> u in lists[ii];
      if head != 0 {
        result, seen := PickFromList(ii, align, result0, seen0);
        if result != result0 { fbsize := ii; }
      }
    }

    /** The search of alloc_worker over all free lists of at least m units. */
    method PickBlock(m: u32, align: Align) returns (result: u32, fbsize: u32)
      requires Valid() && 0 < m
      ensures Picked(Sizes(), m, align, result)
      ensures result != 0 ==> result in Sizes() && Sizes()[result] == fbsize && m <= fbsize
    {
      hide Valid, Picked, SizesOf;
      SizesBounded();
      ghost var S := Sizes();
      var ii := m;
      result, fbsize := 0, 0;
      ghost var seen := {};
      while ii < memblocks && !(align.BestFit? && result != 0)
        invariant m <= ii
        invariant Best(align, result, seen)
        invariant !align.BestFit? ==> forall u :: u in seen <==> u in S && m <= S[u] < ii
        invariant result != 0 ==> result in S && S[result] == fbsize && m <= fbsize < ii
        invariant align.BestFit? ==> forall u :: u in S && m <= S[u] < ii ==> result != 0 && S[u] == fbsize
      {
        result, fbsize, seen := ScanList(ii, align, result, fbsize, seen, S);
        ii := ii + 1;
      }
      SeenAll(S, m, ii, align, result, seen);
    }

    lemma SizesBounded()
      requires Valid()
      ensures memblocks < 0x1_0000
      ensures forall u :: u in Sizes() ==> 0 < u < memblocks && 0 < Sizes()[u] < memblocks
    {
      HeaderBounds(lists, memftable[..], H);
    }

    lemma SeenAll(S: map<u32, u32>, m: u32, ii: int, align: Align, result: u32, seen: set<u32>)
      requires Best(align, result, seen)
      requires forall u :: u in S ==> S[u] < memblocks
      requires ii >= memblocks || (align.BestFit? && result != 0)
      requires !align.BestFit? ==> forall u :: u in seen <==> u in S && m <= S[u] < ii
      requires result != 0 ==> result in S && m <= S[result] < ii
      requires align.BestFit? ==> forall u :: u in S && m <= S[u] < ii ==> result != 0 && S[u] == S[result]
      ensures Picked(S, m, align, result)
    {
    }

    /** The walk and the table agree on where a block of m units goes. */
    lemma PickIsChosen(t: Table, S: map<u32, u32>, m: u32, align: Align, result: u32, p: int)
      requires Runs(t, S) && |t| < TWO32 && 0 < m
      requires Picked(S, m, align, result)
      requires p == if result == 0 then 0 else if align.Highest? then result + S[result] - m else result
      ensures Chosen(t, m, align, p)
    {
      forall u, n
        ensures FreeRun(t, u, n) <==> u in S && S[u] == n
      {
        RunIsListed(t, S, u, n);
      }
      if result != 0 {
        assert IsHead(t, result);
        assert Fits(t, m, result, S[result]);
      }
    }

    /** What a free block can be relied on for. */
    lemma FreeBlockFacts(u: u32)
      requires Valid() && u in Sizes()
      ensures Dims() && Linked()
      ensures memblocks < 0x1_0000 && 0 < u && u + Sizes()[u] <= memblocks && 0 < Sizes()[u] < memblocks
      ensures forall v: u32 | u < v < u + Sizes()[u] :: v !in Sizes()
      ensures forall v: u32 | v in Sizes() || u <= v < u + Sizes()[u] :: v < memblocks && memtable[v] == 0
    {
      SizesBounded();
      assert FreeRun(memtable[..], u, Sizes()[u]);
      forall v: u32 | u < v < u + Sizes()[u]
        ensures v !in Sizes()
      {
        InsideRun(memtable[..], Sizes(), u, v);
      }
      forall v: u32 | v in Sizes() || u <= v < u + Sizes()[u]
        ensures v < memblocks && memtable[v] == 0
      {
        if v in Sizes() { assert IsHead(memtable[..], v); }
      }
    }

    /** Takes m units from the low or high end of a free block and relists what remains. */
    method Carve(u: u32, n: u32, m: u32, high: bool) returns (p: u32)
      requires Valid() && u in Sizes() && n == Sizes()[u] && 0 < m <= n
      modifies `H, `lists, memftable, mem
      ensures Linked() && Above() && Flags() == old(Flags())
      ensures u + n <= memblocks < TWO32 && p == if high then u + n - m else u
      ensures Sizes() == Carved(old(Sizes()), u, m, high)
      ensures forall a | 0 <= a < mem.Length && memtable[UnitOf(a)] != 0 :: mem[a] == old(mem[a])
    {
      hide Valid, Linked, UnitOf, SizesOf, Flags, Above, TableUnits, FlagsOf;
      FreeBlockFacts(u);
      AboveNow();
      AboveAt(u);
      FbDel(u, n);
      p := u;
      if high && m < n {
        FbAdd(u, n - m);
        p := u + (n - m);
      } else if m != n {
        FbAdd(u + m, n - m);
      }
    }
    /** Stores the size word of a new block and FFFF into the rest of its words. */
    method MarkUsed(p: u32, size: u32)
      requires Dims() && 0 < size <= MAXSIZE && p + Units(size) <= memblocks
      requires IsZero(memtable[..], p, p + Units(size))
      modifies memtable
      ensures memtable[..] == Mark(old(memtable[..]), p, size)
      ensures forall i | 0 <= i < memblocks && !(p <= i < p + Units(size)) :: memtable[i] == old(memtable[i])
    {
      memtable[p] := size;
      var ps := p + 1;
      while ps < p + Units(size)
        invariant p < ps <= p + Units(size)
        invariant forall i | 0 <= i < memblocks ::
                    memtable[i] == if i == p then size else if p < i < ps then FFFF else old(memtable[i])
      {
        if memtable[ps] != 0 { assert false; }
        memtable[ps] := FFFF;
        ps := ps + 1;
      }
    }

    /** The parts of Valid, for proofs that keep it folded. */
    lemma Unfold()
      requires Valid()
      ensures Dims() && Linked() && Tiled(memtable[..]) && Runs(memtable[..], Sizes())
      ensures |memtable[..]| == memblocks < TWO32 && memtable != memftable && FlagsFit(memblocks)
      ensures mem.Length == memblocks * UNIT
      ensures forall a | 0 <= a < mem.Length :: UnitOf(a) < memblocks
    {
    }

    lemma Fold()
      requires Dims() && Linked() && Tiled(memtable[..]) && Runs(memtable[..], Sizes())
      requires FlagsFit(memblocks) && ReadOnlyMarks(memtable[..], Flags())
      ensures Valid()
    {
    }

    lemma Marks()
      requires Valid()
      ensures ReadOnlyMarks(memtable[..], Flags())
    {
    }

    /** Table words of units that were free. */
    lemma ZeroWords(lo: nat, hi: nat)
      requires Dims() && IsZero(memtable[..], lo, hi)
      ensures forall i | lo <= i < hi :: memtable[i] == 0
    {
      forall i | lo <= i < hi
        ensures memtable[i] == 0
      {
        assert memtable[..][i] == 0;
      }
    }

    /** alloc_worker: 0, or the first unit of a new block of size bytes. */
    method AllocWorker(size: u32, maxaddr: bool, minaddr: bool, readonly: bool) returns (p: u32)
      requires Valid() && 0 < size <= MAXSIZE
      modifies this, memtable, memftable, mem
      ensures Valid()
      ensures p == 0 <==> NoneFits(old(memtable[..]), Units(size))
      ensures p != 0 && maxaddr ==> TailOfHighest(old(memtable[..]), Units(size), p)
      ensures p != 0 && !maxaddr && (minaddr || !efi) ==> StartOfLowest(old(memtable[..]), Units(size), p)
      ensures p != 0 && !maxaddr && !minaddr && efi ==> StartOfSmallest(old(memtable[..]), Units(size), p)
      ensures p == 0 ==> memtable[..] == old(memtable[..]) && Flags() == old(Flags())
      ensures p != 0 ==> p + Units(size) <= memblocks && IsZero(old(memtable[..]), p, p + Units(size))
      ensures p != 0 ==> forall i | p <= i < p + Units(size) :: old(memtable[i]) == 0
      ensures p != 0 ==> memtable[..] == Mark(old(memtable[..]), p, size)
      ensures p != 0 ==> Flags() == old(Flags())[p := readonly]
      ensures forall a | 0 <= a < mem.Length && old(memtable[UnitOf(a)]) != 0 && !IsMark(a, p) :: mem[a] == old(mem[a])
      ensures forall i | 0 <= i < memblocks && (p != 0 ==> !(p <= i < p + Units(size))) ::
        memtable[i] == old(memtable[i])
    {
      hide *;
      Unfold();
      ghost var t, S := memtable[..], Sizes();
      var m := Units(size);
      var align := AlignOf(maxaddr, minaddr);
      var result, fbsize := PickBlock(m, align);
      p := 0;
      if result != 0 {
        p := TakeBlock(result, fbsize, size, align.Highest?, readonly);
      }
      PickIsChosen(t, S, m, align, result, p);
      ChosenMeans(t, m, maxaddr, minaddr, p);
    }

    /** A block that a resize moves has no strategy of its own. */
    ghost function MoveAlign(): Align {
      if efi then BestFit else Lowest
    }

    function AlignOf(maxaddr: bool, minaddr: bool): Align {
      if maxaddr then Highest else if minaddr || !efi then Lowest else BestFit
    }

    /** What the flags ask for, read off without the strategy. */
    lemma ChosenMeans(t: Table, m: int, maxaddr: bool, minaddr: bool, p: int)
      requires Chosen(t, m, AlignOf(maxaddr, minaddr), p) && 0 < m
      ensures p == 0 <==> NoneFits(t, m)
      ensures p != 0 && maxaddr ==> TailOfHighest(t, m, p)
      ensures p != 0 && !maxaddr && (minaddr || !efi) ==> StartOfLowest(t, m, p)
      ensures p != 0 && !maxaddr && !minaddr && efi ==> StartOfSmallest(t, m, p)
    {
    }

    /** Carves units off a free block and stores the read-only mark of the new block. */
    method CarveMarked(u: u32, n: u32, m: u32, high: bool, readonly: bool) returns (p: u32)
      requires Valid() && u in Sizes() && n == Sizes()[u] && 0 < m <= n
      modifies `H, `lists, memftable, mem
      ensures Linked()
      ensures u + n <= memblocks < TWO32 && p == if high then u + n - m else u
      ensures Sizes() == Carved(old(Sizes()), u, m, high) && Flags() == old(Flags())[p := readonly]
      ensures forall a | 0 <= a < mem.Length && memtable[UnitOf(a)] != 0 && !IsMark(a, p) :: mem[a] == old(mem[a])
    {
      hide Valid, Linked, UnitOf, SizesOf, FlagsOf, Flags, Above, TableUnits;
      Unfold();
      FreeBlockFacts(u);
      p := Carve(u, n, m, high);
      MarkUnit(p);
      SetFlag(p, readonly);
    }

    /** The byte of a mark lies in no free block. */
    lemma MarkUnit(p: nat)
      requires Dims() && p < memblocks && Above()
      ensures UnitOf(FlagAt(memblocks, p)) < TableUnits() && UnitOf(FlagAt(memblocks, p)) !in Sizes()
    {
      FlagPlaces(memblocks);
      MarksInTables();
    }

    /** Turns an end of the free block u into a used block. */
    method TakeBlock(u: u32, n: u32, size: u32, high: bool, readonly: bool) returns (p: u32)
      requires Valid() && 0 < size <= MAXSIZE && u in Sizes() && n == Sizes()[u] && Units(size) <= n
      modifies this, memtable, memftable, mem
      ensures Valid()
      ensures p == (if high then u + n - Units(size) else u) && 0 < p
      ensures p + Units(size) <= memblocks && IsZero(old(memtable[..]), p, p + Units(size))
      ensures forall i | p <= i < p + Units(size) :: old(memtable[i]) == 0
      ensures memtable[..] == Mark(old(memtable[..]), p, size)
      ensures Flags() == old(Flags())[p := readonly]
      ensures forall a | 0 <= a < mem.Length && old(memtable[UnitOf(a)]) != 0 && !IsMark(a, p) :: mem[a] == old(mem[a])
      ensures forall i | 0 <= i < memblocks && !(p <= i < p + Units(size)) :: memtable[i] == old(memtable[i])
    {
      hide *;
      Unfold();
      Marks();
      ghost var t, S, ro := memtable[..], Sizes(), Flags();
      CarvedRuns(t, S, u, size, high);
      UnitsPositive(size);
      ZeroWords(if high then u + n - Units(size) else u, if high then u + n else u + Units(size));
      p := CarveMarked(u, n, Units(size), high, readonly);
      MarkUsed(p, size);
      MarksAfterMark(t, ro, p, size, readonly);
      Fold();
    }

    /** The size word of the free block u, as its header tells it. */
    method FreeSize(u: u32) returns (n: u32)
      requires Dims() && Linked() && u in Sizes()
      ensures n == Sizes()[u]
    {
      SizesKeys();
      var h := GetHeader(u);
      n := h.size;
    }

    /** Lists units stp .. hi as one free block together with the free block behind them, if there is one. */
    method JoinAndAdd(stp: u32, hi: u32)
      requires Dims() && Linked() && 0 < stp < hi <= memblocks && stp !in Sizes() && Above() && TableUnits() <= stp
      requires hi < memblocks ==> (memtable[hi] == 0 <==> hi in Sizes())
      requires hi in Sizes() ==> hi + Sizes()[hi] <= memblocks
      modifies `H, `lists, memftable, mem
      ensures Linked() && Above() && Flags() == old(Flags())
      ensures memblocks < TWO32 && Sizes() == Joined(old(Sizes()), stp, hi)
      ensures forall a | 0 <= a < mem.Length && UnitOf(a) != stp && UnitOf(a) !in old(Sizes()) :: mem[a] == old(mem[a])
    {
      hide *;
      SizesInHeap();
      JoinedIs(Sizes(), stp, hi);
      var k := hi - stp;
      if hi < memblocks && memtable[hi] == 0 {
        var n := FreeSize(hi);
        k := k + n;
        FbDel(hi, 0);
      }
      FbAdd(stp, k);
    }

    lemma SizesInHeap()
      requires Dims() && Linked()
      ensures memtable.Length == memblocks < 0x1_0000 < TWO32
      ensures forall u :: u in Sizes() ==> 0 < u < memblocks && 0 < Sizes()[u] < memblocks
    {
      HeaderBounds(lists, memftable[..], H);
    }

    /** Clears table words, as memsetd does. */
    method ClearWords(lo: u32, hi: u32)
      requires Dims() && lo <= hi <= memblocks
      modifies memtable
      ensures memtable[..] == Clear(old(memtable[..]), lo, hi)
      ensures forall i | 0 <= i < memblocks :: memtable[i] == if lo <= i < hi then 0 else old(memtable[i])
    {
      forall i | lo <= i < hi {
        memtable[i] := 0;
      }
    }

    /** First unit of the free run that ends at pos, or pos itself. */
    method RunStart(pos: u32) returns (stp: u32)
      requires Dims() && 0 < pos <= memblocks && memtable[0] != 0
      ensures 0 < stp <= pos && memtable[stp - 1] != 0 && IsZero(memtable[..], stp, pos)
    {
      stp := pos;
      while memtable[stp - 1] == 0
        invariant 0 < stp <= pos && IsZero(memtable[..], stp, pos)
        decreases stp
      {
        stp := stp - 1;
      }
    }

    /** hlp_memfree: frees the block that starts at unit pos; read-only blocks stay. */
    method MemFree(pos: u32)
      requires Valid() && IsStart(memtable[..], pos)
      modifies this, memtable, memftable, mem
      ensures Valid() && Flags() == old(Flags())
      ensures pos < memblocks && pos + Units(old(memtable[pos])) <= memblocks
      ensures memtable[..] == if Flags()[pos] then old(memtable[..])
                              else Clear(old(memtable[..]), pos, pos + Units(old(memtable[pos])))
      ensures forall a | 0 <= a < mem.Length && memtable[UnitOf(a)] != 0 :: mem[a] == old(mem[a])
      ensures forall i | 0 <= i < memblocks && !(pos <= i < pos + Units(old(memtable[pos]))) ::
        memtable[i] == old(memtable[i])
    {
      hide *;
      Unfold();
      Marks();
      BlockFacts(pos);
      var w := memtable[pos];
      if w == 0 || w == FFFF { assert false; }
      var ro := IsReadOnly(pos);
      if !ro { ReleaseBlock(pos); }
    }

    lemma BlockFacts(pos: u32)
      requires Valid() && IsStart(memtable[..], pos)
      ensures pos < memblocks == memtable.Length == |Flags()|
      ensures memtable[pos] == memtable[..][pos] && memtable[pos] != 0 && memtable[pos] != FFFF
        && memtable[pos] <= MAXSIZE
      ensures pos + Units(memtable[pos]) <= memblocks && 0 < Units(memtable[pos])
      ensures !Flags()[pos] ==> 0 < pos
      ensures memtable[0] != 0
    {
      assert UsedRun(memtable[..], pos, Units(memtable[pos]));
      assert IsStart(memtable[..], 0);
    }

    method ReleaseBlock(pos: u32)
      requires Valid() && IsStart(memtable[..], pos) && !Flags()[pos]
      modifies this, memtable, memftable, mem
      ensures Valid() && Flags() == old(Flags())
      ensures pos + Units(old(memtable[pos])) <= memblocks
      ensures memtable[..] == Clear(old(memtable[..]), pos, pos + Units(old(memtable[pos])))
      ensures forall a | 0 <= a < mem.Length && memtable[UnitOf(a)] != 0 :: mem[a] == old(mem[a])
      ensures forall i | 0 <= i < memblocks && !(pos <= i < pos + Units(old(memtable[pos]))) ::
        memtable[i] == old(memtable[i])
    {
      hide *;
      Unfold();
      Marks();
      BlockFacts(pos);
      ghost var t, S, ro := memtable[..], Sizes(), Flags();
      AboveNow();
      MarksBelow(pos);
      var hi := pos + Units(memtable[pos]);
      var stp := RunStart(pos);
      FreeingFacts(t, S, pos, stp);
      RunStartAbove(stp, pos);
      JoinedSkips(S, stp, hi);
      if stp != pos {
        FbDel(stp, pos - stp);
      }
      CheckTail(pos + 1, hi);
      ClearWords(pos, hi);
      JoinAndAdd(stp, hi);
      FreedRuns(t, S, pos, stp);
      MarksAfterClear(t, ro, pos);
      Fold();
    }

    lemma RunStartAbove(stp: nat, pos: nat)
      requires Valid() && 0 < stp <= pos <= memblocks && IsZero(memtable[..], stp, pos) && TableUnits() <= pos
      ensures TableUnits() <= stp
    {
      var t := memtable[..];
      assert UsedRun(t, 0, Units(TableSize(memblocks)));
      assert stp < pos ==> t[stp] == 0;
      if stp < TableUnits() { assert false; }
    }

    /** The memchrnd test of hlp_memfree. */
    method CheckTail(lo: u32, hi: u32)
      requires Dims() && lo <= hi <= memblocks
      requires forall i :: lo <= i < hi ==> memtable[..][i] == FFFF
    {
      var ii := lo;
      while ii < hi
        invariant lo <= ii <= hi
      {
        assert memtable[..][ii] == FFFF;
        if memtable[ii] != FFFF { assert false; }
        ii := ii + 1;
      }
    }

    /** The first n bytes of the heap from unit u on. */
    function Bytes(u: u32, n: nat): (s: seq<byte>)
      requires Dims() && u * UNIT + n <= mem.Length
      reads mem
      ensures |s| == n
    {
      mem[u * UNIT..u * UNIT + n]
    }

    /** Stores bytes from address lo of unit u on, away from every free block. */
    method StoreBytes(u: u32, lo: nat, data: seq<byte>)
      requires Dims() && Linked() && u * UNIT <= lo && lo + |data| <= mem.Length
      requires forall v :: v in H ==> v < u || lo + |data| <= v * UNIT
      modifies mem
      ensures Linked() && (FlagsFit(memblocks) && TableUnits() <= u ==> Flags() == old(Flags()))
      ensures mem[lo..lo + |data|] == data
      ensures forall a | 0 <= a < mem.Length && !(lo <= a < lo + |data|) :: mem[a] == old(mem[a])
    {
      hide Lists, Unpack, FlagsOf, FlagsFit, TableUnits;
      ghost var ms := MarkBytes();
      forall i | 0 <= i < |data| {
        mem[lo + i] := data[i];
      }
      forall v | v in H
        ensures v < memblocks && HeaderAt(v) == H[v]
      {
        assert old(HeaderAt(v)) == H[v];
        assert mem[v * UNIT..v * UNIT + HDR] == old(mem[v * UNIT..v * UNIT + HDR]);
      }
      assert memftable[..] == old(memftable[..]);
      if FlagsFit(memblocks) && TableUnits() <= u {
        MarksEnd(u);
        MarksKept(ms);
      }
    }

    /** memcpy or memset of bytes at offset off of unit u, away from every free block. */
    method WriteBytes(u: u32, off: nat, data: seq<byte>)
      requires Dims() && Linked() && u * UNIT + off + |data| <= mem.Length
      requires forall v :: v in Sizes() ==> v < u || u * UNIT + off + |data| <= v * UNIT
      modifies mem
      ensures Linked() && (FlagsFit(memblocks) && TableUnits() <= u ==> Flags() == old(Flags()))
      ensures Bytes(u, off + |data|) == old(Bytes(u, off)) + data
      ensures forall a | 0 <= a < mem.Length && !(u * UNIT + off <= a < u * UNIT + off + |data|) ::
        mem[a] == old(mem[a])
    {
      SizesKeys();
      hide Linked, SizesOf, FlagsOf, FlagsFit, TableUnits;
      var lo := u * UNIT + off;
      StoreBytes(u, lo, data);
      assert mem[u * UNIT..lo] == old(mem[u * UNIT..lo]);
      assert mem[u * UNIT..lo + |data|] == mem[u * UNIT..lo] + mem[lo..lo + |data|];
    }

    /** Writes into a block that is not the one of the tables. */
    method WriteInside(u: u32, off: nat, data: seq<byte>)
      requires Valid() && IsStart(memtable[..], u) && 0 < u && off + |data| <= Units(memtable[u]) * UNIT
      requires u * UNIT + off + |data| <= mem.Length
      modifies mem
      ensures Valid() && Flags() == old(Flags())
      ensures Bytes(u, off + |data|) == old(Bytes(u, off)) + data
      ensures forall a | 0 <= a < mem.Length && !(u * UNIT + off <= a < u * UNIT + off + |data|) ::
        mem[a] == old(mem[a])
    {
      BlockApart(memtable[..], Sizes(), u);
      Marks();
      MarksBelow(u);
      ghost var t := memtable[..];
      hide Linked, SizesOf, Tiled, Runs, Units, Round64k, FlagsOf, Flags, ReadOnlyMarks, TableUnits, FlagsFit;
      WriteBytes(u, off, data);
      assert memtable[..] == t;
    }

    /** Zero-fills bytes off .. size of the block at u, which covers at least size bytes. */
    method ZeroBlock(u: u32, off: nat, size: nat)
      requires Valid() && IsStart(memtable[..], u) && 0 < u && off <= size <= Units(memtable[u]) * UNIT
      modifies mem
      ensures Valid() && Flags() == old(Flags())
      ensures u + Units(memtable[u]) <= memblocks
      ensures Bytes(u, size) == old(Bytes(u, off)) + Zeros(size - off)
      ensures forall a | 0 <= a < mem.Length && !(u <= UnitOf(a) < u + Units(memtable[u])) :: mem[a] == old(mem[a])
    {
      BlockFacts(u);
      BlockBytes(u);
      hide Valid, Flags, Zeros, SizesOf, Units, IsStart;
      var z: seq<byte> := seq(size - off, _ => 0);
      assert z == Zeros(size - off);
      WriteInside(u, off, z);
    }

    /** The memset of alloc_common on a block that was just allocated. */
    method ClearNew(p: u32, size: u32)
      requires Valid() && 0 < p < memblocks && 0 < size <= MAXSIZE && memtable[..][p] == size
      modifies mem
      ensures Valid() && Flags() == old(Flags())
      ensures p * UNIT + size <= mem.Length && Bytes(p, size) == Zeros(size)
      ensures forall a | 0 <= a < mem.Length && !(p <= UnitOf(a) < p + Units(size)) :: mem[a] == old(mem[a])
    {
      assert IsStart(memtable[..], p) && memtable[p] == size;
      hide Linked, Tiled, Runs, SizesOf;
      ZeroBlock(p, 0, size);
      assert old(Bytes(p, 0)) == [];
    }

    static lemma MarkAt(t: Table, p: nat, size: u32)
      requires 0 < size <= MAXSIZE && p + Units(size) <= |t|
      ensures p < |t| && Mark(t, p, size)[p] == size
    {
    }

    /** alloc_common: 0, or a new block of size bytes, zero-filled unless noclear is set. */
    method Alloc(size: u32, maxaddr: bool, minaddr: bool, readonly: bool, noclear: bool) returns (p: u32)
      requires Valid()
      modifies this, memtable, memftable, mem
      ensures Valid()
      ensures size == 0 || size >= memblocks * UNIT ==> p == 0
      ensures 0 < size < memblocks * UNIT ==> size <= MAXSIZE && (p == 0 <==> NoneFits(old(memtable[..]), Units(size)))
      ensures p != 0 && maxaddr ==> TailOfHighest(old(memtable[..]), Units(size), p)
      ensures p != 0 && !maxaddr && (minaddr || !efi) ==> StartOfLowest(old(memtable[..]), Units(size), p)
      ensures p != 0 && !maxaddr && !minaddr && efi ==> StartOfSmallest(old(memtable[..]), Units(size), p)
      ensures p == 0 ==> memtable[..] == old(memtable[..]) && Flags() == old(Flags())
      ensures p != 0 ==> p + Units(size) <= memblocks && IsZero(old(memtable[..]), p, p + Units(size))
      ensures p != 0 ==> forall i | p <= i < p + Units(size) :: old(memtable[i]) == 0
      ensures p != 0 ==> memtable[..] == Mark(old(memtable[..]), p, size)
      ensures p != 0 ==> Flags() == old(Flags())[p := readonly]
      ensures p != 0 && !noclear ==> p * UNIT + size <= mem.Length && Bytes(p, size) == Zeros(size)
      ensures forall a | 0 <= a < mem.Length && old(memtable[UnitOf(a)]) != 0 && !IsMark(a, p) :: mem[a] == old(mem[a])
    {
      hide *;
      HeapBound();
      p := 0;
      if 0 < size < memblocks * UNIT {
        p := AllocBlock(size, maxaddr, minaddr, readonly, noclear);
      }
    }

    lemma HeapBound()
      requires Valid()
      ensures memblocks * UNIT <= MAXSIZE
    {
    }

    method AllocBlock(size: u32, maxaddr: bool, minaddr: bool, readonly: bool, noclear: bool) returns (p: u32)
      requires Valid() && 0 < size <= MAXSIZE
      modifies this, memtable, memftable, mem
      ensures Valid()
      ensures p == 0 <==> NoneFits(old(memtable[..]), Units(size))
      ensures p != 0 && maxaddr ==> TailOfHighest(old(memtable[..]), Units(size), p)
      ensures p != 0 && !maxaddr && (minaddr || !efi) ==> StartOfLowest(old(memtable[..]), Units(size), p)
      ensures p != 0 && !maxaddr && !minaddr && efi ==> StartOfSmallest(old(memtable[..]), Units(size), p)
      ensures p == 0 ==> memtable[..] == old(memtable[..]) && Flags() == old(Flags())
      ensures p != 0 ==> p + Units(size) <= memblocks && IsZero(old(memtable[..]), p, p + Units(size))
      ensures p != 0 ==> forall i | p <= i < p + Units(size) :: old(memtable[i]) == 0
      ensures p != 0 ==> memtable[..] == Mark(old(memtable[..]), p, size)
      ensures p != 0 ==> Flags() == old(Flags())[p := readonly]
      ensures p != 0 && !noclear ==> p * UNIT + size <= mem.Length && Bytes(p, size) == Zeros(size)
      ensures forall a | 0 <= a < mem.Length && old(memtable[UnitOf(a)]) != 0 && !IsMark(a, p) :: mem[a] == old(mem[a])
    {
      hide *;
      Unfold();
      ghost var t := memtable[..];
      p := AllocWorker(size, maxaddr, minaddr, readonly);
      if p != 0 && !noclear {
        MarkAt(t, p, size);
        UnitsPositive(size);
        ClearNew(p, size);
      }
    }

    /** What a block of bytes b holds after a resize: its beginning, then zeros. */
    ghost function Kept(b: seq<byte>, size: nat): seq<byte> {
      if size <= |b| then b[..size] else b + Zeros(size - |b|)
    }

    lemma KeptGrown(b: seq<byte>, size: nat)
      requires |b| <= size
      ensures Kept(b, size) == b + Zeros(size - |b|)
    {
      if size == |b| { assert Zeros(0) == []; }
    }

    /** hlp_memrealloc, number of units unchanged. */
    method ResizeSame(pos: u32, size: u32)
      requires Valid() && IsStart(memtable[..], pos) && 0 < pos && 0 < size <= MAXSIZE
        && Units(size) == Units(memtable[pos])
      modifies memtable, mem
      ensures Valid() && Flags() == old(Flags())
      ensures pos + Units(size) <= memblocks && memtable[..] == Resize(old(memtable[..]), pos, size)
      ensures Bytes(pos, size) == Kept(old(Bytes(pos, memtable[pos])), size)
      ensures forall a | 0 <= a < mem.Length && !(pos <= UnitOf(a) < pos + Units(size)) :: mem[a] == old(mem[a])
    {
      hide *;
      Unfold();
      Marks();
      BlockFacts(pos);
      BlockBytes(pos);
      ghost var t, S, ro := memtable[..], Sizes(), Flags();
      SameUnits(t, S, pos, size);
      MarksAfterResize(t, ro, pos, size);
      FillTail(pos, size);
      Unfold();
      memtable[pos] := size;
      assert memtable[..] == t[pos := size];
      Fold();
    }

    lemma BlockBytes(pos: u32)
      requires Valid() && IsStart(memtable[..], pos)
      ensures pos < memblocks && memtable[pos] <= Units(memtable[pos]) * UNIT
      ensures pos * UNIT + Units(memtable[pos]) * UNIT <= mem.Length == memblocks * UNIT
    {
      assert UsedRun(memtable[..], pos, Units(memtable[pos]));
    }

    lemma UnfoldDims()
      requires Valid()
      ensures Dims()
    {
    }

    lemma UnitsCover(size: u32)
      requires 0 < size <= MAXSIZE
      ensures size <= Units(size) * UNIT
    {
    }

    lemma KeptLonger(b: seq<byte>, size: nat)
      requires size > |b|
      ensures Kept(b, size) == b + Zeros(size - |b|)
    {
    }

    lemma KeptShorter(u: u32, n: nat, size: nat)
      requires Dims() && u * UNIT + n <= mem.Length && size <= n
      ensures Kept(Bytes(u, n), size) == Bytes(u, size)
    {
    }

    /** Zero-fills the bytes between the old and a larger new size within the same units. */
    method FillTail(pos: u32, size: u32)
      requires Valid() && IsStart(memtable[..], pos) && 0 < pos && 0 < size <= MAXSIZE
        && Units(size) == Units(memtable[pos])
      modifies mem
      ensures Valid() && Flags() == old(Flags())
      ensures pos * UNIT + size <= mem.Length && Bytes(pos, size) == Kept(old(Bytes(pos, memtable[pos])), size)
      ensures forall a | 0 <= a < mem.Length && !(pos <= UnitOf(a) < pos + Units(size)) :: mem[a] == old(mem[a])
    {
      BlockBytes(pos);
      UnitsCover(size);
      UnfoldDims();
      hide *;
      ghost var was := Bytes(pos, memtable[pos]);
      if size > memtable[pos] {
        ZeroBlock(pos, memtable[pos], size);
        KeptLonger(was, size);
      } else {
        KeptShorter(pos, memtable[pos], size);
      }
    }

    /** hlp_memrealloc to fewer units. */
    method ResizeShrink(pos: u32, size: u32)
      requires Valid() && IsStart(memtable[..], pos) && 0 < pos && 0 < size <= MAXSIZE
        && Units(size) < Units(memtable[pos])
      modifies this, memtable, memftable, mem
      ensures Valid() && Flags() == old(Flags())
      ensures pos + Units(size) <= memblocks && memtable[..] == Resize(old(memtable[..]), pos, size)
      ensures forall a | 0 <= a < mem.Length && memtable[UnitOf(a)] != 0 :: mem[a] == old(mem[a])
    {
      hide *;
      Unfold();
      Marks();
      BlockFacts(pos);
      ghost var t, S, ro := memtable[..], Sizes(), Flags();
      ShrunkRuns(t, S, pos, size);
      UnitsPositive(size);
      BlockApart(t, S, pos);
      MarksAfterResize(t, ro, pos, size);
      var sz := Units(memtable[pos]);
      var nsz := Units(size);
      AboveNow();
      MarksBelow(pos);
      memtable[pos] := size;
      assert memtable[..] == t[pos := size];
      ClearWords(pos + nsz, pos + sz);
      JoinAndAdd(pos + nsz, pos + sz);
      Fold();
    }

    /** Every byte of a block lies in one of its units, and those are marked used. */
    lemma ByteUnits(pos: u32)
      requires Valid() && IsStart(memtable[..], pos)
      ensures pos < memblocks && pos * UNIT + memtable[pos] <= mem.Length
      ensures forall a | pos * UNIT <= a < pos * UNIT + memtable[pos] ::
                pos <= UnitOf(a) < pos + Units(memtable[pos]) && UnitOf(a) < memblocks && memtable[UnitOf(a)] != 0
    {
      BlockBytes(pos);
      var t, m := memtable[..], Units(memtable[pos]);
      assert UsedRun(t, pos, m);
      assert forall i :: pos <= i < pos + m ==> i < |t| && t[i] != 0;
      hide Valid, Units, IsStart, UsedRun, UnitOf;
      forall a | pos * UNIT <= a < pos * UNIT + memtable[pos]
        ensures pos <= UnitOf(a) < pos + m && UnitOf(a) < memblocks && memtable[UnitOf(a)] != 0
      {
        UnitInside(a, pos, m);
        assert t[UnitOf(a)] != 0;
      }
    }

    lemma UnitInside(a: nat, pos: nat, m: nat)
      requires pos * UNIT <= a < (pos + m) * UNIT
      ensures pos <= UnitOf(a) < pos + m
    {
    }

    /** Takes free units behind the block at pos into it, without touching its size word or its bytes. */
    method TakeBehind(pos: u32, hi: u32, n: u32, k: u32)
      requires Valid() && IsStart(memtable[..], pos) && hi == pos + Units(memtable[pos])
      requires hi in Sizes() && n == Sizes()[hi] && 0 < k <= n
      modifies this, memtable, memftable, mem
      ensures Linked() && Above() && Flags() == old(Flags())
      ensures hi + n <= memblocks < TWO32 && Sizes() == Carved(old(Sizes()), hi, k, false)
      ensures forall i | 0 <= i < memblocks :: memtable[i] == if hi <= i < hi + k then FFFF else old(memtable[i])
      ensures pos * UNIT + memtable[pos] <= mem.Length && Bytes(pos, memtable[pos]) == old(Bytes(pos, memtable[pos]))
      ensures forall a | 0 <= a < mem.Length && old(memtable[UnitOf(a)]) != 0 :: mem[a] == old(mem[a])
    {
      hide *;
      Unfold();
      ByteUnits(pos);
      BlockFacts(pos);
      var p := CarveBehind(pos, hi, n, k);
      FillWords(hi, hi + k);
    }

    method CarveBehind(pos: u32, hi: u32, n: u32, k: u32) returns (p: u32)
      requires Valid() && IsStart(memtable[..], pos) && hi in Sizes() && n == Sizes()[hi] && 0 < k <= n
      modifies `H, `lists, memftable, mem
      ensures Linked() && Above() && Flags() == old(Flags())
      ensures hi + n <= memblocks < TWO32 && Sizes() == Carved(old(Sizes()), hi, k, false)
      ensures pos * UNIT + memtable[pos] <= mem.Length && Bytes(pos, memtable[pos]) == old(Bytes(pos, memtable[pos]))
      ensures forall a | 0 <= a < mem.Length && memtable[UnitOf(a)] != 0 :: mem[a] == old(mem[a])
    {
      hide Valid, Linked, Tiled, Runs, UnitOf, SizesOf, Dims, IsStart, Units, Carved;
      Unfold();
      ByteUnits(pos);
      p := Carve(hi, n, k, false);
    }

    method FillWords(lo: u32, hi: u32)
      requires Dims() && lo <= hi <= memblocks
      modifies memtable
      ensures forall i | 0 <= i < memblocks :: memtable[i] == if lo <= i < hi then FFFF else old(memtable[i])
    {
      forall i | lo <= i < hi {
        memtable[i] := FFFF;
      }
    }

    /** Zero-fills bytes from osz up to the new size of a block that covers the units of that size. */
    method ZeroTail(pos: u32, osz: u32, size: u32)
      requires Dims() && Linked() && osz <= size && 0 < size <= MAXSIZE && pos + Units(size) <= memblocks
      requires forall v :: v in Sizes() ==> v < pos || pos + Units(size) <= v
      modifies mem
      ensures Linked() && (FlagsFit(memblocks) && TableUnits() <= pos ==> Flags() == old(Flags()))
      ensures pos * UNIT + size <= mem.Length && Bytes(pos, size) == old(Bytes(pos, osz)) + Zeros(size - osz)
      ensures forall a | 0 <= a < mem.Length && !(pos <= UnitOf(a) < pos + Units(size)) :: mem[a] == old(mem[a])
    {
      assert size <= Units(size) * UNIT;
      hide Linked, SizesOf, Units, Flags, FlagsFit, TableUnits;
      var z: seq<byte> := seq(size - osz, _ => 0);
      assert z == Zeros(size - osz);
      WriteBytes(pos, osz, z);
    }

    /** hlp_memrealloc over the free block behind. */
    method ResizeGrow(pos: u32, size: u32, hi: u32, n: u32)
      requires Valid() && IsStart(memtable[..], pos) && 0 < pos && 0 < size <= MAXSIZE
        && Units(memtable[pos]) < Units(size)
      requires hi == pos + Units(memtable[pos]) && hi in Sizes() && n == Sizes()[hi]
      requires CanGrow(memtable[..], pos, Units(size)) && Units(size) <= Units(memtable[pos]) + n
      requires hi + n <= memblocks
      modifies this, memtable, memftable, mem
      ensures Valid() && Flags() == old(Flags())
      ensures pos + Units(size) <= memblocks && memtable[..] == Resize(old(memtable[..]), pos, size)
      ensures old(memtable[pos]) <= size && pos * UNIT + size <= mem.Length
      ensures Bytes(pos, size) == old(Bytes(pos, memtable[pos])) + Zeros(size - old(memtable[pos]))
      ensures forall a | 0 <= a < mem.Length && old(memtable[UnitOf(a)]) != 0
                         && !(pos <= UnitOf(a) < pos + Units(old(memtable[pos]))) :: mem[a] == old(mem[a])
    {
      hide *;
      Unfold();
      Marks();
      BlockFacts(pos);
      ghost var t, S, ro := memtable[..], Sizes(), Flags();
      var sz, k := Units(memtable[pos]), Units(size) - Units(memtable[pos]);
      GrowFacts(t, S, pos, size, hi, k);
      ZeroWords(hi, pos + Units(size));
      MarksBelow(pos);
      TakeBehind(pos, hi, n, k);
      var osz := memtable[pos];
      ZeroTail(pos, osz, size);
      memtable[pos] := size;
      GrownTable(t, memtable[..], pos, size);
      MarksAfterResize(t, ro, pos, size);
      Fold();
    }

    /** Fills a block with data and zeros behind it. */
    method FillBlock(p: u32, data: seq<byte>, size: u32)
      requires Valid() && IsStart(memtable[..], p) && 0 < p && memtable[..][p] == size && |data| <= size
      modifies mem
      ensures Valid() && Flags() == old(Flags())
      ensures p + Units(size) <= memblocks && p * UNIT + size <= mem.Length
      ensures Bytes(p, size) == data + Zeros(size - |data|)
      ensures forall a | 0 <= a < mem.Length && !(p <= UnitOf(a) < p + Units(size)) :: mem[a] == old(mem[a])
    {
      BlockFacts(p);
      BlockBytes(p);
      FillStart(p, data, size);
      hide Linked, Tiled, Runs, SizesOf, Units;
      ZeroBlock(p, |data|, size);
    }

    method FillStart(p: u32, data: seq<byte>, size: u32)
      requires Valid() && IsStart(memtable[..], p) && 0 < p && memtable[..][p] == size && |data| <= size
      modifies mem
      ensures Valid() && Flags() == old(Flags())
      ensures p * UNIT + |data| <= mem.Length && Bytes(p, |data|) == data
      ensures forall a | 0 <= a < mem.Length && !(p <= UnitOf(a) < p + Units(size)) :: mem[a] == old(mem[a])
    {
      BlockBytes(p);
      hide Valid, Units;
      WriteInside(p, 0, data);
      assert old(Bytes(p, 0)) == [];
    }

    /** hlp_memrealloc through a new block. */
    method ResizeMove(pos: u32, size: u32) returns (p: u32)
      requires Valid() && IsStart(memtable[..], pos) && !Flags()[pos] && 0 < size <= MAXSIZE && memtable[pos] <= size
      modifies this, memtable, memftable, mem
      ensures Valid()
      ensures pos < memblocks
        && MovedTables(old(memtable[..]), old(Flags()), MoveAlign(), pos, size, p, memtable[..], Flags())
      ensures p != 0 ==> p * UNIT + size <= mem.Length
      ensures p != 0 ==> Bytes(p, size) == old(Bytes(pos, memtable[pos])) + Zeros(size - old(memtable[pos]))
      ensures forall a | 0 <= a < mem.Length && old(memtable[UnitOf(a)]) != 0 && !IsMark(a, p)
                         && (p != 0 ==> !(pos <= UnitOf(a) < pos + Units(old(memtable[pos])))) :: mem[a] == old(mem[a])
    {
      hide *;
      Unfold();
      BlockFacts(pos);
      ByteUnits(pos);
      ghost var t, ro := memtable[..], Flags();
      p := AllocBeside(pos, size);
      if p != 0 {
        MarkedTable(t, pos, p, size);
        CopyAndFree(pos, p, size);
        forall a | 0 <= a < mem.Length && old(memtable[UnitOf(a)]) != 0 && !IsMark(a, p)
                   && !(pos <= UnitOf(a) < pos + Units(old(memtable[pos])))
          ensures mem[a] == old(mem[a])
        {
          var v := UnitOf(a);
          assert !(p <= v < p + Units(size)) && memtable[v] == old(memtable[v]);
        }
      }
      MovedIf(t, ro, MoveAlign(), pos, size, p, memtable[..], Flags());
    }

    lemma MovedIf(t: Table, ro: seq<bool>, align: Align, pos: nat, size: u32, r: nat, t': Table, ro': seq<bool>)
      requires pos < |t| == |ro| && Chosen(t, Units(size), align, r)
      requires r == 0 ==> t' == t && ro' == ro
      requires r != 0 ==>
        r + Units(size) <= |t| && pos + Units(t[pos]) <= |t| && 0 < size <= MAXSIZE
        && ro' == ro[r := false]
      requires r != 0 ==> t' == Clear(Mark(t, r, size), pos, pos + Units(t[pos]))
      ensures MovedTables(t, ro, align, pos, size, r, t', ro')
    {
    }

    /** alloc_worker while the block at pos is live: its bytes stay. */
    method AllocBeside(pos: u32, size: u32) returns (p: u32)
      requires Valid() && IsStart(memtable[..], pos) && 0 < pos && 0 < size <= MAXSIZE
      modifies this, memtable, memftable, mem
      ensures Valid()
      ensures Chosen(old(memtable[..]), Units(size), MoveAlign(), p)
      ensures p == 0 ==> memtable[..] == old(memtable[..]) && Flags() == old(Flags())
      ensures p != 0 ==> p + Units(size) <= memblocks && IsZero(old(memtable[..]), p, p + Units(size))
      ensures p != 0 ==> forall i | p <= i < p + Units(size) :: old(memtable[i]) == 0
      ensures p != 0 ==> memtable[..] == Mark(old(memtable[..]), p, size)
      ensures p != 0 ==> Flags() == old(Flags())[p := false]
      ensures pos < memblocks && pos * UNIT + old(memtable[pos]) <= mem.Length && memtable[pos] == old(memtable[pos])
      ensures Bytes(pos, old(memtable[pos])) == old(Bytes(pos, memtable[pos]))
      ensures forall a | 0 <= a < mem.Length && old(memtable[UnitOf(a)]) != 0 && !IsMark(a, p) :: mem[a] == old(mem[a])
      ensures forall i | 0 <= i < memblocks && (p != 0 ==> !(p <= i < p + Units(size))) ::
        memtable[i] == old(memtable[i])
    {
      hide Valid, Units, UnitOf, NoneFits, StartOfLowest, StartOfSmallest, TailOfHighest, IsStart, Mark, IsZero;
      Unfold();
      BlockFacts(pos);
      ByteUnits(pos);
      MarksBelow(pos);
      var osz := memtable[pos];
      p := AllocWorker(size, false, false, false);
      forall a | pos * UNIT <= a < pos * UNIT + osz
        ensures mem[a] == old(mem[a])
      {
        assert old(memtable[UnitOf(a)]) != 0;
      }
      assert Bytes(pos, osz) == old(Bytes(pos, memtable[pos]));
    }

    /** Copies the block at pos into the larger block at p and frees it. */
    method CopyAndFree(pos: u32, p: u32, size: u32)
      requires Valid() && IsStart(memtable[..], pos) && IsStart(memtable[..], p) && 0 < p && pos < memblocks
        && !Flags()[pos]
      requires memtable[..][p] == size && memtable[pos] <= size && p != pos
      modifies this, memtable, memftable, mem
      ensures Valid() && Flags() == old(Flags())
      ensures pos + Units(old(memtable[pos])) <= memblocks && p * UNIT + size <= mem.Length
      ensures memtable[..] == Clear(old(memtable[..]), pos, pos + Units(old(memtable[pos])))
      ensures Bytes(p, size) == old(Bytes(pos, memtable[pos])) + Zeros(size - old(memtable[pos]))
      ensures forall a | 0 <= a < mem.Length && memtable[UnitOf(a)] != 0 && !(p <= UnitOf(a) < p + Units(size)) ::
                mem[a] == old(mem[a])
      ensures forall i | 0 <= i < memblocks && !(pos <= i < pos + Units(old(memtable[pos]))) ::
        memtable[i] == old(memtable[i])
    {
      hide *;
      Unfold();
      BlockFacts(pos);
      BlockBytes(pos);
      var osz := memtable[pos];
      var data := Bytes(pos, osz);
      FillBlock(p, data, size);
      FreeOther(pos, p, size);
    }

    method FreeOther(pos: u32, p: u32, size: u32)
      requires Valid() && IsStart(memtable[..], pos) && IsStart(memtable[..], p) && pos < memblocks && !Flags()[pos]
      requires memtable[..][p] == size && p != pos && p * UNIT + size <= mem.Length
      modifies this, memtable, memftable, mem
      ensures Valid() && Flags() == old(Flags())
      ensures pos + Units(old(memtable[pos])) <= memblocks
      ensures memtable[..] == Clear(old(memtable[..]), pos, pos + Units(old(memtable[pos])))
      ensures Bytes(p, size) == old(Bytes(p, size))
      ensures forall a | 0 <= a < mem.Length && memtable[UnitOf(a)] != 0 :: mem[a] == old(mem[a])
      ensures forall i | 0 <= i < memblocks && !(pos <= i < pos + Units(old(memtable[pos]))) ::
        memtable[i] == old(memtable[i])
    {
      hide *;
      Unfold();
      BlockFacts(pos);
      BlockFacts(p);
      RunsApart(memtable[..], pos, p);
      ghost var m := mem[..];
      ByteUnits(p);
      SameBytes(m, p, size);
      MemFree(pos);
      assert memtable[..][p] == size;
      StartIs(memtable[..], p);
      ByteUnits(p);
      SameBytes(m, p, size);
    }

    lemma SameBytes(m: seq<byte>, p: u32, n: nat)
      requires Dims() && |m| == mem.Length && p * UNIT + n <= mem.Length
      requires forall a | p * UNIT <= a < p * UNIT + n :: mem[a] == m[a]
      ensures Bytes(p, n) == m[p * UNIT..p * UNIT + n]
    {
    }

    /** A size of 0 is taken as 1. */
    ghost function NonZero(size: u32): u32 {
      if size == 0 then 1 else size
    }

    /** Shrinking keeps the remaining bytes and every other block. */
    method ShrinkBlock(pos: u32, size: u32)
      requires Valid() && IsStart(memtable[..], pos) && 0 < pos && 0 < size <= MAXSIZE
        && Units(size) < Units(memtable[pos])
      modifies this, memtable, memftable, mem
      ensures Valid() && Flags() == old(Flags())
      ensures pos + Units(size) <= memblocks && memtable[..] == Resize(old(memtable[..]), pos, size)
      ensures pos * UNIT + size <= mem.Length && size <= old(memtable[pos])
      ensures Bytes(pos, size) == old(Bytes(pos, memtable[pos]))[..size]
      ensures forall a | 0 <= a < mem.Length && old(memtable[UnitOf(a)]) != 0
                         && !(pos <= UnitOf(a) < pos + Units(old(memtable[pos]))) :: mem[a] == old(mem[a])
    {
      hide Valid, UnitOf, Units, Resize, Tiled, Runs, Linked, Flags, FlagsFit, FlagsOf, ReadOnlyMarks;
      Unfold();
      BlockFacts(pos);
      BlockBytes(pos);
      ghost var t, osz := memtable[..], memtable[pos];
      ResizedWords(t, pos, size);
      SmallerSize(size, osz);
      ResizeShrink(pos, size);
      assert memtable[..][pos] == size;
      ByteUnits(pos);
    }

    /** A size the rounding macro wraps: the block ends up free. */
    ghost predicate Lost(t: Table, ro: seq<bool>, pos: nat, r: nat, t': Table, ro': seq<bool>)
      requires pos < |t|
    {
      pos + Units(t[pos]) <= |t| && r == pos && t' == Clear(t, pos, pos + Units(t[pos])) && ro' == ro
    }

    /** The shrinking half of hlp_memrealloc with a size of no units. */
    method LoseBlock(pos: u32, size: u32)
      requires Valid() && IsStart(memtable[..], pos) && !Flags()[pos] && size > MAXSIZE
      modifies this, memtable, memftable, mem
      ensures Dims() && 0 < pos < memblocks && Lost(old(memtable[..]), old(Flags()), pos, pos, memtable[..], Flags())
      ensures Valid() <==> old(memtable[pos - 1]) != 0
      ensures forall a | 0 <= a < mem.Length && old(memtable[UnitOf(a)]) != 0
                         && !(pos <= UnitOf(a) < pos + Units(old(memtable[pos]))) :: mem[a] == old(mem[a])
    {
      hide *;
      Unfold();
      Marks();
      BlockFacts(pos);
      ghost var t, S, ro := memtable[..], Sizes(), Flags();
      LostRuns(t, S, pos);
      FreeUnits();
      AboveNow();
      MarksBelow(pos);
      var hi := pos + Units(memtable[pos]);
      memtable[pos] := size;
      assert memtable[..] == t[pos := size];
      ClearWords(pos, hi);
      JoinAndAdd(pos, hi);
      MarksAfterClear(t, ro, pos);
      ClearHides(t, pos, size, hi);
      LostIf(t, ro, pos);
      ValidIff();
    }

    lemma LostIf(t: Table, ro: seq<bool>, pos: nat)
      requires Dims() && pos < |t| && pos + Units(t[pos]) <= |t| && memtable[..] == Clear(t, pos, pos + Units(t[pos]))
      requires Flags() == ro
      ensures Lost(t, ro, pos, pos, memtable[..], Flags())
    {
    }

    lemma ValidIff()
      requires Dims() && Linked() && Tiled(memtable[..]) && FlagsFit(memblocks) && ReadOnlyMarks(memtable[..], Flags())
      ensures Valid() <==> Runs(memtable[..], Sizes())
    {
    }

    lemma SizeKinds(newsize: u32)
      ensures newsize <= MAXSIZE ==> 0 < NonZero(newsize) <= MAXSIZE
      ensures newsize > MAXSIZE ==> NonZero(newsize) == newsize && Units(newsize) == 0
    {
    }

    lemma SmallerSize(a: u32, b: u32)
      requires Units(a) < Units(b) && a <= MAXSIZE
      ensures a <= b
    {
    }

    /**
     * hlp_memrealloc: the block is resized in place or moved, or r is 0 and nothing changes. The block
     * keeps the beginning of its contents and is zero behind it; no other block changes. A size that the
     * rounding macro wraps frees the block instead, and the heap stays consistent exactly if no free
     * unit lies below it.
     */
    method MemRealloc(pos: u32, newsize: u32) returns (r: u32)
      requires Valid() && IsStart(memtable[..], pos) && !Flags()[pos]
      modifies this, memtable, memftable, mem
      ensures Dims() && (newsize <= MAXSIZE ==> Valid()) && 0 < pos < memblocks
      ensures newsize <= MAXSIZE ==>
        Reallocated(old(memtable[..]), old(Flags()), if efi then BestFit else Lowest, pos, NonZero(newsize), r,
                    memtable[..], Flags())
      ensures pos * UNIT + old(memtable[pos]) <= mem.Length
      ensures newsize <= MAXSIZE && r != 0 ==> r * UNIT + NonZero(newsize) <= mem.Length
      ensures newsize <= MAXSIZE && r != 0 ==>
        Bytes(r, NonZero(newsize)) == Kept(old(Bytes(pos, memtable[pos])), NonZero(newsize))
      ensures newsize > MAXSIZE ==> Lost(old(memtable[..]), old(Flags()), pos, r, memtable[..], Flags())
      ensures newsize > MAXSIZE ==> (Valid() <==> old(memtable[pos - 1]) != 0)
      ensures forall a | 0 <= a < mem.Length && old(memtable[UnitOf(a)]) != 0 && !IsMark(a, r)
                         && (r != 0 ==> !(pos <= UnitOf(a) < pos + Units(old(memtable[pos])))) :: mem[a] == old(mem[a])
    {
      hide Valid, UnitOf, Tiled, Runs, Linked, Units, Resize, Mark, Clear, Chosen, CanGrow, IsStart, SizesOf,
           Dims, MovedTables, Flags, Bytes;
      Unfold();
      BlockFacts(pos);
      BlockBytes(pos);
      var size := if newsize == 0 then 1 else newsize;
      SizeKinds(newsize);
      var sz, nsz := Units(memtable[pos]), Units(size);
      if sz == nsz {
        ResizeSame(pos, size);
        r := pos;
      } else if nsz < sz {
        if newsize <= MAXSIZE { ShrinkBlock(pos, size); } else { LoseBlock(pos, size); }
        r := pos;
      } else {
        r := EnlargeBlock(pos, size);
      }
    }

    /** The growing half of hlp_memrealloc. */
    method EnlargeBlock(pos: u32, size: u32) returns (r: u32)
      requires Valid() && IsStart(memtable[..], pos) && !Flags()[pos] && 0 < size <= MAXSIZE
      requires Units(memtable[pos]) < Units(size)
      modifies this, memtable, memftable, mem
      ensures Valid()
      ensures pos < memblocks
        && Reallocated(old(memtable[..]), old(Flags()), MoveAlign(), pos, size, r, memtable[..], Flags())
      ensures pos * UNIT + old(memtable[pos]) <= mem.Length && old(memtable[pos]) <= size
      ensures r != 0 ==> r * UNIT + size <= mem.Length
      ensures r != 0 ==> Bytes(r, size) == Kept(old(Bytes(pos, memtable[pos])), size)
      ensures forall a | 0 <= a < mem.Length && old(memtable[UnitOf(a)]) != 0 && !IsMark(a, r)
                         && (r != 0 ==> !(pos <= UnitOf(a) < pos + Units(old(memtable[pos])))) :: mem[a] == old(mem[a])
    {
      hide Valid, UnitOf, Tiled, Runs, Linked, Units, Resize, Mark, Clear, Chosen, CanGrow, IsStart, SizesOf,
           Dims, Kept, Bytes, Flags, Zeros, MovedTables;
      Unfold();
      BlockFacts(pos);
      BlockBytes(pos);
      SmallerSize(memtable[pos], size);
      KeptGrown(Bytes(pos, memtable[pos]), size);
      var hi := pos + Units(memtable[pos]);
      GrowTest(memtable[..], Sizes(), pos, Units(size));
      var behind := 0;
      if hi < memblocks && memtable[hi] == 0 {
        behind := FreeSize(hi);
      }
      if behind != 0 && Units(size) <= Units(memtable[pos]) + behind {
        ResizeGrow(pos, size, hi, behind);
        r := pos;
      } else {
        r := ResizeMove(pos, size);
      }
    }

    /** Do units lo .. hi of the table hold zeros only? The word behind the table is the signature of its own block. */
    method AllFree(lo: u32, hi: u32) returns (free: bool)
      requires Dims() && lo <= hi && lo < memblocks
      ensures free <==> IsZero(memtable[..], lo, hi)
    {
      var ii := lo;
      while ii < hi
        invariant lo <= ii <= hi && ii <= memblocks && IsZero(memtable[..], lo, ii)
      {
        if ii == memblocks { return false; }
        if memtable[ii] != 0 {
          assert memtable[..][ii] != 0;
          return false;
        }
        ii := ii + 1;
      }
      return true;
    }

    /** Cuts units p .. q out of the free block u and relists what remains on both sides. */
    method SplitBlock(u: u32, p: u32, q: u32)
      requires Dims() && Linked() && u in Sizes() && 0 < u <= p < q <= u + Sizes()[u] <= memblocks
      requires q < u + Sizes()[u] ==> q !in Sizes()
      requires Above()
      modifies `H, `lists, memftable, mem
      ensures Linked() && Above() && Flags() == old(Flags())
      ensures Sizes() == Split(old(Sizes()), u, p, q)
      ensures forall a | 0 <= a < mem.Length && UnitOf(a) !in old(Sizes())
                         && (q < u + old(Sizes()[u]) ==> UnitOf(a) != q) :: mem[a] == old(mem[a])
    {
      hide *;
      AboveAt(u);
      SizesInHeap();
      var fbsz := FreeSize(u);
      SplitIs(Sizes(), u, p, q);
      FbDel(u, 0);
      if p != u { FbAdd(u, p - u); }
      if q < u + fbsz { FbAdd(q, u + fbsz - q); }
    }

    predicate InHeap(physaddr: u32) {
      phmembase <= physaddr < phmembase + memblocks * UNIT
    }

    /** First unit of a reservation: the address is rounded down. */
    function ReservedUnit(physaddr: u32): nat
      requires InHeap(physaddr)
    {
      (physaddr - phmembase) / UNIT
    }

    /** Offset of an address in its unit. */
    function OffsetOf(physaddr: u32): nat
      requires InHeap(physaddr)
    {
      (physaddr - phmembase) % UNIT
    }

    /**
     * Byte length of a reservation in 32-bit arithmetic, counted from its first unit and cut at the end of the heap.
     */
    function ReservedLength(physaddr: u32, length: u32): u32
      requires InHeap(physaddr)
    {
      var top := phmembase + memblocks * UNIT;
      ((if top < (physaddr + length) % TWO32 then top - physaddr else length) + OffsetOf(physaddr)) % TWO32
    }

    /** Does a reservation have any units? EmptyReservation tells what happens otherwise. */
    predicate Reservable(physaddr: u32, length: u32) {
      InHeap(physaddr) ==> Units(ReservedLength(physaddr, length)) != 0
    }

    /** Below 4 GB the units of a reservation are those the address range touches in the heap. */
    lemma ReservationFits(physaddr: u32, length: u32)
      requires Dims() && InHeap(physaddr) && physaddr + length < TWO32
      ensures var top := phmembase + memblocks * UNIT;
              ReservedLength(physaddr, length) == OffsetOf(physaddr) + if top < physaddr +
                length then top - physaddr else length
      ensures Reservable(physaddr, length) <==> 0 < length || OffsetOf(physaddr) != 0
      ensures ReservedUnit(physaddr) + Units(ReservedLength(physaddr, length)) <= memblocks
    {
      var u := ReservedUnit(physaddr);
      assert u * UNIT + OffsetOf(physaddr) == physaddr - phmembase;
      assert u * UNIT + ReservedLength(physaddr, length) <= memblocks * UNIT;
    }

    /** A range that wraps around at 4 GB is refused, or only one unit of it is taken, or it has no units at all. */
    lemma WrappedReservation(physaddr: u32, length: u32)
      requires Dims() && InHeap(physaddr) && physaddr + length >= TWO32
      ensures var units := Units(ReservedLength(physaddr, length));
              && (units > 1 ==> ReservedUnit(physaddr) + units > memblocks)
              && (units == 0 <==> MAXSIZE < length + OffsetOf(physaddr) <= TWO32)
    {
    }

    /** Physical address of unit i. */
    function AddressOf(i: nat): u32
      requires Dims() && i < memblocks
    {
      phmembase + i * UNIT
    }

    lemma UnitAddress(i: nat)
      requires Dims() && i < memblocks
      ensures Units(1) == 1 && InHeap(AddressOf(i)) && Reservable(AddressOf(i), 1)
      ensures ReservedUnit(AddressOf(i)) == i && ReservedLength(AddressOf(i), 1) == 1
    {
      assert (i * UNIT) / UNIT == i && (i * UNIT) % UNIT == 0;
    }

    /**
     * memreserve: marks the units of an address range used if all of them are free. Returns the first
     * unit, or 0 with nothing changed.
     */
    method MemReserve(physaddr: u32, length: u32, ro: bool) returns (p: u32, reason: Reason)
      requires Valid() && Reservable(physaddr, length)
      modifies this, memtable, memftable, mem
      ensures Valid()
      ensures reason == OutOfRange <==> !InHeap(physaddr)
      ensures p == 0 <==> reason == OutOfRange || reason == InUse
      ensures p == 0 ==> memtable[..] == old(memtable[..]) && Flags() == old(Flags())
      ensures InHeap(physaddr) ==> 0 < ReservedLength(physaddr, length) <= MAXSIZE
      ensures InHeap(physaddr) ==>
                (reason != InUse <==> IsZero(old(memtable[..]), ReservedUnit(physaddr), ReservedUnit(physaddr)
                  + Units(ReservedLength(physaddr, length))))
      ensures p != 0 ==> p == ReservedUnit(physaddr) && p + Units(ReservedLength(physaddr, length)) <= memblocks
      ensures p != 0 ==> memtable[..] == Mark(old(memtable[..]), p, ReservedLength(physaddr, length))
      ensures p != 0 ==> Flags() == old(Flags())[p := ro || old(Flags())[p]]
      ensures p != 0 ==> (reason == Truncated <==> phmembase + memblocks * UNIT < (physaddr + length) % TWO32)
      ensures forall a | 0 <= a < mem.Length && old(memtable[UnitOf(a)]) != 0 && !IsMark(a, p) :: mem[a] == old(mem[a])
    {
      hide *;
      Unfold();
      var inside := phmembase <= physaddr < phmembase + memblocks * UNIT;
      HeapRange(physaddr);
      p, reason := 0, OutOfRange;
      if !inside { return; }
      var pos, len, cut := PlaceOf(physaddr, length);
      reason := if cut then Truncated else Reserved;
      var free := AllFree(pos, pos + Units(len));
      FreeInside(memtable[..], pos, pos + Units(len));
      if !free {
        reason := InUse;
      } else {
        ReserveUnits(pos, len, ro);
        p := pos;
      }
    }

    lemma HeapRange(physaddr: u32)
      ensures InHeap(physaddr) <==> phmembase <= physaddr < phmembase + memblocks * UNIT
    {
    }

    static lemma FreeInside(t: Table, lo: nat, hi: nat)
      ensures IsZero(t, lo, hi) ==> hi <= |t|
    {
    }

    /** The address arithmetic of memreserve, in 32 bits. */
    method PlaceOf(physaddr: u32, length: u32) returns (pos: u32, len: u32, cut: bool)
      requires Dims() && InHeap(physaddr) && Reservable(physaddr, length)
      ensures pos == ReservedUnit(physaddr) < memblocks && len == ReservedLength(physaddr, length)
      ensures 0 < len <= MAXSIZE && pos + Units(len) < 0x1_0000_0000
      ensures cut <==> phmembase + memblocks * UNIT < (physaddr + length) % TWO32
    {
      len, cut := length, phmembase + memblocks * UNIT < (physaddr + length) % TWO32;
      if cut {
        len := phmembase + memblocks * UNIT - physaddr;
      }
      var sz := (physaddr - phmembase) % UNIT;
      len := (len + sz) % TWO32;
      pos := (physaddr - sz - phmembase) / UNIT;
      assert pos == (physaddr - phmembase) / UNIT;
    }

    /**
     * Cuts a reservation out of a free block and sets its read-only mark if asked; the mark is not cleared otherwise.
     */
    method SplitMarked(u: u32, p: u32, q: u32, ro: bool)
      requires Valid() && u in Sizes() && 0 < u <= p < q <= u + Sizes()[u] <= memblocks
      requires q < u + Sizes()[u] ==> q !in Sizes() && memtable[q] == 0
      modifies `H, `lists, memftable, mem
      ensures Linked()
      ensures Sizes() == Split(old(Sizes()), u, p, q) && Flags() == old(Flags())[p := ro || old(Flags())[p]]
      ensures forall a | 0 <= a < mem.Length && memtable[UnitOf(a)] != 0 && !IsMark(a, p) :: mem[a] == old(mem[a])
    {
      hide Valid, Linked, UnitOf, SizesOf, FlagsOf, Flags, Above, TableUnits;
      Unfold();
      AboveNow();
      FreeBlockFacts(u);
      ghost var flags := Flags();
      SplitBlock(u, p, q);
      if ro {
        MarkUnit(p);
        SetFlag(p, true);
      } else {
        assert flags[p := flags[p]] == flags;
      }
    }

    /** The marking half of memreserve. */
    method ReserveUnits(pos: u32, size: u32, ro: bool)
      requires Valid() && 0 < size <= MAXSIZE && pos + Units(size) <= memblocks
      requires IsZero(memtable[..], pos, pos + Units(size))
      modifies this, memtable, memftable, mem
      ensures Valid() && 0 < pos
      ensures memtable[..] == Mark(old(memtable[..]), pos, size)
        && Flags() == old(Flags())[pos := ro || old(Flags())[pos]]
      ensures forall a | 0 <= a < mem.Length && old(memtable[UnitOf(a)]) != 0
        && !IsMark(a, pos) :: mem[a] == old(mem[a])
    {
      hide *;
      Unfold();
      Marks();
      ghost var t, S, marks := memtable[..], Sizes(), Flags();
      UnitsPositive(size);
      ReservedIsFree(t, marks, pos, size);
      var ii := RunStart(pos);
      ReservedRuns(t, S, ii, pos, size);
      FreeUnits();
      SplitMarked(ii, pos, pos + Units(size), ro);
      MarkUsed(pos, size);
      MarksAfterMark(t, marks, pos, size, ro || marks[pos]);
      Fold();
    }

    /** Reserves a free unit whose mark is set, without asking for that, and frees it. */
    method ReserveStale(i: nat)
      requires Valid() && i < memblocks && IsZero(memtable[..], i, i + 1) && Flags()[i]
      modifies this, memtable, memftable, mem
      ensures Valid() && IsStart(memtable[..], i) && Flags()[i]
    {
      hide *;
      Unfold();
      UnitAddress(i);
      MarkedStart(memtable[..], i);
      var p, why := MemReserve(AddressOf(i), 1, false);
      MemFree(i);
    }

    lemma FreeUnits()
      requires Valid()
      ensures forall v :: v in Sizes() ==> v < memblocks && memtable[v] == 0
    {
      forall v | v in Sizes()
        ensures v < memblocks && memtable[v] == 0
      {
        assert IsHead(memtable[..], v);
      }
    }

    /** memmgr_init up to the holes: the tables are the first used block, the rest is one free block. The memory holds
        ram before. */
    constructor (efi: bool, phmembase: u32, memblocks: nat, ram: seq<byte>)
      requires 1 < memblocks < 0x1_0000 && phmembase + memblocks * UNIT < TWO32 && |ram| == memblocks * UNIT
      requires Units(TableSize(memblocks)) < memblocks
      ensures this.memblocks == memblocks && this.phmembase == phmembase && this.efi == efi
      ensures Dims() && Linked() && memtable[..] == InitialTable(memblocks) && Runs(memtable[..], Sizes())
      ensures FlagsFit(memblocks) ==> Valid() && FlagHi(memblocks) <= |ram| && Flags() == InitialFlags(memblocks, ram)
      ensures fresh(memtable) && fresh(memftable) && fresh(mem)
    {
      this.efi, this.phmembase, this.memblocks := efi, phmembase, memblocks;
      memtable := new u32[memblocks](i => 0);
      memftable := new u32[memblocks](i => 0);
      mem := new byte[memblocks * UNIT];
      H := map[];
      lists := seq(memblocks, i => []);
      new;
      forall i | 0 <= i < memblocks * UNIT {
        mem[i] := ram[i];
      }
      EmptyLists();
      InitTables(ram);
    }

    lemma EmptyLists()
      requires Dims() && H == map[] && |lists| == memblocks
      requires forall i | 0 <= i < memblocks :: lists[i] == [] && memftable[i] == 0
      ensures Linked() && Sizes() == map[]
    {
      forall k: u32 | k < |lists|
        ensures Chain(lists[k], memftable[..][k], k, H)
      {
        assert memftable[..][k] == memftable[k];
      }
    }

    method InitTables(ram: seq<byte>)
      requires Dims() && Linked() && Sizes() == map[] && memblocks < 0x1_0000 && Units(TableSize(memblocks)) < memblocks
      requires (forall i | 0 <= i < memblocks :: memtable[i] == 0) && mem[..] == ram
      modifies this, memtable, memftable, mem
      ensures Dims() && Linked() && memtable[..] == InitialTable(memblocks) && Runs(memtable[..], Sizes())
      ensures FlagsFit(memblocks) ==> Valid() && FlagHi(memblocks) <= |ram| && Flags() == InitialFlags(memblocks, ram)
    {
      hide *;
      DimsFacts();
      var sz := TableSize(memblocks);
      TableSizeBounds(memblocks);
      InitialRuns(memblocks, memtable[..]);
      ClearTables(sz, ram);
      MarkUsed(0, sz);
      TablesAre();
      ListRest(Units(sz), ram);
      FirstMark(ram);
      if FlagsFit(memblocks) {
        SureAtStart(memblocks, ram);
        InitialMarks(memblocks, Flags());
        Fold();
      }
    }

    /** Bytes of the marks before the first mark is stored: whole bytes are clear, the rest is what the memory held. */
    ghost predicate ClearedBytes(ram: seq<byte>)
      requires Dims() && |ram| == memblocks * UNIT
      reads mem
    {
      FlagHi(memblocks) <= |ram|
      && forall k | 0 <= k < |MarkBytes()| ::
           MarkBytes()[k] ==
           if k < memblocks / 8 then 0 else ram[FlagLo(memblocks) + k]
    }

    /** The rest of the heap becomes one free block. */
    method ListRest(m: u32, ghost ram: seq<byte>)
      requires Dims() && Linked() && Sizes() == map[] && m == TableUnits() && 0 < m < memblocks
      requires |ram| == memblocks * UNIT && ClearedBytes(ram)
      modifies `H, `lists, memftable, mem
      ensures Linked() && Sizes() == map[m := memblocks - m]
      ensures FlagsFit(memblocks) ==> ClearedBytes(ram)
      ensures forall u :: u in Sizes() ==> TableUnits() <= u
    {
      hide Linked, SizesOf, FlagsOf, TableUnits, UnitOf, FlagsFit;
      ghost var ms := MarkBytes();
      FbAdd(m, memblocks - m);
      if FlagsFit(memblocks) {
        MarksInTables();
        MarksKept(ms);
      }
    }

    /** The memset over the tables; the marks of an incomplete last byte are not reached. */
    method ClearTables(sz: u32, ghost ram: seq<byte>)
      requires Dims() && Linked() && Sizes() == map[] && sz == TableSize(memblocks) && mem[..] == ram
      modifies mem
      ensures Linked() && Sizes() == map[] && |ram| == memblocks * UNIT && ClearedBytes(ram)
    {
      SizesKeys();
      FirstFlagBelow();
      hide SizesOf, Lists, Unpack;
      forall a | 0 <= a < sz as int {
        mem[a] := 0;
      }
    }

    lemma OneMarkChanged(was: seq<byte>)
      requires Dims() && |was| == mem.Length && FlagLo(memblocks) < FlagHi(memblocks) <= mem.Length
      requires forall a | 0 <= a < mem.Length :: mem[a] == if a == FlagLo(memblocks) then 1 else was[a]
      ensures Flags() == FlagsOf(was[FlagLo(memblocks)..FlagHi(memblocks)][0 := 1], memblocks)
    {
      hide FlagsOf;
      MarksKept(was[FlagLo(memblocks)..FlagHi(memblocks)][0 := 1]);
    }

    /** The first byte of the marks becomes 1. */
    method FirstMark(ghost ram: seq<byte>)
      requires Dims() && Linked() && |ram| == memblocks * UNIT
      requires forall u :: u in Sizes() ==> TableUnits() <= u
      requires FlagsFit(memblocks) ==> ClearedBytes(ram)
      modifies mem
      ensures Linked() && Sizes() == old(Sizes())
      ensures FlagsFit(memblocks) ==> FlagHi(memblocks) <= |ram| && Flags() == InitialFlags(memblocks, ram)
    {
      AboveMarks();
      ghost var was := mem[..];
      if FlagsFit(memblocks) { MarksOnceSet(ram); }
      hide *;
      StoreByte(FlagLo(memblocks), 1);
      OneMarkChanged(was);
    }

    /** No header lies at or below the first byte of the marks. */
    lemma AboveMarks()
      requires Dims() && forall u :: u in Sizes() ==> TableUnits() <= u
      ensures UnitOf(FlagLo(memblocks)) !in Sizes()
      ensures FlagLo(memblocks) < FlagHi(memblocks) <= mem.Length
    {
      FirstFlagBelow();
      hide SizesOf, TableUnits, FlagLo, FlagHi;
    }

    lemma MarksOnceSet(ram: seq<byte>)
      requires Dims() && |ram| == memblocks * UNIT && ClearedBytes(ram)
      ensures FlagLo(memblocks) < FlagHi(memblocks) <= |ram| == mem.Length
      ensures FlagsOf(mem[..][FlagLo(memblocks)..FlagHi(memblocks)][0 := 1], memblocks) == InitialFlags(memblocks, ram)
    {
      FirstFlagBelow();
      hide FlagsOf, InitialFlags;
      assert MarkBytes() == mem[..][FlagLo(memblocks)..FlagHi(memblocks)];
      MarksCleared(memblocks, MarkBytes()[0 := 1], ram);
    }

    lemma TablesAre()
      requires Dims()
      ensures TableUnits() == Units(TableSize(memblocks))
    {
    }

    lemma FirstFlagBelow()
      requires Dims()
      ensures FlagLo(memblocks) < TableUnits() * UNIT && 0 < FlagHi(memblocks) - FlagLo(memblocks)
      ensures FlagHi(memblocks) <= mem.Length
      ensures FlagLo(memblocks) + memblocks / 8 == TableSize(memblocks) <= FlagHi(memblocks)
    {
      TableSizeBounds(memblocks);
    }

    lemma DimsFacts()
      requires Dims()
      ensures 1 < memblocks < 0x1_0000 && memtable != memftable
      ensures memtable.Length == memblocks
    {
    }

    /** The hole between two memory blocks, rounded to units: down at its start, up at its end; 32-bit arithmetic. */
    static ghost function HoleStart(b: PhysBlock): nat {
      (b.start + b.len) % 0x1_0000_0000 / 0x1_0000 * 0x1_0000
    }

    static ghost function HoleEnd(b: PhysBlock): nat {
      Round64k(b.start)
    }

    /** Does the gap below block i of the memory map leave units of the heap to be reserved? */
    ghost predicate IsHole(phys: seq<PhysBlock>, i: nat)
      requires 0 < i < |phys|
    {
      HoleStart(phys[i - 1]) < HoleEnd(phys[i]) && InHeap(HoleStart(phys[i - 1]))
    }

    /** Are all units of the hole below block i free? */
    ghost predicate HoleFree(t: Table, phys: seq<PhysBlock>, i: nat)
      requires 0 < i < |phys| && IsHole(phys, i)
    {
      var start := HoleStart(phys[i - 1]);
      var len := ReservedLength(start, HoleEnd(phys[i]) - start);
      len < TWO32 && IsZero(t, ReservedUnit(start), ReservedUnit(start) + Units(len))
    }

    /** One step of the loop over the holes. */
    method ReserveHole(phys: seq<PhysBlock>, i: nat)
      requires Valid() && 0 < i < |phys| && HoleStart(phys[i - 1]) < HoleEnd(phys[i])
      modifies this, memtable, memftable, mem
      ensures Valid()
      ensures IsHole(phys, i) ==> !HoleFree(memtable[..], phys, i)
      ensures forall j | 0 <= j < memblocks && old(memtable[..][j]) != 0 :: memtable[..][j] == old(memtable[..][j])
      ensures AddedReadOnly(old(memtable[..]), old(Flags()), memtable[..], Flags())
    {
      hide Valid, Units, IsZero, Mark, UnitOf, Dims, HoleStart, Round64k, ReservedUnit, ReservedLength, Flags,
           AddedReadOnly;
      Unfold();
      NothingDone();
      ghost var t, ro := memtable[..], Flags();
      AddedNone(t, ro);
      HoleStartIs(phys, i);
      var start := (phys[i - 1].start + phys[i - 1].len) % TWO32 / UNIT * UNIT;
      var len := Round64k(phys[i].start) - start;
      if InHeap(start) { ReservationFits(start, len); }
      var p, why := MemReserve(start, len, true);
      if p != 0 {
        MarkKeepsUsed(t, p, ReservedLength(start, len));
        UnitsPositive(ReservedLength(start, len));
        AddedMark(t, ro, p, ReservedLength(start, len));
      }
    }

    lemma HoleStartIs(phys: seq<PhysBlock>, i: nat)
      requires 0 < i < |phys|
      ensures HoleStart(phys[i - 1]) == (phys[i - 1].start + phys[i - 1].len) % TWO32 / UNIT * UNIT
      ensures HoleEnd(phys[i]) == Round64k(phys[i].start)
    {
    }

    ghost predicate NoHoleFree(t: Table, phys: seq<PhysBlock>, lo: nat, hi: nat) {
      forall i | 0 < lo <= i < hi && i < |phys| && IsHole(phys, i) :: !HoleFree(t, phys, i)
    }

    lemma HolesStayUsed(t: Table, r: Table, phys: seq<PhysBlock>, lo: nat, hi: nat)
      requires NoHoleFree(t, phys, lo, hi) && |r| == |t|
      requires forall j :: 0 <= j < |t| && t[j] != 0 ==> r[j] == t[j]
      ensures NoHoleFree(r, phys, lo, hi)
    {
      forall i | 0 < lo <= i < hi && i < |phys| && IsHole(phys, i)
        ensures !HoleFree(r, phys, i)
      {
        assert !HoleFree(t, phys, i);
        hide IsHole, ReservedUnit, ReservedLength, Units, HoleStart;
      }
    }

    /** The tail of memmgr_init: marks the holes of the memory map above block head as read-only used blocks. */
    method ReserveHoles(phys: seq<PhysBlock>, head: nat)
      requires Valid()
      modifies this, memtable, memftable, mem
      ensures Valid() && NoHoleFree(memtable[..], phys, head + 1, |phys|)
      ensures |old(memtable[..])| == |memtable[..]|
      ensures forall i | 0 <= i < |memtable[..]| && old(memtable[..])[i] != 0 :: memtable[..][i] == old(memtable[..])[i]
      ensures AddedReadOnly(old(memtable[..]), old(Flags()), memtable[..], Flags())
    {
      hide Valid, IsHole, HoleFree, NoHoleFree, AddedReadOnly, Flags;
      Unfold();
      NothingDone();
      ghost var t0, ro0 := memtable[..], Flags();
      AddedNone(t0, ro0);
      NoHoleYet(memtable[..], phys, head + 1);
      var ii := head + 1;
      while ii < |phys|
        invariant head < ii && Valid() && NoHoleFree(memtable[..], phys, head + 1, ii)
        invariant AddedReadOnly(t0, ro0, memtable[..], Flags())
        invariant forall i | 0 <= i < memblocks && old(memtable[..])[i] != 0 :: memtable[..][i] == old(memtable[..])[i]
      {
        ghost var t, ro := memtable[..], Flags();
        HoleStartIs(phys, ii);
        if (phys[ii - 1].start + phys[ii - 1].len) % TWO32 / UNIT * UNIT < Round64k(phys[ii].start) {
          ReserveHole(phys, ii);
          AddedTrans(t0, ro0, t, ro, memtable[..], Flags());
        } else {
          NotAHole(phys, ii);
        }
        HolesStayUsed(t, memtable[..], phys, head + 1, ii);
        NextHole(memtable[..], phys, head + 1, ii);
        ii := ii + 1;
      }
      EveryHole(memtable[..], phys, head + 1, ii);
    }

    lemma NoHoleYet(t: Table, phys: seq<PhysBlock>, lo: nat)
      ensures NoHoleFree(t, phys, lo, lo)
    {
    }

    lemma EveryHole(t: Table, phys: seq<PhysBlock>, lo: nat, i: nat)
      requires NoHoleFree(t, phys, lo, i) && |phys| <= i
      ensures NoHoleFree(t, phys, lo, |phys|)
    {
      hide IsHole, HoleFree;
    }

    lemma NextHole(t: Table, phys: seq<PhysBlock>, lo: nat, i: nat)
      requires NoHoleFree(t, phys, lo, i) && 0 < i < |phys| && (IsHole(phys, i) ==> !HoleFree(t, phys, i))
      ensures NoHoleFree(t, phys, lo, i + 1)
    {
      hide IsHole, HoleFree;
    }

    lemma NotAHole(phys: seq<PhysBlock>, i: nat)
      requires 0 < i < |phys| && HoleEnd(phys[i]) <= HoleStart(phys[i - 1])
      ensures !IsHole(phys, i)
    {
    }

    lemma CountStep(ii: u32, heads: set<u32>, fb: u32)
      requires Valid() && fb in Sizes() && Sizes()[fb] == ii && fb !in heads
      ensures |UnitsOf(memtable[..], heads + {fb})| == |UnitsOf(memtable[..], heads)| + ii
    {
      CountRun(memtable[..], Sizes(), heads, fb);
    }

    /** The part of hlp_memavail that walks the list of blocks of ii units; counts units. */
    method SumList(ii: u32, ghost seen0: set<u32>) returns (n: nat, ghost seen: set<u32>)
      requires Valid() && ii < memblocks && forall u :: u in seen0 ==> u in Sizes() && Sizes()[u] > ii
      ensures forall u :: u in seen <==> u in seen0 || (u in Sizes() && Sizes()[u] == ii)
      ensures n == |UnitsOf(memtable[..], seen)| - |UnitsOf(memtable[..], seen0)|
    {
      hide *;
      n, seen := 0, seen0;
      var fb := HeadOf(ii);
      ghost var l, j := lists[ii], 0;
      HeadAt(l);
      while fb != 0
        invariant j <= |l| && (j < |l| ==> fb == l[j]) && (fb == 0 <==> j == |l|)
        invariant forall u :: u in seen <==> u in seen0 || u in l[..j]
        invariant n == |UnitsOf(memtable[..], seen)| - |UnitsOf(memtable[..], seen0)|
        decreases |l| - j
      {
        var next := VisitNode(ii, fb, j);
        CountStep(ii, seen, fb);
        seen := seen + {fb};
        n := n + ii;
        fb, j := next, j + 1;
        NextAt(l, j);
      }
      assert l[..|l|] == l;
    }

    lemma HeadAt(l: seq<u32>)
      ensures At(l, 0) == if l == [] then 0 else l[0]
    {
    }

    lemma NextAt(l: seq<u32>, j: nat)
      ensures At(l, j) == if j < |l| then l[j] else 0
    {
    }

    /** hlp_memavail: all free bytes, and the length of the largest free block. */
    method MemAvail() returns (rc: nat, maxblock: nat)
      requires Valid()
      ensures rc == |ZeroUnits(memtable[..])| * UNIT
      ensures LargestRun(memtable[..], maxblock)
    {
      hide Valid, SizesOf, UnitsOf, ZeroUnits, Tiled, Runs, FreeRun, LargestRun, Round64k;
      Unfold();
      SizesBounded();
      ghost var S := Sizes();
      ghost var seen := {};
      rc, maxblock := 0, 0;
      NoUnits(memtable[..]);
      var ii := memblocks;
      while ii > 0
        invariant ii <= memblocks
        invariant forall u :: u in seen <==> u in S && ii <= S[u]
        invariant rc == |UnitsOf(memtable[..], seen)| * UNIT
        invariant forall u :: u in S && ii <= S[u] ==> S[u] * UNIT <= maxblock
        invariant maxblock != 0 ==> ii * UNIT <= maxblock && exists u :: u in S && S[u] * UNIT == maxblock
      {
        ii := ii - 1;
        var head := HeadOf(ii);
        var r := 0;
        if head != 0 {
          r, seen := SumList(ii, seen);
          if maxblock == 0 { maxblock := ii * UNIT; }
        }
        rc := rc + r * UNIT;
      }
      CountAll(memtable[..], S, seen);
      LargestListed(memtable[..], S, maxblock);
    }

    /** Does a live block start at unit pos? */
    method IsLive(pos: u32) returns (live: bool)
      requires Valid()
      ensures live <==> IsStart(memtable[..], pos)
      ensures live ==> pos < memblocks
    {
      live := pos < memblocks && memtable[pos] != 0 && memtable[pos] != FFFF;
    }

    lemma LiveFacts(pos: u32)
      requires Valid() && IsStart(memtable[..], pos)
      ensures pos < memblocks && memtable[pos] == memtable[..][pos]
    {
    }

    method PerformAlloc(size: u32, maxaddr: bool, minaddr: bool, readonly: bool, noclear: bool, ghost asked: set<u32>)
        returns (r: u32)
      requires Valid() && Truthful(memtable[..], Flags(), asked)
      modifies this, memtable, memftable, mem
      ensures Valid() && Permanent(old(memtable[..]), old(Flags()), memtable[..], Flags())
      ensures Truthful(memtable[..], Flags(), Ask(asked, r, readonly))
      ensures |old(memtable[..])| == |old(Flags())|
      ensures Effect(efi, phmembase, CallAlloc(size, maxaddr, minaddr, readonly, noclear),
        old(Heap(memtable[..], Flags())), r, Heap(memtable[..], Flags()))
      ensures OthersKept(old(memtable[..]), old(mem[..]), memtable[..], mem[..], 0)
    {
      hide *;
      Unfold();
      Marks();
      NothingDone();
      ghost var t, ro, m := memtable[..], Flags(), mem[..];
      TableLength();
      r := Alloc(size, maxaddr, minaddr, readonly, noclear);
      AllocatedIs(efi, phmembase, size, maxaddr, minaddr, readonly, noclear, Heap(t, ro), r,
                  Heap(memtable[..], Flags()));
      StartsSame(t, 0);
      AskZero(asked, readonly);
      if r != 0 {
        AllocSize(size);
        StartsMark(t, r, size, 0);
        PermanentMark(t, ro, r, size, readonly);
        TruthfulMark(t, ro, asked, r, size, readonly, readonly);
      }
      OldWords(t);
      KeptBytes(t, ro, m, 0, r);
    }

    lemma AskZero(asked: set<u32>, readonly: bool)
      ensures Ask(asked, 0, readonly) == asked
    {
    }

    lemma AllocSize(size: u32)
      requires 0 < size <= MAXSIZE
      ensures 0 < Units(size)
    {
    }

    /** The words of a table before a change. */
    twostate lemma OldWords(t: Table)
      requires Dims() && t == old(memtable[..])
      ensures forall i | 0 <= i < memblocks :: t[i] == old(memtable[i])
    {
    }

    /** A change that keeps the size words of the other blocks and writes no byte of theirs keeps these blocks. */
    lemma KeptBytes(t: Table, ro: seq<bool>, m: seq<byte>, pos: nat, r: nat)
      requires Dims() && FlagsFit(memblocks) && Tiled(t) && ReadOnlyMarks(t, ro) && |t| == memblocks
      requires |m| == mem.Length && IsStart(t, pos) && r < memblocks && StartsKept(t, memtable[..], pos)
      requires forall a: nat | a < |m| && t[UnitOf(a)] != 0 && !IsMark(a, r)
                          && !(pos <= UnitOf(a) < pos + Units(t[pos])) :: mem[a] == m[a]
      ensures OthersKept(t, m, memtable[..], mem[..], pos)
    {
      MarksInTables();
      FlagPlaces(memblocks);
      forall p, a: int | 0 < p && IsStart(t, p) && p != pos && p * UNIT <= a < (p + Units(t[p])) * UNIT && a < |m|
        ensures mem[a] == m[a]
      {
        OtherUnits(t, pos, p, UnitOf(a));
        RunsApart(t, 0, p);
      }
    }

    method PerformFree(pos: u32, ghost asked: set<u32>)
      requires Valid() && IsStart(memtable[..], pos) && Truthful(memtable[..], Flags(), asked)
      modifies this, memtable, memftable, mem
      ensures Valid() && Permanent(old(memtable[..]), old(Flags()), memtable[..], Flags())
      ensures Truthful(memtable[..], Flags(), asked)
      ensures |old(memtable[..])| == |old(Flags())|
      ensures Effect(efi, phmembase, CallFree(pos), old(Heap(memtable[..], Flags())), 0,
        Heap(memtable[..], Flags()))
      ensures OthersKept(old(memtable[..]), old(mem[..]), memtable[..], mem[..], pos)
    {
      hide *;
      Unfold();
      Marks();
      LiveFacts(pos);
      NothingDone();
      ghost var t, ro, m := memtable[..], Flags(), mem[..];
      TableLength();
      MemFree(pos);
      ReleasedIs(efi, phmembase, pos, Heap(t, ro), Heap(memtable[..], Flags()));
      StartsSame(t, pos);
      if !ro[pos] {
        PermanentClear(t, ro, pos);
        TruthfulClear(t, ro, asked, pos);
        StartsClear(t, pos);
      }
      OldWords(t);
      KeptBytes(t, ro, m, pos, 0);
    }

    method PerformRealloc(pos: u32, newsize: u32, ghost asked: set<u32>) returns (r: u32)
      requires Valid() && IsStart(memtable[..], pos) && !Flags()[pos] && newsize <= MAXSIZE
      requires Truthful(memtable[..], Flags(), asked)
      modifies this, memtable, memftable, mem
      ensures Valid() && Permanent(old(memtable[..]), old(Flags()), memtable[..], Flags())
      ensures Truthful(memtable[..], Flags(), Ask(asked, r, false))
      ensures |old(memtable[..])| == |old(Flags())|
      ensures Effect(efi, phmembase, CallRealloc(pos, newsize), old(Heap(memtable[..], Flags())), r,
        Heap(memtable[..], Flags()))
      ensures OthersKept(old(memtable[..]), old(mem[..]), memtable[..], mem[..], pos)
    {
      hide *;
      Unfold();
      Marks();
      LiveFacts(pos);
      BlockFacts(pos);
      SizeKinds(newsize);
      ghost var t, ro, m := memtable[..], Flags(), mem[..];
      ghost var align := if efi then BestFit else Lowest;
      TableLength();
      NonZeroIs(newsize);
      r := MemRealloc(pos, newsize);
      ResizedIs(efi, phmembase, pos, newsize, Heap(t, ro), r, Heap(memtable[..], Flags()));
      PermanentRealloc(t, ro, align, pos, NonZero(newsize), r, memtable[..], Flags());
      TruthfulRealloc(t, ro, asked, align, pos, NonZero(newsize), r, memtable[..], Flags());
      StartsRealloc(t, ro, align, pos, NonZero(newsize), r, memtable[..], Flags());
      OldWords(t);
      KeptBytes(t, ro, m, pos, r);
    }

    /** A resize to a size that wraps: the block is freed in place. */
    method PerformLoss(pos: u32, newsize: u32, ghost asked: set<u32>) returns (r: u32)
      requires Valid() && IsStart(memtable[..], pos) && !Flags()[pos] && newsize > MAXSIZE
      requires 0 < pos < memblocks && memtable[pos - 1] != 0 && Truthful(memtable[..], Flags(), asked)
      modifies this, memtable, memftable, mem
      ensures Valid() && Permanent(old(memtable[..]), old(Flags()), memtable[..], Flags())
      ensures Truthful(memtable[..], Flags(), Ask(asked, r, false))
      ensures |old(memtable[..])| == |old(Flags())|
      ensures Effect(efi, phmembase, CallRealloc(pos, newsize), old(Heap(memtable[..], Flags())), r,
        Heap(memtable[..], Flags()))
      ensures OthersKept(old(memtable[..]), old(mem[..]), memtable[..], mem[..], pos)
    {
      hide *;
      Unfold();
      Marks();
      LiveFacts(pos);
      BlockFacts(pos);
      ghost var t, ro, m := memtable[..], Flags(), mem[..];
      TableLength();
      r := MemRealloc(pos, newsize);
      LostFacts(t, ro, pos, r, memtable[..], Flags());
      LostIs(efi, phmembase, pos, newsize, Heap(t, ro), Heap(memtable[..], Flags()));
      PermanentClear(t, ro, pos);
      TruthfulClear(t, ro, asked, pos);
      TruthfulUnasked(memtable[..], Flags(), asked, pos);
      StartsClear(t, pos);
      OldWords(t);
      KeptBytes(t, ro, m, pos, r);
    }

    lemma LostFacts(t: Table, ro: seq<bool>, pos: nat, r: nat, t': Table, ro': seq<bool>)
      requires pos < |t| && Lost(t, ro, pos, r, t', ro')
      ensures pos + Units(t[pos]) <= |t| && r == pos && t' == Clear(t, pos, pos + Units(t[pos])) && ro' == ro
    {
    }

    method PerformReserve(physaddr: u32, length: u32, readonly: bool, ghost asked: set<u32>) returns (r: u32)
      requires Valid() && Reservable(physaddr, length) && Truthful(memtable[..], Flags(), asked)
      modifies this, memtable, memftable, mem
      ensures Valid() && Permanent(old(memtable[..]), old(Flags()), memtable[..], Flags())
      ensures Truthful(memtable[..], Flags(), Ask(asked, r, readonly))
      ensures |old(memtable[..])| == |old(Flags())|
      ensures Effect(efi, phmembase, CallReserve(physaddr, length, readonly), old(Heap(memtable[..], Flags())), r,
        Heap(memtable[..], Flags()))
      ensures OthersKept(old(memtable[..]), old(mem[..]), memtable[..], mem[..], 0)
    {
      hide *;
      Unfold();
      Marks();
      NothingDone();
      ghost var t, ro, m := memtable[..], Flags(), mem[..];
      var why;
      r, why := MemReserve(physaddr, length, readonly);
      ClaimedIs(physaddr, length, readonly, why, Heap(t, ro), r, Heap(memtable[..], Flags()));
      StartsSame(t, 0);
      AskZero(asked, readonly);
      if r != 0 {
        AllocSize(ReservedLength(physaddr, length));
        ReservedIsFree(t, ro, r, ReservedLength(physaddr, length));
        StartsMark(t, r, ReservedLength(physaddr, length), 0);
        PermanentMark(t, ro, r, ReservedLength(physaddr, length), readonly || ro[r]);
        TruthfulMark(t, ro, asked, r, ReservedLength(physaddr, length), readonly || ro[r], readonly);
      }
      OldWords(t);
      KeptBytes(t, ro, m, 0, r);
    }

    lemma TableLength()
      requires Valid()
      ensures |memtable[..]| == memblocks == |Flags()|
    {
    }

    lemma NonZeroIs(size: u32)
      ensures NonZero(size) == if size == 0 then 1 else size
    {
    }

    /** A reservation in the terms of its address range. */
    lemma ClaimedIs(physaddr: u32, length: u32, readonly: bool, why: Reason, h: Heap, r: u32, h': Heap)
      requires Dims() && Reservable(physaddr, length) && |h.t| == |h.ro| == memblocks
      requires why == OutOfRange <==> !InHeap(physaddr)
      requires r == 0 <==> why == OutOfRange || why == InUse
      requires r == 0 ==> h' == h
      requires InHeap(physaddr) ==>
        (why != InUse <==> IsZero(h.t, ReservedUnit(physaddr),
                                  ReservedUnit(physaddr) + Units(ReservedLength(physaddr, length))))
      requires r != 0 ==>
        r == ReservedUnit(physaddr) && r + Units(ReservedLength(physaddr, length)) <= |h.t| && r < |h.t|
        && h' == Heap(Mark(h.t, r, ReservedLength(physaddr, length)), h.ro[r := readonly || h.ro[r]])
      ensures Effect(efi, phmembase, CallReserve(physaddr, length, readonly), h, r, h')
    {
      hide IsZero, Units, Mark;
    }

    lemma NotClaimed(physaddr: u32, length: u32, readonly: bool, h: Heap)
      requires Dims() && !Reservable(physaddr, length) && |h.t| == |h.ro| == memblocks
      ensures Effect(efi, phmembase, CallReserve(physaddr, length, readonly), h, 0, h)
    {
      hide IsZero, Mark;
    }

    lemma NothingDone()
      requires Valid()
      ensures Permanent(memtable[..], Flags(), memtable[..], Flags())
      ensures |memtable[..]| == memblocks == |Flags()|
    {
    }

    /** Runs one call of the interface and gives its result; a call that a program may not make is skipped. */
    method Perform(c: Call, ghost asked: set<u32>) returns (r: u32)
      requires Valid() && Truthful(memtable[..], Flags(), asked)
      modifies this, memtable, memftable, mem
      ensures Valid() && Permanent(old(memtable[..]), old(Flags()), memtable[..], Flags())
      ensures Truthful(memtable[..], Flags(), AskedBy(asked, c, r))
      ensures |old(memtable[..])| == |old(Flags())|
      ensures Effect(efi, phmembase, c, old(Heap(memtable[..], Flags())), r,
        Heap(memtable[..], Flags()))
      ensures OthersKept(old(memtable[..]), old(mem[..]), memtable[..], mem[..], Target(c))
    {
      hide *;
      NothingDone();
      Unfold();
      ghost var h := Heap(memtable[..], Flags());
      AskNothing(asked, c);
      TargetIs(c);
      SameKept(memtable[..], mem[..], Target(c));
      r := 0;
      match c {
        case CallAlloc(size, maxaddr, minaddr, readonly, noclear) =>
          r := PerformAlloc(size, maxaddr, minaddr, readonly, noclear, asked);
        case CallFree(pos) =>
          var live := IsLive(pos);
          if live { PerformFree(pos, asked); } else { NotReleased(efi, phmembase, c, h); }
        case CallRealloc(pos, newsize) =>
          var live := IsLive(pos);
          if live {
            Unfold();
            var ro := IsReadOnly(pos);
            if !ro {
              BlockFacts(pos);
              if newsize <= MAXSIZE {
                r := PerformRealloc(pos, newsize, asked);
              } else if memtable[pos - 1] != 0 {
                r := PerformLoss(pos, newsize, asked);
              } else {
                NotLost(efi, phmembase, pos, newsize, h);
              }
            } else {
              NotReleased(efi, phmembase, c, h);
            }
          } else {
            NotReleased(efi, phmembase, c, h);
          }
        case CallReserve(physaddr, length, readonly) =>
          if Reservable(physaddr, length) { r := PerformReserve(physaddr, length, readonly, asked); } else {
            NotClaimed(physaddr, length, readonly, h);
          }
      }
      AskedIs(asked, c, r);
    }

    /**
     * Any sequence of calls: the heap stays consistent, so that no check of the allocator ever fails, read-only blocks
     * stay for good, and a live block is refused as read-only exactly if a call asked for it, for the units whose mark
     * was cleared at the start. A live block that no call frees or resizes keeps its size and its bytes.
     */
    method Run(calls: seq<Call>, ghost asked: set<u32>) returns (results: seq<u32>, ghost hs: seq<Heap>)
      requires Valid() && Truthful(memtable[..], Flags(), asked)
      modifies this, memtable, memftable, mem
      ensures Valid() && Permanent(old(memtable[..]), old(Flags()), memtable[..], Flags())
      ensures |results| == |calls| && Truthful(memtable[..], Flags(), AskedByAll(asked, calls, results))
      ensures UntouchedKept(Targets(calls), old(memtable[..]), old(mem[..]), memtable[..], mem[..])
      ensures History(efi, phmembase, calls, results, hs)
      ensures hs[0] == old(Heap(memtable[..], Flags())) && hs[|calls|] == Heap(memtable[..], Flags())
    {
      hide *;
      Unfold();
      NothingDone();
      ghost var t, ro, m := memtable[..], Flags(), mem[..];
      UntouchedStart(t, m);
      NoTargets(calls);
      results, hs := [], [Heap(t, ro)];
      var i := 0;
      HistoryStart(efi, phmembase, hs[0]);
      NoCalls(asked, calls);
      while i < |calls|
        invariant i <= |calls| && |results| == i && Valid() && Permanent(t, ro, memtable[..], Flags())
        invariant Truthful(memtable[..], Flags(), AskedByAll(asked, calls[..i], results))
        invariant UntouchedKept(Targets(calls[..i]), t, m, memtable[..], mem[..])
        invariant History(efi, phmembase, calls[..i], results, hs)
        invariant |hs| == i + 1 && hs[0] == Heap(t, ro) && hs[i] == Heap(memtable[..], Flags())
      {
        ghost var t1, ro1, m1 := memtable[..], Flags(), mem[..];
        var r := Perform(calls[i], AskedByAll(asked, calls[..i], results));
        PermanentTrans(t, ro, t1, ro1, memtable[..], Flags());
        OneCall(asked, calls, results, i, r);
        UntouchedStep(Targets(calls[..i]), t, m, t1, m1, memtable[..], mem[..], Target(calls[i]));
        OneTarget(calls, i);
        NothingDone();
        HistoryGrows(efi, phmembase, calls[..i], results, hs, calls[i], r, Heap(memtable[..], Flags()));
        assert calls[..i + 1] == calls[..i] + [calls[i]];
        results, hs := results + [r], hs + [Heap(memtable[..], Flags())];
        i := i + 1;
      }
      assert calls[..|calls|] == calls;
    }
  }

  lemma LastUnits(n: nat, i: nat)
    requires 8 <= n < 0x1_0000 && n % 8 != 0 && n / 8 * 8 <= i < n
    ensures Units(TableSize(n)) < n && Sure(n) <= i && IsZero(InitialTable(n), i, i + 1)
  {
  }

  lemma StaleFlag(n: nat, ram: seq<byte>, i: nat)
    requires 8 <= n && n % 8 != 0 && n / 8 * 8 <= i < n && FlagHi(n) <= |ram| && IsSet(ram[FlagAt(n, i)], i % 8)
    ensures InitialFlags(n, ram)[i]
  {
  }

  lemma MarkedStart(t: Table, p: nat)
    requires p < |t|
    ensures Units(1) == 1 && IsStart(Mark(t, p, 1), p)
  {
  }

  /**
   * A heap whose number of units is no multiple of eight may start with marks of its last units set. A block reserved
   * there then is read-only although nobody asked for that, and stays when it is freed.
   */
  method StaleMark(efi: bool, base: u32, n: nat, ram: seq<byte>, i: nat) returns (m: MemManager)
    requires 8 <= n < 0x1_0000 && n % 8 != 0 && FlagsFit(n) && base + n * UNIT < TWO32 && |ram| == n * UNIT
    requires n / 8 * 8 <= i < n && FlagHi(n) <= |ram| && IsSet(ram[FlagAt(n, i)], i % 8)
    ensures m.Valid() && m.memblocks == n && i < |m.memtable[..]|
    ensures m.Flags()[i] && IsStart(m.memtable[..], i)
  {
    LastUnits(n, i);
    StaleFlag(n, ram, i);
    hide *;
    m := new MemManager(efi, base, n, ram);
    m.Unfold();
    m.ReserveStale(i);
  }

  /** The blocks that are to be read-only after a call with result r. */
  function AskedBy(asked: set<u32>, c: Call, r: u32): set<u32> {
    match c
    case CallAlloc(size, maxaddr, minaddr, readonly, noclear) => Ask(asked, r, readonly)
    case CallFree(pos) => asked
    case CallRealloc(pos, newsize) => Ask(asked, r, false)
    case CallReserve(physaddr, length, readonly) => Ask(asked, r, readonly)
  }

  function AskedByAll(asked: set<u32>, calls: seq<Call>, results: seq<u32>): set<u32>
    requires |results| == |calls|
  {
    if calls == [] then asked
    else AskedBy(AskedByAll(asked, calls[..|calls| - 1], results[..|calls| - 1]), calls[|calls| - 1],
      results[|calls| - 1])
  }

  /** The block that a call is about, or 0. */
  function Target(c: Call): nat {
    match c
    case CallAlloc(_, _, _, _, _) => 0
    case CallFree(pos) => pos
    case CallRealloc(pos, _) => pos
    case CallReserve(_, _, _) => 0
  }

  lemma TargetIs(c: Call)
    ensures Target(c) == if c.CallFree? || c.CallRealloc? then c.pos else 0
  {
  }

  /** The blocks that calls free or resize. */
  ghost function Targets(calls: seq<Call>): set<nat> {
    set c | c in calls :: Target(c)
  }

  lemma NoTargets(calls: seq<Call>)
    ensures Targets(calls[..0]) == {}
  {
  }

  lemma OneTarget(calls: seq<Call>, i: nat)
    requires i < |calls|
    ensures Targets(calls[..i + 1]) == Targets(calls[..i]) + {Target(calls[i])}
  {
    assert calls[..i + 1] == calls[..i] + [calls[i]];
  }

  lemma AskNothing(asked: set<u32>, c: Call)
    ensures AskedBy(asked, c, 0) == asked
  {
  }

  lemma AskedIs(asked: set<u32>, c: Call, r: u32)
    ensures c.CallAlloc? ==> AskedBy(asked, c, r) == Ask(asked, r, c.readonly)
    ensures c.CallFree? ==> AskedBy(asked, c, r) == asked
    ensures c.CallRealloc? ==> AskedBy(asked, c, r) == Ask(asked, r, false)
    ensures c.CallReserve? ==> AskedBy(asked, c, r) == Ask(asked, r, c.readonly)
  {
  }

  lemma NoCalls(asked: set<u32>, calls: seq<Call>)
    ensures AskedByAll(asked, calls[..0], []) == asked
  {
  }

  lemma OneCall(asked: set<u32>, calls: seq<Call>, results: seq<u32>, i: nat, r: u32)
    requires |results| == i < |calls|
    ensures AskedByAll(asked, calls[..i + 1], results + [r]) ==
      AskedBy(AskedByAll(asked, calls[..i], results), calls[i], r)
  {
    assert calls[..i + 1][..i] == calls[..i];
    assert (results + [r])[..i] == results;
  }
}
