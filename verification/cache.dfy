/** The sector cache: lookup, replacement and invalidation over the block tables. */
module SectorCache {
  import opened Machine
  import opened CacheLists
  import opened CacheState
  import opened CacheData
  import opened CacheQueue

  class Cache {
    const geo: Geometry
    const bi: array<Info>
    const cidxa: array<nat>
    const bitmap: array<bool>
    const prio: array<bool>
    const cache: array<seq<Sector>>
    var freehead: nat
    var cachehead: nat
    var freeTotal: nat
    var disk: Disks
    ghost var free: seq<nat>
    ghost var ring: seq<nat>
    ghost var cls: Classes

    ghost predicate Shape() {
      && geo.group > 0 && GeoOk(geo) && bi.Length >= 2 && cidxa.Length == bi.Length == cache.Length
      && bitmap.Length == prio.Length == |geo.disks| * geo.span && bitmap != prio
    }

    /** Free list and recency ring partition the blocks. */
    ghost predicate Lists()
      reads `freehead, `cachehead, `freeTotal, `free, `ring, bi
    {
      && FreeOk(bi[..], freehead, free) && RingOk(bi[..], cachehead, ring) && Parted(bi[..], free, ring)
      && freeTotal == |free|
    }

    ghost predicate Tags()
      requires geo.group > 0
      reads bi, cidxa, bitmap
    {
      Placed(geo, bi[..]) && Indexed(geo, bi[..], cidxa[..]) && Flagged(geo, bi[..], bitmap[..])
    }

    ghost predicate Groups(skip: Option<nat>)
      requires geo.group > 0
      reads bi, `cls
    {
      Classed(geo, bi[..], cls, skip)
    }

    ghost predicate Valid()
      reads `freehead, `cachehead, `freeTotal, `free, `ring, `cls, bi, cidxa, bitmap
    {
      Shape() && Lists() && Tags() && Groups(None)
    }

    /** The cached locations in the order in which they are given up. */
    ghost function Queue(): seq<Entry>
      reads `ring, bi
    {
      QueueOf(bi[..], ring)
    }

    ghost function State(): Memory
      reads `ring, `freeTotal, bi, prio
    {
      Memory(Caching(Queue(), freeTotal), prio[..])
    }

    // ----- cc_setsize: the empty cache -----

    /** All blocks but block 0 are free. The bitmaps keep what they held before. */
    constructor (g: Geometry, n: nat, bits: array<bool>, priorities: array<bool>, v: Disks)
      requires g.group > 0 && GeoOk(g) && FitsDisks(g, v) && n >= 2 && bits != priorities
      requires bits.Length == priorities.Length == |g.disks| * g.span
      ensures Holds(v) && disk == v && geo == g && bi.Length == n && bitmap == bits && prio == priorities
      ensures fresh(bi) && fresh(cidxa) && fresh(cache)
      ensures freeTotal == n - 1 && Queue() == [] && forall b: nat :: !Used(bi[..], b)
    {
      geo, disk, bitmap, prio := g, v, bits, priorities;
      var t := new Info[n](_ => Info(0, 0, 0, false, 0, None));
      var x := new nat[n](_ => FREE);
      var c := new seq<Sector>[n](_ => []);
      for ii := 1 to n
        modifies t
        invariant forall k :: 1 <= k < ii ==> t[k] == Info(0, k + 1, 0, false, 0, None)
        invariant t[0] == Info(0, 0, 0, false, 0, None)
      {
        t[ii] := Info(0, ii + 1, 0, false, 0, None);
      }
      t[n - 1] := Info(0, 0, 0, false, 0, None);
      bi, cidxa, cache := t, x, c;
      freehead, cachehead, freeTotal := 1, 0, n - 1;
      free, ring, cls := seq(n - 1, i => i + 1), [], map[];
      new;
      EmptyCache(geo, bi[..], cidxa[..], bitmap[..], free, cache[..], v);
    }

    // ----- free_bi_entry -----

    /** The neighbours of a block are linked to each other. */
    method BypassForward(b: nat)
      requires b < bi.Length && bi[b].prev < bi.Length && bi[b].next < bi.Length
      modifies bi
      ensures bi[..] == Relink(old(bi[..]), b)
    {
      bi[bi[b].prev] := bi[bi[b].prev].(next := bi[b].next);
      bi[bi[b].next] := bi[bi[b].next].(prev := bi[b].prev);
    }

    method BypassBackward(b: nat)
      requires b < bi.Length && bi[b].prev < bi.Length && bi[b].next < bi.Length && bi[b].prev != b && bi[b].next != b
      modifies bi
      ensures bi[..] == Relink(old(bi[..]), b)
    {
      bi[bi[b].next] := bi[bi[b].next].(prev := bi[b].prev);
      bi[bi[b].prev] := bi[bi[b].prev].(next := bi[b].next);
    }

    method LinkBeforeHead(b: nat)
      requires b < bi.Length && 0 < cachehead < bi.Length && bi[cachehead].prev < bi.Length && b != cachehead
      modifies bi
      ensures bi[..] == LinkLast(old(bi[..]), cachehead, b)
    {
      bi[b] := bi[b].(next := cachehead);
      bi[b] := bi[b].(prev := bi[cachehead].prev);
      bi[bi[b].prev] := bi[bi[b].prev].(next := b);
      bi[cachehead] := bi[cachehead].(prev := b);
    }

    method Unlink(index: nat, ghost i: nat)
      requires RingOk(bi[..], cachehead, ring) && i < |ring| && ring[i] == index
      modifies bi, `cachehead
      ensures index < bi.Length && old(bi[index].prev) in ring && old(bi[index].next) in ring
      ensures old(bi[index].prev) < bi.Length && old(bi[index].next) < bi.Length
      ensures Distinct(ring) && Inside(ring, bi.Length) && bi[..] == Relink(old(bi[..]), index)
      ensures RingOk(bi[..], cachehead, Without(ring, i))
    {
      hide RingOk, Relink, Without;
      ghost var t := bi[..];
      RingAt(t, cachehead, ring, i);
      BypassForward(index);
      UnlinkRing(t, cachehead, ring, i);
      if index == cachehead {
        cachehead := bi[index].next;
        if index == cachehead { cachehead := 0; }
      }
    }

    /** The block before index in its snext ring. */
    method LastOfClass(index: nat, ghost c: seq<nat>) returns (pb: nat)
      requires ClassRing(bi[..], c) && |c| > 1 && c[0] == index
      ensures pb == c[|c| - 1] < bi.Length
    {
      pb := index;
      ghost var k: nat := 0;
      ClassStep(bi[..], c, 0);
      while bi[pb].snext != index
        invariant k < |c| && pb == c[k] < bi.Length && (bi[pb].snext == index <==> k == |c| - 1)
        invariant bi[pb].snext == Succ(c, k)
        decreases |c| - k
      {
        pb := bi[pb].snext;
        k := k + 1;
        ClassStep(bi[..], c, k);
      }
    }

    /** Takes a block out of its class, or clears the bit of its group. */
    method LeaveGroup(index: nat, ghost c: seq<nat>, ghost key: nat)
      requires Shape() && ClassRing(bi[..], c) && c != [] && c[0] == index && Used(bi[..], index)
        && KeyAt(geo, bi[..], index) == key
      requires key < bitmap.Length
      modifies bi, bitmap
      ensures |c| == 1 ==> bi[..] == old(bi[..]) && bitmap[..] == old(bitmap[..])[key := false]
      ensures |c| > 1 ==> c[0] < bi.Length && c[|c| - 1] < bi.Length && bitmap[..] == old(bitmap[..])
      ensures |c| > 1 ==> bi[..] == LeaveClass(old(bi[..]), c[0], c[|c| - 1])
    {
      hide ClassRing;
      ClassStep(bi[..], c, 0);
      if bi[index].snext != 0 {
        var pb := LastOfClass(index, c);
        bi[pb] := bi[pb].(snext := if bi[index].snext == pb then 0 else bi[index].snext);
      } else {
        bitmap[Key(geo, bi[index].disk.value, bi[index].loc)] := false;
      }
    }

    /** The snext part of freeing a block: what the classes and bits will be once the block is free. */
    method ForgetClass(index: nat)
      requires Shape() && Classed(geo, bi[..], cls, None) && Placed(geo, bi[..]) && Flagged(geo, bi[..], bitmap[..])
      requires Used(bi[..], index)
      modifies bi, bitmap, `cls
      ensures SnextOnly(old(bi[..]), bi[..]) && Used(bi[..], index)
      ensures Classed(geo, Pushed(bi[..], index, freehead), cls, None)
      ensures Flagged(geo, Pushed(bi[..], index, freehead), bitmap[..])
    {
      hide Classed, Placed, Flagged, ClassRing, Key, SnextOnly, GeoOk, OnDisk, LeaveClass;
      ghost var t, bits, key := bi[..], bitmap[..], KeyAt(geo, bi[..], index);
      ghost var c := ClassOf(geo, t, cls, index);
      KeyInRange(geo, t, index);
      LeaveGroup(index, c, key);
      if |c| == 1 {
        ForgetSingle(geo, t, cls, index, key, freehead, bits);
        cls := cls - {key};
      } else {
        ForgetShared(geo, t, bi[..], cls, c, key, freehead, bits);
        cls := cls[key := c[1..]];
      }
    }

    // ----- the data -----

    /** The cache is consistent, and every cached block holds what the given disks hold. */
    ghost predicate Holds(v: Disks)
      reads `freehead, `cachehead, `freeTotal, `free, `ring, `cls, bi, cidxa, bitmap, cache
    {
      Valid() && FitsDisks(geo, v) && Coherent(geo, bi[..], cache[..], v)
    }

    /** hlp_diskread without errors. */
    method DiskRead(d: nat, pos: nat, count: nat) returns (data: seq<Sector>)
      requires d < |disk| && pos + count <= |disk[d]|
      ensures data == disk[d][pos..pos + count]
    {
      data := disk[d][pos..pos + count];
    }

    /** hlp_diskwrite without errors. */
    method DiskWrite(d: nat, pos: nat, buf: seq<Sector>)
      requires d < |disk| && pos + |buf| <= |disk[d]|
      modifies `disk
      ensures disk == Put(old(disk), d, pos, buf)
    {
      disk := disk[d := disk[d][..pos] + buf + disk[d][pos + |buf|..]];
    }

    // ----- lookup -----

    /** memrchrd: the last entry of the index with this key, or the end of the searched part. */
    method FindLast(key: nat, from: nat, to: nat) returns (p: nat)
      requires from <= to <= cidxa.Length
      ensures from <= p <= to && (p < to ==> cidxa[p] == key)
      ensures forall k :: (if p < to then p + 1 else from) <= k < to ==> cidxa[k] != key
      ensures p == LastAt(cidxa[..], key, from, to)
    {
      LastAtIs(cidxa[..], key, from, to);
      p := to;
      while p > from
        invariant from <= p <= to && forall k :: p <= k < to ==> cidxa[k] != key
      {
        p := p - 1;
        if cidxa[p] == key { return; }
      }
      p := to;
    }

    /** A cached block of the group, looked for backwards from the head of the ring, then backwards from the end. */
    method FindGroup(key: nat) returns (slblock: nat)
      requires cachehead < cidxa.Length
      ensures slblock < cidxa.Length
      ensures cidxa[0] != key && (exists k :: 0 <= k < cidxa.Length && cidxa[k] == key) ==> slblock != 0
      ensures slblock != 0 ==> cidxa[slblock] == key
      ensures slblock == Candidate(cidxa[..], key, cachehead)
      ensures slblock == cachehead && slblock != 0 ==> forall k :: 0 <= k < cidxa.Length && cidxa[k] == key ==>
        k == slblock
    {
      var p := FindLast(key, 0, cachehead);
      if p < cachehead { return p; }
      p := FindLast(key, cachehead, cidxa.Length);
      slblock := if p < cidxa.Length then p else 0;
    }

    /** Walks the snext ring from slblock on. */
    method WalkClass(slblock: nat, loc: nat, ghost c: seq<nat>) returns (block: nat)
      requires ClassRing(bi[..], c) && c != [] && c[0] == slblock
      ensures block != 0 ==> block in c && block < bi.Length && bi[block].loc == loc
      ensures block == 0 ==> forall k | 0 <= k < |c| :: c[k] < bi.Length && bi[c[k]].loc != loc
    {
      hide ClassRing;
      block := slblock;
      ghost var k: nat := 0;
      ClassStep(bi[..], c, 0);
      if bi[block].snext != 0 {
        while bi[block].loc != loc && bi[block].snext != slblock
          invariant k < |c| && 0 < block == c[k] < bi.Length && |c| > 1
          invariant bi[block].snext == Succ(c, k) && (Succ(c, k) == slblock <==> k == |c| - 1)
          invariant forall i | 0 <= i < k :: c[i] < bi.Length && bi[c[i]].loc != loc
          decreases |c| - k
        {
          block := bi[block].snext;
          k := k + 1;
          ClassStep(bi[..], c, k);
        }
      }
      assert block in c;
      if bi[block].loc != loc { block := 0; }
    }

    /** Looks for the block of a location; slblock is any block of its group. */
    method Search(d: nat, loc: nat) returns (slblock: nat, block: nat)
      requires Valid() && OnDisk(geo, d, loc)
      ensures block != 0 ==> At(bi[..], block, d, loc)
      ensures block == 0 ==> forall b: nat :: !At(bi[..], b, d, loc)
      ensures slblock != 0 ==> Used(bi[..], slblock) && KeyAt(geo, bi[..], slblock) == Key(geo, d, loc)
      ensures slblock == 0 ==> forall b: nat | Used(bi[..], b) :: KeyAt(geo, bi[..], b) != Key(geo, d, loc)
      ensures cachehead < cidxa.Length && slblock == Candidate(cidxa[..], Key(geo, d, loc), cachehead)
    {
      hide FreeOk, RingOk, Parted, Placed, Indexed, Flagged, Classed, GeoOk, OnDisk, Key, At, ClassRing, Candidate;
      var key := Key(geo, d, loc);
      slblock, block := 0, 0;
      KeyLimit(geo, d, loc);
      HeadInside(bi[..], ring, cachehead);
      if bitmap[key] {
        slblock := FindGroup(key);
        GroupFound(geo, bi[..], cidxa[..], free, ring, key, slblock, cachehead);
      } else {
        NotFlagged(geo, bi[..], bitmap[..], key);
        NoCandidate(geo, bi[..], cidxa[..], free, ring, key, cachehead);
      }
      if slblock != 0 {
        ghost var c := ClassOf(geo, bi[..], cls, slblock);
        block := WalkClass(slblock, loc, c);
        if block == 0 {
          NotCached(geo, bi[..], cls, c, d, loc);
        } else {
          MemberAt(geo, bi[..], cls, c, block, d, loc);
        }
      } else {
        NoneAt(geo, bi[..], d, loc);
      }
    }

    // ----- a new block -----

    /** Puts a block before the head of the ring, as the most recent one. */
    method LinkTail(block: nat)
      requires RingOk(bi[..], cachehead, ring) && 0 < block < bi.Length && block !in ring
      modifies bi, `cachehead
      ensures old(cachehead) < bi.Length && (old(cachehead) != 0 ==> old(bi[cachehead].prev) < bi.Length)
      ensures bi[..] == LinkLast(old(bi[..]), old(cachehead), block)
      ensures cachehead == if old(cachehead) == 0 then block else old(cachehead)
    {
      hide RingOk;
      HeadInside(bi[..], ring, cachehead);
      HeadNotZero(bi[..], ring, cachehead);
      if cachehead == 0 {
        bi[block] := bi[block].(next := block);
        bi[block] := bi[block].(prev := block);
        cachehead := block;
      } else {
        RingAt(bi[..], cachehead, ring, 0);
        assert bi[cachehead].prev in ring && cachehead in ring;
        bi[block] := bi[block].(next := cachehead);
        bi[block] := bi[block].(prev := bi[cachehead].prev);
        var p := bi[block].prev;
        bi[p] := bi[p].(next := block);
        bi[cachehead] := bi[cachehead].(prev := block);
      }
    }

    /** Links a block behind the last one of the class of slblock. */
    method JoinGroup(block: nat, slblock: nat, ghost c: seq<nat>)
      requires 0 < block < bi.Length && 0 < slblock < bi.Length
      requires slblock != block ==> ClassRing(bi[..], c) && c != [] && c[0] == slblock && block !in c
      modifies bi
      ensures slblock != block ==>
        c[0] < bi.Length && c[|c| - 1] < bi.Length
        && bi[..] == JoinClass(old(bi[..]), c[0], c[|c| - 1], block)
      ensures slblock == block ==> bi[..] == old(bi[..])[block := old(bi[block]).(snext := block)]
    {
      hide ClassRing;
      ghost var t := bi[..];
      bi[block] := bi[block].(snext := slblock);
      if slblock != block {
        JoinStart(t, c, block);
      }
      if bi[slblock].snext == 0 {
        bi[slblock] := bi[slblock].(snext := block);
      } else {
        var pb := slblock;
        if slblock != block { pb := LastOfClass(slblock, c); }
        bi[pb] := bi[pb].(snext := block);
      }
    }

    /** Takes the first free block for a location: list links, tags and index, but not yet its class. */
    method PlaceBlock(d: nat, loc: nat) returns (block: nat)
      requires Valid() && OnDisk(geo, d, loc) && freeTotal > 0 && forall b: nat :: !At(bi[..], b, d, loc)
      modifies bi, cidxa, `freehead, `cachehead, `freeTotal, `free, `ring
      ensures block == old(freehead) && 0 < block < bi.Length && !Used(old(bi[..]), block)
      ensures Lists() && Placed(geo, bi[..]) && Indexed(geo, bi[..], cidxa[..])
      ensures Entered(old(bi[..]), bi[..], block, d, loc) && freeTotal == old(freeTotal) - 1
      ensures ring == old(ring) + [block] && old(free) == [block] + free
    {
      hide FreeOk, RingOk, Parted, Placed, Indexed, Flagged, Classed, GeoOk, OnDisk, Key, LinkLast, Entered;
      ghost var t, x, head := bi[..], cidxa[..], cachehead;
      FirstFree(t, freehead, free, ring);
      block := freehead;
      freehead := bi[block].next;
      freeTotal := freeTotal - 1;
      LinkTail(block);
      ghost var v := bi[..];
      bi[block] := bi[block].(loc := loc);
      bi[block] := bi[block].(disk := Some(d));
      bi[block] := bi[block].(prio := false);
      ghost var u := bi[..];
      assert u == v[block := v[block].(loc := loc, disk := Some(d), prio := false)];
      cidxa[block] := Key(geo, d, loc);
      assert cidxa[..] == x[block := Key(geo, d, loc)];
      EnteredBy(t, head, block, v, u, d, loc);
      EnteredLists(geo, t, block, free, head, ring, v, u, x, d, loc);
      free, ring := free[1..], ring + [block];
    }

    /** Sets the bit of a group that had no cached block. */
    method OpenGroup(block: nat, d: nat, loc: nat, ghost t: Table)
      requires Shape() && OnDisk(geo, d, loc) && 0 < block < bi.Length && Entered(t, bi[..], block, d, loc)
        && !Used(t, block)
      requires Classed(geo, t, cls, None) && Flagged(geo, t, bitmap[..])
      requires forall b: nat | Used(t, b) :: KeyAt(geo, t, b) != Key(geo, d, loc)
      modifies bi, bitmap, `cls
      ensures SnextOnly(old(bi[..]), bi[..]) && Groups(None) && Flagged(geo, bi[..], bitmap[..])
    {
      hide Classed, Flagged, GeoOk, OnDisk, Key, Entered, SnextOnly;
      ghost var w, bits := bi[..], bitmap[..];
      KeyLimit(geo, d, loc);
      bitmap[Key(geo, d, loc)] := true;
      bi[block] := bi[block].(snext := 0);
      assert bitmap[..] == bits[Key(geo, d, loc) := true];
      OpenedGroup(geo, t, w, bi[..], cls, block, d, loc, bits);
      cls := cls[Key(geo, d, loc) := [block]];
    }

    /** Adds a block to the class of slblock. */
    method ExtendGroup(block: nat, slblock: nat, d: nat, loc: nat, ghost t: Table)
      requires Shape() && OnDisk(geo, d, loc) && 0 < block < bi.Length && Entered(t, bi[..], block, d, loc)
        && !Used(t, block)
      requires Classed(geo, t, cls, None) && Flagged(geo, t, bitmap[..]) && !Used(t, 0)
      requires Used(t, slblock) && KeyAt(geo, t, slblock) == Key(geo, d, loc)
      modifies bi, `cls
      ensures SnextOnly(old(bi[..]), bi[..]) && Groups(None) && Flagged(geo, bi[..], bitmap[..])
    {
      hide Classed, Flagged, GeoOk, OnDisk, Key, Entered, SnextOnly, ClassRing, JoinClass;
      ghost var w := bi[..];
      ghost var c := ClassOf(geo, t, cls, slblock);
      ClassAfterEntry(geo, t, w, cls, c, block, d, loc);
      JoinGroup(block, slblock, c);
      ExtendedGroup(geo, t, w, bi[..], cls, c, block, d, loc, bitmap[..]);
      cls := cls[Key(geo, d, loc) := c + [block]];
    }

    /**
     * The new entry of cache_io. The tables stay consistent exactly if the block of the group that was found before
     * the free list was expanded has not become the free block itself.
     */
    method AddBlock(d: nat, loc: nat, slblock: nat) returns (block: nat)
      requires Valid() && OnDisk(geo, d, loc) && freeTotal > 0 && forall b: nat :: !At(bi[..], b, d, loc)
      requires slblock != 0 && slblock != freehead ==>
        Used(bi[..], slblock)
        && KeyAt(geo, bi[..], slblock) == Key(geo, d, loc)
      requires slblock == 0 ==> forall b: nat | Used(bi[..], b) :: KeyAt(geo, bi[..], b) != Key(geo, d, loc)
      modifies bi, cidxa, bitmap, `freehead, `cachehead, `freeTotal, `free, `ring, `cls
      ensures block == old(freehead) && 0 < block < bi.Length && !Used(old(bi[..]), block)
      ensures Valid() <==> slblock != block
      ensures Tagged(old(bi[..]), bi[..], block, d, loc) && freeTotal == old(freeTotal) - 1
      ensures slblock != block ==> forall c | 0 <= c < bi.Length && c != block :: bi[c].prio == old(bi[c].prio)
      ensures slblock != block ==> ring == old(ring) + [block] && !bi[block].prio
    {
      hide FreeOk, RingOk, Parted, Placed, Indexed, Flagged, Classed, GeoOk, OnDisk, Key, Entered, SnextOnly, At,
           Tagged;
      ghost var t := bi[..];
      ZeroUnused(t, free, ring);
      block := PlaceBlock(d, loc);
      ghost var w := bi[..];
      if slblock == 0 {
        OpenGroup(block, d, loc, t);
        SnextKeeps(geo, w, bi[..], cidxa[..], freehead, free, cachehead, ring);
      } else if slblock != block {
        ExtendGroup(block, slblock, d, loc, t);
        SnextKeeps(geo, w, bi[..], cidxa[..], freehead, free, cachehead, ring);
      } else {
        JoinGroup(block, slblock, []);
        SelfLinked(geo, t, w, bi[..], cls, block, d, loc);
      }
      AddedTagged(t, w, bi[..], block, d, loc);
    }

    /** Unlinks a block from the ring and links it again before the head. */
    method Reappend(block: nat, ghost i: nat)
      requires RingOk(bi[..], cachehead, ring) && 0 < i < |ring| && ring[i] == block
      modifies bi
      ensures block < bi.Length && old(bi[block].prev) < bi.Length && old(bi[block].next) < bi.Length
      ensures 0 < cachehead < bi.Length && Relink(old(bi[..]), block)[cachehead].prev < bi.Length
      ensures RingOk(Relink(old(bi[..]), block), cachehead, Without(ring, i)) && block !in Without(ring, i)
      ensures bi[..] == LinkLast(Relink(old(bi[..]), block), cachehead, block)
    {
      hide RingOk, Without, Relink, LinkLast;
      ghost var t := bi[..];
      RingAt(t, cachehead, ring, i);
      BypassBackward(block);
      Relinked(t, cachehead, ring, i);
      LinkBeforeHead(block);
    }

    /** A block that was found becomes the most recent one. */
    method MoveToEnd(block: nat) returns (ghost i: nat)
      requires Valid() && Used(bi[..], block)
      modifies bi, `cachehead, `ring
      ensures Valid() && OrderOnly(old(bi[..]), bi[..])
      ensures i < |old(ring)| && old(ring)[i] == block && ring == Without(old(ring), i) + [block]
    {
      hide FreeOk, RingOk, Parted, Placed, Indexed, Flagged, Classed, GeoOk, Turned, Without, Relink, LinkLast,
           OrderOnly;
      ghost var t := bi[..];
      i := InRing(t, free, ring, cachehead, block);
      FirstToEnd(ring);
      RingAt(t, cachehead, ring, i);
      RingAt(t, cachehead, ring, 0);
      NoReorder(t);
      if bi[cachehead].prev == block {
        AlreadyLast(t, cachehead, ring, i);
      } else {
        if block == cachehead {
          cachehead := bi[block].next;
          RingTurn(t, ring[0], ring);
          PartedTurn(t, free, ring, ring[0]);
          ring := Turned(ring, 1);
        } else {
          Reappend(block, i);
          Moved(geo, t, bi[..], cidxa[..], bitmap[..], freehead, free, cachehead, ring, i, cls);
          ring := Without(ring, i) + [block];
        }
      }
    }

    // ----- expand_free -----

    /** Gives the block at the head another round: it loses its priority and becomes the last one. */
    method Demote()
      requires Valid() && ring != []
      modifies bi, `cachehead, `ring
      ensures Valid() && ring == Turned(old(ring), 1)
      ensures old(cachehead) < bi.Length && bi[..] == Demoted(old(bi[..]), old(cachehead))
    {
      hide FreeOk, RingOk, Parted, Placed, Indexed, Flagged, Classed, GeoOk, Turned;
      ghost var t := bi[..];
      RingAt(t, cachehead, ring, 0);
      bi[cachehead] := bi[cachehead].(prio := false);
      assert bi[..] == Demoted(t, cachehead);
      DemotedKeeps(geo, t, bi[..], cidxa[..], bitmap[..], freehead, free, cachehead, ring, cls);
      cachehead := bi[cachehead].next;
      ring := Turned(ring, 1);
    }

    /** Frees the first block of the ring that has no priority; the ones before it lose theirs. */
    method EvictOne()
      requires Valid() && ring != []
      modifies bi, cidxa, bitmap, `freehead, `cachehead, `freeTotal, `free, `ring, `cls
      ensures Valid() && freeTotal == old(freeTotal) + 1 && free == [Victim(old(bi[..]), old(ring))] + old(free)
      ensures Shrunk(old(bi[..]), bi[..], Victim(old(bi[..]), old(ring))) && Queue() == Spared(old(Queue()))
    {
      hide FreeOk, RingOk, Parted, Placed, Indexed, Flagged, Classed, GeoOk, Turned, Victim, Demoted, Passed, Freed,
           Shrunk;
      ghost var t, r0 := bi[..], ring;
      ghost var k: nat := 0;
      RingAt(t, cachehead, ring, 0);
      NonePassed(t, r0);
      while bi[cachehead].prio
        invariant Valid() && k <= |r0| && ring == Turned(r0, k) && Passed(t, bi[..], r0, k) && r0 != []
        invariant freeTotal == old(freeTotal) && free == old(free) && cachehead == ring[0] < bi.Length
        invariant Spared(QueueOf(bi[..], ring)) == Spared(QueueOf(t, r0))
        decreases |r0| - k
      {
        HeadPassed(t, bi[..], r0, k);
        ghost var u, q := bi[..], ring;
        Demote();
        QueueDemoted(u, free, q, bi[..], q[0]);
        PassedNext(t, u, r0, k);
        RingAt(bi[..], cachehead, ring, 0);
        k := k + 1;
      }
      VictimIs(t, bi[..], r0, k);
      ghost var u, q := bi[..], ring;
      UsedHead(u, free, ring, cachehead);
      ghost var head := cachehead;
      FreeEntry(cachehead, false);
      QueueFreed(u, bi[..], q, ring, head);
      ShrunkBy(t, u, bi[..], r0, k, ring, Victim(t, r0));
    }

    /** expand_free: the only refusal is a request for more than half of the cache. */
    method ExpandFree(count: nat) returns (ok: bool)
      requires Valid()
      modifies bi, cidxa, bitmap, `freehead, `cachehead, `freeTotal, `free, `ring, `cls
      ensures Valid() && (ok <==> count <= bi.Length / 2) && (ok ==> freeTotal >= count)
      ensures !ok || count <= old(freeTotal) ==>
        bi[..] == old(bi[..]) && free == old(free) && ring == old(ring)
        && freeTotal == old(freeTotal)
      ensures ok && count == 1 && old(freeTotal) == 0 ==>
        old(ring) != [] && Shrunk(old(bi[..]), bi[..], Victim(old(bi[..]), old(ring)))
          && free == [Victim(old(bi[..]), old(ring))] && freeTotal == 1 && Queue() == Spared(old(Queue()))
    {
      hide FreeOk, RingOk, Parted, Placed, Indexed, Flagged, Classed, GeoOk, Shrunk, Victim;
      if count > bi.Length / 2 { return false; }
      if count > freeTotal {
        CountBlocks(bi[..], free, ring, freehead, cachehead);
        HeadNotZero(bi[..], ring, cachehead);
        if cachehead == 0 { return false; }
        EvictOne();
        while freeTotal < count
          invariant Valid() && freeTotal <= count
          invariant old(freeTotal) < freeTotal
          invariant freeTotal == old(freeTotal) + 1 ==>
            old(ring) != [] && Shrunk(old(bi[..]), bi[..], Victim(old(bi[..]), old(ring)))
              && free == [Victim(old(bi[..]), old(ring))] + old(free) && Queue() == Spared(old(Queue()))
        {
          CountBlocks(bi[..], free, ring, freehead, cachehead);
          EvictOne();
        }
      }
      ok := true;
    }

    // ----- cache_io -----

    /** Whether cache_io takes a new block for a stretch of a location that is not cached. */
    predicate Takes(d: nat, count: nat, write: nat)
      requires d < |geo.disks|
    {
      write == 0 || (count == geo.disks[d].s32 && write < 2)
    }

    /** One turn of the loop of cache_io: count sectors inside one 32 KB location. */
    method Turn(d: nat, loc: nat, cpos: nat, count: nat, buf: seq<Sector>, write: nat, ghost v: Disks)
      returns (out: seq<Sector>, hit: bool)
      requires Holds(v) && OnDisk(geo, d, loc) && 0 < count && cpos + count <= BlockLen(geo, d, loc)
      requires if write == 0 then disk == v else |buf| == count
      modifies bi, cidxa, bitmap, cache, `freehead, `cachehead, `freeTotal, `free, `ring, `cls
      ensures Off(geo, d, loc) + cpos + count <= geo.disks[d].sectors && d < |v| && geo.disks[d].sectors == |v[d]|
      ensures Valid() <==> !hit
      ensures !hit && write == 0 ==> Holds(v) && out == v[d][Off(geo, d, loc) + cpos..Off(geo, d, loc) + cpos + count]
      ensures !hit && write != 0 ==> Holds(Put(v, d, Off(geo, d, loc) + cpos, buf))
      ensures old(cachehead) < cidxa.Length &&
        (hit <==>
          Takes(d, count, write)
          && GivesUpFound(geo, old(bi[..]), old(cidxa[..]), old(ring), old(cachehead), old(freeTotal), d, loc))
      ensures !hit ==>
        Caching(Queue(), freeTotal)
        == Accessed(old(Caching(Queue(), freeTotal)), write == 0 || (write == 1 && count == geo.disks[d].s32), d, loc,
                    HasPriority(geo, prio[..], d, loc))
      ensures old(freeTotal) > 0 ==> freeTotal >= old(freeTotal) - 1
    {
      hide FreeOk, RingOk, Parted, Placed, Indexed, Flagged, Classed, GeoOk, OnDisk, Key, At, Victim, Coherent,
           FitsDisks, Stretch, Off, BlockLen, Put, OrderOnly, Candidate, GivesUpFound, Touched, Spared, Without,
           HasPriority, Position;
      DiskInRange(geo, d, loc);
      SectorsInRange(geo, v, d, loc, cpos, count);
      out, hit := [], false;
      ghost var t, q := bi[..], Queue();
      ghost var takes, on := Takes(d, count, write), HasPriority(geo, prio[..], d, loc);
      RingParts(t, free, cachehead, ring);
      var slblock, block := Search(d, loc);
      assert bi[..] == t;
      if block == 0 {
        QueueMisses(t, free, ring, d, loc);
        QueueEntered(q, freeTotal, takes, d, loc, on);
      }
      GivesUpIff(geo, t, cidxa[..], ring, cachehead, freeTotal, d, loc, slblock, block);
      if block != 0 || Takes(d, count, write) {
        ghost var w := v;
        if block == 0 {
          if write != 0 {
            MissedWrite(geo, t, cache[..], v, d, loc, cpos, buf);
            w := Put(v, d, Off(geo, d, loc) + cpos, buf);
          }
          block, hit := Enter(d, loc, buf, write, slblock, w);
          if hit { return; }
        } else {
          Refresh(block, d, loc, takes, v);
        }
        if write != 0 {
          StoreData(block, d, loc, cpos, buf, w);
          PutTwice(v, d, Off(geo, d, loc) + cpos, buf);
        } else {
          out := LoadData(block, d, loc, cpos, count, w);
        }
      } else {
        CoherentMiss(geo, t, cache[..], v, d, loc, cpos, buf);
      }
    }

    /** The location, the offset in it, and the sectors left in it unless it starts there. */
    method StartIo(d: nat, pos: nat) returns (pos32k: nat, cpos: nat, sbleft: nat)
      requires d < |geo.disks| && geo.disks[d].s32 > 0
      ensures pos32k == First(geo, d, pos) && pos == Off(geo, d, pos32k) + cpos && cpos < geo.disks[d].s32
      ensures sbleft == if cpos == 0 then 0 else geo.disks[d].s32 - cpos
    {
      var s := geo.disks[d].s32;
      pos32k, cpos := pos / s, pos % s;
      StartOf(geo, d, pos);
      sbleft := (s - cpos) % s;
    }

    method IoStep(d: nat, pos: nat, ssize: nat, buf: seq<Sector>, write: nat, ghost v: Disks, ghost w: Disks,
                  rc: nat, loc: nat, cpos: nat, count: nat, done: seq<Sector>) returns (out: seq<Sector>, hit: bool)
      requires Holds(w) && d < |geo.disks| == |v| == |w| && |v[d]| == geo.disks[d].sectors
        && pos + ssize <= geo.disks[d].sectors
      requires 0 < count && rc + count <= ssize && cpos + count <= geo.disks[d].s32
        && pos + rc == Off(geo, d, loc) + cpos
      requires write == 0 ==> disk == v == w && done == v[d][pos..pos + rc]
      requires write != 0 ==> |buf| == ssize && w == Put(v, d, pos, buf[..rc])
      modifies bi, cidxa, bitmap, cache, `freehead, `cachehead, `freeTotal, `free, `ring, `cls
      ensures Valid() <==> !hit
      ensures !hit && write == 0 ==> Holds(v) && out == v[d][pos..pos + (rc + count)]
      ensures !hit && write != 0 ==> Holds(Put(v, d, pos, buf[..rc + count]))
      ensures (hit ==> old(freeTotal) == 0) && (old(freeTotal) > 0 ==> freeTotal >= old(freeTotal) - 1)
      ensures !hit ==>
        Caching(Queue(), freeTotal)
        == Accessed(old(Caching(Queue(), freeTotal)), write == 0 || (write == 1 && count == geo.disks[d].s32), d, loc,
                    HasPriority(geo, prio[..], d, loc))
    {
      hide FreeOk, RingOk, Parted, Placed, Indexed, Flagged, Classed, GeoOk, OnDisk, Coherent, FitsDisks, Off,
           BlockLen, Put, Takes, Candidate, Accessed, HasPriority, QueueOf;
      InsideLocation(geo, d, pos, ssize, rc, loc, cpos, count);
      var data: seq<Sector> := if write == 0 then [] else buf[rc..rc + count];
      out, hit := Turn(d, loc, cpos, count, data, write, w);
      if !hit {
        if write == 0 {
          ReadOn(v[d], pos, rc, count);
          out := done + out;
        } else {
          PutOn(v, d, pos, buf, rc, count);
        }
      }
    }

    /** Reads or updates a stretch of sectors, one 32 KB location after the other. */
    method CacheIo(d: nat, pos: nat, ssize: nat, buf: seq<Sector>, write: nat, ghost v: Disks)
      returns (out: seq<Sector>, rc: nat, hit: bool)
      requires Holds(v) && d < |geo.disks| && 0 < ssize && pos + ssize <= geo.disks[d].sectors
      requires if write == 0 then disk == v else |buf| == ssize
      modifies bi, cidxa, bitmap, cache, `freehead, `cachehead, `freeTotal, `free, `ring, `cls
      ensures |v| == |geo.disks| && |v[d]| == geo.disks[d].sectors && (Valid() <==> !hit)
      ensures !hit ==> rc == ssize
      ensures !hit && write == 0 ==> Holds(v) && out == v[d][pos..pos + ssize]
      ensures !hit && write != 0 ==> Holds(Put(v, d, pos, buf))
      ensures hit ==> geo.disks[d].s32 > 0 && old(freeTotal) <= Borders(geo, d, pos, ssize)
      ensures !hit ==>
        geo.disks[d].s32 > 0
        && Caching(Queue(), freeTotal)
           == Requested(geo, prio[..], old(Caching(Queue(), freeTotal)), d, pos, ssize, write)
    {
      hide Borders, First, FreeOk, RingOk, Parted, Placed, Indexed, Flagged, Classed, GeoOk, OnDisk, Coherent,
           FitsDisks, Off, BlockLen, Put, Requested, Accessed, HasPriority, QueueOf;
      DiskFacts(geo, v, d);
      var s := geo.disks[d].s32;
      var left: nat := ssize;
      var pos32k, cpos, sbleft := StartIo(d, pos);
      ghost var first := pos32k;
      rc, out, hit := 0, [], false;
      ghost var w := v;
      PutNothing(v, d, pos, buf);
      ghost var c0 := Caching(Queue(), freeTotal);
      NothingRequested(geo, prio[..], d, pos + ssize, write);
      while left > 0
        invariant rc + left == ssize && |w| == |v| && (write == 0 ==> w == v && disk == v)
        invariant write != 0 ==> w == Put(v, d, pos, buf[..rc])
        invariant Holds(w) && (write == 0 ==> out == v[d][pos..pos + rc])
        invariant left > 0 ==>
          pos + rc == Off(geo, d, pos32k) + cpos && cpos < s
          && sbleft == (if cpos == 0 then 0 else s - cpos)
        invariant pos32k >= first && freeTotal + (pos32k - first) >= old(freeTotal)
        invariant Requested(geo, prio[..], Caching(Queue(), freeTotal), d, pos + rc, left, write)
                  == Requested(geo, prio[..], c0, d, pos, ssize, write)
      {
        RequestStep(geo, prio[..], Caching(Queue(), freeTotal), d, pos + rc, left, write, pos32k, cpos);
        if sbleft == 0 { sbleft := s; }
        if sbleft > left { sbleft := left; }
        ghost var total := freeTotal;
        out, hit := IoStep(d, pos, ssize, buf, write, v, w, rc, pos32k, cpos, sbleft, out);
        if hit {
          HitTotal(geo, old(freeTotal), total, pos32k, pos, ssize, s, d, rc, cpos);
          return;
        }
        if write != 0 { w := Put(v, d, pos, buf[..rc + sbleft]); }
        left := left - sbleft;
        rc := rc + sbleft;
        NextLocation(geo, d, pos32k, cpos, sbleft);
        sbleft := 0;
        cpos := 0;
        pos32k := pos32k + 1;
      }
      if write != 0 { assert buf[..rc] == buf; }
    }

    /** Takes a block for a location that is not cached; data is what the disks will hold there. It ends badly exactly
        if the cache was full and the block kept from the search was the one to be given up. */
    method Acquire(d: nat, loc: nat, buf: seq<Sector>, write: nat, slblock: nat, ghost w: Disks)
        returns (block: nat, hit: bool)
      requires Holds(w) && OnDisk(geo, d, loc) && forall b: nat :: !At(bi[..], b, d, loc)
      requires slblock != 0 ==> Used(bi[..], slblock) && KeyAt(geo, bi[..], slblock) == Key(geo, d, loc)
      requires slblock == 0 ==> forall b: nat | Used(bi[..], b) :: KeyAt(geo, bi[..], b) != Key(geo, d, loc)
      requires if write == 0 then disk == w else buf == Stretch(geo, w, d, loc)
      modifies bi, cidxa, bitmap, cache, `freehead, `cachehead, `freeTotal, `free, `ring, `cls
      ensures hit <==> old(freeTotal) == 0 && old(ring) != [] && slblock == Victim(old(bi[..]), old(ring))
      ensures (hit ==> slblock != 0) && (Valid() <==> !hit)
      ensures !hit ==> Holds(w) && At(bi[..], block, d, loc) && ring != [] && ring[|ring| - 1] == block
      ensures freeTotal == if old(freeTotal) > 0 then old(freeTotal) - 1 else 0
      ensures !hit ==>
        Queue() == (if old(freeTotal) > 0 then old(Queue()) else Spared(old(Queue()))) + [Entry(d, loc, false)]
    {
      hide FreeOk, RingOk, Parted, Placed, Indexed, Flagged, Classed, GeoOk, OnDisk, Key, At, Victim, Coherent,
           FitsDisks, Stretch, Tagged;
      MakeRoom(d, loc, slblock, w);
      ghost var t, c := bi[..], cache[..];
      FirstFree(t, freehead, free, ring);
      var data := buf;
      if write == 0 { data := ReadBlock(d, loc, w); }
      cache[freehead] := data;
      assert cache[..] == c[freehead := data];
      ghost var r, f := ring, free;
      RingParts(t, f, cachehead, r);
      block := AddBlock(d, loc, slblock);
      hit := block == slblock;
      if !hit {
        QueueAdded(t, bi[..], f, r, block, d, loc);
        CoherentAdd(geo, t, bi[..], c, w, block, d, loc, data);
        TaggedAt(t, bi[..], block, d, loc);
      }
    }

    /** The new block is the last of the queue, with the priority of its group. */
    method Enter(d: nat, loc: nat, buf: seq<Sector>, write: nat, slblock: nat, ghost w: Disks)
        returns (block: nat, hit: bool)
      requires Holds(w) && OnDisk(geo, d, loc) && forall b: nat :: !At(bi[..], b, d, loc)
      requires slblock != 0 ==> Used(bi[..], slblock) && KeyAt(geo, bi[..], slblock) == Key(geo, d, loc)
      requires slblock == 0 ==> forall b: nat | Used(bi[..], b) :: KeyAt(geo, bi[..], b) != Key(geo, d, loc)
      requires if write == 0 then disk == w else buf == Stretch(geo, w, d, loc)
      modifies bi, cidxa, bitmap, cache, `freehead, `cachehead, `freeTotal, `free, `ring, `cls
      ensures hit <==> old(freeTotal) == 0 && old(ring) != [] && slblock == Victim(old(bi[..]), old(ring))
      ensures (hit ==> slblock != 0) && (Valid() <==> !hit)
      ensures !hit ==> Holds(w) && At(bi[..], block, d, loc)
      ensures freeTotal == if old(freeTotal) > 0 then old(freeTotal) - 1 else 0
      ensures !hit ==>
        Queue() == (if old(freeTotal) > 0 then old(Queue()) else Spared(old(Queue())))
                   + [Entry(d, loc, HasPriority(geo, prio[..], d, loc))]
    {
      hide FreeOk, RingOk, Parted, Placed, Indexed, Flagged, Classed, GeoOk, OnDisk, Key, At, Victim, Coherent,
           FitsDisks, Stretch, Spared, HasPriority;
      ghost var q, total := Queue(), freeTotal;
      block, hit := Acquire(d, loc, buf, write, slblock, w);
      if hit { return; }
      RingParts(bi[..], free, cachehead, ring);
      QueueRaised(bi[..], if total > 0 then q else Spared(q), ring, block, d, loc, HasPriority(geo, prio[..], d, loc));
      UpdatePriority(block, d, loc, w);
    }

    /** A block that was found becomes the last of the queue, with the priority of its group if that has one. */
    method Refresh(block: nat, d: nat, loc: nat, ghost takes: bool, ghost v: Disks)
      requires Holds(v) && OnDisk(geo, d, loc) && At(bi[..], block, d, loc)
      modifies bi, `cachehead, `ring
      ensures Holds(v) && At(bi[..], block, d, loc)
      ensures Position(old(Queue()), d, loc) < |old(Queue())|
      ensures Queue() == Touched(old(Queue()), freeTotal > 0, takes, d, loc, HasPriority(geo, prio[..], d, loc))
    {
      hide FreeOk, RingOk, Parted, Placed, Indexed, Flagged, Classed, GeoOk, OnDisk, Key, At, Coherent, FitsDisks,
           OrderOnly, Touched, Without, HasPriority, Position;
      ghost var t, r, head := bi[..], ring, cachehead;
      InTable(t, block, d, loc);
      RingParts(t, free, head, r);
      ghost var i := MoveToEnd(block);
      QueueFound(geo, t, free, head, r, i, bi[..], d, loc, freeTotal > 0, takes, HasPriority(geo, prio[..], d, loc));
      MovedCoherent(geo, t, bi[..], cache[..], v, block, d, loc);
      UpdatePriority(block, d, loc, v);
    }

    /** Blocks in the priority areas of a disk get their flag. */
    method UpdatePriority(block: nat, d: nat, loc: nat, ghost v: Disks)
      requires Holds(v) && OnDisk(geo, d, loc) && At(bi[..], block, d, loc)
      modifies bi
      ensures Holds(v) && At(bi[..], block, d, loc) && block < |old(bi[..])|
      ensures bi[..] == Prioritized(old(bi[..]), block, HasPriority(geo, prio[..], d, loc))
    {
      hide FreeOk, RingOk, Parted, Placed, Indexed, Flagged, Classed, GeoOk, OnDisk, Key, Coherent, FitsDisks;
      KeyLimit(geo, d, loc);
      if prio[Key(geo, d, loc)] {
        ghost var t := bi[..];
        bi[block] := bi[block].(prio := true);
        PrioritySet(geo, t, bi[..], cidxa[..], bitmap[..], freehead, free, cachehead, ring, cls, block, cache[..], v);
      }
    }

    /** memcpy into the block. */
    method StoreData(block: nat, d: nat, loc: nat, cpos: nat, buf: seq<Sector>, ghost v: Disks)
      requires Holds(v) && OnDisk(geo, d, loc) && At(bi[..], block, d, loc) && cpos + |buf| <= BlockLen(geo, d, loc)
      modifies cache
      ensures Off(geo, d, loc) + cpos + |buf| <= geo.disks[d].sectors && d < |v| && geo.disks[d].sectors == |v[d]|
      ensures Holds(Put(v, d, Off(geo, d, loc) + cpos, buf))
    {
      hide FreeOk, RingOk, Parted, Placed, Indexed, Flagged, Classed, GeoOk, OnDisk, Key, Coherent, Off, BlockLen, Put,
           At;
      ghost var c := cache[..];
      CoherentWrite(geo, bi[..], c, v, block, d, loc, cpos, buf);
      InTable(bi[..], block, d, loc);
      cache[block] := cache[block][..cpos] + buf + cache[block][cpos + |buf|..];
      assert cache[..] == c[block := c[block][..cpos] + buf + c[block][cpos + |buf|..]];
      DiskInRange(geo, d, loc);
    }

    /** memcpy out of the block. */
    method LoadData(block: nat, d: nat, loc: nat, cpos: nat, count: nat, ghost v: Disks) returns (out: seq<Sector>)
      requires Holds(v) && OnDisk(geo, d, loc) && At(bi[..], block, d, loc) && cpos + count <= BlockLen(geo, d, loc)
      ensures Off(geo, d, loc) + cpos + count <= geo.disks[d].sectors && d < |v| && geo.disks[d].sectors == |v[d]|
      ensures out == v[d][Off(geo, d, loc) + cpos..Off(geo, d, loc) + cpos + count]
    {
      hide FreeOk, RingOk, Parted, Placed, Indexed, Flagged, Classed, GeoOk, OnDisk, Key, Off, BlockLen, Coherent;
      DiskInRange(geo, d, loc);
      HeldData(geo, bi[..], cache[..], v, block, d, loc);
      out := cache[block][cpos..cpos + count];
      StretchPart(geo, v, d, loc, cpos, count);
    }

    /** Reads a whole 32 KB location, or what the disk has of it. */
    method ReadBlock(d: nat, loc: nat, ghost w: Disks) returns (data: seq<Sector>)
      requires FitsDisks(geo, w) && disk == w && OnDisk(geo, d, loc)
      ensures data == Stretch(geo, w, d, loc)
    {
      var rpos := loc * geo.disks[d].s32;
      var rcnt := geo.disks[d].s32;
      if rpos + rcnt > geo.disks[d].sectors { rcnt := geo.disks[d].sectors - rpos; }
      data := DiskRead(d, rpos, rcnt);
    }

    /** Makes room for one block. Afterwards slblock is either still a block of the group, or it was given up. */
    method MakeRoom(d: nat, loc: nat, slblock: nat, ghost w: Disks)
      requires Holds(w) && OnDisk(geo, d, loc) && forall b: nat :: !At(bi[..], b, d, loc)
      requires slblock != 0 ==> Used(bi[..], slblock) && KeyAt(geo, bi[..], slblock) == Key(geo, d, loc)
      requires slblock == 0 ==> forall b: nat | Used(bi[..], b) :: KeyAt(geo, bi[..], b) != Key(geo, d, loc)
      modifies bi, cidxa, bitmap, `freehead, `cachehead, `freeTotal, `free, `ring, `cls
      ensures Holds(w) && freeTotal == (if old(freeTotal) > 0 then old(freeTotal) else 1)
        && (forall b: nat :: !At(bi[..], b, d, loc))
      ensures Queue() == if old(freeTotal) > 0 then old(Queue()) else Spared(old(Queue()))
      ensures slblock != 0 && slblock != freehead ==>
        Used(bi[..], slblock)
        && KeyAt(geo, bi[..], slblock) == Key(geo, d, loc)
      ensures slblock == 0 ==> forall b: nat | Used(bi[..], b) :: KeyAt(geo, bi[..], b) != Key(geo, d, loc)
      ensures freehead == slblock <==>
        old(freeTotal) == 0 && old(ring) != []
        && slblock == Victim(old(bi[..]), old(ring))
    {
      hide FreeOk, RingOk, Parted, Placed, Indexed, Flagged, Classed, GeoOk, OnDisk, Key, At, Shrunk, Victim, Coherent,
           FitsDisks;
      ghost var t := bi[..];
      if slblock != 0 { UsedNotFree(t, freehead, free, ring, slblock); }
      var _ := ExpandFree(1);
      FirstFree(bi[..], freehead, free, ring);
      Room(geo, t, bi[..], cache[..], w, old(freeTotal) > 0, freehead, d, loc, slblock);
    }

    // ----- cache_read, cache_write -----

    /** Requests the cache handles at all. */
    predicate Accepts(d: nat, pos: nat, ssize: nat) {
      d < |geo.disks| && geo.disks[d].enabled && ssize > 0 && pos < geo.disks[d].sectors
        && pos + ssize <= geo.disks[d].sectors
    }

    /** Requests that use at most half of the cache. */
    predicate Modest(d: nat, ssize: nat)
      requires d < |geo.disks| && geo.disks[d].s32 > 0
    {
      ssize / geo.disks[d].s32 <= bi.Length / 2
    }

    /** cache_read gives exactly the sectors of the disk. */
    method CacheRead(d: nat, pos: nat, ssize: nat) returns (rc: nat, out: seq<Sector>, hit: bool)
      requires Holds(disk)
      modifies bi, cidxa, bitmap, cache, `freehead, `cachehead, `freeTotal, `free, `ring, `cls
      ensures (d < |geo.disks| ==> geo.disks[d].s32 > 0) && (d < |disk| ==> |disk[d]| == geo.disks[d].sectors)
        && |disk| == |geo.disks|
      ensures !(Accepts(d, pos, ssize) && Modest(d, ssize)) ==> rc == 0 && out == [] && !hit && Holds(disk)
      ensures Valid() <==> !hit
      ensures Accepts(d, pos, ssize) && Modest(d, ssize) && !hit ==>
        rc == ssize && out == disk[d][pos..pos + ssize] && Holds(disk)
      ensures hit ==> Accepts(d, pos, ssize) && old(freeTotal) <= Borders(geo, d, pos, ssize)
      ensures !hit ==>
        Caching(Queue(), freeTotal)
        == if Accepts(d, pos, ssize) && Modest(d, ssize) then
             Requested(geo, prio[..], old(Caching(Queue(), freeTotal)), d, pos, ssize, 0)
           else old(Caching(Queue(), freeTotal))
      ensures Accepts(d, pos, ssize) && Modest(d, ssize) && Borders(geo, d, pos, ssize) < old(freeTotal) ==>
        !hit && Widened(old(bi[..]), bi[..], d, First(geo, d, pos), First(geo, d, pos + ssize - 1))
    {
      hide FreeOk, RingOk, Parted, Placed, Indexed, Flagged, Classed, GeoOk, Coherent, FitsDisks, Borders, Requested,
           QueueOf, Widened, First;
      ghost var t, f, r, c := bi[..], free, ring, Caching(Queue(), freeTotal);
      RingParts(t, free, cachehead, ring);
      GeometryFacts(geo, disk, d);
      if !Accepts(d, pos, ssize) || !Modest(d, ssize) { return 0, [], false; }
      out, rc, hit := CacheIo(d, pos, ssize, [], 0, disk);
      if !hit && Borders(geo, d, pos, ssize) < c.room {
        RingParts(bi[..], free, cachehead, ring);
        AllCached(geo, prio[..], t, f, r, c, bi[..], free, ring, Caching(Queue(), freeTotal), d, pos, ssize);
      }
    }

    /** cache_write: the disk first, then the cached blocks. A request it does not handle is left to the caller, after
        cc_invalidate if it is only too long; that call gets the disk handle with its service flags. */
    method CacheWrite(d: nat, pos: nat, buf: seq<Sector>, direct: bool, ignacc: bool) returns (rc: nat, hit: bool)
      requires Holds(disk) && pos < TWO64 && |buf| < TWO64
      modifies bi, cidxa, bitmap, prio, cache, `freehead, `cachehead, `freeTotal, `free, `ring, `cls, `disk
      ensures d < |geo.disks| ==> geo.disks[d].s32 > 0
      ensures !(Accepts(d, pos, |buf|) && Modest(d, |buf|)) ==> rc == 0 && !hit && disk == old(disk)
      ensures Accepts(d, pos, |buf|) && Modest(d, |buf|) ==>
        disk == Overwritten(old(disk), d, pos, buf)
        && (!hit ==> rc == |buf| && Holds(disk))
      ensures Accepts(d, pos, |buf|) && Modest(d, |buf|) ==> (Valid() <==> !hit)
      ensures !Accepts(d, pos, |buf|) ==> Holds(disk) && bi[..] == old(bi[..])
      ensures Accepts(d, pos, |buf|) && !Modest(d, |buf|) && !direct && !ignacc ==>
        Holds(disk) && Subset(old(bi[..]), bi[..]) && Dropped(geo, old(bi[..]), bi[..], d, pos, |buf|)
      ensures FitsDisks(geo, old(disk)) && (!hit ==>
        FitsDisks(geo, disk) && Placed(geo, bi[..])
        && Coherent(geo, bi[..], cache[..], disk))
      ensures Accepts(d, pos, |buf|) && !Modest(d, |buf|) && (direct || ignacc) ==>
        bi[..] == old(bi[..]) && (Valid() <==> !(WholeDisk(geo, d, pos, |buf|) && CachesOf(bi[..], d)))
      ensures hit ==> Accepts(d, pos, |buf|) && old(freeTotal) <= Borders(geo, d, pos, |buf|)
      ensures !hit ==>
        State()
        == var m := old(State());
           if !Accepts(d, pos, |buf|) then m
           else if !Modest(d, |buf|) then Forgotten(geo, m, d, pos, |buf|, !direct && !ignacc)
           else m.(c := Requested(geo, m.prios, m.c, d, pos, |buf|, if direct then 2 else 1))
    {
      hide FreeOk, RingOk, Parted, Placed, Indexed, Flagged, Classed, GeoOk, Coherent, FitsDisks, Borders, Doomed, Put,
           Subset, Requested, Forgotten, QueueOf;
      GeometryFacts(geo, disk, d);
      rc, hit := 0, false;
      if !Accepts(d, pos, |buf|) { return; }
      if !Modest(d, |buf|) {
        Invalidate(d, pos, |buf|, !direct && !ignacc, disk);
      } else {
        ghost var v := disk;
        DiskWrite(d, pos, buf);
        PutLength(v, d, pos, buf);
        var out;
        out, rc, hit := CacheIo(d, pos, |buf|, buf, if direct then 2 else 1, v);
      }
    }

    // ----- runs -----

    /** The part of a write the disk layer makes without the cache, 32 KB at a time. */
    method CallerWrite(d: nat, pos: nat, buf: seq<Sector>)
      requires GeoOk(geo) && FitsDisks(geo, disk)
      modifies `disk
      ensures disk == Written(geo, old(disk), d, pos, buf)
    {
      hide GeoOk, FitsDisks, Reach, Put, Written;
      if d >= |geo.disks| {
        NoDisk(geo, disk, d, pos, buf);
        return;
      }
      DiskFacts(geo, disk, d);
      ghost var v, q := disk, 0;
      var s32k, dsksize := geo.disks[d].s32, geo.disks[d].sectors;
      var done: nat := 0;
      while done < |buf|
        invariant done <= |buf| && |disk| == |v| && |disk[d]| == |v[d]| == dsksize
        invariant if done == 0 then disk == v else pos + done <= dsksize && disk == Put(v, d, pos, buf[..done])
        invariant done == |buf| || done == q * s32k
      {
        var actsize := if |buf| - done > s32k then s32k else |buf| - done;
        if pos + done + actsize > dsksize { break; }
        PutNext(v, d, pos, buf, done, actsize);
        ghost var w := disk;
        DiskWrite(d, pos + done, buf[done..done + actsize]);
        PutLength(w, d, pos + done, buf[done..done + actsize]);
        assert (q + 1) * s32k == q * s32k + s32k;
        done, q := done + actsize, q + 1;
      }
      ReachIs(geo, d, pos, |buf|, q, done);
      WrittenIs(geo, v, d, pos, buf);
    }

    /** A write as the disk layer makes it: what the cache did not write goes to the disk directly. */
    method DiskLayerWrite(d: nat, pos: nat, buf: seq<Sector>, direct: bool, ignacc: bool)
        returns (hit: bool, ghost stale: bool)
      requires Holds(disk) && pos < TWO64 && |buf| < TWO64
      modifies bi, cidxa, bitmap, prio, cache, `freehead, `cachehead, `freeTotal, `free, `ring, `cls, `disk
      ensures FitsDisks(geo, old(disk)) && GeoOk(geo) && Placed(geo, old(bi[..]))
      ensures disk == Written(geo, old(disk), d, pos, buf)
      ensures stale <==> MissesWrite(geo, bi.Length, old(bi[..]), old(disk), d, pos, buf, direct, ignacc)
      ensures hit ==> !Valid() && !stale
      ensures !hit ==> (Holds(disk) <==> !stale)
      ensures !hit ==> State() == Remembers(geo, bi.Length, old(State()), Write(d, pos, buf, direct, ignacc))
    {
      hide FreeOk, RingOk, Parted, Placed, Indexed, Flagged, Classed, GeoOk, Coherent, Borders, Doomed, Put, Outdated,
           Dropped, Subset, FitsDisks, Written, WholeDisk, CachesOf, MissesWrite, Served, Accepts, Modest, Overwritten,
           Requested, Forgotten, QueueOf;
      ghost var t, v, w := bi[..], disk, Written(geo, disk, d, pos, buf);
      stale := MissesWrite(geo, bi.Length, t, v, d, pos, buf, direct, ignacc);
      MissesIs(geo, bi.Length, t, v, d, pos, buf, direct, ignacc);
      HandledIs(d, pos, |buf|);
      ServedWritten(geo, bi.Length, v, d, pos, buf);
      var rc;
      rc, hit := CacheWrite(d, pos, buf, direct, ignacc);
      if !hit && rc < |buf| {
        CoherentIff(geo, bi[..], cache[..], v, w);
        CallerWrite(d, pos, buf);
        if Inbounds(geo, d, pos, |buf|) && !direct && !ignacc { LeftOver(geo, t, bi[..], v, d, pos, buf); }
      } else {
        NothingWritten(geo, t, v, d, pos, buf);
      }
    }

    lemma HandledIs(d: nat, pos: nat, ssize: nat)
      requires GeoOk(geo)
      ensures Accepts(d, pos, ssize) <==> Inbounds(geo, d, pos, ssize)
      ensures d < |geo.disks| ==> geo.disks[d].s32 > 0
      ensures Served(geo, bi.Length, d, pos, ssize) <==> Accepts(d, pos, ssize) && Modest(d, ssize)
    {
    }

    method Serve(r: Request) returns (out: seq<Sector>, hit: bool, ghost stale: bool)
      requires Holds(disk) && r.Small?()
      modifies bi, cidxa, bitmap, prio, cache, `freehead, `cachehead, `freeTotal, `free, `ring, `cls, `disk
      ensures FitsDisks(geo, old(disk)) && GeoOk(geo) && Placed(geo, old(bi[..]))
      ensures disk == DisksAfter(geo, old(disk), r)
      ensures stale <==> Misses(geo, bi.Length, old(bi[..]), old(disk), r)
      ensures hit ==> !Valid() && !stale
      ensures !hit ==> (Holds(disk) <==> !stale) && out == Reply(geo, bi.Length, old(disk), r)
      ensures !hit ==> State() == Remembers(geo, bi.Length, old(State()), r)
    {
      hide FreeOk, RingOk, Parted, Placed, Indexed, Flagged, Classed, Coherent, Borders, Doomed, Put, Written,
           MissesWrite, Requested, Forgotten, QueueOf;
      out, hit, stale := [], false, false;
      match r
      case Read(d, pos, ssize) =>
        var rc;
        rc, out, hit := CacheRead(d, pos, ssize);
      case Write(d, pos, buf, direct, ignacc) =>
        hit, stale := DiskLayerWrite(d, pos, buf, direct, ignacc);
      case Drop(d, start, size, plain) =>
        stale := Misses(geo, bi.Length, bi[..], disk, r);
        Invalidate(d, start, size, plain, disk);
    }

    /** Is there a cached block of disk d? */
    method AnyCached(d: nat) returns (c: bool)
      ensures c <==> CachesOf(bi[..], d)
    {
      c := false;
      var b: nat := 0;
      while b < bi.Length && !c
        invariant b <= bi.Length
        invariant !c ==> forall k: nat | k < b :: !(Used(bi[..], k) && bi[k].disk == Some(d))
        invariant c ==> CachesOf(bi[..], d)
      {
        c := bi[b].disk == Some(d);
        assert c ==> Used(bi[..], b);
        b := b + 1;
      }
    }

    /** Would a cached block be outdated if the disks became w? */
    method AnyOutdated(w: Disks) returns (c: bool)
      requires FitsDisks(geo, disk) && FitsDisks(geo, w) && Placed(geo, bi[..])
      ensures c <==> Outdated(geo, bi[..], disk, w)
    {
      hide Stretch, FitsDisks, Placed, OnDisk;
      c := false;
      ghost var t := bi[..];
      var b: nat := 0;
      while b < bi.Length && !c
        invariant b <= bi.Length
        invariant !c ==>
          forall k: nat | k < b && Used(t, k) ::
            && PlacedThere(geo, t, k)
            && Stretch(geo, w, t[k].disk.value, t[k].loc) == Stretch(geo, disk, t[k].disk.value, t[k].loc)
        invariant c ==> Outdated(geo, t, disk, w)
      {
        if bi[b].disk.Some? {
          PlacedAt(geo, t, b);
          c := Stretch(geo, w, bi[b].disk.value, bi[b].loc) != Stretch(geo, disk, bi[b].disk.value, bi[b].loc);
        }
        b := b + 1;
      }
    }

    /** Will this request leave the cache out of step with the disks? */
    method Missed(r: Request) returns (m: bool)
      requires Holds(disk)
      ensures FitsDisks(geo, disk) && GeoOk(geo) && Placed(geo, bi[..])
      ensures m <==> Misses(geo, bi.Length, bi[..], disk, r)
    {
      hide FreeOk, RingOk, Parted, Placed, Indexed, Flagged, Classed, Coherent, FitsDisks, GeoOk, Outdated, CachesOf,
           Served, WholeDisk, Written;
      m := false;
      match r
      case Read(d, pos, ssize) =>
      case Write(d, pos, buf, direct, ignacc) =>
        if !Served(geo, bi.Length, d, pos, |buf|) {
          var outdated := AnyOutdated(Written(geo, disk, d, pos, buf));
          var cached := AnyCached(d);
          m := if Inbounds(geo, d, pos, |buf|) then
            (direct || ignacc) && ((WholeDisk(geo, d, pos, |buf|) && cached) || outdated)
          else
            outdated;
        }
      case Drop(d, start, size, plain) =>
        if !plain && WholeDisk(geo, d, start, size) {
          m := AnyCached(d);
        }
    }

    /**
     * Any run of requests is answered as the disks alone would answer it. It ends early only with a request for which
     * a held block is given up, or with one that is missed; was is the table before the last request.
     */
    method Run(rs: seq<Request>)
      returns (outs: seq<seq<Sector>>, done: nat, hit: bool, stale: bool, ghost was: Table)
      requires Holds(disk) && forall k | 0 <= k < |rs| :: rs[k].Small?()
      modifies bi, cidxa, bitmap, prio, cache, `freehead, `cachehead, `freeTotal, `free, `ring, `cls, `disk
      ensures FitsDisks(geo, old(disk)) && GeoOk(geo) && done <= |rs| && disk == AfterAll(geo, old(disk), rs[..done])
      ensures Placed(geo, was)
      ensures Holds(disk) <==> !hit && !stale
      ensures !hit ==> outs == Replies(geo, bi.Length, old(disk), rs[..done])
      ensures hit ==> 0 < done && outs == Replies(geo, bi.Length, old(disk), rs[..done - 1])
      ensures done == |rs| || hit || stale
      ensures 0 < done ==>
        (stale <==> Misses(geo, bi.Length, was, AfterAll(geo, old(disk), rs[..done - 1]), rs[done - 1]))
      ensures stale ==> 0 < done
      ensures !hit ==> State() == RemembersAll(geo, bi.Length, old(State()), rs[..done])
    {
      hide FreeOk, RingOk, Parted, Placed, Indexed, Flagged, Classed, Coherent, DisksAfter, Reply, Misses, Remembers,
           QueueOf;
      outs, hit, stale, done := [], false, false, 0;
      was := bi[..];
      ghost var v, m0 := disk, State();
      while done < |rs|
        invariant done <= |rs| && !hit && !stale && Holds(disk) && FitsDisks(geo, v) && Placed(geo, was)
        invariant disk == AfterAll(geo, v, rs[..done]) && outs == Replies(geo, bi.Length, v, rs[..done])
        invariant 0 < done ==> !Misses(geo, bi.Length, was, AfterAll(geo, v, rs[..done - 1]), rs[done - 1])
        invariant State() == RemembersAll(geo, bi.Length, m0, rs[..done])
      {
        MoreRemembered(geo, bi.Length, m0, rs, done);
        was := bi[..];
        OneMore(geo, bi.Length, v, rs, done);
        stale := Missed(rs[done]);
        var out;
        ghost var missed;
        out, hit, missed := Serve(rs[done]);
        done := done + 1;
        if hit { return; }
        outs := outs + [out];
        if stale { return; }
      }
    }

    // ----- cc_invalidate -----

    /** Frees the blocks of a disk, from the last one on: all of them, or those of a range of locations. The snext links
        are left alone if the whole disk goes. A disk handle with service flags equals that of no block. */
    method FreeMatching(d: nat, plain: bool, all: bool, lo: nat, hi: nat, ghost v: Disks)
      requires Shape() && Lists() && Tags() && Groups(if all && plain then Some(d) else None)
      requires FitsDisks(geo, v) && Coherent(geo, bi[..], cache[..], v)
      modifies bi, cidxa, bitmap, `freehead, `cachehead, `freeTotal, `free, `ring, `cls
      ensures Lists() && Tags() && Groups(if all && plain then Some(d) else None) && Coherent(geo, bi[..], cache[..], v)
      ensures Swept(old(bi[..]), bi[..], d, plain, all, lo, hi, 0) && (!plain ==> bi[..] == old(bi[..]))
      ensures Queue() == if plain then Purged(old(Queue()), d, all, lo, hi) else old(Queue())
      ensures freeTotal + |Queue()| == old(freeTotal + |Queue()|)
    {
      hide Minus, QueueOf, Purged;
      hide FreeOk, RingOk, Parted, Placed, Indexed, Flagged, Classed, GeoOk, Coherent, FitsDisks, Swept, Freed;
      ghost var t := bi[..];
      NotSwept(t, d, plain, all, lo, hi);
      ghost var r0, f0 := ring, free;
      CountBlocks(t, free, ring, freehead, cachehead);
      RingParts(t, free, cachehead, ring);
      MinusNone(ring, Matching(t, d, plain, all, lo, hi, |t|));
      var ii: nat := bi.Length;
      while ii > 0
        invariant ii <= bi.Length && Lists() && Tags() && Groups(if all && plain then Some(d) else None)
        invariant Coherent(geo, bi[..], cache[..], v) && Swept(t, bi[..], d, plain, all, lo, hi, ii)
        invariant !plain ==> bi[..] == t
        invariant ring == Minus(r0, Matching(t, d, plain, all, lo, hi, ii))
      {
        ii := ii - 1;
        FreeIfMatching(ii, d, plain, all, lo, hi, t, v);
        OneMatching(t, r0, d, plain, all, lo, hi, ii);
      }
      CountBlocks(bi[..], free, ring, freehead, cachehead);
      if plain {
        SweptQueue(t, bi[..], f0, r0, d, all, lo, hi);
      } else {
        MinusNone(r0, Matching(t, d, plain, all, lo, hi, 0));
      }
    }

    method FreeIfMatching(ii: nat, d: nat, plain: bool, all: bool, lo: nat, hi: nat, ghost t: Table, ghost v: Disks)
      requires Shape() && Lists() && Tags() && Groups(if all && plain then Some(d) else None) && ii < bi.Length
      requires FitsDisks(geo, v) && Coherent(geo, bi[..], cache[..], v)
        && Swept(t, bi[..], d, plain, all, lo, hi, ii + 1)
      modifies bi, cidxa, bitmap, `freehead, `cachehead, `freeTotal, `free, `ring, `cls
      ensures Lists() && Tags() && Groups(if all && plain then Some(d) else None)
      ensures Coherent(geo, bi[..], cache[..], v) && Swept(t, bi[..], d, plain, all, lo, hi, ii)
      ensures !plain ==> bi[..] == old(bi[..])
      ensures ring == Minus(old(ring), if Matches(t, ii, d, plain, all, lo, hi) then {ii} else {})
    {
      hide FreeOk, RingOk, Parted, Placed, Indexed, Flagged, Classed, GeoOk, Coherent, FitsDisks, Swept, Freed, Subset;
      ghost var u := bi[..];
      if plain && bi[ii].disk == Some(d) && (all || lo <= bi[ii].loc <= hi) {
        FreeEntry(ii, all);
        SweptStill(t, u, d, plain, all, lo, hi, ii);
        SweptMatch(t, u, bi[..], d, plain, all, lo, hi, ii);
        CoherentSubset(geo, u, bi[..], cache[..], v);
      } else {
        SweptOther(t, u, d, plain, all, lo, hi, ii);
        SweptStill(t, u, d, plain, all, lo, hi, ii);
        MinusNone(ring, {});
      }
    }

    /** Zeroes the bits of a disk, which is right exactly if nothing of it is cached any more. */
    method ClearBits(d: nat)
      requires Valid() && d < |geo.disks|
      modifies bitmap, prio
      ensures Valid() <==> forall b: nat | Used(bi[..], b) :: bi[b].disk != Some(d)
      ensures prio[..] == NoPriorities(geo, old(prio[..]), d)
    {
      hide FreeOk, RingOk, Parted, Placed, Indexed, Flagged, Classed, GeoOk;
      KeysOfDisk(d, |geo.disks|, geo.span);
      ghost var bits := bitmap[..];
      ClearStretch(d * geo.span, (d + 1) * geo.span);
      ClearedBits(geo, bi[..], bits, bitmap[..], d);
    }

    method ClearStretch(lo: nat, hi: nat)
      requires lo <= hi <= bitmap.Length == prio.Length && bitmap != prio
      modifies bitmap, prio
      ensures forall j | 0 <= j < bitmap.Length && !(lo <= j < hi) :: bitmap[j] == old(bitmap[j])
      ensures forall j | lo <= j < hi :: !bitmap[j]
      ensures forall j | 0 <= j < prio.Length :: prio[j] == (if lo <= j < hi then false else old(prio[j]))
    {
      for k := lo to hi
        invariant forall j | 0 <= j < bitmap.Length && !(lo <= j < k) :: bitmap[j] == old(bitmap[j])
        invariant forall j | lo <= j < k :: !bitmap[j]
        invariant forall j | 0 <= j < prio.Length :: prio[j] == (if lo <= j < k then false else old(prio[j]))
      {
        bitmap[k] := false;
        prio[k] := false;
      }
    }

    /** cc_invalidate of a whole disk. */
    method ForgetDisk(d: nat, plain: bool, ghost v: Disks)
      requires Holds(v) && d < |geo.disks|
      modifies bi, cidxa, bitmap, prio, `freehead, `cachehead, `freeTotal, `free, `ring, `cls
      ensures Swept(old(bi[..]), bi[..], d, plain, true, 0, 0, 0) && (plain ==> Valid())
      ensures Placed(geo, bi[..]) && Coherent(geo, bi[..], cache[..], v)
      ensures !plain ==> bi[..] == old(bi[..]) && (Valid() <==> !CachesOf(bi[..], d))
      ensures Queue() == if plain then Purged(old(Queue()), d, true, 0, 0) else old(Queue())
      ensures freeTotal + |Queue()| == old(freeTotal + |Queue()|) && prio[..] == NoPriorities(geo, old(prio[..]), d)
    {
      hide FreeOk, RingOk, Parted, Placed, Indexed, Flagged, Classed, GeoOk, Coherent, FitsDisks, Swept, Purged,
           QueueOf, NoPriorities;
      ghost var t := bi[..];
      ghost var c := Others(geo, t, cls, d);
      SkipDisk(geo, t, cls, d);
      if plain { cls := c; }
      FreeMatching(d, plain, true, 0, 0, v);
      if plain {
        SweptAll(t, bi[..], d);
        SkipNone(geo, bi[..], cls, d);
      }
      ClearBits(d);
    }

    /**
     * cc_invalidate: afterwards exactly the matching blocks are gone; with service flags in the disk handle none is,
     * and a request for the whole disk then leaves the tables inconsistent exactly if something of the disk is
     * cached.
     */
    method Invalidate(d: nat, start: nat, size: nat, plain: bool, ghost v: Disks)
      requires Holds(v) && start < TWO64 && size < TWO64
      modifies bi, cidxa, bitmap, prio, `freehead, `cachehead, `freeTotal, `free, `ring, `cls
      ensures plain ==> Holds(v) && Subset(old(bi[..]), bi[..])
      ensures d < |geo.disks| ==> geo.disks[d].s32 > 0
      ensures plain && d < |geo.disks| && start <= geo.disks[d].sectors ==>
        Dropped(geo, old(bi[..]), bi[..], d, start, size)
      ensures FitsDisks(geo, v) && Placed(geo, bi[..]) && Coherent(geo, bi[..], cache[..], v)
      ensures !plain ==> bi[..] == old(bi[..])
      ensures !plain ==> (Valid() <==> !(WholeDisk(geo, d, start, size) && CachesOf(bi[..], d)))
      ensures State()
              == Forgotten(geo, old(State()), d, start, size, plain)
    {
      hide FreeOk, RingOk, Parted, Placed, Indexed, Flagged, Classed, GeoOk, Coherent, FitsDisks, Swept, Subset, Doomed,
           Purged, QueueOf, NoPriorities, Forgotten;
      SubsetSelf(bi[..]);
      if d < |geo.disks| { DiskFacts(geo, v, d); }
      NothingForgotten(geo, State(), d, start, size, plain);
      if d >= |geo.disks| || start > geo.disks[d].sectors { return; }
      ghost var t, m := bi[..], State();
      var n := Clipped(geo.disks[d].sectors, start, size);
      if start == 0 && n == geo.disks[d].sectors {
        ForgetDisk(d, plain, v);
        ForgottenAll(geo, m, d, start, size, plain);
        if plain { DoomedAll(geo, t, bi[..], d, start, size); }
      } else {
        var minLoc := start / geo.disks[d].s32 % TWO32;
        var maxLoc := (start + n - 1) % TWO64 / geo.disks[d].s32 % TWO32;
        FreeMatching(d, plain, false, minLoc, maxLoc, v);
        ForgottenSome(geo, m, d, start, size, plain, minLoc, maxLoc);
        if plain { DoomedSome(geo, t, bi[..], d, start, size, minLoc, maxLoc); }
      }
    }

    /** free_bi_entry: an unused block stays as it is. */
    method FreeEntry(index: nat, ignoreSnext: bool)
      requires Shape() && Lists() && Tags() && index < bi.Length
      requires Groups(if ignoreSnext then bi[index].disk else None)
      modifies bi, cidxa, bitmap, `freehead, `cachehead, `freeTotal, `free, `ring, `cls
      ensures Lists() && Tags() && Groups(if ignoreSnext then old(bi[index].disk) else None)
      ensures old(bi[index].disk.None?) ==> bi[..] == old(bi[..]) && freeTotal == old(freeTotal) && ring == old(ring)
      ensures old(bi[index].disk.Some?) ==> Freed(old(bi[..]), bi[..], index) && freeTotal == old(freeTotal) + 1
      ensures old(bi[index].disk.Some?) ==> free == [index] + old(free) && |ring| < |old(ring)|
      ensures old(bi[index].disk.Some?) && index == old(cachehead) ==> old(ring) == [index] + ring
      ensures old(bi[index].disk.Some?) ==> ring == Minus(old(ring), {index})
    {
      if bi[index].disk.Some? {
        ghost var i := InRing(bi[..], free, ring, cachehead, index);
        ghost var was := ring;
        hide FreeOk, RingOk, Parted, Placed, Indexed, Flagged, Classed, GeoOk, Freed;
        RingParts(bi[..], free, cachehead, ring);
        WithoutIsMinus(ring, i);
        FreeUsed(index, ignoreSnext, i);
        assert i == 0 ==> was == [index] + ring;
      }
    }

    /** Frees a used block; the classes of its own disk may be left out of account. */
    method FreeUsed(index: nat, ignoreSnext: bool, ghost i: nat)
      requires Shape() && Lists() && Tags() && i < |ring| && ring[i] == index && Used(bi[..], index)
      requires Groups(if ignoreSnext then bi[index].disk else None)
      modifies bi, cidxa, bitmap, `freehead, `cachehead, `freeTotal, `free, `ring, `cls
      ensures Lists() && Tags() && Groups(if ignoreSnext then old(bi[index].disk) else None)
      ensures Freed(old(bi[..]), bi[..], index) && freeTotal == old(freeTotal) + 1
      ensures free == [index] + old(free) && ring == Without(old(ring), i)
    {
      hide FreeOk, RingOk, Parted, Placed, Indexed, Flagged, Classed, GeoOk, Key, Freed, Relink, Without;
      ghost var t, x := bi[..], cidxa[..];
      cidxa[index] := FREE;
      assert cidxa[..] == x[index := FREE];
      Unlink(index, i);
      ghost var r := bi[..];
      UnlinkTags(geo, t, index, x, bitmap[..], free, ring, cls, if ignoreSnext then t[index].disk else None);
      if !ignoreSnext {
        ForgetClass(index);
      } else {
        ForgetSkipped(geo, r, cls, index, freehead, bitmap[..]);
      }
      ghost var l := bi[..];
      bi[index] := bi[index].(next := freehead);
      bi[index] := bi[index].(disk := None);
      assert bi[..] == Pushed(l, index, freehead);
      FreedAll(geo, t, freehead, free, ring, i, cachehead, l, bi[..], x);
      freehead := index;
      freeTotal := freeTotal + 1;
      free, ring := [index] + free, Without(ring, i);
    }
  }

  ghost predicate Freed(t: Table, u: Table, b: nat) {
    SameTagsBut(t, u, b) && b < |t| && u[b].disk == None && forall c | 0 <= c < |t| && c != b :: u[c].prio == t[c].prio
  }

  lemma UnlinkTags(geo: Geometry, t: Table, b: nat, x: seq<nat>, bits: seq<bool>, free: seq<nat>, ring: seq<nat>,
                   cls: Classes, skip: Option<nat>)
    requires geo.group > 0 && Placed(geo, t) && Indexed(geo, t, x) && Flagged(geo, t, bits) && Parted(t, free, ring)
    requires Classed(geo, t, cls, skip) && Used(t, b) && t[b].prev < |t| && t[b].next < |t|
    ensures Placed(geo, Relink(t, b)) && Flagged(geo, Relink(t, b), bits) && Classed(geo, Relink(t, b), cls, skip)
    ensures Used(Relink(t, b), b) && Relink(t, b)[b].disk == t[b].disk && SameLinksOnly(t, Relink(t, b))
  {
    hide Placed, Indexed, Flagged, Parted, Classed;
    RelinkTags(t, b);
    TagsKept(geo, t, Relink(t, b), x, bits, free, ring);
    ClassedKept(geo, t, Relink(t, b), cls, skip);
  }

  lemma ForgetSkipped(geo: Geometry, r: Table, cls: Classes, b: nat, head: nat, bits: seq<bool>)
    requires geo.group > 0 && Used(r, b) && Classed(geo, r, cls, r[b].disk) && Flagged(geo, r, bits)
    ensures SnextOnly(r, r) && Classed(geo, Pushed(r, b, head), cls, r[b].disk)
      && Flagged(geo, Pushed(r, b, head), bits)
  {
    hide Classed, Key;
    FreedSkipped(geo, r, Pushed(r, b, head), cls, b, r[b].disk.value);
    FlaggedLess(geo, r, Pushed(r, b, head), bits, b);
  }

  lemma FreedAll(geo: Geometry, t: Table, head: nat, free: seq<nat>, ring: seq<nat>, i: nat, h: nat, l: Table,
      u: Table, x: seq<nat>)
    requires geo.group > 0 && FreeOk(t, head, free) && Parted(t, free, ring) && Placed(geo, t) && Indexed(geo, t, x)
    requires i < |ring| && ring[i] < |t| && t[ring[i]].prev < |t| && t[ring[i]].next < |t|
    requires t[ring[i]].prev in ring && t[ring[i]].next in ring && Distinct(ring) && Inside(ring, |t|)
    requires RingOk(Relink(t, ring[i]), h, Without(ring, i)) && SnextOnly(Relink(t, ring[i]), l)
    requires u == Pushed(l, ring[i], head)
    ensures FreeOk(u, ring[i], [ring[i]] + free) && RingOk(u, h, Without(ring, i))
    ensures Parted(u, [ring[i]] + free, Without(ring, i))
    ensures Placed(geo, u) && |x| == |t| && Indexed(geo, u, x[ring[i] := FREE]) && Freed(t, u, ring[i])
  {
    var r := Relink(t, ring[i]);
    RelinkTags(t, ring[i]);
    FreedShape(t, r, l, u, ring[i], head);
    hide FreeOk, RingOk, Parted, Placed, Flagged, Key, Relink, Without, Pushed;
    FreedLists(t, head, free, ring, i, r, h, l, u);
    FreedPlaced(geo, t, u, x, ring[i]);
  }

  lemma FreedShape(t: Table, r: Table, l: Table, u: Table, b: nat, head: nat)
    requires SameLinksOnly(t, r) && SnextOnly(r, l) && b < |t| && u == Pushed(l, b, head)
    ensures Freed(t, u, b)
    ensures |l| == |r| && forall c | 0 <= c < |r| ::
      l[c].next == r[c].next && l[c].prev == r[c].prev
      && l[c].disk == r[c].disk
  {
  }

  lemma FreedPlaced(geo: Geometry, t: Table, u: Table, x: seq<nat>, b: nat)
    requires geo.group > 0 && Placed(geo, t) && Indexed(geo, t, x) && b < |t| && SameTagsBut(t, u, b)
      && u[b].disk == None
    ensures Placed(geo, u) && Indexed(geo, u, x[b := FREE])
  {
    hide Key, OnDisk;
  }

  ghost predicate SnextOnly(t: Table, u: Table) {
    |t| == |u| && forall b | 0 <= b < |t| :: u[b] == t[b].(snext := u[b].snext)
  }

  lemma KeyInRange(geo: Geometry, t: Table, b: nat)
    requires geo.group > 0 && GeoOk(geo) && Placed(geo, t) && Used(t, b)
    ensures KeyAt(geo, t, b) < |geo.disks| * geo.span
  {
    KeyFits(geo, t[b].disk.value, t[b].loc);
  }

  lemma ForgetSingle(geo: Geometry, t: Table, cls: Classes, b: nat, key: nat, head: nat, bits: seq<bool>)
    requires geo.group > 0 && Classed(geo, t, cls, None) && Used(t, b) && KeyAt(geo, t, b) == key
    requires Flagged(geo, t, bits) && key in cls && cls[key] == [b] && key < |bits|
    ensures SnextOnly(t, t) && Classed(geo, Pushed(t, b, head), cls - {key}, None)
    ensures Flagged(geo, Pushed(t, b, head), bits[key := false])
  {
    hide Classed, Key;
    var u := Pushed(t, b, head);
    FreedSingle(geo, t, u, cls, b, key);
    FlaggedLess(geo, t, u, bits, b);
    FlagCleared(geo, u, bits, key);
  }

  lemma FlaggedLess(geo: Geometry, t: Table, u: Table, bits: seq<bool>, b: nat)
    requires geo.group > 0 && Flagged(geo, t, bits) && SameTagsBut(t, u, b) && b < |t| && u[b].disk == None
    ensures Flagged(geo, u, bits)
  {
    hide Key;
    forall c: nat | Used(u, c)
      ensures Used(t, c) && KeyAt(geo, t, c) == KeyAt(geo, u, c)
    {
    }
  }

  lemma ForgetShared(geo: Geometry, t: Table, l: Table, cls: Classes, c: seq<nat>, key: nat, head: nat, bits: seq<bool>)
    requires geo.group > 0 && Classed(geo, t, cls, None) && ClassRing(t, c) && |c| > 1 && key in cls
      && Flagged(geo, t, bits)
    requires forall x :: x in cls[key] <==> x in c
    requires c[0] < |t| && c[|c| - 1] < |t| && l == LeaveClass(t, c[0], c[|c| - 1])
    requires Used(t, c[0])
    ensures SnextOnly(t, l) && Used(l, c[0]) && Classed(geo, Pushed(l, c[0], head), cls[key := c[1..]], None)
    ensures Flagged(geo, Pushed(l, c[0], head), bits)
  {
    var u := Pushed(l, c[0], head);
    hide Classed, ClassRing, Key;
    FreedShared(geo, t, u, cls, c, key);
    FlaggedLess(geo, t, u, bits, c[0]);
  }

  // ----- lookup -----

  lemma SameGroupSameDisk(geo: Geometry, t: Table, b: nat, d: nat, loc: nat)
    requires geo.group > 0 && GeoOk(geo) && Placed(geo, t) && Used(t, b) && OnDisk(geo, d, loc)
    ensures KeyAt(geo, t, b) == Key(geo, d, loc) ==> t[b].disk == Some(d)
    ensures At(t, b, d, loc) ==> KeyAt(geo, t, b) == Key(geo, d, loc)
  {
    hide Key, GeoOk, OnDisk, Group;
    KeyInjective(geo, t[b].disk.value, t[b].loc, d, loc);
  }

  lemma CachedInClass(geo: Geometry, t: Table, cls: Classes, c: seq<nat>, b: nat, d: nat, loc: nat)
    requires geo.group > 0 && GeoOk(geo) && Placed(geo, t) && Classed(geo, t, cls, None) && OnDisk(geo, d, loc)
    requires Key(geo, d, loc) in cls && (forall x :: x in cls[Key(geo, d, loc)] <==> x in c) && At(t, b, d, loc)
    ensures b in c
  {
    hide Key, GeoOk, OnDisk, ClassRing, Placed;
    SameGroupSameDisk(geo, t, b, d, loc);
    assert Counts(t, b, None);
  }

  /** A class with no block for the location means that the location is not cached. */
  lemma NotCached(geo: Geometry, t: Table, cls: Classes, c: seq<nat>, d: nat, loc: nat)
    requires geo.group > 0 && GeoOk(geo) && Placed(geo, t) && Classed(geo, t, cls, None) && OnDisk(geo, d, loc)
    requires Key(geo, d, loc) in cls && (forall x :: x in cls[Key(geo, d, loc)] <==> x in c)
    requires forall k | 0 <= k < |c| :: c[k] < |t| && t[c[k]].loc != loc
    ensures forall b: nat :: !At(t, b, d, loc)
  {
    hide Key, GeoOk, OnDisk, ClassRing, Placed, Classed;
    forall b: nat
      ensures !At(t, b, d, loc)
    {
      if At(t, b, d, loc) { CachedInClass(geo, t, cls, c, b, d, loc); }
    }
  }

  lemma ClassStep(t: Table, c: seq<nat>, k: nat)
    requires ClassRing(t, c) && k < |c|
    ensures 0 < c[k] < |t| && Distinct(c)
    ensures |c| == 1 ==> t[c[k]].snext == 0
    ensures |c| > 1 ==> t[c[k]].snext == Succ(c, k) != 0 && Succ(c, k) < |t| && (Succ(c, k) == c[0] <==> k == |c| - 1)
  {
    if k + 1 < |c| { DistinctAt(c, 0, k + 1); }
  }

  lemma RingAt(t: Table, head: nat, ring: seq<nat>, i: nat)
    requires RingOk(t, head, ring) && i < |ring|
    ensures 0 < ring[i] < |t| && t[ring[i]].prev in ring && t[ring[i]].next in ring
    ensures t[ring[i]].prev < |t| && t[ring[i]].next < |t|
    ensures |ring| > 1 ==> t[ring[i]].prev != ring[i] && t[ring[i]].next != ring[i]
    ensures |ring| == 1 ==> t[ring[i]].prev == ring[i] == t[ring[i]].next
    ensures head == ring[0] && Distinct(ring) && Inside(ring, |t|)
  {
    RingPrev(t, head, ring, i);
    DistinctAt(ring, i, Before(ring, i));
    DistinctAt(ring, i, After(ring, i));
  }

  lemma UnlinkRing(t: Table, head: nat, ring: seq<nat>, i: nat)
    requires RingOk(t, head, ring) && i < |ring| && t[ring[i]].prev < |t| && t[ring[i]].next < |t|
    ensures Relink(t, ring[i])[ring[i]].next == t[ring[i]].next
    ensures |ring| > 1 ==> RingOk(Relink(t, ring[i]), if i == 0 then t[ring[i]].next else head, Without(ring, i))
    ensures |ring| == 1 ==> RingOk(Relink(t, ring[i]), 0, Without(ring, i))
    ensures ring[i] == head <==> i == 0
  {
    RingAt(t, head, ring, i);
    RelinkAt(t, ring[i], ring[i]);
    DistinctAt(ring, i, 0);
    if |ring| > 1 { RingRemove(t, head, ring, i); }
  }

  /** The class of a used block, read from this block on. */
  lemma ClassOf(geo: Geometry, t: Table, cls: Classes, b: nat) returns (c: seq<nat>)
    requires geo.group > 0 && Classed(geo, t, cls, None) && Used(t, b)
    ensures KeyAt(geo, t, b) in cls && c != [] && c[0] == b && ClassRing(t, c)
    ensures forall x :: x in cls[KeyAt(geo, t, b)] <==> x in c
    ensures |c| == |cls[KeyAt(geo, t, b)]|
    ensures |c| == 1 ==> cls[KeyAt(geo, t, b)] == [b]
  {
    hide Key;
    assert Counts(t, b, None);
    var d := cls[KeyAt(geo, t, b)];
    var j :| 0 <= j < |d| && d[j] == b;
    hide ClassRing;
    ClassTurn(t, d, j);
    c := Turned(d, j);
  }

  lemma InRing(t: Table, free: seq<nat>, ring: seq<nat>, head: nat, b: nat) returns (i: nat)
    requires Parted(t, free, ring) && RingOk(t, head, ring) && Used(t, b)
    ensures i < |ring| && ring[i] == b && (b == head ==> i == 0)
  {
    assert b in ring;
    i :| 0 <= i < |ring| && ring[i] == b;
    DistinctAt(ring, 0, i);
  }

  function Demoted(t: Table, b: nat): Table
    requires b < |t|
  {
    t[b := t[b].(prio := false)]
  }

  lemma DemotedFields(t: Table, u: Table, head: nat)
    requires head < |t| && u == Demoted(t, head)
    ensures SameTags(t, u)
    ensures forall b | 0 <= b < |t| :: u[b].snext == t[b].snext && u[b].next == t[b].next && u[b].prev == t[b].prev
  {
  }

  lemma DemotedKeeps(geo: Geometry, t: Table, u: Table, x: seq<nat>, bits: seq<bool>, fh: nat, free: seq<nat>,
      head: nat, ring: seq<nat>,
                     cls: Classes)
    requires geo.group > 0 && FreeOk(t, fh, free) && RingOk(t, head, ring) && Parted(t, free, ring) && ring != []
    requires Placed(geo, t) && Indexed(geo, t, x) && Flagged(geo, t, bits) && Classed(geo, t, cls, None)
    requires head < |t| && u == Demoted(t, head)
    ensures FreeOk(u, fh, free) && RingOk(u, u[head].next, Turned(ring, 1)) && Parted(u, free, Turned(ring, 1))
    ensures Placed(geo, u) && Indexed(geo, u, x) && Flagged(geo, u, bits) && Classed(geo, u, cls, None)
  {
    DemotedFields(t, u, head);
    hide *;
    TagsKept(geo, t, u, x, bits, free, ring);
    ClassedKept(geo, t, u, cls, None);
    LinksKept(t, u, fh, free, head, ring);
    RingTurn(u, head, ring);
    PartedTurn(u, free, ring, head);
  }

  lemma LinksKept(t: Table, u: Table, fh: nat, free: seq<nat>, head: nat, ring: seq<nat>)
    requires FreeOk(t, fh, free) && RingOk(t, head, ring) && |u| == |t|
    requires forall b | 0 <= b < |t| :: u[b].next == t[b].next && u[b].prev == t[b].prev
    ensures FreeOk(u, fh, free) && RingOk(u, head, ring)
  {
    FreeFrame(t, fh, free, u);
    RingFrame(t, head, ring, u);
  }

  lemma PartedTurn(t: Table, free: seq<nat>, ring: seq<nat>, head: nat)
    requires Parted(t, free, ring) && ring != [] && RingOk(t, head, ring)
    ensures Parted(t, free, Turned(ring, 1))
  {
    if |ring| > 1 { TurnedSame(ring, 1); } else { assert Turned(ring, 1) == ring; }
  }

  /** The block expand_free gives up: the first without priority, or the oldest if all have it. */
  ghost function Victim(t: Table, ring: seq<nat>): nat
    requires ring != []
  {
    Plain(t, ring, ring[0])
  }

  ghost function Plain(t: Table, ring: seq<nat>, otherwise: nat): nat {
    if ring == [] then otherwise
    else if ring[0] < |t| && !t[ring[0]].prio then ring[0] else Plain(t, ring[1..], otherwise)
  }

  lemma {:induction false} PlainAt(t: Table, ring: seq<nat>, k: nat, otherwise: nat)
    requires k <= |ring| && Inside(ring, |t|) && forall i | 0 <= i < k :: t[ring[i]].prio
    ensures k < |ring| && !t[ring[k]].prio ==> Plain(t, ring, otherwise) == ring[k]
    ensures k == |ring| ==> Plain(t, ring, otherwise) == otherwise
    decreases k
  {
    if k > 0 {
      assert t[ring[0]].prio;
      PlainAt(t, ring[1..], k - 1, otherwise);
    }
  }

  /** The first k blocks of the ring had their priority taken. */
  ghost predicate Passed(t: Table, u: Table, ring: seq<nat>, k: nat)
    requires k <= |ring|
  {
    && |u| == |t| && Inside(ring, |t|) && Distinct(ring)
    && (forall i | 0 <= i < k :: t[ring[i]].prio && !u[ring[i]].prio)
    && (forall i | k <= i < |ring| :: u[ring[i]].prio == t[ring[i]].prio)
    && (forall b | 0 <= b < |t| :: u[b].disk == t[b].disk && u[b].loc == t[b].loc)
    && (forall b: nat | b < |t| && b !in ring :: u[b].prio == t[b].prio)
  }

  lemma NonePassed(t: Table, ring: seq<nat>)
    requires Inside(ring, |t|) && Distinct(ring)
    ensures Passed(t, t, ring, 0) && Turned(ring, 0) == ring
  {
  }

  lemma HeadPassed(t: Table, u: Table, ring: seq<nat>, k: nat)
    requires ring != [] && k <= |ring| && Passed(t, u, ring, k)
    ensures Turned(ring, k)[0] < |u|
    ensures u[Turned(ring, k)[0]].prio ==> k < |ring| && Turned(ring, k)[0] == ring[k]
  {
  }

  lemma PassedNext(t: Table, u: Table, ring: seq<nat>, k: nat)
    requires k < |ring| && Passed(t, u, ring, k) && ring[k] < |u| && u[ring[k]].prio
    ensures Passed(t, Demoted(u, ring[k]), ring, k + 1) && Turned(Turned(ring, k), 1) == Turned(ring, k + 1)
  {
    forall i | 0 <= i < |ring|
      ensures i == k <==> ring[i] == ring[k]
    {
      DistinctAt(ring, i, k);
    }
  }

  lemma VictimIs(t: Table, u: Table, ring: seq<nat>, k: nat)
    requires ring != [] && k <= |ring| && Passed(t, u, ring, k) && Turned(ring, k)[0] < |u|
      && !u[Turned(ring, k)[0]].prio
    ensures Victim(t, ring) == Turned(ring, k)[0]
  {
    PlainAt(t, ring, k, ring[0]);
    assert k < |ring| ==> Turned(ring, k)[0] == ring[k];
  }

  lemma UsedHead(t: Table, free: seq<nat>, ring: seq<nat>, head: nat)
    requires Parted(t, free, ring) && RingOk(t, head, ring) && ring != []
    ensures Used(t, head)
  {
    assert ring[0] in ring;
  }

  /** Block b was given up, others only lost priorities. */
  ghost predicate Shrunk(t: Table, u: Table, b: nat) {
    SameTagsBut(t, u, b) && b < |t| && t[b].disk.Some? && u[b].disk == None && forall c | 0 <= c < |t|
      && u[c].prio :: t[c].prio || c == b
  }

  lemma ShrunkBy(t: Table, u: Table, v: Table, r0: seq<nat>, k: nat, ring: seq<nat>, b: nat)
    requires k <= |r0| && Passed(t, u, r0, k) && Freed(u, v, b) && Used(u, b)
    ensures Shrunk(t, v, b)
  {
    forall c | 0 <= c < |t| && u[c].prio
      ensures t[c].prio
    {
      if c in r0 {
        var i :| 0 <= i < |r0| && r0[i] == c;
      }
    }
  }

  lemma HeadNotZero(t: Table, ring: seq<nat>, head: nat)
    requires RingOk(t, head, ring)
    ensures head == 0 <==> ring == []
  {
  }

  ghost function Members(s: seq<nat>): set<nat> {
    set x | x in s
  }

  ghost function Numbers(n: nat): (r: set<nat>)
    ensures |r| == n && forall x: nat :: x in r <==> x < n
  {
    if n == 0 then {} else Numbers(n - 1) + {n - 1}
  }

  lemma {:induction false} SetOf(s: seq<nat>)
    requires Distinct(s)
    ensures |Members(s)| == |s|
  {
    if s != [] {
      var r, last := s[..|s| - 1], s[|s| - 1];
      SetOf(r);
      assert s == r + [last];
      assert last !in r;
      assert Members(s) == Members(r) + {last};
    }
  }

  /** Every block but block 0 is in exactly one list. */
  lemma CountBlocks(t: Table, free: seq<nat>, ring: seq<nat>, fh: nat, head: nat)
    requires Parted(t, free, ring) && FreeOk(t, fh, free) && RingOk(t, head, ring)
    ensures |free| + |ring| == |t| - 1
  {
    SetOf(free);
    SetOf(ring);
    SetParts(t, free, ring, fh, head);
  }

  lemma OneList(t: Table, free: seq<nat>, ring: seq<nat>, x: nat)
    requires Parted(t, free, ring) && (forall y | y in free :: 0 < y < |t|) && (forall y | y in ring :: 0 < y < |t|)
    ensures x < |t| <==> x in free || x in ring || x == 0
    ensures !(x in free && x in ring) && 0 !in free && 0 !in ring
  {
  }

  lemma SetParts(t: Table, free: seq<nat>, ring: seq<nat>, fh: nat, head: nat)
    requires Parted(t, free, ring) && FreeOk(t, fh, free) && RingOk(t, head, ring)
    ensures Members(free) !! Members(ring) && 0 !in Members(free) && 0 !in Members(ring)
    ensures Members(free) + Members(ring) + {0} == Numbers(|t|)
  {
    InsideMembers(free, |t|);
    InsideMembers(ring, |t|);
    MembersAre(free);
    MembersAre(ring);
    var a, b, n := Members(free), Members(ring), Numbers(|t|);
    hide *;
    forall x: nat
      ensures x in a || x in b || x == 0 <==> x in n
      ensures !(x in a && x in b)
    {
      OneList(t, free, ring, x);
    }
    OneList(t, free, ring, 0);
    SameSet(a, b, n);
  }

  lemma MembersAre(s: seq<nat>)
    ensures forall x :: x in Members(s) <==> x in s
  {
  }

  lemma SameSet(a: set<nat>, b: set<nat>, n: set<nat>)
    requires forall x: nat :: x in a || x in b || x == 0 <==> x in n
    ensures a + b + {0} == n
  {
  }

  lemma InsideMembers(s: seq<nat>, n: nat)
    requires Inside(s, n)
    ensures forall x | x in s :: 0 < x < n
  {
  }

  lemma KeyLimit(geo: Geometry, d: nat, loc: nat)
    requires geo.group > 0 && GeoOk(geo) && OnDisk(geo, d, loc)
    ensures Key(geo, d, loc) < |geo.disks| * geo.span <= FREE
  {
    KeyFits(geo, d, loc);
  }

  lemma HeadInside(t: Table, ring: seq<nat>, head: nat)
    requires RingOk(t, head, ring) && t != []
    ensures head < |t|
  {
  }

  lemma GroupFound(geo: Geometry, t: Table, x: seq<nat>, free: seq<nat>, ring: seq<nat>, key: nat, sl: nat, head: nat)
    requires geo.group > 0 && Indexed(geo, t, x) && Parted(t, free, ring) && key < FREE && sl < |x| && head < |x|
    requires x[0] != key && (exists k :: 0 <= k < |x| && x[k] == key) ==> sl != 0
    requires sl != 0 ==> x[sl] == key
    requires sl == head && sl != 0 ==> forall k :: 0 <= k < |x| && x[k] == key ==> k == sl
    ensures sl != 0 ==> Used(t, sl) && KeyAt(geo, t, sl) == key
    ensures sl == 0 ==> forall b: nat | Used(t, b) :: KeyAt(geo, t, b) != key
    ensures sl != 0 && sl == head ==> forall b: nat | Used(t, b) :: KeyAt(geo, t, b) == key ==> b == sl
  {
    hide Key;
    assert x[0] == FREE;
    forall b: nat | Used(t, b) && KeyAt(geo, t, b) == key
      ensures x[b] == key
    {
    }
  }

  lemma NotFlagged(geo: Geometry, t: Table, bits: seq<bool>, key: nat)
    requires geo.group > 0 && Flagged(geo, t, bits) && key < |bits| && !bits[key]
    ensures forall b: nat | Used(t, b) :: KeyAt(geo, t, b) != key
  {
    hide Key;
  }

  lemma NoneAt(geo: Geometry, t: Table, d: nat, loc: nat)
    requires geo.group > 0 && GeoOk(geo) && Placed(geo, t) && OnDisk(geo, d, loc)
    requires forall b: nat | Used(t, b) :: KeyAt(geo, t, b) != Key(geo, d, loc)
    ensures forall b: nat :: !At(t, b, d, loc)
  {
    hide Key, GeoOk, OnDisk, Placed;
    forall b: nat
      ensures !At(t, b, d, loc)
    {
      if At(t, b, d, loc) { SameGroupSameDisk(geo, t, b, d, loc); }
    }
  }

  lemma MemberAt(geo: Geometry, t: Table, cls: Classes, c: seq<nat>, b: nat, d: nat, loc: nat)
    requires geo.group > 0 && GeoOk(geo) && Placed(geo, t) && Classed(geo, t, cls, None) && OnDisk(geo, d, loc)
    requires Key(geo, d, loc) in cls && (forall x :: x in cls[Key(geo, d, loc)] <==> x in c)
    requires b in c && b < |t| && t[b].loc == loc
    ensures At(t, b, d, loc)
  {
    hide Key, GeoOk, OnDisk, ClassRing, Placed;
    ClassKeys(geo, t, cls, Key(geo, d, loc));
    SameGroupSameDisk(geo, t, b, d, loc);
  }

  lemma JoinStart(t: Table, c: seq<nat>, b: nat)
    requires ClassRing(t, c) && b !in c && b < |t|
    ensures c != [] && 0 < c[0] < |t| && c[0] != b && 0 < c[|c| - 1] < |t| && c[|c| - 1] != b
    ensures t[c[0]].snext == 0 <==> |c| == 1
    ensures ClassRing(t[b := t[b].(snext := c[0])], c)
  {
    ClassStep(t, c, 0);
    assert c[0] in c && c[|c| - 1] in c;
    ClassBut(t, c, t[b := t[b].(snext := c[0])], b);
  }

  lemma FirstFree(t: Table, fh: nat, free: seq<nat>, ring: seq<nat>)
    requires FreeOk(t, fh, free) && Parted(t, free, ring) && free != []
    ensures fh == free[0] && 0 < fh < |t| && fh !in ring && !Used(t, fh) && free == [fh] + free[1..]
  {
    assert free[0] in free;
  }

  /** Block b was entered for a location; links apart, only its own record changed. */
  ghost predicate Entered(t: Table, u: Table, b: nat, d: nat, loc: nat) {
    && Tagged(t, u, b, d, loc) && !u[b].prio
    && (forall c | 0 <= c < |t| && c != b :: u[c].prio == t[c].prio)
    && (forall c | 0 <= c < |t| :: u[c].snext == t[c].snext)
  }

  lemma EnteredBy(t: Table, head: nat, b: nat, v: Table, u: Table, d: nat, loc: nat)
    requires b < |t| && head < |t| && (head != 0 ==> t[head].prev < |t|) && v == LinkLast(t, head, b)
    requires u == v[b := v[b].(loc := loc, disk := Some(d), prio := false)]
    ensures Entered(t, u, b, d, loc)
  {
  }

  lemma EnteredLists(geo: Geometry, t: Table, b: nat, free: seq<nat>, head: nat, ring: seq<nat>, v: Table, u: Table,
      x: seq<nat>,
                     d: nat, loc: nat)
    requires geo.group > 0 && FreeOk(t, b, free) && RingOk(t, head, ring) && Parted(t, free, ring) && free != []
    requires b < |t| && head < |t| && (head != 0 ==> t[head].prev < |t|) && v == LinkLast(t, head, b)
    requires u == v[b := v[b].(loc := loc, disk := Some(d), prio := false)] && Entered(t, u, b, d, loc)
    requires Placed(geo, t) && Indexed(geo, t, x) && OnDisk(geo, d, loc) && !Used(t, b)
      && forall c: nat :: !At(t, c, d, loc)
    ensures FreeOk(u, t[b].next, free[1..]) && RingOk(u, if head == 0 then b else head, ring + [b])
      && Parted(u, free[1..], ring + [b])
    ensures Placed(geo, u) && Indexed(geo, u, x[b := Key(geo, d, loc)])
  {
    hide FreeOk, RingOk, Parted, Placed, Indexed, OnDisk, Key, LinkLast;
    AddedLists(t, b, free, head, ring, v, u);
    EnteredTags(geo, t, u, x, b, d, loc);
  }

  lemma EnteredTags(geo: Geometry, t: Table, u: Table, x: seq<nat>, b: nat, d: nat, loc: nat)
    requires geo.group > 0 && Placed(geo, t) && Indexed(geo, t, x) && Tagged(t, u, b, d, loc) && OnDisk(geo, d, loc)
      && !Used(t, b)
    requires forall c: nat :: !At(t, c, d, loc)
    ensures Placed(geo, u) && Indexed(geo, u, x[b := Key(geo, d, loc)])
  {
    hide Key, OnDisk;
    forall c: nat | Used(u, c) && c != b
      ensures Used(t, c) && !At(t, c, d, loc)
    {
    }
  }

  lemma ZeroUnused(t: Table, free: seq<nat>, ring: seq<nat>)
    requires Parted(t, free, ring)
    ensures !Used(t, 0)
  {
  }

  lemma SnextKeeps(geo: Geometry, t: Table, u: Table, x: seq<nat>, fh: nat, free: seq<nat>, head: nat, ring: seq<nat>)
    requires geo.group > 0 && SnextOnly(t, u)
    requires FreeOk(t, fh, free) && RingOk(t, head, ring) && Parted(t, free, ring) && Placed(geo, t)
      && Indexed(geo, t, x)
    ensures FreeOk(u, fh, free) && RingOk(u, head, ring) && Parted(u, free, ring) && Placed(geo, u)
      && Indexed(geo, u, x)
  {
    assert SameTags(t, u);
    SnextLinks(t, u);
    hide SnextOnly, SameTags, Parted, Placed, Indexed;
    LinksKept(t, u, fh, free, head, ring);
    PlacesKept(geo, t, u, x, free, ring);
  }

  lemma SnextLinks(t: Table, u: Table)
    requires SnextOnly(t, u)
    ensures |u| == |t| && forall b | 0 <= b < |t| :: u[b].next == t[b].next && u[b].prev == t[b].prev
  {
  }

  lemma PlacesKept(geo: Geometry, t: Table, u: Table, x: seq<nat>, free: seq<nat>, ring: seq<nat>)
    requires geo.group > 0 && SameTags(t, u) && Parted(t, free, ring) && Placed(geo, t) && Indexed(geo, t, x)
    ensures Parted(u, free, ring) && Placed(geo, u) && Indexed(geo, u, x)
  {
    hide Key, OnDisk;
  }

  lemma OpenedGroup(geo: Geometry, t: Table, w: Table, u: Table, cls: Classes, b: nat, d: nat, loc: nat,
      bits: seq<bool>)
    requires geo.group > 0 && Classed(geo, t, cls, None) && Entered(t, w, b, d, loc) && !Used(t, b) && 0 < b < |w|
    requires u == w[b := w[b].(snext := 0)] && Flagged(geo, t, bits) && Key(geo, d, loc) < |bits|
    requires forall c: nat | Used(t, c) :: KeyAt(geo, t, c) != Key(geo, d, loc)
    ensures SnextOnly(w, u) && Classed(geo, u, cls[Key(geo, d, loc) := [b]], None)
      && Flagged(geo, u, bits[Key(geo, d, loc) := true])
  {
    hide Classed, Key;
    AddedSingle(geo, t, u, cls, b, d, loc);
    FlaggedMore(geo, t, u, bits, b, d, loc);
  }

  lemma FlaggedMore(geo: Geometry, t: Table, u: Table, bits: seq<bool>, b: nat, d: nat, loc: nat)
    requires geo.group > 0 && Flagged(geo, t, bits) && Tagged(t, u, b, d, loc) && Key(geo, d, loc) < |bits|
    ensures Flagged(geo, u, bits[Key(geo, d, loc) := true]) && (bits[Key(geo, d, loc)] ==> Flagged(geo, u, bits))
  {
    hide Key;
    forall c: nat | Used(u, c) && c != b
      ensures Used(t, c) && KeyAt(geo, t, c) == KeyAt(geo, u, c)
    {
    }
  }

  lemma ClassAfterEntry(geo: Geometry, t: Table, w: Table, cls: Classes, c: seq<nat>, b: nat, d: nat, loc: nat)
    requires geo.group > 0 && Classed(geo, t, cls, None) && Entered(t, w, b, d, loc) && !Used(t, b) && !Used(t, 0)
    requires Key(geo, d, loc) in cls && ClassRing(t, c) && forall x :: x in cls[Key(geo, d, loc)] <==> x in c
    ensures ClassRing(w, c) && b !in c && 0 !in c && c != [] && 0 < c[0] < |w| && c[0] != b
  {
    hide Key;
    ClassKeys(geo, t, cls, Key(geo, d, loc));
    ClassSnext(t, c, w);
    assert c[0] in c;
  }

  lemma ExtendedGroup(geo: Geometry, t: Table, w: Table, u: Table, cls: Classes, c: seq<nat>, b: nat, d: nat, loc: nat,
      bits: seq<bool>)
    requires geo.group > 0 && Classed(geo, t, cls, None) && Entered(t, w, b, d, loc) && !Used(t, b) && 0 < b < |w|
      && c != []
    requires Key(geo, d, loc) in cls && ClassRing(t, c) && (forall x :: x in cls[Key(geo, d, loc)] <==> x in c)
    requires c[0] < |w| && c[|c| - 1] < |w| && u == JoinClass(w, c[0], c[|c| - 1], b) && Flagged(geo, t, bits)
    requires Used(t, c[0]) && KeyAt(geo, t, c[0]) == Key(geo, d, loc)
    ensures SnextOnly(w, u) && Classed(geo, u, cls[Key(geo, d, loc) := c + [b]], None) && Flagged(geo, u, bits)
  {
    hide Classed, Key, ClassRing, Flagged;
    JoinedTags(t, w, u, c[0], c[|c| - 1], b, d, loc);
    AddedShared(geo, t, u, cls, c, b, d, loc);
    FlagOf(geo, t, bits, c[0]);
    FlaggedMore(geo, t, u, bits, b, d, loc);
  }

  lemma FlagOf(geo: Geometry, t: Table, bits: seq<bool>, b: nat)
    requires geo.group > 0 && Flagged(geo, t, bits) && Used(t, b)
    ensures KeyAt(geo, t, b) < |bits| && bits[KeyAt(geo, t, b)]
  {
  }

  lemma JoinedTags(t: Table, w: Table, u: Table, first: nat, last: nat, b: nat, d: nat, loc: nat)
    requires Entered(t, w, b, d, loc) && first < |w| && last < |w| && u == JoinClass(w, first, last, b)
    ensures SnextOnly(w, u) && Tagged(t, u, b, d, loc)
    ensures forall x | 0 <= x < |t| :: u[x].snext == JoinClass(t, first, last, b)[x].snext
  {
  }

  /** A used block linked to itself belongs to no class. */
  lemma SelfLinked(geo: Geometry, t: Table, w: Table, u: Table, cls: Classes, b: nat, d: nat, loc: nat)
    requires geo.group > 0 && Entered(t, w, b, d, loc) && u == w[b := w[b].(snext := b)] && 0 < b
    ensures !Classed(geo, u, cls, None)
    ensures SnextOnly(w, u)
  {
    if Classed(geo, u, cls, None) { NoSelfLink(geo, u, cls, b); }
  }

  lemma NoSelfLink(geo: Geometry, t: Table, cls: Classes, b: nat)
    requires geo.group > 0 && Classed(geo, t, cls, None) && Used(t, b) && 0 < b
    ensures t[b].snext != b
  {
    hide Key;
    var c := ClassOf(geo, t, cls, b);
    ClassStep(t, c, 0);
    if |c| > 1 { DistinctAt(c, 0, 1); }
  }

  lemma AddedTagged(t: Table, w: Table, u: Table, b: nat, d: nat, loc: nat)
    requires Entered(t, w, b, d, loc) && SnextOnly(w, u)
    ensures Tagged(t, u, b, d, loc) && forall c | 0 <= c < |t| && c != b :: u[c].prio == t[c].prio
    ensures b < |u| && !u[b].prio
  {
  }

  /** The priority flag of block b, set if on. */
  function Prioritized(t: Table, b: nat, on: bool): Table
    requires b < |t|
  {
    if on then t[b := t[b].(prio := true)] else t
  }

  lemma FirstToEnd(ring: seq<nat>)
    requires ring != []
    ensures Turned(ring, 1) == Without(ring, 0) + [ring[0]]
  {
  }

  lemma AlreadyLast(t: Table, head: nat, ring: seq<nat>, i: nat)
    requires RingOk(t, head, ring) && i < |ring| && head < |t| && t[head].prev == ring[i]
    ensures Without(ring, i) + [ring[i]] == ring
  {
    RingPrev(t, head, ring, 0);
    DistinctAt(ring, i, |ring| - 1);
  }

  lemma QueueDemoted(t: Table, free: seq<nat>, ring: seq<nat>, u: Table, head: nat)
    requires Parted(t, free, ring) && RingOk(t, head, ring) && ring != [] && head < |t| && t[head].prio
    requires u == Demoted(t, head)
    ensures Spared(QueueOf(u, Turned(ring, 1))) == Spared(QueueOf(t, ring))
  {
    UsedHead(t, free, ring, head);
    QueueTurned(t, ring);
    QueueAt(t, ring, 0);
    var q := QueueOf(t, ring);
    hide QueueOf, Turned, RingOk, Parted;
    PriosAppend(q[1..], Faded(q[0]));
  }

  /** The head of the ring was freed. */
  lemma QueueFreed(t: Table, u: Table, ring: seq<nat>, rest: seq<nat>, head: nat)
    requires RingOk(t, head, ring) && ring == [head] + rest && head < |t| && !t[head].prio && Freed(t, u, head)
    ensures QueueOf(u, rest) == Spared(QueueOf(t, ring))
  {
    var q := QueueOf(t, ring);
    assert q[0] == EntryOf(t, head);
    forall i | 0 <= i < |rest|
      ensures QueueOf(u, rest)[i] == q[1..][i]
    {
      assert ring[i + 1] == rest[i];
    }
  }

  lemma QueueAdded(t: Table, u: Table, free: seq<nat>, ring: seq<nat>, b: nat, d: nat, loc: nat)
    requires Parted(t, free, ring) && Inside(ring, |t|) && Tagged(t, u, b, d, loc) && !Used(t, b) && b < |u|
      && !u[b].prio
    requires forall c | 0 <= c < |t| && c != b :: u[c].prio == t[c].prio
    ensures QueueOf(u, ring + [b]) == QueueOf(t, ring) + [Entry(d, loc, false)] && b !in ring
  {
    forall i | 0 <= i < |ring|
      ensures ring[i] != b && EntryOf(u, ring[i]) == EntryOf(t, ring[i])
    {
      assert ring[i] in ring;
    }
    QueueSame(t, u, ring);
    QueueAppend(u, ring, b);
  }

  lemma QueueRaised(t: Table, q: seq<Entry>, ring: seq<nat>, b: nat, d: nat, loc: nat, on: bool)
    requires ring != [] && Distinct(ring) && ring[|ring| - 1] == b < |t|
    requires QueueOf(t, ring) == q + [Entry(d, loc, false)]
    requires At(t, b, d, loc)
    ensures QueueOf(Prioritized(t, b, on), ring) == q + [Entry(d, loc, on)]
  {
    var u := Prioritized(t, b, on);
    QueueAt(t, ring, |ring| - 1);
    forall i | 0 <= i < |ring|
      ensures QueueOf(u, ring)[i] == (q + [Entry(d, loc, on)])[i]
    {
      if i < |q| {
        assert ring[i] != b;
        QueueAt(t, ring, i);
      }
    }
  }

  /** A location that was found moves to the end and may gain priority. */
  lemma QueueFound(geo: Geometry, t: Table, free: seq<nat>, head: nat, ring: seq<nat>, i: nat, u: Table, d: nat,
      loc: nat, room: bool, takes: bool, on: bool)
    requires Placed(geo, t) && Parted(t, free, ring) && RingOk(t, head, ring) && i < |ring| && At(t, ring[i], d, loc)
    requires OrderOnly(t, u)
    ensures ring[i] < |u| && Position(QueueOf(t, ring), d, loc) == i
    ensures QueueOf(Prioritized(u, ring[i], on), Without(ring, i) + [ring[i]])
            == Touched(QueueOf(t, ring), room, takes, d, loc, on)
  {
    RingParts(t, free, head, ring);
    QueueFinds(geo, t, free, ring, i, d, loc);
    QueueMoved(t, ring, i, u, on);
    hide *;
    TouchedFound(QueueOf(t, ring), i, room, takes, d, loc, on);
  }

  lemma TouchedFound(q: seq<Entry>, i: nat, room: bool, takes: bool, d: nat, loc: nat, on: bool)
    requires i < |q| && Position(q, d, loc) == i
    ensures Touched(q, room, takes, d, loc, on) == q[..i] + q[i + 1..] + [q[i].(prio := q[i].prio || on)]
  {
  }

  lemma QueueMoved(t: Table, ring: seq<nat>, i: nat, u: Table, on: bool)
    requires Inside(ring, |t|) && Distinct(ring) && i < |ring| && OrderOnly(t, u) && Used(t, ring[i])
    ensures ring[i] < |u|
    ensures var q := QueueOf(t, ring);
            QueueOf(Prioritized(u, ring[i], on), Without(ring, i) + [ring[i]])
            == q[..i] + q[i + 1..] + [q[i].(prio := q[i].prio || on)]
  {
    var q, b, r := QueueOf(t, ring), ring[i], Without(ring, i);
    var v := Prioritized(u, b, on);
    QueueAt(t, ring, i);
    assert EntryOf(v, b) == EntryOf(t, b).(prio := EntryOf(t, b).prio || on);
    forall k | 0 <= k < |r|
      ensures EntryOf(v, r[k]) == EntryOf(t, r[k])
    {
      DistinctAt(ring, if k < i then k else k + 1, i);
    }
    hide EntryOf, Prioritized, OrderOnly;
    QueueSame(t, v, r);
    QueueWithout(t, ring, i);
    QueueAppend(v, r, b);
  }

  /** A location that was not cached: it is left out, or enters the queue behind the others. */
  lemma QueueEntered(q: seq<Entry>, room: nat, takes: bool, d: nat, loc: nat, on: bool)
    requires Position(q, d, loc) == |q|
    ensures !takes ==> Accessed(Caching(q, room), takes, d, loc, on) == Caching(q, room)
    ensures takes ==> Accessed(Caching(q, room), takes, d, loc, on)
                      == Caching((if room > 0 then q else Spared(q)) + [Entry(d, loc, on)],
                                 if room > 0 then room - 1 else 0)
  {
  }

  /** The next location of a request. */
  lemma RequestStep(geo: Geometry, prios: seq<bool>, c: Caching, d: nat, pos: nat, n: nat, write: nat, loc: nat,
      cpos: nat)
    requires geo.group > 0 && d < |geo.disks| && cpos < geo.disks[d].s32 && pos == Off(geo, d, loc) + cpos && 0 < n
    ensures var s := geo.disks[d].s32;
            var m := if n < s - cpos then n else s - cpos;
            Requested(geo, prios, c, d, pos, n, write)
            == Requested(geo, prios, Accessed(c, write == 0 || (write == 1 && m == s), d, loc,
                                              HasPriority(geo, prios, d, loc)), d, pos + m, n - m, write)
  {
    var s := geo.disks[d].s32;
    Between(pos, s, loc);
    assert pos % s == cpos by { assert pos == pos / s * s + pos % s; }
    hide Accessed, HasPriority;
  }

  ghost predicate CachedAt(t: Table, d: nat, loc: nat) {
    exists b: nat :: At(t, b, d, loc)
  }

  /** Locations first .. last of disk d are cached, and besides exactly what was cached before. */
  ghost predicate Widened(t: Table, u: Table, d: nat, first: nat, last: nat) {
    forall e: nat, l: nat :: CachedAt(u, e, l) <==> CachedAt(t, e, l) || (e == d && first <= l <= last)
  }

  lemma AllCached(geo: Geometry, prios: seq<bool>, t: Table, f: seq<nat>, r: seq<nat>, c: Caching, u: Table,
      f': seq<nat>, r': seq<nat>, c': Caching, d: nat, pos: nat, n: nat)
    requires geo.group > 0 && d < |geo.disks| && geo.disks[d].s32 > 0 && n > 0 && Placed(geo, t)
    requires Parted(t, f, r) && Inside(r, |t|) && Distinct(r) && c.q == QueueOf(t, r)
    requires Parted(u, f', r') && Inside(r', |u|) && c'.q == QueueOf(u, r')
    requires c' == Requested(geo, prios, c, d, pos, n, 0) && Borders(geo, d, pos, n) < c.room
    ensures Widened(t, u, d, First(geo, d, pos), First(geo, d, pos + n - 1))
  {
    QueueNoneTwice(geo, t, f, r);
    hide Requested, Placed, Parted, Inside, Distinct, QueueOf, CachedAt;
    forall e: nat, l: nat
      ensures CachedAt(u, e, l) <==>
        CachedAt(t, e, l) || (e == d && First(geo, d, pos) <= l <= First(geo, d, pos + n - 1))
    {
      QueueCached(t, f, r, e, l);
      QueueCached(u, f', r', e, l);
      ReadCaches(geo, prios, c, d, pos, n, e, l);
    }
  }

  lemma QueueCached(t: Table, free: seq<nat>, ring: seq<nat>, d: nat, loc: nat)
    requires Parted(t, free, ring) && Inside(ring, |t|)
    ensures Has(QueueOf(t, ring), d, loc) <==> CachedAt(t, d, loc)
  {
    QueueHas(t, free, ring, d, loc);
  }

  lemma NothingRequested(geo: Geometry, prios: seq<bool>, d: nat, pos: nat, write: nat)
    requires geo.group > 0 && d < |geo.disks| && geo.disks[d].s32 > 0
    ensures forall c :: Requested(geo, prios, c, d, pos, 0, write) == c
  {
  }

  lemma RingParts(t: Table, free: seq<nat>, head: nat, ring: seq<nat>)
    requires RingOk(t, head, ring)
    ensures Inside(ring, |t|) && Distinct(ring)
  {
  }

  /** Only the order of the ring changed. */
  ghost predicate OrderOnly(t: Table, u: Table) {
    |t| == |u| && forall b | 0 <= b < |t| :: u[b] == t[b].(next := u[b].next, prev := u[b].prev)
  }

  lemma NoReorder(t: Table)
    ensures OrderOnly(t, t)
  {
  }

  lemma Relinked(t: Table, head: nat, ring: seq<nat>, i: nat)
    requires RingOk(t, head, ring) && 0 < i < |ring| && t[ring[i]].prev < |t| && t[ring[i]].next < |t|
    ensures RingOk(Relink(t, ring[i]), head, Without(ring, i)) && ring[i] !in Without(ring, i) && head != 0
      && head < |t|
    ensures 0 < Relink(t, ring[i])[head].prev < |t| && Relink(t, ring[i])[head].prev != ring[i] && head != ring[i]
    ensures |Relink(t, ring[i])| == |t|
  {
    RingRemove(t, head, ring, i);
    WithoutSame(ring, i);
    RingAt(Relink(t, ring[i]), head, Without(ring, i), 0);
    RingAt(t, head, ring, 0);
    DistinctAt(ring, 0, i);
  }

  lemma Moved(geo: Geometry, t: Table, u: Table, x: seq<nat>, bits: seq<bool>, fh: nat, free: seq<nat>, head: nat,
      ring: seq<nat>, i: nat,
              cls: Classes)
    requires geo.group > 0 && FreeOk(t, fh, free) && RingOk(t, head, ring) && Parted(t, free, ring) && 0 < i < |ring|
    requires Placed(geo, t) && Indexed(geo, t, x) && Flagged(geo, t, bits) && Classed(geo, t, cls, None)
    requires t[ring[i]].prev < |t| && t[ring[i]].next < |t| && t[ring[i]].prev in ring && t[ring[i]].next in ring
    requires 0 < head < |t| && ring[i] < |t| && Relink(t, ring[i])[head].prev < |t|
    requires u == LinkLast(Relink(t, ring[i]), head, ring[i])
    requires RingOk(Relink(t, ring[i]), head, Without(ring, i)) && ring[i] !in Without(ring, i)
    ensures FreeOk(u, fh, free) && RingOk(u, head, Without(ring, i) + [ring[i]])
      && Parted(u, free, Without(ring, i) + [ring[i]])
    ensures Placed(geo, u) && Indexed(geo, u, x) && Flagged(geo, u, bits) && Classed(geo, u, cls, None)
    ensures OrderOnly(t, u)
  {
    var r := Relink(t, ring[i]);
    MovedOrder(t, r, u, ring[i], head);
    MovedFree(t, fh, free, head, ring, i, u);
    MovedParted(t, free, ring, i, u, head);
    RingNotZero(t, head, ring, i);
    hide Relink, LinkLast, Placed, Indexed, Flagged, Classed, FreeOk, Parted, Without;
    TagsOfOrder(geo, t, u, x, bits, free, ring, cls);
    RingAppend(r, head, Without(ring, i), ring[i]);
  }

  lemma RingNotZero(t: Table, head: nat, ring: seq<nat>, i: nat)
    requires RingOk(t, head, ring) && i < |ring|
    ensures 0 < ring[i] < |t|
  {
  }

  lemma TagsOfOrder(geo: Geometry, t: Table, u: Table, x: seq<nat>, bits: seq<bool>, free: seq<nat>, ring: seq<nat>,
      cls: Classes)
    requires geo.group > 0 && OrderOnly(t, u) && Parted(t, free, ring)
    requires Placed(geo, t) && Indexed(geo, t, x) && Flagged(geo, t, bits) && Classed(geo, t, cls, None)
    ensures Placed(geo, u) && Indexed(geo, u, x) && Flagged(geo, u, bits) && Classed(geo, u, cls, None)
  {
    assert SameTags(t, u) && forall b | 0 <= b < |t| :: u[b].snext == t[b].snext;
    hide Placed, Indexed, Flagged, Classed, Parted, OrderOnly;
    TagsKept(geo, t, u, x, bits, free, ring);
    ClassedKept(geo, t, u, cls, None);
  }

  lemma RelinkOrder(t: Table, b: nat)
    requires b < |t| && t[b].prev < |t| && t[b].next < |t|
    ensures OrderOnly(t, Relink(t, b))
  {
  }

  lemma LinkOrder(t: Table, head: nat, b: nat)
    requires b < |t| && 0 < head < |t| && t[head].prev < |t|
    ensures OrderOnly(t, LinkLast(t, head, b))
  {
  }

  lemma OrderTrans(t: Table, r: Table, u: Table)
    requires OrderOnly(t, r) && OrderOnly(r, u)
    ensures OrderOnly(t, u)
  {
  }

  lemma MovedOrder(t: Table, r: Table, u: Table, b: nat, head: nat)
    requires b < |t| && t[b].prev < |t| && t[b].next < |t| && r == Relink(t, b) && 0 < head < |t| && r[head].prev < |t|
    requires u == LinkLast(r, head, b)
    ensures OrderOnly(t, u)
  {
    hide Relink, LinkLast, OrderOnly;
    RelinkOrder(t, b);
    LinkOrder(r, head, b);
    OrderTrans(t, r, u);
  }

  lemma MovedFree(t: Table, fh: nat, free: seq<nat>, head: nat, ring: seq<nat>, i: nat, u: Table)
    requires FreeOk(t, fh, free) && RingOk(t, head, ring) && Parted(t, free, ring) && 0 < i < |ring| && ring[i] < |t|
    requires t[ring[i]].prev < |t| && t[ring[i]].next < |t| && t[ring[i]].prev in ring && t[ring[i]].next in ring
    requires 0 < head < |t| && RingOk(Relink(t, ring[i]), head, Without(ring, i)) && Relink(t, ring[i])[head].prev < |t|
    requires u == LinkLast(Relink(t, ring[i]), head, ring[i])
    ensures FreeOk(u, fh, free)
  {
    var r := Relink(t, ring[i]);
    Relinked(t, head, ring, i);
    RingAt(r, head, Without(ring, i), 0);
    WithoutMembers(t, head, ring, i);
    forall k | 0 <= k < |free|
      ensures u[free[k]].next == t[free[k]].next
    {
      FreeNotRing(t, fh, free, ring, k);
      RelinkAt(t, ring[i], free[k]);
      LinkLastAt(r, head, ring[i], free[k]);
    }
    FreeFrame(t, fh, free, u);
  }

  lemma WithoutMembers(t: Table, head: nat, ring: seq<nat>, i: nat)
    requires RingOk(t, head, ring) && i < |ring|
    ensures forall x :: x in Without(ring, i) ==> x in ring
    ensures ring[i] in ring && head in ring
  {
    WithoutSame(ring, i);
  }

  lemma MovedParted(t: Table, free: seq<nat>, ring: seq<nat>, i: nat, u: Table, head: nat)
    requires Parted(t, free, ring) && RingOk(t, head, ring) && i < |ring| && OrderOnly(t, u)
    ensures Parted(u, free, Without(ring, i) + [ring[i]])
  {
    WithoutSame(ring, i);
    assert ring[i] in ring;
    forall x
      ensures x in Without(ring, i) + [ring[i]] <==> x in ring
    {
    }
  }

  lemma UsedNotFree(t: Table, fh: nat, free: seq<nat>, ring: seq<nat>, b: nat)
    requires FreeOk(t, fh, free) && Parted(t, free, ring) && Used(t, b)
    ensures free != [] ==> b != fh
  {
    if free != [] { FirstFree(t, fh, free, ring); }
  }

  /** What holds after room was made; victim is the first free block. */
  lemma Room(geo: Geometry, t: Table, u: Table, c: seq<seq<Sector>>, w: Disks, same: bool, victim: nat, d: nat,
      loc: nat, sl: nat)
    requires geo.group > 0 && FitsDisks(geo, w) && Placed(geo, t) && Placed(geo, u) && Coherent(geo, t, c, w)
    requires if same then u == t else Shrunk(t, u, victim)
    requires forall b: nat :: !At(t, b, d, loc)
    requires sl != 0 ==> Used(t, sl) && KeyAt(geo, t, sl) == Key(geo, d, loc)
    requires sl == 0 ==> forall b: nat | Used(t, b) :: KeyAt(geo, t, b) != Key(geo, d, loc)
    ensures Coherent(geo, u, c, w) && forall b: nat :: !At(u, b, d, loc)
    ensures sl != 0 && sl != victim ==> Used(u, sl) && KeyAt(geo, u, sl) == Key(geo, d, loc)
    ensures sl == 0 ==> forall b: nat | Used(u, b) :: KeyAt(geo, u, b) != Key(geo, d, loc)
  {
    hide Key, Placed, Coherent, FitsDisks;
    assert Subset(t, u);
    CoherentSubset(geo, t, u, c, w);
    forall b: nat | Used(u, b)
      ensures Used(t, b) && KeyAt(geo, u, b) == KeyAt(geo, t, b)
    {
    }
    forall b: nat
      ensures !At(u, b, d, loc)
    {
      assert !At(t, b, d, loc);
    }
  }

  lemma TaggedAt(t: Table, u: Table, b: nat, d: nat, loc: nat)
    requires Tagged(t, u, b, d, loc)
    ensures At(u, b, d, loc)
  {
  }

  lemma InTable(t: Table, b: nat, d: nat, loc: nat)
    requires At(t, b, d, loc)
    ensures b < |t| && Used(t, b)
  {
  }

  lemma DiskInRange(geo: Geometry, d: nat, loc: nat)
    requires OnDisk(geo, d, loc)
    ensures d < |geo.disks|
  {
  }

  lemma HeldData(geo: Geometry, t: Table, c: seq<seq<Sector>>, v: Disks, b: nat, d: nat, loc: nat)
    requires FitsDisks(geo, v) && Placed(geo, t) && Coherent(geo, t, c, v) && At(t, b, d, loc) && OnDisk(geo, d, loc)
    ensures b < |c| && c[b] == Stretch(geo, v, d, loc)
  {
    assert Used(t, b);
  }

  lemma PrioritySet(geo: Geometry, t: Table, u: Table, x: seq<nat>, bits: seq<bool>, fh: nat, free: seq<nat>,
      head: nat, ring: seq<nat>,
                    cls: Classes, b: nat, c: seq<seq<Sector>>, v: Disks)
    requires geo.group > 0 && FreeOk(t, fh, free) && RingOk(t, head, ring) && Parted(t, free, ring) && b < |t|
    requires Placed(geo, t) && Indexed(geo, t, x) && Flagged(geo, t, bits) && Classed(geo, t, cls, None)
    requires u == t[b := t[b].(prio := true)] && FitsDisks(geo, v) && Coherent(geo, t, c, v)
    ensures FreeOk(u, fh, free) && RingOk(u, head, ring) && Parted(u, free, ring)
    ensures Placed(geo, u) && Indexed(geo, u, x) && Flagged(geo, u, bits) && Classed(geo, u, cls, None)
      && Coherent(geo, u, c, v)
  {
    assert SameTags(t, u) && forall b | 0 <= b < |t| ::
      u[b].snext == t[b].snext && u[b].next == t[b].next
      && u[b].prev == t[b].prev;
    SubsetOfSame(t, u);
    hide Placed, Indexed, Flagged, Classed, Parted, Coherent, SameTags, FitsDisks;
    LinksKept(t, u, fh, free, head, ring);
    TagsKept(geo, t, u, x, bits, free, ring);
    ClassedKept(geo, t, u, cls, None);
    CoherentSubset(geo, t, u, c, v);
  }

  lemma SubsetOfSame(t: Table, u: Table)
    requires SameTags(t, u)
    ensures Subset(t, u)
  {
  }

  lemma StretchPart(geo: Geometry, v: Disks, d: nat, loc: nat, cpos: nat, count: nat)
    requires FitsDisks(geo, v) && OnDisk(geo, d, loc) && cpos + count <= BlockLen(geo, d, loc)
    ensures Off(geo, d, loc) + cpos + count <= |v[d]|
    ensures Stretch(geo, v, d, loc)[cpos..cpos + count] ==
      v[d][Off(geo, d, loc) + cpos..Off(geo, d, loc) + cpos + count]
  {
    SectorsInRange(geo, v, d, loc, 0, BlockLen(geo, d, loc));
    PartOfPart(v[d], Off(geo, d, loc), BlockLen(geo, d, loc), cpos, count);
  }

  lemma PartOfPart(s: seq<Sector>, a: nat, n: nat, c: nat, k: nat)
    requires a + n <= |s| && c + k <= n
    ensures s[a..a + n][c..c + k] == s[a + c..a + c + k]
  {
    var m := s[a..a + n];
    var l, r := m[c..c + k], s[a + c..a + c + k];
    forall i | 0 <= i < k
      ensures l[i] == r[i]
    {
      assert m[c + i] == s[a + c + i];
    }
  }

  lemma SectorsInRange(geo: Geometry, v: Disks, d: nat, loc: nat, cpos: nat, count: nat)
    requires FitsDisks(geo, v) && OnDisk(geo, d, loc) && cpos + count <= BlockLen(geo, d, loc)
    ensures d < |v| && geo.disks[d].sectors == |v[d]| && Off(geo, d, loc) + cpos + count <= geo.disks[d].sectors
  {
  }

  /** A full write of a location that is not cached: the new block is the buffer. */
  lemma MissedWrite(geo: Geometry, t: Table, c: seq<seq<Sector>>, v: Disks, d: nat, loc: nat, cpos: nat,
      buf: seq<Sector>)
    requires FitsDisks(geo, v) && Placed(geo, t) && Coherent(geo, t, c, v) && OnDisk(geo, d, loc)
    requires cpos + |buf| <= BlockLen(geo, d, loc) && |buf| == geo.disks[d].s32 && forall x: nat :: !At(t, x, d, loc)
    ensures d < |v| && Off(geo, d, loc) + cpos + |buf| <= |v[d]|
      && FitsDisks(geo, Put(v, d, Off(geo, d, loc) + cpos, buf))
    ensures Coherent(geo, t, c, Put(v, d, Off(geo, d, loc) + cpos, buf))
    ensures Stretch(geo, Put(v, d, Off(geo, d, loc) + cpos, buf), d, loc) == buf
  {
    CoherentMiss(geo, t, c, v, d, loc, cpos, buf);
    OwnStretch(geo, v, d, loc, cpos, buf);
  }

  lemma MovedCoherent(geo: Geometry, t: Table, u: Table, c: seq<seq<Sector>>, v: Disks, b: nat, d: nat, loc: nat)
    requires FitsDisks(geo, v) && Placed(geo, t) && Placed(geo, u) && Coherent(geo, t, c, v) && OrderOnly(t, u)
      && At(t, b, d, loc)
    ensures Coherent(geo, u, c, v) && At(u, b, d, loc)
  {
    assert Subset(t, u);
    hide Coherent, Placed, FitsDisks;
    CoherentSubset(geo, t, u, c, v);
  }

  lemma PutTwice(v: Disks, d: nat, pos: nat, buf: seq<Sector>)
    requires d < |v| && pos + |buf| <= |v[d]|
    ensures Put(Put(v, d, pos, buf), d, pos, buf) == Put(v, d, pos, buf)
  {
    var w := Put(v, d, pos, buf);
    assert w[d] == v[d][..pos] + buf + v[d][pos + |buf|..];
    assert w[d][..pos] + buf + w[d][pos + |buf|..] == w[d];
  }

  // ----- positions -----

  function First(geo: Geometry, d: nat, pos: nat): nat
    requires d < |geo.disks| && geo.disks[d].s32 > 0
  {
    pos / geo.disks[d].s32
  }

  /** 32 KB borders inside a stretch of sectors: one less than the locations it touches. */
  function Borders(geo: Geometry, d: nat, pos: nat, ssize: nat): int
    requires d < |geo.disks| && geo.disks[d].s32 > 0 && ssize > 0
  {
    First(geo, d, pos + ssize - 1) - First(geo, d, pos)
  }

  /** The locations a stretch touches are the first one and as many more as there are borders. */
  lemma BordersMeans(geo: Geometry, d: nat, pos: nat, ssize: nat, loc: nat)
    requires d < |geo.disks| && geo.disks[d].s32 > 0 && ssize > 0
    ensures (exists p: nat :: pos <= p < pos + ssize && First(geo, d, p) == loc)
      <==> First(geo, d, pos) <= loc <= First(geo, d, pos) + Borders(geo, d, pos, ssize)
  {
    var s, last := geo.disks[d].s32, pos + ssize - 1;
    assert First(geo, d, pos) + Borders(geo, d, pos, ssize) == First(geo, d, last);
    FirstIs(geo, d, pos);
    FirstIs(geo, d, last);
    if p: nat :| pos <= p < pos + ssize && First(geo, d, p) == loc {
      FirstIs(geo, d, p);
      hide First;
      InOrder(pos, p, First(geo, d, pos), loc, s);
      InOrder(p, last, loc, First(geo, d, last), s);
    }
    if First(geo, d, pos) <= loc <= First(geo, d, last) {
      var p := Touching(pos, last, First(geo, d, pos), First(geo, d, last), loc, s);
      FirstAt(geo, d, p, loc);
    }
  }

  lemma FirstIs(geo: Geometry, d: nat, p: nat)
    requires d < |geo.disks| && geo.disks[d].s32 > 0
    ensures First(geo, d, p) * geo.disks[d].s32 <= p < (First(geo, d, p) + 1) * geo.disks[d].s32
  {
    Quotient(p, geo.disks[d].s32);
  }

  lemma FirstAt(geo: Geometry, d: nat, p: nat, loc: nat)
    requires d < |geo.disks| && geo.disks[d].s32 > 0
    requires loc * geo.disks[d].s32 <= p < (loc + 1) * geo.disks[d].s32
    ensures First(geo, d, p) == loc
  {
    Between(p, geo.disks[d].s32, loc);
  }

  lemma InOrder(a: nat, b: nat, q: nat, r: nat, s: nat)
    requires q * s <= a <= b < (r + 1) * s
    ensures q <= r
  {
    if q > r { MulMono(r + 1, q, s); }
  }

  /** A sector of location loc, which lies between the locations of two sectors. */
  lemma Touching(a: nat, b: nat, q: nat, r: nat, loc: nat, s: nat) returns (p: nat)
    requires a <= b && q * s <= a < (q + 1) * s && r * s <= b < (r + 1) * s && q <= loc <= r
    ensures a <= p <= b && loc * s <= p < (loc + 1) * s
  {
    assert (loc + 1) * s == loc * s + s;
    assert (q + 1) * s == q * s + s;
    MulMono(loc, r, s);
    if loc == q {
      p := a;
    } else {
      MulMono(q + 1, loc, s);
      p := loc * s;
    }
  }

  lemma DiskFacts(geo: Geometry, v: Disks, d: nat)
    requires GeoOk(geo) && FitsDisks(geo, v) && d < |geo.disks|
    ensures |v| == |geo.disks| && |v[d]| == geo.disks[d].sectors && geo.disks[d].s32 > 0
  {
  }

  lemma PutNothing(v: Disks, d: nat, pos: nat, buf: seq<Sector>)
    requires d < |v| && pos <= |v[d]|
    ensures Put(v, d, pos, buf[..0]) == v && v[d][pos..pos] == []
  {
    assert v[d][..pos] + [] + v[d][pos..] == v[d];
    assert buf[..0] == [];
  }

  lemma StartOf(geo: Geometry, d: nat, pos: nat)
    requires d < |geo.disks| && geo.disks[d].s32 > 0
    ensures pos == Off(geo, d, pos / geo.disks[d].s32) + pos % geo.disks[d].s32
  {
  }

  lemma InsideLocation(geo: Geometry, d: nat, pos: nat, ssize: nat, rc: nat, loc: nat, cpos: nat, count: nat)
    requires d < |geo.disks| && pos + rc == Off(geo, d, loc) + cpos && rc + count <= ssize
      && pos + ssize <= geo.disks[d].sectors
    requires cpos + count <= geo.disks[d].s32 && 0 < count
    ensures OnDisk(geo, d, loc) && cpos + count <= BlockLen(geo, d, loc)
  {
  }

  lemma NextLocation(geo: Geometry, d: nat, loc: nat, cpos: nat, count: nat)
    requires d < |geo.disks|
    ensures Off(geo, d, loc + 1) == Off(geo, d, loc) + geo.disks[d].s32
  {
  }

  lemma HitTotal(geo: Geometry, before: nat, total: nat, loc: nat, pos: nat, ssize: nat, s: nat, d: nat, rc: nat,
      cpos: nat)
    requires d < |geo.disks| && s == geo.disks[d].s32 > 0 && total == 0 && loc >= First(geo, d, pos)
    requires total + (loc - First(geo, d, pos)) >= before
    requires pos + rc == Off(geo, d, loc) + cpos && rc < ssize
    ensures before <= Borders(geo, d, pos, ssize)
  {
    MulDiv(loc, s, pos + ssize);
  }

  lemma ReadOn(s: seq<Sector>, pos: nat, rc: nat, n: nat)
    requires pos + rc + n <= |s|
    ensures s[pos..pos + rc] + s[pos + rc..pos + rc + n] == s[pos..pos + rc + n]
  {
  }

  lemma PutOn(v: Disks, d: nat, pos: nat, buf: seq<Sector>, rc: nat, n: nat)
    requires d < |v| && rc + n <= |buf| && pos + |buf| <= |v[d]|
    ensures Put(Put(v, d, pos, buf[..rc]), d, pos + rc, buf[rc..rc + n]) == Put(v, d, pos, buf[..rc + n])
  {
    var w := Put(v, d, pos, buf[..rc]);
    var x := Put(w, d, pos + rc, buf[rc..rc + n]);
    var y := Put(v, d, pos, buf[..rc + n]);
    forall e, k | 0 <= e < |v| && 0 <= k < |v[e]|
      ensures x[e][k] == y[e][k]
    {
      PutAt(v, d, pos, buf[..rc], e, k);
      PutAt(w, d, pos + rc, buf[rc..rc + n], e, k);
      PutAt(v, d, pos, buf[..rc + n], e, k);
    }
    forall e | 0 <= e < |v|
      ensures x[e] == y[e]
    {
    }
  }

  // ----- invalidation -----

  const TWO64: nat := 0x1_0000_0000_0000_0000

  /** The size cut to the end of the disk; 64-bit sum. */
  function Clipped(sectors: nat, start: nat, size: nat): (n: nat)
    requires start <= sectors
  {
    if (start + size) % TWO64 > sectors then sectors - start else size
  }

  /** What the cache remembers: its queue and free blocks, and the groups whose blocks get priority. */
  datatype Memory = Memory(c: Caching, prios: seq<bool>)

  /** The priorities of a disk are cleared. */
  function NoPriorities(geo: Geometry, prios: seq<bool>, d: nat): (r: seq<bool>)
    ensures |r| == |prios|
  {
    seq(|prios|, j requires 0 <= j < |prios| => prios[j] && !(d * geo.span <= j < (d + 1) * geo.span))
  }

  /** What an invalidation leaves; one for the whole disk takes its priorities too, even if it frees no block. */
  function Forgotten(geo: Geometry, m: Memory, d: nat, start: nat, size: nat, plain: bool): Memory {
    if d >= |geo.disks| || geo.disks[d].s32 == 0 || start > geo.disks[d].sectors then m
    else
      var s, all := geo.disks[d].s32, geo.disks[d].sectors;
      var n := if (start + size) % 0x1_0000_0000_0000_0000 > all then all - start else size;
      var whole := start == 0 && n == all;
      var lo, hi := start / s % 0x1_0000_0000, (start + n - 1) % 0x1_0000_0000_0000_0000 / s % 0x1_0000_0000;
      var q := if plain then Purged(m.c.q, d, whole, lo, hi) else m.c.q;
      Memory(Caching(q, m.c.room + |m.c.q| - |q|), if whole then NoPriorities(geo, m.prios, d) else m.prios)
  }

  lemma {:induction false} PurgedAll(q: seq<Entry>, d: nat, lo: nat, hi: nat)
    ensures Purged(q, d, true, lo, hi) == Purged(q, d, true, 0, 0)
  {
    if q != [] { PurgedAll(q[1..], d, lo, hi); }
  }

  lemma NothingForgotten(geo: Geometry, m: Memory, d: nat, start: nat, size: nat, plain: bool)
    ensures d >= |geo.disks| || start > geo.disks[d].sectors ==> Forgotten(geo, m, d, start, size, plain) == m
  {
  }

  lemma ForgottenAll(geo: Geometry, m: Memory, d: nat, start: nat, size: nat, plain: bool)
    requires d < |geo.disks| && geo.disks[d].s32 > 0 && start == 0
    requires Clipped(geo.disks[d].sectors, start, size) == geo.disks[d].sectors
    ensures Forgotten(geo, m, d, start, size, plain) ==
              var q := if plain then Purged(m.c.q, d, true, 0, 0) else m.c.q;
              Memory(Caching(q, m.c.room + |m.c.q| - |q|), NoPriorities(geo, m.prios, d))
  {
    hide Purged, NoPriorities;
    var s, n := geo.disks[d].s32, geo.disks[d].sectors;
    PurgedAll(m.c.q, d, start / s % 0x1_0000_0000,
              (start + n - 1) % 0x1_0000_0000_0000_0000 / s % 0x1_0000_0000);
  }

  lemma ForgottenSome(geo: Geometry, m: Memory, d: nat, start: nat, size: nat, plain: bool, lo: nat, hi: nat)
    requires d < |geo.disks| && geo.disks[d].s32 > 0 && start <= geo.disks[d].sectors
    requires !(start == 0 && Clipped(geo.disks[d].sectors, start, size) == geo.disks[d].sectors)
    requires lo == start / geo.disks[d].s32 % TWO32
    requires hi == (start + Clipped(geo.disks[d].sectors, start, size) - 1) % TWO64 / geo.disks[d].s32 % TWO32
    ensures Forgotten(geo, m, d, start, size, plain) ==
              var q := if plain then Purged(m.c.q, d, false, lo, hi) else m.c.q;
              Memory(Caching(q, m.c.room + |m.c.q| - |q|), m.prios)
  {
    hide Purged, NoPriorities;
  }

  /** Block b holds a location the request covers. */
  ghost predicate Doomed(geo: Geometry, t: Table, b: nat, d: nat, start: nat, size: nat)
    requires d < |geo.disks| && geo.disks[d].s32 > 0 && start <= geo.disks[d].sectors && b < |t|
  {
    var n := Clipped(geo.disks[d].sectors, start, size);
    t[b].disk == Some(d) &&
    ((start == 0 && n == geo.disks[d].sectors) ||
     start / geo.disks[d].s32 % TWO32 <= t[b].loc <= (start + n - 1) % TWO64 / geo.disks[d].s32 % TWO32)
  }

  /** Exactly the blocks a request covers are gone. */
  ghost predicate Dropped(geo: Geometry, t: Table, u: Table, d: nat, start: nat, size: nat)
    requires d < |geo.disks| && geo.disks[d].s32 > 0
  {
    start <= geo.disks[d].sectors && |t| == |u| && forall b: nat | b < |t| :: Used(u, b) <==>
      Used(t, b) && !Doomed(geo, t, b, d, start, size)
  }

  ghost predicate Matches(t: Table, b: nat, d: nat, plain: bool, all: bool, lo: nat, hi: nat)
    requires b < |t|
  {
    plain && t[b].disk == Some(d) && (all || lo <= t[b].loc <= hi)
  }

  /** The blocks from ii on have been looked at. */
  ghost predicate Swept(t: Table, u: Table, d: nat, plain: bool, all: bool, lo: nat, hi: nat, ii: nat) {
    |t| == |u| && forall b: nat | b < |t| ::
      if b >= ii && Matches(t, b, d, plain, all, lo, hi) then u[b].disk == None
      else u[b].disk == t[b].disk && u[b].loc == t[b].loc && u[b].prio == t[b].prio
  }

  ghost function Matching(t: Table, d: nat, plain: bool, all: bool, lo: nat, hi: nat, ii: nat): set<nat> {
    set b: nat | ii <= b < |t| && Matches(t, b, d, plain, all, lo, hi)
  }

  lemma OneMatching(t: Table, ring: seq<nat>, d: nat, plain: bool, all: bool, lo: nat, hi: nat, ii: nat)
    requires ii < |t|
    ensures var one: set<nat> := if Matches(t, ii, d, plain, all, lo, hi) then {ii} else {};
            Minus(Minus(ring, Matching(t, d, plain, all, lo, hi, ii + 1)), one)
            == Minus(ring, Matching(t, d, plain, all, lo, hi, ii))
  {
    var one: set<nat> := if Matches(t, ii, d, plain, all, lo, hi) then {ii} else {};
    MinusTwice(ring, Matching(t, d, plain, all, lo, hi, ii + 1), one);
    assert Matching(t, d, plain, all, lo, hi, ii + 1) + one == Matching(t, d, plain, all, lo, hi, ii);
  }

  lemma SweptStill(t: Table, u: Table, d: nat, plain: bool, all: bool, lo: nat, hi: nat, ii: nat)
    requires Swept(t, u, d, plain, all, lo, hi, ii + 1) && ii < |u|
    ensures |u| == |t| && u[ii].disk == t[ii].disk && u[ii].loc == t[ii].loc
  {
  }

  lemma SweptQueue(t: Table, u: Table, free: seq<nat>, ring: seq<nat>, d: nat, all: bool, lo: nat, hi: nat)
    requires Swept(t, u, d, true, all, lo, hi, 0) && Parted(t, free, ring) && Inside(ring, |t|)
    ensures QueueOf(u, Minus(ring, Matching(t, d, true, all, lo, hi, 0))) == Purged(QueueOf(t, ring), d, all, lo, hi)
  {
    var gone := Matching(t, d, true, all, lo, hi, 0);
    forall i | 0 <= i < |ring|
      ensures Used(t, ring[i])
      ensures ring[i] in gone <==> t[ring[i]].disk == Some(d) && (all || lo <= t[ring[i]].loc <= hi)
      ensures ring[i] !in gone ==> EntryOf(u, ring[i]) == EntryOf(t, ring[i])
    {
      assert ring[i] in ring;
    }
    QueuePurged(t, u, ring, gone, d, all, lo, hi);
  }

  lemma NotSwept(t: Table, d: nat, plain: bool, all: bool, lo: nat, hi: nat)
    ensures Swept(t, t, d, plain, all, lo, hi, |t|)
  {
  }

  lemma SweptMatch(t: Table, u: Table, w: Table, d: nat, plain: bool, all: bool, lo: nat, hi: nat, ii: nat)
    requires Swept(t, u, d, plain, all, lo, hi, ii + 1) && ii < |u| && Matches(u, ii, d, plain, all, lo, hi)
      && Freed(u, w, ii)
    ensures Swept(t, w, d, plain, all, lo, hi, ii) && Subset(u, w)
  {
  }

  lemma SweptOther(t: Table, u: Table, d: nat, plain: bool, all: bool, lo: nat, hi: nat, ii: nat)
    requires Swept(t, u, d, plain, all, lo, hi, ii + 1) && ii < |u| && !Matches(u, ii, d, plain, all, lo, hi)
    ensures Swept(t, u, d, plain, all, lo, hi, ii)
  {
  }

  lemma SweptAll(t: Table, u: Table, d: nat)
    requires Swept(t, u, d, true, true, 0, 0, 0)
    ensures forall b: nat | Used(u, b) :: u[b].disk != Some(d)
  {
  }

  lemma SubsetSelf(t: Table)
    ensures Subset(t, t)
  {
  }

  lemma DoomedAll(geo: Geometry, t: Table, u: Table, d: nat, start: nat, size: nat)
    requires d < |geo.disks| && geo.disks[d].s32 > 0 && start <= geo.disks[d].sectors
      && Swept(t, u, d, true, true, 0, 0, 0)
    requires start == 0 && Clipped(geo.disks[d].sectors, start, size) == geo.disks[d].sectors
    ensures Subset(t, u) && forall b: nat | b < |t| :: Used(u, b) <==> Used(t, b) && !Doomed(geo, t, b, d, start, size)
  {
  }

  lemma DoomedSome(geo: Geometry, t: Table, u: Table, d: nat, start: nat, size: nat, lo: nat, hi: nat)
    requires d < |geo.disks| && geo.disks[d].s32 > 0 && start <= geo.disks[d].sectors
      && Swept(t, u, d, true, false, lo, hi, 0)
    requires !(start == 0 && Clipped(geo.disks[d].sectors, start, size) == geo.disks[d].sectors)
    requires lo == start / geo.disks[d].s32 % TWO32
    requires hi == (start + Clipped(geo.disks[d].sectors, start, size) - 1) % TWO64 / geo.disks[d].s32 % TWO32
    ensures Subset(t, u) && forall b: nat | b < |t| :: Used(u, b) <==> Used(t, b) && !Doomed(geo, t, b, d, start, size)
  {
  }

  lemma KeysOfDisk(d: nat, n: nat, span: nat)
    requires d < n
    ensures d * span <= (d + 1) * span <= n * span
  {
    MulMono(d + 1, n, span);
  }

  lemma ForeignBits(geo: Geometry, t: Table, bits: seq<bool>, now: seq<bool>, d: nat)
    requires geo.group > 0 && GeoOk(geo) && Placed(geo, t) && Flagged(geo, t, bits) && |now| == |bits|
    requires forall j | 0 <= j < |bits| && !(d * geo.span <= j < (d + 1) * geo.span) :: now[j] == bits[j]
    requires forall b: nat | Used(t, b) :: t[b].disk != Some(d)
    ensures Flagged(geo, t, now)
  {
    hide GeoOk;
    forall b: nat | Used(t, b)
      ensures KeyAt(geo, t, b) < |now| && now[KeyAt(geo, t, b)]
    {
      ForeignKey(geo, t[b].disk.value, t[b].loc, d);
    }
  }

  /** Does a request cover the whole disk? */
  predicate WholeDisk(geo: Geometry, d: nat, start: nat, size: nat) {
    d < |geo.disks| && start == 0 && start <= geo.disks[d].sectors
      && Clipped(geo.disks[d].sectors, start, size) == geo.disks[d].sectors
  }

  /** Is anything of disk d cached? */
  ghost predicate CachesOf(t: Table, d: nat) {
    exists b: nat :: Used(t, b) && t[b].disk == Some(d)
  }

  lemma ClearedBits(geo: Geometry, t: Table, bits: seq<bool>, now: seq<bool>, d: nat)
    requires geo.group > 0 && GeoOk(geo) && Placed(geo, t) && Flagged(geo, t, bits) && |now| == |bits|
    requires forall j | 0 <= j < |bits| && !(d * geo.span <= j < (d + 1) * geo.span) :: now[j] == bits[j]
    requires forall j | d * geo.span <= j < (d + 1) * geo.span && j < |bits| :: !now[j]
    ensures Flagged(geo, t, now) <==> forall b: nat | Used(t, b) :: t[b].disk != Some(d)
  {
    hide GeoOk, Key;
    if forall b: nat | Used(t, b) :: t[b].disk != Some(d) {
      ForeignBits(geo, t, bits, now, d);
    } else {
      var b: nat :| Used(t, b) && t[b].disk == Some(d);
      OwnKey(geo, d, t[b].loc);
      assert KeyAt(geo, t, b) == Key(geo, d, t[b].loc);
    }
  }

  lemma OwnKey(geo: Geometry, d: nat, loc: nat)
    requires geo.group > 0 && GeoOk(geo) && OnDisk(geo, d, loc)
    ensures d * geo.span <= Key(geo, d, loc) < (d + 1) * geo.span
  {
    KeyFits(geo, d, loc);
  }

  lemma OtherBand(e: nat, g: nat, d: nat, span: nat)
    requires g < span && e != d
    ensures !(d * span <= Pack(e, g, span) < (d + 1) * span)
  {
    if e < d { MulMono(e + 1, d, span); } else { MulMono(d + 1, e, span); }
  }

  lemma ForeignKey(geo: Geometry, e: nat, loc: nat, d: nat)
    requires geo.group > 0 && GeoOk(geo) && OnDisk(geo, e, loc) && e != d
    ensures !(d * geo.span <= Key(geo, e, loc) < (d + 1) * geo.span)
  {
    KeyFits(geo, e, loc);
    hide GeoOk, OnDisk, Pack, Group;
    OtherBand(e, Group(geo, loc), d, geo.span);
  }

  lemma EmptyCache(geo: Geometry, t: Table, x: seq<nat>, bits: seq<bool>, free: seq<nat>, c: seq<seq<Sector>>, v: Disks)
    requires geo.group > 0 && |t| >= 2 && |x| == |t| == |c| && |free| == |t| - 1 && FitsDisks(geo, v)
    requires forall i | 0 <= i < |free| :: free[i] == i + 1
    requires forall b | 0 <= b < |t| :: t[b].disk == None && x[b] == FREE
    requires forall b | 1 <= b < |t| :: t[b].next == if b + 1 < |t| then b + 1 else 0
    ensures FreeOk(t, 1, free) && RingOk(t, 0, []) && Parted(t, free, []) && Placed(geo, t) && Indexed(geo, t, x)
    ensures Flagged(geo, t, bits) && Classed(geo, t, map[], None) && Coherent(geo, t, c, v)
  {
    forall b: nat | 0 < b < |t|
      ensures b in free
    {
      assert free[b - 1] == b;
    }
    forall i | 0 <= i < |free|
      ensures FreeLink(t, free, i)
    {
    }
  }

  lemma GeometryFacts(geo: Geometry, v: Disks, d: nat)
    requires GeoOk(geo) && FitsDisks(geo, v)
    ensures |v| == |geo.disks| && (d < |geo.disks| ==> geo.disks[d].s32 > 0 && |v[d]| == geo.disks[d].sectors)
  {
  }

  lemma PutLength(v: Disks, d: nat, pos: nat, buf: seq<Sector>)
    requires d < |v| && pos + |buf| <= |v[d]|
    ensures |Put(v, d, pos, buf)| == |v| && |Put(v, d, pos, buf)[d]| == |v[d]|
  {
  }

  // ----- what the requests mean without a cache -----

  /** Requests of the disk layer. A write may carry service flags, and so may the handle of an invalidation. */
  datatype Request =
    | Read(d: nat, pos: nat, ssize: nat)
    | Write(d: nat, pos: nat, buf: seq<Sector>, direct: bool, ignacc: bool)
    | Drop(d: nat, start: nat, size: nat, plain: bool)
  {
    predicate Small?() {
      (Write? ==> pos < TWO64 && |buf| < TWO64) && (Drop? ==> start < TWO64 && size < TWO64)
    }

    function From(): nat {
      if Drop? then start else pos
    }

    function Size(): nat {
      if Read? then ssize else if Write? then |buf| else size
    }
  }

  /** Requests inside an enabled disk. */
  predicate Inbounds(geo: Geometry, d: nat, pos: nat, ssize: nat) {
    d < |geo.disks| && geo.disks[d].enabled && ssize > 0 && pos < geo.disks[d].sectors
      && pos + ssize <= geo.disks[d].sectors
  }

  /** Requests of at most half the cache, inside an enabled disk. */
  predicate Served(geo: Geometry, n: nat, d: nat, pos: nat, ssize: nat)
    requires GeoOk(geo)
  {
    Inbounds(geo, d, pos, ssize) && ssize / geo.disks[d].s32 <= n / 2
  }

  /** How many of n sectors the disk layer writes on its own: it goes on in steps of 32 KB up to the end of the disk. */
  function Reach(geo: Geometry, d: nat, pos: nat, n: nat): (r: nat)
    requires d < |geo.disks| && geo.disks[d].s32 > 0
    ensures r <= n && (r > 0 ==> pos + r <= geo.disks[d].sectors)
  {
    if pos + n <= geo.disks[d].sectors then n
    else if pos < geo.disks[d].sectors then
      Below(geo.disks[d].sectors - pos, geo.disks[d].s32);
      (geo.disks[d].sectors - pos) / geo.disks[d].s32 * geo.disks[d].s32
    else 0
  }

  /** The disks after a write of the disk layer. */
  function Written(geo: Geometry, v: Disks, d: nat, pos: nat, buf: seq<Sector>): (w: Disks)
    requires GeoOk(geo) && FitsDisks(geo, v)
    ensures FitsDisks(geo, w)
  {
    if d >= |geo.disks| then v
    else
      var r := Reach(geo, d, pos, |buf|);
      if r > 0 then Put(v, d, pos, buf[..r]) else v
  }

  lemma NoDisk(geo: Geometry, v: Disks, d: nat, pos: nat, buf: seq<Sector>)
    requires GeoOk(geo) && FitsDisks(geo, v) && d >= |geo.disks|
    ensures Written(geo, v, d, pos, buf) == v
  {
  }

  lemma WrittenIs(geo: Geometry, v: Disks, d: nat, pos: nat, buf: seq<Sector>)
    requires GeoOk(geo) && FitsDisks(geo, v) && d < |geo.disks|
    ensures geo.disks[d].s32 > 0 && d < |v|
    ensures var r := Reach(geo, d, pos, |buf|);
      Written(geo, v, d, pos, buf) == if r > 0 then Put(v, d, pos, buf[..r]) else v
  {
    hide Reach, Put;
  }

  lemma PutNext(v: Disks, d: nat, pos: nat, buf: seq<Sector>, rc: nat, n: nat)
    requires d < |v| && rc + n <= |buf| && pos + rc + n <= |v[d]|
    ensures rc == 0 ==> buf[rc..rc + n] == buf[..rc + n]
    ensures Put(Put(v, d, pos, buf[..rc]), d, pos + rc, buf[rc..rc + n]) == Put(v, d, pos, buf[..rc + n])
  {
    var b := buf[..rc + n];
    assert b[..rc] == buf[..rc] && b[rc..rc + n] == buf[rc..rc + n] && b[..rc + n] == b;
    hide Put;
    PutOn(v, d, pos, b, rc, n);
  }

  /** Where q steps of 32 KB, and perhaps a shorter last one, end. */
  lemma ReachIs(geo: Geometry, d: nat, pos: nat, n: nat, q: nat, done: nat)
    requires d < |geo.disks| && geo.disks[d].s32 > 0 && done <= n
    requires done > 0 ==> pos + done <= geo.disks[d].sectors
    requires done == n || (done == q * geo.disks[d].s32
      && pos + done + (if n - done > geo.disks[d].s32 then geo.disks[d].s32 else n - done) > geo.disks[d].sectors)
    ensures done == Reach(geo, d, pos, n)
  {
    var s, all := geo.disks[d].s32, geo.disks[d].sectors;
    if done < n && pos < all { StepsIn(all - pos, s, q); }
  }

  lemma StepsIn(m: nat, s: nat, q: nat)
    requires s > 0 && q * s <= m < q * s + s
    ensures m / s * s == q * s
  {
    Quotient(m, s);
    if m / s < q { MulMono(m / s + 1, q, s); }
    if m / s > q { MulMono(q + 1, m / s, s); }
  }

  ghost function DisksAfter(geo: Geometry, v: Disks, r: Request): (w: Disks)
    requires GeoOk(geo) && FitsDisks(geo, v)
    ensures FitsDisks(geo, w)
  {
    if r.Write? then Written(geo, v, r.d, r.pos, r.buf) else v
  }

  /**
   * A write the cache does not serve and that leaves an outdated block behind. If it is only too long, its blocks are
   * dropped, unless the handle carries a flag: then nothing is dropped, and a write of the whole disk clears its bits
   * although its blocks stay.
   */
  ghost predicate MissesWrite(geo: Geometry, n: nat, t: Table, v: Disks, d: nat, pos: nat, buf: seq<Sector>,
      direct: bool, ignacc: bool)
    requires GeoOk(geo) && FitsDisks(geo, v) && Placed(geo, t)
  {
    !Served(geo, n, d, pos, |buf|) &&
    if Inbounds(geo, d, pos, |buf|) then
      (direct || ignacc) && ((WholeDisk(geo, d, pos, |buf|) && CachesOf(t, d))
        || Outdated(geo, t, v, Written(geo, v, d, pos, buf)))
    else Outdated(geo, t, v, Written(geo, v, d, pos, buf))
  }

  /** Requests after which the cache is out of step with the disks. */
  ghost predicate Misses(geo: Geometry, n: nat, t: Table, v: Disks, r: Request)
    requires GeoOk(geo) && FitsDisks(geo, v) && Placed(geo, t)
  {
    match r
    case Read(d, pos, ssize) => false
    case Write(d, pos, buf, direct, ignacc) => MissesWrite(geo, n, t, v, d, pos, buf, direct, ignacc)
    case Drop(d, start, size, plain) => !plain && WholeDisk(geo, d, start, size) && CachesOf(t, d)
  }

  /** Requests that are never missed, whatever is cached. */
  predicate Harmless(geo: Geometry, n: nat, r: Request)
    requires GeoOk(geo)
  {
    match r
    case Read(d, pos, ssize) => true
    case Write(d, pos, buf, direct, ignacc) => Served(geo, n, d, pos, |buf|)
      || (Inbounds(geo, d, pos, |buf|) && !direct && !ignacc)
    case Drop(d, start, size, plain) => plain || !WholeDisk(geo, d, start, size)
  }

  lemma MissesIs(geo: Geometry, n: nat, t: Table, v: Disks, d: nat, pos: nat, buf: seq<Sector>, direct: bool,
      ignacc: bool)
    requires GeoOk(geo) && FitsDisks(geo, v) && Placed(geo, t)
    ensures MissesWrite(geo, n, t, v, d, pos, buf, direct, ignacc) <==>
      !Served(geo, n, d, pos, |buf|) &&
      if Inbounds(geo, d, pos, |buf|) then
        (direct || ignacc) && ((WholeDisk(geo, d, pos, |buf|) && CachesOf(t, d))
          || Outdated(geo, t, v, Written(geo, v, d, pos, buf)))
      else Outdated(geo, t, v, Written(geo, v, d, pos, buf))
    ensures FitsDisks(geo, Written(geo, v, d, pos, buf))
    ensures Served(geo, n, d, pos, |buf|) ==> |buf| > 0
  {
  }

  lemma ServedWritten(geo: Geometry, n: nat, v: Disks, d: nat, pos: nat, buf: seq<Sector>)
    requires GeoOk(geo) && FitsDisks(geo, v)
    ensures Served(geo, n, d, pos, |buf|) ==> Written(geo, v, d, pos, buf) == Overwritten(v, d, pos, buf)
  {
    assert buf[..|buf|] == buf;
  }

  lemma NothingWritten(geo: Geometry, t: Table, v: Disks, d: nat, pos: nat, buf: seq<Sector>)
    requires GeoOk(geo) && FitsDisks(geo, v) && Placed(geo, t)
    ensures buf == [] ==> Written(geo, v, d, pos, buf) == v && !Outdated(geo, t, v, v)
  {
  }

  /** The blocks that remain after the covered ones are dropped hold nothing the write changes. */
  lemma LeftOver(geo: Geometry, t: Table, u: Table, v: Disks, d: nat, pos: nat, buf: seq<Sector>)
    requires GeoOk(geo) && FitsDisks(geo, v) && Placed(geo, t) && Placed(geo, u) && Subset(t, u)
    requires Inbounds(geo, d, pos, |buf|) && geo.disks[d].s32 > 0 && Dropped(geo, t, u, d, pos, |buf|)
    ensures !Outdated(geo, u, v, Written(geo, v, d, pos, buf))
  {
    assert buf[..|buf|] == buf;
    var w := Put(v, d, pos, buf);
    forall b: nat | Used(u, b)
      ensures Stretch(geo, w, u[b].disk.value, u[b].loc) == Stretch(geo, v, u[b].disk.value, u[b].loc)
    {
      if u[b].disk == Some(d) {
        NotDoomed(geo, t, b, d, pos, |buf|);
      }
      StretchOutside(geo, v, d, pos, buf, u[b].disk.value, u[b].loc);
    }
  }

  /** A block of the disk that is not dropped lies before or behind the request. */
  lemma NotDoomed(geo: Geometry, t: Table, b: nat, d: nat, pos: nat, n: nat)
    requires GeoOk(geo) && Inbounds(geo, d, pos, n) && geo.disks[d].s32 > 0 && b < |t| && t[b].disk == Some(d)
    requires OnDisk(geo, d, t[b].loc) && !Doomed(geo, t, b, d, pos, n)
    ensures Off(geo, d, t[b].loc) + BlockLen(geo, d, t[b].loc) <= pos || pos + n <= Off(geo, d, t[b].loc)
  {
    var s, loc := geo.disks[d].s32, t[b].loc;
    Locations(pos, s, geo.disks[d].sectors);
    Locations(pos + n - 1, s, geo.disks[d].sectors);
    LocationApart(loc, s, pos, n, BlockLen(geo, d, loc));
  }

  lemma LocationApart(loc: nat, s: nat, pos: nat, n: nat, len: nat)
    requires s > 0 && n > 0 && len <= s && !(pos / s <= loc <= (pos + n - 1) / s)
    ensures loc * s + len <= pos || pos + n <= loc * s
  {
    Quotient(pos, s);
    Quotient(pos + n - 1, s);
    if loc < pos / s { MulMono(loc + 1, pos / s, s); } else { MulMono((pos + n - 1) / s + 1, loc, s); }
  }

  /** Locations on a disk fit into 32 bits. */
  lemma Locations(pos: nat, s: nat, sectors: nat)
    requires 8 <= s && pos < sectors <= 3 * FREE
    ensures pos / s % TWO32 == pos / s && pos % TWO64 == pos
  {
    var q := pos / s;
    Below(pos, s);
    EightTimes(q, s, pos);
    SmallRemains(q);
  }

  lemma Below(pos: nat, s: nat)
    requires s > 0
    ensures 0 <= pos / s && pos / s * s <= pos
  {
    assert pos == pos / s * s + pos % s;
  }

  lemma EightTimes(q: nat, s: nat, p: nat)
    requires 8 <= s && q * s <= p
    ensures 8 * q <= p
  {
    MulMono(8, s, q);
  }

  lemma SmallRemains(q: nat)
    requires q < TWO32
    ensures q % TWO32 == q
  {
  }

  ghost predicate PlacedThere(geo: Geometry, t: Table, b: nat)
    requires Used(t, b)
  {
    OnDisk(geo, t[b].disk.value, t[b].loc)
  }

  lemma PlacedAt(geo: Geometry, t: Table, b: nat)
    requires Placed(geo, t) && Used(t, b)
    ensures OnDisk(geo, t[b].disk.value, t[b].loc)
  {
  }

  /** A cached block that n sectors of disk d from pos on share sectors with. */
  ghost predicate Met(geo: Geometry, t: Table, b: nat, d: nat, pos: nat, n: nat)
    requires Placed(geo, t)
  {
    Used(t, b) && t[b].disk == Some(d) && OnDisk(geo, d, t[b].loc)
      && pos < Off(geo, d, t[b].loc) + BlockLen(geo, d, t[b].loc) && Off(geo, d, t[b].loc) < pos + n
  }

  /** No cached block is met. */
  ghost predicate Bare(geo: Geometry, t: Table, d: nat, pos: nat, n: nat)
    requires Placed(geo, t)
  {
    forall b: nat :: !Met(geo, t, b, d, pos, n)
  }

  /** Requests that are not missed with this table, whatever the disks hold. */
  ghost predicate Untouched(geo: Geometry, n: nat, t: Table, r: Request)
    requires GeoOk(geo) && Placed(geo, t)
  {
    Harmless(geo, n, r) || Bare(geo, t, r.d, r.From(), r.Size())
  }

  lemma UntouchedServed(geo: Geometry, n: nat, t: Table, v: Disks, r: Request)
    requires GeoOk(geo) && FitsDisks(geo, v) && Placed(geo, t) && Untouched(geo, n, t, r)
    ensures !Misses(geo, n, t, v, r)
  {
    hide GeoOk, FitsDisks, Placed, Bare, Written, WholeDisk, CachesOf, Outdated;
    if Harmless(geo, n, r) {
      HarmlessServed(geo, n, t, v, r);
    } else if r.Write? {
      BareWrite(geo, t, v, r.d, r.pos, r.buf);
      BareDisk(geo, t, r.d, r.pos, |r.buf|);
    } else {
      BareDisk(geo, t, r.d, r.start, r.size);
    }
  }

  /** A request for the whole disk meets each of its blocks. */
  lemma WholeMeets(geo: Geometry, t: Table, b: nat, d: nat, pos: nat, n: nat)
    requires GeoOk(geo) && Placed(geo, t) && WholeDisk(geo, d, pos, n) && Used(t, b) && t[b].disk == Some(d)
    ensures Met(geo, t, b, d, pos, n)
  {
    PlacedAt(geo, t, b);
  }

  lemma BareDisk(geo: Geometry, t: Table, d: nat, pos: nat, n: nat)
    requires GeoOk(geo) && Placed(geo, t) && Bare(geo, t, d, pos, n)
    ensures WholeDisk(geo, d, pos, n) ==> !CachesOf(t, d)
  {
    hide GeoOk, Placed, WholeDisk, Met;
    if WholeDisk(geo, d, pos, n) && CachesOf(t, d) {
      var b: nat :| Used(t, b) && t[b].disk == Some(d);
      WholeMeets(geo, t, b, d, pos, n);
    }
  }

  lemma BareWrite(geo: Geometry, t: Table, v: Disks, d: nat, pos: nat, buf: seq<Sector>)
    requires GeoOk(geo) && FitsDisks(geo, v) && Placed(geo, t) && Bare(geo, t, d, pos, |buf|)
    ensures !Outdated(geo, t, v, Written(geo, v, d, pos, buf))
  {
    var w := Written(geo, v, d, pos, buf);
    forall b: nat | Used(t, b)
      ensures Stretch(geo, w, t[b].disk.value, t[b].loc) == Stretch(geo, v, t[b].disk.value, t[b].loc)
    {
      PlacedAt(geo, t, b);
      assert !Met(geo, t, b, d, pos, |buf|);
      BareBlock(geo, v, d, pos, buf, t[b].disk.value, t[b].loc);
    }
  }

  lemma BareBlock(geo: Geometry, v: Disks, d: nat, pos: nat, buf: seq<Sector>, e: nat, loc: nat)
    requires GeoOk(geo) && FitsDisks(geo, v) && OnDisk(geo, e, loc)
    requires e != d || Off(geo, e, loc) + BlockLen(geo, e, loc) <= pos || pos + |buf| <= Off(geo, e, loc)
    ensures Stretch(geo, Written(geo, v, d, pos, buf), e, loc) == Stretch(geo, v, e, loc)
  {
    if d < |geo.disks| {
      var r := Reach(geo, d, pos, |buf|);
      if r > 0 { StretchOutside(geo, v, d, pos, buf[..r], e, loc); }
    }
  }

  lemma HarmlessServed(geo: Geometry, n: nat, t: Table, v: Disks, r: Request)
    requires GeoOk(geo) && FitsDisks(geo, v) && Placed(geo, t) && Harmless(geo, n, r)
    ensures !Misses(geo, n, t, v, r)
  {
  }

  ghost function Reply(geo: Geometry, n: nat, v: Disks, r: Request): seq<Sector>
    requires GeoOk(geo) && FitsDisks(geo, v)
  {
    if r.Read? && Served(geo, n, r.d, r.pos, r.ssize) then v[r.d][r.pos..r.pos + r.ssize] else []
  }

  /** What the cache remembers after a request. */
  ghost function Remembers(geo: Geometry, n: nat, m: Memory, r: Request): Memory
    requires GeoOk(geo)
  {
    match r
    case Read(d, pos, ssize) =>
      if Served(geo, n, d, pos, ssize) then m.(c := Requested(geo, m.prios, m.c, d, pos, ssize, 0)) else m
    case Write(d, pos, buf, direct, ignacc) =>
      if Served(geo, n, d, pos, |buf|) then
        m.(c := Requested(geo, m.prios, m.c, d, pos, |buf|, if direct then 2 else 1))
      else if Inbounds(geo, d, pos, |buf|) then Forgotten(geo, m, d, pos, |buf|, !direct && !ignacc)
      else m
    case Drop(d, start, size, plain) => Forgotten(geo, m, d, start, size, plain)
  }

  ghost function RemembersAll(geo: Geometry, n: nat, m: Memory, rs: seq<Request>): Memory
    requires GeoOk(geo)
  {
    if rs == [] then m else Remembers(geo, n, RemembersAll(geo, n, m, rs[..|rs| - 1]), rs[|rs| - 1])
  }

  lemma MoreRemembered(geo: Geometry, n: nat, m: Memory, rs: seq<Request>, k: nat)
    requires GeoOk(geo) && k < |rs|
    ensures RemembersAll(geo, n, m, rs[..k + 1]) == Remembers(geo, n, RemembersAll(geo, n, m, rs[..k]), rs[k])
  {
    assert rs[..k + 1][..k] == rs[..k];
  }

  ghost function AfterAll(geo: Geometry, v: Disks, rs: seq<Request>): (w: Disks)
    requires GeoOk(geo) && FitsDisks(geo, v)
    ensures FitsDisks(geo, w)
  {
    if rs == [] then v else DisksAfter(geo, AfterAll(geo, v, rs[..|rs| - 1]), rs[|rs| - 1])
  }

  ghost function Replies(geo: Geometry, n: nat, v: Disks, rs: seq<Request>): seq<seq<Sector>>
    requires GeoOk(geo) && FitsDisks(geo, v)
  {
    if rs == [] then []
    else Replies(geo, n, v, rs[..|rs| - 1]) + [Reply(geo, n, AfterAll(geo, v, rs[..|rs| - 1]), rs[|rs| - 1])]
  }

  lemma OneMore(geo: Geometry, n: nat, v: Disks, rs: seq<Request>, k: nat)
    requires GeoOk(geo) && FitsDisks(geo, v) && k < |rs|
    ensures AfterAll(geo, v, rs[..k + 1]) == DisksAfter(geo, AfterAll(geo, v, rs[..k]), rs[k])
    ensures Replies(geo, n, v, rs[..k + 1]) ==
      Replies(geo, n, v, rs[..k]) + [Reply(geo, n, AfterAll(geo, v, rs[..k]), rs[k])]
  {
    assert rs[..k + 1][..k] == rs[..k];
  }

  // ----- when the held block is given up -----

  /** The last entry of a part of the index with this key, or the end of the part. */
  function LastAt(x: seq<nat>, key: nat, lo: nat, hi: nat): (p: nat)
    requires lo <= hi <= |x|
    ensures lo <= p <= hi && (p < hi ==> x[p] == key)
    decreases hi
  {
    if lo == hi then hi
    else if x[hi - 1] == key then hi - 1
    else var p := LastAt(x, key, lo, hi - 1); if p == hi - 1 then hi else p
  }

  lemma {:induction false} LastAtIs(x: seq<nat>, key: nat, lo: nat, hi: nat)
    requires lo <= hi <= |x|
    ensures forall k :: (if LastAt(x, key, lo, hi) < hi then LastAt(x, key, lo, hi) + 1 else lo) <= k < hi ==>
      x[k] != key
    decreases hi
  {
    if lo < hi && x[hi - 1] != key { LastAtIs(x, key, lo, hi - 1); }
  }

  /** The block of a group the search finds: the last one before the head of the ring, else the last one of all. */
  function Candidate(x: seq<nat>, key: nat, head: nat): nat
    requires head <= |x|
  {
    var p := LastAt(x, key, 0, head);
    if p < head then p else
      var q := LastAt(x, key, head, |x|);
      if q < |x| then q else 0
  }

  /** The location is not cached, the cache is full, and the block to be given up is the one the search found. */
  ghost predicate GivesUpFound(geo: Geometry, t: Table, x: seq<nat>, ring: seq<nat>, head: nat, total: nat, d: nat,
      loc: nat)
    requires geo.group > 0 && head <= |x|
  {
    && total == 0 && ring != [] && (forall b: nat :: !At(t, b, d, loc))
    && Candidate(x, Key(geo, d, loc), head) == Victim(t, ring)
  }

  lemma GivesUpIff(geo: Geometry, t: Table, x: seq<nat>, ring: seq<nat>, head: nat, total: nat, d: nat, loc: nat,
      sl: nat, block: nat)
    requires geo.group > 0 && head <= |x| && sl == Candidate(x, Key(geo, d, loc), head)
    requires block != 0 ==> At(t, block, d, loc)
    requires block == 0 ==> forall b: nat :: !At(t, b, d, loc)
    ensures GivesUpFound(geo, t, x, ring, head, total, d, loc) <==>
      block == 0 && total == 0 && ring != [] && sl == Victim(t, ring)
  {
    hide Candidate, Victim, Key;
  }

  lemma GivesUpNow(geo: Geometry, t: Table, x: seq<nat>, ring: seq<nat>, head: nat, d: nat, loc: nat)
    requires geo.group > 0 && head <= |x| && ring != [] && forall b: nat :: !At(t, b, d, loc)
    requires Candidate(x, Key(geo, d, loc), head) == Victim(t, ring)
    ensures GivesUpFound(geo, t, x, ring, head, 0, d, loc)
  {
  }

  lemma NoCandidate(geo: Geometry, t: Table, x: seq<nat>, free: seq<nat>, ring: seq<nat>, key: nat, head: nat)
    requires geo.group > 0 && Indexed(geo, t, x) && Parted(t, free, ring) && key < FREE && head < |x|
    requires forall b: nat | Used(t, b) :: KeyAt(geo, t, b) != key
    ensures Candidate(x, key, head) == 0
  {
    hide Key;
    assert forall k :: 0 <= k < |x| ==> x[k] != key;
  }

  /** The oldest block has no priority, so it is the one to be given up. */
  ghost predicate PlainHead(t: Table, head: nat) {
    0 < head < |t| && !t[head].prio
  }

  /** The location is not cached, and the oldest block is the only one of its group. */
  ghost predicate LoneHead(geo: Geometry, t: Table, head: nat, d: nat, loc: nat)
    requires geo.group > 0
  {
    && (forall b: nat :: !At(t, b, d, loc))
    && Used(t, head) && KeyAt(geo, t, head) == Key(geo, d, loc)
    && forall b: nat | Used(t, b) :: KeyAt(geo, t, b) == Key(geo, d, loc) ==> b == head
  }

  /** If the oldest block has no priority, the bad case is that it is the only block of the group. */
  lemma HeadHeld(geo: Geometry, t: Table, x: seq<nat>, free: seq<nat>, ring: seq<nat>, head: nat, d: nat, loc: nat)
    requires geo.group > 0 && RingOk(t, head, ring) && Indexed(geo, t, x) && Parted(t, free, ring)
      && Key(geo, d, loc) < FREE
    requires PlainHead(t, head)
    ensures GivesUpFound(geo, t, x, ring, head, 0, d, loc) <==> LoneHead(geo, t, head, d, loc)
  {
    var key := Key(geo, d, loc);
    LastAtIs(x, key, 0, head);
    LastAtIs(x, key, head, |x|);
    hide Key, LastAt;
    assert Victim(t, ring) == head;
    assert x[0] != key;
    assert forall b: nat | b < |t| :: x[b] == key <==> Used(t, b) && KeyAt(geo, t, b) == key;
  }

  // ----- a full cache of one megabyte -----

  /** One disk with 512-byte sectors; groups are 256 KB. */
  function ExampleGeometry(sectors: nat): Geometry {
    Geometry([DiskInfo(sectors, 64, true)], 8, 0x8000_0000)
  }

  /** A disk of 2 MB to 2 TB. */
  predicate ExampleSize(sectors: nat) {
    4096 <= sectors <= FREE
  }

  /** Where block b is: block 1 holds the start of the disk, the others eight blocks of each following group. */
  function ExampleLoc(b: nat): nat {
    if b <= 1 then 0 else b + 6
  }

  function ExampleSnext(b: nat): nat {
    if b <= 1 then 0
    else if b == 9 || b == 17 || b == 25 then b - 7
    else if b == 31 then 26
    else b + 1
  }

  function ExampleBlock(b: nat): Info
    requires b < 32
  {
    if b == 0 then Info(0, 0, 0, false, 0, None)
    else
      var prev := if b == 1 then 31 else b - 1;
      var next := if b == 31 then 1 else b + 1;
      Info(prev, next, ExampleSnext(b), false, ExampleLoc(b), Some(0))
  }

  /** All 31 usable blocks of a cache of 1 MB are in use, in the order of their numbers. */
  function ExampleTable(): (t: Table)
    ensures |t| == 32
  {
    seq(32, b requires 0 <= b < 32 => ExampleBlock(b))
  }

  function ExampleRing(): seq<nat> {
    seq(31, i requires 0 <= i < 31 => i + 1)
  }

  function ExampleIndex(): seq<nat> {
    seq(32, b requires 0 <= b < 32 => if b == 0 then FREE else ExampleLoc(b) / 8)
  }

  function ExampleBits(): seq<bool> {
    seq(0x8000_0000, k => k < 5)
  }

  /** The blocks of group k. */
  function ExampleClass(k: nat): seq<nat> {
    if k == 0 then [1] else seq(if k == 4 then 6 else 8, i => 8 * k - 6 + i)
  }

  function ExampleClasses(): Classes {
    map k: nat | k < 5 :: ExampleClass(k)
  }

  lemma ExampleGeo(sectors: nat, loc: nat)
    requires ExampleSize(sectors) && loc < 64
    ensures ExampleGeometry(sectors).group == 8 && GeoOk(ExampleGeometry(sectors))
      && OnDisk(ExampleGeometry(sectors), 0, loc)
    ensures Key(ExampleGeometry(sectors), 0, loc) == loc / 8 && 64 * loc + 64 <= sectors
  {
    var g := ExampleGeometry(sectors);
    assert g.disks[0] == DiskInfo(sectors, 64, true) && |g.disks| == 1;
  }

  lemma ExampleUsed()
    ensures forall b: nat :: Used(ExampleTable(), b) <==> 0 < b < 32
    ensures forall b: nat | 0 < b < 32 ::
      ExampleTable()[b].disk == Some(0)
      && ExampleTable()[b].loc == ExampleLoc(b) < 64
  {
  }

  lemma ExampleKey(sectors: nat, b: nat)
    requires ExampleSize(sectors) && 0 < b < 32
    ensures ExampleGeometry(sectors).group == 8 && Used(ExampleTable(), b)
      && KeyAt(ExampleGeometry(sectors), ExampleTable(), b) == ExampleLoc(b) / 8
    ensures OnDisk(ExampleGeometry(sectors), 0, ExampleLoc(b))
  {
    ExampleUsed();
    hide GeoOk, OnDisk, Key, ExampleGeometry;
    ExampleGeo(sectors, ExampleLoc(b));
  }

  lemma ExampleKeys(sectors: nat)
    requires ExampleSize(sectors)
    ensures ExampleGeometry(sectors).group == 8
    ensures forall b: nat | 0 < b < 32 ::
      Used(ExampleTable(), b)
      && KeyAt(ExampleGeometry(sectors), ExampleTable(), b) == ExampleLoc(b) / 8
    ensures forall b: nat | 0 < b < 32 :: OnDisk(ExampleGeometry(sectors), 0, ExampleLoc(b))
  {
    hide GeoOk, OnDisk, Key, ExampleGeometry, ExampleTable, ExampleLoc;
    ExampleKey(sectors, 1);
    forall b: nat | 0 < b < 32
      ensures Used(ExampleTable(), b) && KeyAt(ExampleGeometry(sectors), ExampleTable(), b) == ExampleLoc(b) / 8
      ensures OnDisk(ExampleGeometry(sectors), 0, ExampleLoc(b))
    {
      ExampleKey(sectors, b);
    }
  }

  lemma ExampleLinks()
    ensures forall b: nat | 0 < b < 32 ::
      ExampleTable()[b].prev == (if b == 1 then 31 else b - 1)
        && ExampleTable()[b].next == (if b == 31 then 1 else b + 1)
    ensures forall b: nat | 0 < b < 32 :: ExampleTable()[b].snext == ExampleSnext(b)
  {
  }

  lemma ExampleLists()
    ensures FreeOk(ExampleTable(), 0, []) && RingOk(ExampleTable(), 1, ExampleRing())
      && Parted(ExampleTable(), [], ExampleRing())
  {
    ExampleRingLinked();
    ExampleUsed();
    ExampleRingIs();
    hide ExampleTable, ExampleBlock, ExampleSnext, ExampleLoc, ExampleRing, RingOk;
  }

  lemma ExampleRingLinked()
    ensures RingOk(ExampleTable(), 1, ExampleRing())
  {
    ExampleLinks();
    ExampleRingIs();
    hide ExampleTable, ExampleBlock, ExampleSnext, ExampleLoc, ExampleRing;
  }

  lemma ExampleRingIs()
    ensures |ExampleRing()| == 31 && forall i | 0 <= i < 31 :: ExampleRing()[i] == i + 1
    ensures forall b: nat | 0 < b < 32 :: b in ExampleRing()
  {
    forall b: nat | 0 < b < 32
      ensures b in ExampleRing()
    {
      assert ExampleRing()[b - 1] == b;
    }
  }

  lemma ExampleTags(sectors: nat)
    requires ExampleSize(sectors)
    ensures ExampleGeometry(sectors).group == 8 && Placed(ExampleGeometry(sectors), ExampleTable())
    ensures Indexed(ExampleGeometry(sectors), ExampleTable(), ExampleIndex())
      && Flagged(ExampleGeometry(sectors), ExampleTable(), ExampleBits())
  {
    ExampleUsed();
    ExampleKeys(sectors);
    hide GeoOk, OnDisk, Key, ExampleGeometry, ExampleTable;
  }

  lemma ExampleRingOf(k: nat)
    requires k < 5
    ensures ClassRing(ExampleTable(), ExampleClass(k))
    ensures forall b: nat :: b in ExampleClass(k) <==> 0 < b < 32 && ExampleLoc(b) / 8 == k
  {
    var t, c := ExampleTable(), ExampleClass(k);
    ExampleLinks();
    hide ExampleTable, ExampleBlock;
    forall b: nat | 0 < b < 32 && ExampleLoc(b) / 8 == k
      ensures b in c
    {
      assert c[if k == 0 then 0 else b - (8 * k - 6)] == b;
    }
  }

  lemma ExampleGroups(sectors: nat)
    requires ExampleSize(sectors)
    ensures ExampleGeometry(sectors).group == 8
      && Classed(ExampleGeometry(sectors), ExampleTable(), ExampleClasses(), None)
  {
    ExampleUsed();
    ExampleKeys(sectors);
    hide GeoOk, OnDisk, Key, ExampleGeometry, ExampleTable, ClassRing, ExampleClass;
    forall k | k in ExampleClasses()
      ensures ClassRing(ExampleTable(), ExampleClasses()[k])
      ensures forall b: nat :: b in ExampleClasses()[k] <==> 0 < b < 32 && ExampleLoc(b) / 8 == k
    {
      ExampleRingOf(k);
    }
  }

  lemma ExampleCandidate()
    ensures |ExampleIndex()| == 32 && Candidate(ExampleIndex(), 0, 1) == 1
  {
    var x := ExampleIndex();
    assert x[0] != 0 && x[1] == 0 && forall b :: 2 <= b < 32 ==> x[b] != 0;
    LastAtIs(x, 0, 0, 1);
    LastAtIs(x, 0, 1, 32);
    hide LastAt, ExampleIndex;
  }

  /** Reading the second 32 KB of that disk gives up the held block: the tables are consistent before, and the exact
      condition is met. */
  lemma HeldBlockExample(sectors: nat)
    requires ExampleSize(sectors)
    ensures var geo, t := ExampleGeometry(sectors), ExampleTable();
            && geo.group > 0 && GeoOk(geo) && FreeOk(t, 0, []) && RingOk(t, 1, ExampleRing())
              && Parted(t, [], ExampleRing())
            && Placed(geo, t) && Indexed(geo, t, ExampleIndex()) && Flagged(geo, t, ExampleBits())
            && Classed(geo, t, ExampleClasses(), None)
            && OnDisk(geo, 0, 1) && |ExampleIndex()| == 32
                 && GivesUpFound(geo, t, ExampleIndex(), ExampleRing(), 1, 0, 0, 1)
  {
    ExampleLists();
    ExampleTags(sectors);
    ExampleGroups(sectors);
    ExampleGeo(sectors, 1);
    ExampleCandidate();
    ExampleVictim();
    hide *;
    GivesUpNow(ExampleGeometry(sectors), ExampleTable(), ExampleIndex(), ExampleRing(), 1, 0, 1);
  }

  lemma ExampleVictim()
    ensures |ExampleRing()| == 31 && Victim(ExampleTable(), ExampleRing()) == 1
      && forall b: nat :: !At(ExampleTable(), b, 0, 1)
  {
    ExampleUsed();
  }

  /** A write the cache does not serve, with a service flag in the handle, is missed if it changes a sector of a cached
      block. */
  lemma FlaggedMisses(geo: Geometry, n: nat, t: Table, v: Disks, d: nat, pos: nat, buf: seq<Sector>, b: nat, k: nat)
    requires GeoOk(geo) && FitsDisks(geo, v) && Placed(geo, t) && Inbounds(geo, d, pos, |buf|)
      && !Served(geo, n, d, pos, |buf|)
    requires Used(t, b) && t[b].disk == Some(d) && OnDisk(geo, d, t[b].loc) && k < BlockLen(geo, d, t[b].loc)
    requires pos <= Off(geo, d, t[b].loc) + k < pos + |buf| && |v| == |geo.disks| && |v[d]| == geo.disks[d].sectors
    requires buf[Off(geo, d, t[b].loc) + k - pos] != v[d][Off(geo, d, t[b].loc) + k]
    ensures MissesWrite(geo, n, t, v, d, pos, buf, true, false) && MissesWrite(geo, n, t, v, d, pos, buf, false, true)
  {
    assert buf[..|buf|] == buf;
    PutAt(v, d, pos, buf, d, Off(geo, d, t[b].loc) + k);
    hide GeoOk, Placed, OnDisk, Off, BlockLen, Put, Served;
    var w := Put(v, d, pos, buf);
    assert Stretch(geo, w, d, t[b].loc)[k] != Stretch(geo, v, d, t[b].loc)[k];
  }

  /**
   * So is a direct write of more than half of a cache of 1 MB to the start of that disk, if the start is cached and
   * the write changes its first sector.
   */
  lemma DirectWriteExample(sectors: nat, t: Table, b: nat, v: Disks, buf: seq<Sector>)
    requires ExampleSize(sectors) && |v| == 1 && |v[0]| == sectors && 1088 <= |buf| <= sectors && buf[0] != v[0][0]
    requires Placed(ExampleGeometry(sectors), t) && At(t, b, 0, 0)
    ensures GeoOk(ExampleGeometry(sectors)) && FitsDisks(ExampleGeometry(sectors), v)
    ensures MissesWrite(ExampleGeometry(sectors), 32, t, v, 0, 0, buf, true, false)
  {
    ExampleFacts(sectors, v, |buf|);
    hide GeoOk, FitsDisks, Placed, OnDisk, Off, BlockLen, Served, Inbounds, ExampleGeometry, MissesWrite;
    FlaggedMisses(ExampleGeometry(sectors), 32, t, v, 0, 0, buf, b, 0);
  }

  lemma ExampleFacts(sectors: nat, v: Disks, n: nat)
    requires ExampleSize(sectors) && |v| == 1 && |v[0]| == sectors && 1088 <= n <= sectors
    ensures GeoOk(ExampleGeometry(sectors)) && FitsDisks(ExampleGeometry(sectors), v)
      && |ExampleGeometry(sectors).disks| == 1
    ensures OnDisk(ExampleGeometry(sectors), 0, 0) && BlockLen(ExampleGeometry(sectors), 0, 0) > 0
      && Off(ExampleGeometry(sectors), 0, 0) == 0
    ensures Inbounds(ExampleGeometry(sectors), 0, 0, n) && !Served(ExampleGeometry(sectors), 32, 0, 0, n)
    ensures ExampleGeometry(sectors).disks[0].sectors == sectors
  {
    ExampleGeo(sectors, 0);
    hide GeoOk;
    assert ExampleGeometry(sectors).disks[0] == DiskInfo(sectors, 64, true);
  }
}
