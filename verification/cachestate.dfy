/** What the tables of the sector cache say together. */
module CacheState {
  import opened Machine
  import opened CacheLists

  /** A cached disk: its size and the number of its sectors in a 32 KB block. */
  datatype DiskInfo = DiskInfo(sectors: nat, s32: nat, enabled: bool)

  /** The disks, the 32 KB blocks of one bitmap group, and the groups reserved for a disk in the packed key. */
  datatype Geometry = Geometry(disks: seq<DiskInfo>, group: nat, span: nat)

  const FREE: nat := 0xFFFF_FFFF

  ghost predicate GeoOk(geo: Geometry) {
    && geo.group > 0 && geo.span > 0 && |geo.disks| * geo.span <= FREE
    && forall d | 0 <= d < |geo.disks| :: geo.disks[d].s32 >= 8 && 0 < geo.disks[d].sectors <= 3 * FREE
                                       && (geo.disks[d].sectors - 1) / geo.disks[d].s32 / geo.group < geo.span
  }

  function Pack(d: nat, g: nat, span: nat): nat {
    d * span + g
  }

  /** The bitmap group of a location. */
  function Group(geo: Geometry, loc: nat): nat
    requires geo.group > 0
  {
    loc / geo.group
  }

  /** Disk number and group packed into one word. */
  function Key(geo: Geometry, d: nat, loc: nat): nat
    requires geo.group > 0
  {
    Pack(d, Group(geo, loc), geo.span)
  }

  ghost predicate OnDisk(geo: Geometry, d: nat, loc: nat) {
    d < |geo.disks| && loc * geo.disks[d].s32 < geo.disks[d].sectors
  }

  lemma MulMono(p: nat, q: nat, g: nat)
    requires p <= q
    ensures p * g <= q * g
  {
  }

  lemma Quotient(a: nat, g: nat)
    requires g > 0
    ensures a / g * g <= a < (a / g + 1) * g
  {
    assert a == a / g * g + a % g;
  }

  lemma DivMono(a: nat, b: nat, g: nat)
    requires a <= b && g > 0
    ensures a / g <= b / g
  {
    Quotient(a, g);
    Quotient(b, g);
    if a / g > b / g { MulMono(b / g + 1, a / g, g); }
  }

  lemma MulDiv(loc: nat, s: nat, n: nat)
    requires s > 0 && loc * s < n
    ensures loc <= (n - 1) / s
  {
    Quotient(n - 1, s);
    if loc > (n - 1) / s { MulMono((n - 1) / s + 1, loc, s); }
  }

  lemma KeyBelow(d: nat, n: nat, span: nat, g: nat)
    requires d < n && g < span
    ensures Pack(d, g, span) < n * span
  {
    assert (d + 1) * span <= n * span;
  }

  /** Packed keys are below the mark for free blocks. */
  lemma KeyFits(geo: Geometry, d: nat, loc: nat)
    requires GeoOk(geo) && OnDisk(geo, d, loc)
    ensures Group(geo, loc) < geo.span && Key(geo, d, loc) < |geo.disks| * geo.span <= FREE
  {
    MulDiv(loc, geo.disks[d].s32, geo.disks[d].sectors);
    DivMono(loc, (geo.disks[d].sectors - 1) / geo.disks[d].s32, geo.group);
    KeyBelow(d, |geo.disks|, geo.span, Group(geo, loc));
  }

  /** Different disks or groups have different keys. */
  lemma KeyInjective(geo: Geometry, d: nat, loc: nat, e: nat, other: nat)
    requires GeoOk(geo) && OnDisk(geo, d, loc) && OnDisk(geo, e, other)
    ensures Key(geo, d, loc) == Key(geo, e, other) <==> d == e && Group(geo, loc) == Group(geo, other)
  {
    KeyFits(geo, d, loc);
    KeyFits(geo, e, other);
    hide GeoOk, OnDisk, Pack, Group;
    Unpack(d, Group(geo, loc), e, Group(geo, other), geo.span);
  }

  lemma Unpack(d: nat, g: nat, e: nat, h: nat, span: nat)
    requires g < span && h < span
    ensures Pack(d, g, span) == Pack(e, h, span) <==> d == e && g == h
  {
    if d < e { assert (d + 1) * span <= e * span; }
    if e < d { assert (e + 1) * span <= d * span; }
  }

  // ----- tags -----

  ghost predicate Used(t: Table, b: nat) {
    b < |t| && t[b].disk.Some?
  }

  ghost predicate At(t: Table, b: nat, d: nat, loc: nat) {
    b < |t| && t[b].disk == Some(d) && t[b].loc == loc
  }

  ghost function KeyAt(geo: Geometry, t: Table, b: nat): nat
    requires geo.group > 0 && Used(t, b)
  {
    Key(geo, t[b].disk.value, t[b].loc)
  }

  ghost predicate Placed(geo: Geometry, t: Table) {
    && (forall b: nat | Used(t, b) :: OnDisk(geo, t[b].disk.value, t[b].loc))
    && (forall b: nat, c: nat | Used(t, b) && Used(t, c) && t[b].disk == t[c].disk && t[b].loc == t[c].loc :: b == c)
  }

  ghost predicate Indexed(geo: Geometry, t: Table, x: seq<nat>)
    requires geo.group > 0
  {
    |x| == |t| && forall b: nat | b < |t| :: x[b] == if Used(t, b) then KeyAt(geo, t, b) else 0xFFFF_FFFF
  }

  /** Every group with a cached block has its bit set; a set bit alone says nothing. */
  ghost predicate Flagged(geo: Geometry, t: Table, bits: seq<bool>)
    requires geo.group > 0
  {
    forall b: nat | Used(t, b) :: KeyAt(geo, t, b) < |bits| && bits[KeyAt(geo, t, b)]
  }

  /** Blocks 1 and up are either in the free list or in the recency ring. */
  ghost predicate Parted(t: Table, free: seq<nat>, ring: seq<nat>) {
    && t != [] && !Used(t, 0)
    && (forall b: nat | 0 < b < |t| :: b in ring <==> Used(t, b))
    && (forall b: nat | 0 < b < |t| :: b in free <==> !Used(t, b))
  }

  type Classes = map<nat, seq<nat>>

  ghost predicate Counts(t: Table, b: nat, skip: Option<nat>) {
    Used(t, b) && t[b].disk != skip
  }

  /** The snext rings are the classes of blocks with equal key, for all disks but one. */
  ghost predicate Classed(geo: Geometry, t: Table, cls: Classes, skip: Option<nat>)
    requires geo.group > 0
  {
    && (forall k | k in cls :: ClassRing(t, cls[k]) && forall b | b in cls[k] ::
         Counts(t, b, skip)
         && KeyAt(geo, t, b) == k)
    && (forall b: nat | Counts(t, b, skip) :: KeyAt(geo, t, b) in cls && b in cls[KeyAt(geo, t, b)])
  }

  // ----- changes that leave the tags alone -----

  ghost predicate SameTags(t: Table, u: Table) {
    |t| == |u| && forall b | 0 <= b < |t| :: u[b].disk == t[b].disk && u[b].loc == t[b].loc
  }

  ghost predicate SameTagsBut(t: Table, u: Table, x: nat) {
    |t| == |u| && forall b | 0 <= b < |t| && b != x :: u[b].disk == t[b].disk && u[b].loc == t[b].loc
  }

  lemma TagsKept(geo: Geometry, t: Table, u: Table, x: seq<nat>, bits: seq<bool>, free: seq<nat>, ring: seq<nat>)
    requires geo.group > 0 && SameTags(t, u)
    requires Placed(geo, t) && Indexed(geo, t, x) && Flagged(geo, t, bits) && Parted(t, free, ring)
    ensures Placed(geo, u) && Indexed(geo, u, x) && Flagged(geo, u, bits) && Parted(u, free, ring)
  {
    hide Key;
  }

  lemma ClassedKept(geo: Geometry, t: Table, u: Table, cls: Classes, skip: Option<nat>)
    requires geo.group > 0 && SameTags(t, u) && Classed(geo, t, cls, skip)
    requires forall b | 0 <= b < |t| :: u[b].snext == t[b].snext
    ensures Classed(geo, u, cls, skip)
  {
    hide Key, ClassRing;
    forall k | k in cls
      ensures ClassRing(u, cls[k]) && forall b | b in cls[k] :: Counts(u, b, skip) && KeyAt(geo, u, b) == k
    {
      ClassKept(t, cls[k], u);
      forall b | b in cls[k]
        ensures Counts(u, b, skip) && KeyAt(geo, u, b) == k
      {
        assert Counts(t, b, skip) && KeyAt(geo, t, b) == k;
      }
    }
    forall b: nat | Counts(u, b, skip)
      ensures KeyAt(geo, u, b) in cls && b in cls[KeyAt(geo, u, b)]
    {
      assert Counts(t, b, skip);
    }
  }

  lemma ClassKept(t: Table, c: seq<nat>, u: Table)
    requires ClassRing(t, c) && |u| == |t| && forall b | 0 <= b < |t| :: u[b].snext == t[b].snext
    ensures ClassRing(u, c)
  {
    ClassFrame(t, c, u);
  }

  // ----- freeing a block -----

  /** Only links differ. */
  ghost predicate SameLinksOnly(t: Table, u: Table) {
    SameTags(t, u) && forall b | 0 <= b < |t| :: u[b].snext == t[b].snext && u[b].prio == t[b].prio
  }

  lemma RelinkTags(t: Table, b: nat)
    requires b < |t| && t[b].prev < |t| && t[b].next < |t|
    ensures SameLinksOnly(t, Relink(t, b))
  {
  }

  /** Block b goes to the head of the free list and loses its disk. */
  function Pushed(t: Table, b: nat, head: nat): (u: Table)
    requires b < |t|
    ensures |u| == |t|
  {
    t[b := t[b].(next := head, disk := None)]
  }

  /** The block leaves ring and class on the way to the free list. */
  lemma FreedLists(t: Table, head: nat, free: seq<nat>, ring: seq<nat>, i: nat, r: Table, h: nat, l: Table, u: Table)
    requires FreeOk(t, head, free) && Parted(t, free, ring) && i < |ring| && Distinct(ring)
    requires Inside(ring, |t|) && ring[i] < |t| && t[ring[i]].prev in ring && t[ring[i]].next in ring
    requires t[ring[i]].prev < |t| && t[ring[i]].next < |t| && r == Relink(t, ring[i])
    requires RingOk(r, h, Without(ring, i))
    requires |l| == |r| && forall b | 0 <= b < |r| ::
      l[b].next == r[b].next && l[b].prev == r[b].prev
      && l[b].disk == r[b].disk
    requires u == Pushed(l, ring[i], head)
    ensures FreeOk(u, ring[i], [ring[i]] + free) && RingOk(u, h, Without(ring, i))
    ensures Parted(u, [ring[i]] + free, Without(ring, i))
  {
    var b := ring[i];
    assert b in ring && Used(t, b);
    forall k | 0 <= k < |free|
      ensures free[k] < |t| && free[k] != b && u[free[k]].next == t[free[k]].next
    {
      FreeNotRing(t, head, free, ring, k);
      RelinkAt(t, b, free[k]);
    }
    FreePush(t, head, free, b, u);
    WithoutSame(ring, i);
    forall k | 0 <= k < |Without(ring, i)|
      ensures Without(ring, i)[k] != b
    {
      assert Without(ring, i)[k] in Without(ring, i);
    }
    RingFrame(r, h, Without(ring, i), u);
    PartedFreed(t, free, ring, i, r, l, u);
  }

  lemma FreeNotRing(t: Table, head: nat, free: seq<nat>, ring: seq<nat>, k: nat)
    requires FreeOk(t, head, free) && Parted(t, free, ring) && k < |free|
    ensures free[k] < |t| && free[k] !in ring
  {
    assert free[k] in free;
  }

  lemma PartedFreed(t: Table, free: seq<nat>, ring: seq<nat>, i: nat, r: Table, l: Table, u: Table)
    requires Parted(t, free, ring) && i < |ring| && Distinct(ring) && 0 < ring[i] < |t|
    requires t[ring[i]].prev < |t| && t[ring[i]].next < |t| && r == Relink(t, ring[i])
    requires |l| == |r| && forall b | 0 <= b < |r| :: l[b].disk == r[b].disk
    requires |u| == |l| && u[ring[i]].disk == None && forall b | 0 <= b < |l| && b != ring[i] :: u[b] == l[b]
    ensures Parted(u, [ring[i]] + free, Without(ring, i))
  {
    RelinkTags(t, ring[i]);
    WithoutSame(ring, i);
    var f := [ring[i]] + free;
    forall b: nat | b < |t|
      ensures Used(u, b) <==> Used(t, b) && b != ring[i]
      ensures b in f <==> b in free || b == ring[i]
    {
    }
  }

  /** The last block of a group takes the bit with it. */
  lemma FlagCleared(geo: Geometry, u: Table, bits: seq<bool>, key: nat)
    requires geo.group > 0 && Flagged(geo, u, bits) && key < |bits|
    requires forall c: nat | Used(u, c) :: KeyAt(geo, u, c) != key
    ensures Flagged(geo, u, bits[key := false])
  {
    hide KeyAt;
  }

  /** The block was the only one of its class. */
  lemma FreedSingle(geo: Geometry, t: Table, u: Table, cls: Classes, b: nat, key: nat)
    requires geo.group > 0 && Classed(geo, t, cls, None) && Used(t, b) && KeyAt(geo, t, b) == key
    requires key in cls && cls[key] == [b]
    requires SameTagsBut(t, u, b) && u[b].disk == None && forall c | 0 <= c < |t| && c != b :: u[c].snext == t[c].snext
    ensures Classed(geo, u, cls - {key}, None)
    ensures forall c: nat | Used(u, c) :: KeyAt(geo, u, c) != key
  {
    hide Key, ClassRing;
    forall c: nat | Used(u, c)
      ensures Counts(t, c, None) && KeyAt(geo, u, c) == KeyAt(geo, t, c) && KeyAt(geo, u, c) != key
    {
      assert Counts(t, c, None);
    }
    forall k | k in cls && k != key
      ensures ClassRing(u, cls[k]) && forall c | c in cls[k] :: Counts(u, c, None) && KeyAt(geo, u, c) == k
    {
      NotInOther(geo, t, cls, None, b, key, k);
      ClassBut(t, cls[k], u, b);
    }
  }

  lemma NotInOther(geo: Geometry, t: Table, cls: Classes, skip: Option<nat>, b: nat, key: nat, k: nat)
    requires geo.group > 0 && Classed(geo, t, cls, skip) && Used(t, b) && KeyAt(geo, t, b) == key && k in cls
      && k != key
    ensures b !in cls[k]
  {
  }

  lemma ClassBut(t: Table, c: seq<nat>, u: Table, b: nat)
    requires ClassRing(t, c) && b !in c && |u| == |t| && forall x | 0 <= x < |t| && x != b :: u[x].snext == t[x].snext
    ensures ClassRing(u, c)
  {
    forall i | 0 <= i < |c|
      ensures u[c[i]].snext == t[c[i]].snext
    {
      assert c[i] in c;
    }
    ClassFrame(t, c, u);
  }

  /** The block leaves a class of several; c is the class read from this block on. */
  lemma FreedShared(geo: Geometry, t: Table, u: Table, cls: Classes, c: seq<nat>, key: nat)
    requires geo.group > 0 && Classed(geo, t, cls, None) && ClassRing(t, c) && |c| > 1
    requires key in cls && (forall x :: x in cls[key] <==> x in c)
    requires c[0] < |t| && c[|c| - 1] < |t| && SameTagsBut(t, u, c[0]) && u[c[0]].disk == None
    requires forall x | 0 <= x < |t| && x != c[0] :: u[x].snext == LeaveClass(t, c[0], c[|c| - 1])[x].snext
    ensures Classed(geo, u, cls[key := c[1..]], None)
  {
    var b := c[0];
    assert b in cls[key];
    ClassLeave(t, c);
    ClassBut(LeaveClass(t, c[0], c[|c| - 1]), c[1..], u, b);
    hide Key, ClassRing;
    FreedSharedRings(geo, t, u, cls, c, key);
    forall x: nat | Counts(u, x, None)
      ensures KeyAt(geo, u, x) in cls[key := c[1..]] && x in cls[key := c[1..]][KeyAt(geo, u, x)]
    {
      assert Counts(t, x, None) && x != b;
    }
    forall x | x in c[1..]
      ensures Counts(u, x, None) && KeyAt(geo, u, x) == key
    {
      assert x in cls[key] && Counts(t, x, None) && KeyAt(geo, t, x) == key;
    }
  }

  lemma FreedSharedRings(geo: Geometry, t: Table, u: Table, cls: Classes, c: seq<nat>, key: nat)
    requires geo.group > 0 && Classed(geo, t, cls, None) && c != []
    requires key in cls && (forall x :: x in cls[key] <==> x in c)
    requires c[0] < |t| && c[|c| - 1] < |t| && SameTagsBut(t, u, c[0]) && u[c[0]].disk == None
    requires forall x | 0 <= x < |t| && x != c[0] :: u[x].snext == LeaveClass(t, c[0], c[|c| - 1])[x].snext
    ensures forall k | k in cls && k != key :: ClassRing(u, cls[k]) && forall x | x in cls[k] ::
      Counts(u, x, None)
      && KeyAt(geo, u, x) == k
  {
    hide Key, ClassRing;
    forall k | k in cls && k != key
      ensures ClassRing(u, cls[k]) && forall x | x in cls[k] :: Counts(u, x, None) && KeyAt(geo, u, x) == k
    {
      ClassesApart(geo, t, cls, None, key, k, c);
      ClassInside(t, cls[k]);
      forall i | 0 <= i < |cls[k]|
        ensures u[cls[k][i]].snext == t[cls[k][i]].snext
      {
        assert cls[k][i] in cls[k];
      }
      ClassFrame(t, cls[k], u);
      forall x | x in cls[k]
        ensures Counts(u, x, None) && KeyAt(geo, u, x) == k
      {
        assert Counts(t, x, None) && KeyAt(geo, t, x) == k && x != c[0];
      }
    }
  }

  lemma ClassInside(t: Table, c: seq<nat>)
    requires ClassRing(t, c)
    ensures c != [] && forall i | 0 <= i < |c| :: 0 < c[i] < |t|
  {
  }

  lemma ClassesApart(geo: Geometry, t: Table, cls: Classes, skip: Option<nat>, key: nat, k: nat, c: seq<nat>)
    requires geo.group > 0 && Classed(geo, t, cls, skip) && key in cls && k in cls && k != key && c != []
    requires forall x :: x in cls[key] <==> x in c
    ensures c[0] !in cls[k] && c[|c| - 1] !in cls[k]
  {
    assert c[0] in c && c[|c| - 1] in c;
    assert c[0] in cls[key] && c[|c| - 1] in cls[key];
  }

  /** Without looking at classes: all blocks of the skipped disk are on their way out. */
  lemma FreedSkipped(geo: Geometry, t: Table, u: Table, cls: Classes, b: nat, d: nat)
    requires geo.group > 0 && Classed(geo, t, cls, Some(d)) && b < |t| && t[b].disk == Some(d)
    requires SameTagsBut(t, u, b) && u[b].disk == None && forall c | 0 <= c < |t| && c != b :: u[c].snext == t[c].snext
    ensures Classed(geo, u, cls, Some(d))
  {
    hide Key, ClassRing;
    forall k | k in cls
      ensures ClassRing(u, cls[k]) && forall x | x in cls[k] :: Counts(u, x, Some(d)) && KeyAt(geo, u, x) == k
    {
      assert b !in cls[k];
      ClassBut(t, cls[k], u, b);
      forall x | x in cls[k]
        ensures Counts(u, x, Some(d)) && KeyAt(geo, u, x) == k
      {
        assert Counts(t, x, Some(d)) && KeyAt(geo, t, x) == k;
      }
    }
    forall x: nat | Counts(u, x, Some(d))
      ensures KeyAt(geo, u, x) in cls && x in cls[KeyAt(geo, u, x)]
    {
      assert Counts(t, x, Some(d));
    }
  }

  /** The classes of all disks but one. */
  ghost function Others(geo: Geometry, t: Table, cls: Classes, d: nat): Classes
    requires geo.group > 0
  {
    map k | k in cls && cls[k] != [] && Counts(t, cls[k][0], Some(d)) :: cls[k]
  }

  lemma SkipDisk(geo: Geometry, t: Table, cls: Classes, d: nat)
    requires geo.group > 0 && GeoOk(geo) && Placed(geo, t) && Classed(geo, t, cls, None)
    ensures Classed(geo, t, Others(geo, t, cls, d), Some(d))
  {
    hide ClassRing, GeoOk, OnDisk, Key, Group;
    forall k, x | k in cls && x in cls[k]
      ensures cls[k] != [] && cls[k][0] in cls[k] && t[x].disk == t[cls[k][0]].disk
    {
      var y := cls[k][0];
      assert y in cls[k];
      assert Counts(t, x, None) && Counts(t, y, None) && KeyAt(geo, t, x) == k && KeyAt(geo, t, y) == k;
      KeyInjective(geo, t[x].disk.value, t[x].loc, t[y].disk.value, t[y].loc);
    }
    forall x: nat | Counts(t, x, Some(d))
      ensures KeyAt(geo, t, x) in Others(geo, t, cls, d)
    {
      assert Counts(t, x, None);
    }
  }

  lemma SkipNone(geo: Geometry, t: Table, cls: Classes, d: nat)
    requires geo.group > 0 && Classed(geo, t, cls, Some(d)) && forall b: nat | Used(t, b) :: t[b].disk != Some(d)
    ensures Classed(geo, t, cls, None)
  {
    hide ClassRing, Key;
    forall x: nat | Counts(t, x, None)
      ensures Counts(t, x, Some(d))
    {
    }
  }

  // ----- adding a block -----

  /** Block b now holds location loc of disk d. */
  ghost predicate Tagged(t: Table, u: Table, b: nat, d: nat, loc: nat) {
    b < |t| == |u| && SameTagsBut(t, u, b) && u[b].disk == Some(d) && u[b].loc == loc
  }

  lemma AddedLists(t: Table, fh: nat, free: seq<nat>, head: nat, ring: seq<nat>, v: Table, u: Table)
    requires FreeOk(t, fh, free) && RingOk(t, head, ring) && Parted(t, free, ring) && free != []
    requires fh < |t| && head < |t| && (head != 0 ==> t[head].prev < |t|) && v == LinkLast(t, head, fh)
    requires |u| == |v| && u[fh].disk.Some? && SameTagsBut(t, u, fh)
    requires forall b | 0 <= b < |v| :: u[b].next == v[b].next && u[b].prev == v[b].prev
    ensures FreeOk(u, t[fh].next, free[1..]) && RingOk(u, if head == 0 then fh else head, ring + [fh])
    ensures Parted(u, free[1..], ring + [fh])
  {
    var b := fh;
    assert b == free[0] && b in free;
    AddedOthers(t, fh, free, head, ring, v, u);
    FreePop(t, fh, free, u);
    RingAppend(t, head, ring, b);
    RingFrame(v, if head == 0 then b else head, ring + [b], u);
    PartedAdded(t, free, ring, b, u);
  }

  lemma AddedOthers(t: Table, fh: nat, free: seq<nat>, head: nat, ring: seq<nat>, v: Table, u: Table)
    requires FreeOk(t, fh, free) && RingOk(t, head, ring) && Parted(t, free, ring) && free != []
    requires fh < |t| && head < |t| && (head != 0 ==> t[head].prev < |t|) && v == LinkLast(t, head, fh)
    requires |u| == |v| && forall b | 0 <= b < |v| :: u[b].next == v[b].next
    ensures fh !in ring && forall i | 1 <= i < |free| :: u[free[i]].next == t[free[i]].next
  {
    FreeNotRing(t, fh, free, ring, 0);
    forall i | 1 <= i < |free|
      ensures u[free[i]].next == t[free[i]].next
    {
      FreeNotRing(t, fh, free, ring, i);
      DistinctAt(free, 0, i);
      if ring != [] { RingFacts(t, head, ring); }
      assert head != 0 ==> head in ring && t[head].prev in ring;
      LinkLastAt(t, head, fh, free[i]);
    }
  }

  lemma PartedAdded(t: Table, free: seq<nat>, ring: seq<nat>, b: nat, u: Table)
    requires Parted(t, free, ring) && free != [] && free[0] == b && 0 < b < |t| == |u| && b !in ring && Distinct(free)
    requires SameTagsBut(t, u, b) && u[b].disk.Some?
    ensures Parted(u, free[1..], ring + [b])
  {
    var f := free[1..];
    assert free == [b] + f;
    forall x: nat | x < |t|
      ensures Used(u, x) <==> Used(t, x) || x == b
      ensures x in f <==> x in free && x != b
    {
      if x in f {
        var i :| 0 <= i < |f| && f[i] == x;
        DistinctAt(free, 0, i + 1);
      }
    }
  }

  /** The first block of its group. */
  lemma AddedSingle(geo: Geometry, t: Table, u: Table, cls: Classes, b: nat, d: nat, loc: nat)
    requires geo.group > 0 && Classed(geo, t, cls, None) && Tagged(t, u, b, d, loc) && !Used(t, b) && 0 < b
    requires u[b].snext == 0 && forall c | 0 <= c < |t| && c != b :: u[c].snext == t[c].snext
    requires forall c: nat | Used(t, c) :: KeyAt(geo, t, c) != Key(geo, d, loc)
    ensures Classed(geo, u, cls[Key(geo, d, loc) := [b]], None)
  {
    hide Key;
    var key := Key(geo, d, loc);
    forall k | k in cls
      ensures k != key && ClassRing(u, cls[k]) && forall x | x in cls[k] :: Counts(u, x, None) && KeyAt(geo, u, x) == k
    {
      ClassKeys(geo, t, cls, k);
      ClassBut(t, cls[k], u, b);
    }
    forall x: nat | Counts(u, x, None) && x != b
      ensures Counts(t, x, None)
    {
    }
  }

  lemma ClassKeys(geo: Geometry, t: Table, cls: Classes, k: nat)
    requires geo.group > 0 && Classed(geo, t, cls, None) && k in cls
    ensures ClassRing(t, cls[k]) && cls[k] != [] && cls[k][0] in cls[k] && Used(t, cls[k][0])
      && KeyAt(geo, t, cls[k][0]) == k
    ensures forall x | x in cls[k] :: Used(t, x) && KeyAt(geo, t, x) == k
  {
    hide Key;
    assert cls[k][0] in cls[k];
    assert Counts(t, cls[k][0], None);
    forall x | x in cls[k]
      ensures Used(t, x) && KeyAt(geo, t, x) == k
    {
      assert Counts(t, x, None);
    }
  }

  /** One more block for a group with cached blocks; c is the class read from the block found by the search on. */
  lemma AddedShared(geo: Geometry, t: Table, u: Table, cls: Classes, c: seq<nat>, b: nat, d: nat, loc: nat)
    requires geo.group > 0 && Classed(geo, t, cls, None) && Tagged(t, u, b, d, loc) && !Used(t, b) && 0 < b
    requires Key(geo, d, loc) in cls && ClassRing(t, c) && (forall x :: x in cls[Key(geo, d, loc)] <==> x in c)
    requires c[0] < |t| && c[|c| - 1] < |t| && forall x | 0 <= x < |t| ::
      u[x].snext == JoinClass(t, c[0], c[|c| - 1], b)[x].snext
    ensures Classed(geo, u, cls[Key(geo, d, loc) := c + [b]], None)
  {
    ClassInside(t, c);
    hide Key, ClassRing, JoinClass, Tagged;
    SharedNew(geo, t, u, cls, c, b, d, loc);
    AddedSharedRings(geo, t, u, cls, c, b, d, loc);
    SharedMembers(geo, t, u, cls, c, b, d, loc);
  }

  lemma SharedNew(geo: Geometry, t: Table, u: Table, cls: Classes, c: seq<nat>, b: nat, d: nat, loc: nat)
    requires geo.group > 0 && Classed(geo, t, cls, None) && Tagged(t, u, b, d, loc) && !Used(t, b) && 0 < b
    requires Key(geo, d, loc) in cls && ClassRing(t, c) && (forall x :: x in cls[Key(geo, d, loc)] <==> x in c)
    requires c[0] < |t| && c[|c| - 1] < |t| && forall x | 0 <= x < |t| ::
      u[x].snext == JoinClass(t, c[0], c[|c| - 1], b)[x].snext
    ensures ClassRing(u, c + [b])
    ensures forall x | x in c + [b] :: Counts(u, x, None) && KeyAt(geo, u, x) == Key(geo, d, loc)
  {
    var key := Key(geo, d, loc);
    hide Key;
    ClassKeys(geo, t, cls, key);
    assert b !in c;
    ClassAdd(t, c, b);
    ClassSnext(JoinClass(t, c[0], c[|c| - 1], b), c + [b], u);
    hide ClassRing, JoinClass, Classed;
    forall x | x in c + [b]
      ensures Counts(u, x, None) && KeyAt(geo, u, x) == key
    {
      if x != b { assert x in cls[key] && Used(t, x) && KeyAt(geo, t, x) == key; }
    }
  }

  lemma SharedMembers(geo: Geometry, t: Table, u: Table, cls: Classes, c: seq<nat>, b: nat, d: nat, loc: nat)
    requires geo.group > 0 && Classed(geo, t, cls, None) && Tagged(t, u, b, d, loc)
    requires Key(geo, d, loc) in cls && (forall x :: x in cls[Key(geo, d, loc)] <==> x in c)
    ensures forall x: nat | Counts(u, x, None) ::
      KeyAt(geo, u, x) in cls[Key(geo, d, loc) := c + [b]] && x in cls[Key(geo, d, loc) := c + [b]][KeyAt(geo, u, x)]
  {
    hide Key, ClassRing;
    forall x: nat | Counts(u, x, None)
      ensures x == b || Counts(t, x, None)
    {
    }
  }

  lemma AddedSharedRings(geo: Geometry, t: Table, u: Table, cls: Classes, c: seq<nat>, b: nat, d: nat, loc: nat)
    requires geo.group > 0 && Classed(geo, t, cls, None) && Tagged(t, u, b, d, loc) && !Used(t, b) && c != []
    requires Key(geo, d, loc) in cls && (forall x :: x in cls[Key(geo, d, loc)] <==> x in c)
    requires c[0] < |t| && c[|c| - 1] < |t| && forall x | 0 <= x < |t| ::
      u[x].snext == JoinClass(t, c[0], c[|c| - 1], b)[x].snext
    ensures forall k | k in cls && k != Key(geo, d, loc) ::
      ClassRing(u, cls[k]) && forall x | x in cls[k] :: Counts(u, x, None) && KeyAt(geo, u, x) == k
  {
    hide Key, ClassRing, JoinClass;
    forall k | k in cls && k != Key(geo, d, loc)
      ensures ClassRing(u, cls[k]) && forall x | x in cls[k] :: Counts(u, x, None) && KeyAt(geo, u, x) == k
    {
      ClassKeys(geo, t, cls, k);
      ClassesApart(geo, t, cls, None, Key(geo, d, loc), k, c);
      JoinFrame(t, cls[k], c[0], c[|c| - 1], b, u);
    }
  }

  lemma ClassSnext(t: Table, c: seq<nat>, u: Table)
    requires ClassRing(t, c) && |u| == |t| && forall x | 0 <= x < |t| :: u[x].snext == t[x].snext
    ensures ClassRing(u, c)
  {
    ClassFrame(t, c, u);
  }

  lemma JoinFrame(t: Table, c: seq<nat>, first: nat, last: nat, b: nat, u: Table)
    requires ClassRing(t, c) && first < |t| && last < |t| && b < |t| == |u| && last !in c && b !in c
    requires forall x | 0 <= x < |t| :: u[x].snext == JoinClass(t, first, last, b)[x].snext
    ensures ClassRing(u, c)
  {
    forall i | 0 <= i < |c|
      ensures u[c[i]].snext == t[c[i]].snext
    {
      assert c[i] in c;
    }
    ClassFrame(t, c, u);
  }
}
