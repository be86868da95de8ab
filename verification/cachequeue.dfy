/** The sector cache as a queue of locations, and what one access does to it. */
module CacheQueue {
  import opened Machine
  import opened CacheLists
  import opened CacheState

  /** A cached location. The queue begins with the one that is given up next. */
  datatype Entry = Entry(disk: nat, loc: nat, prio: bool)

  predicate Is(e: Entry, d: nat, loc: nat) {
    e.disk == d && e.loc == loc
  }

  ghost predicate Has(q: seq<Entry>, d: nat, loc: nat) {
    exists i :: 0 <= i < |q| && Is(q[i], d, loc)
  }

  /** The place of a location, or the length of the queue. */
  function Position(q: seq<Entry>, d: nat, loc: nat): (i: nat)
    ensures i <= |q| && (i < |q| ==> Is(q[i], d, loc))
    ensures forall j :: 0 <= j < i ==> !Is(q[j], d, loc)
  {
    if q == [] || Is(q[0], d, loc) then 0 else 1 + Position(q[1..], d, loc)
  }

  function Faded(e: Entry): Entry {
    e.(prio := false)
  }

  function Prios(q: seq<Entry>): nat {
    if q == [] then 0 else (if q[0].prio then 1 else 0) + Prios(q[1..])
  }

  lemma {:induction false} PriosAppend(q: seq<Entry>, e: Entry)
    ensures Prios(q + [e]) == Prios(q) + if e.prio then 1 else 0
  {
    if q != [] {
      PriosAppend(q[1..], e);
      assert (q + [e])[1..] == q[1..] + [e];
    }
  }

  /** What remains once a location was given up: those with priority get a second round without it. */
  function Spared(q: seq<Entry>): (r: seq<Entry>)
    decreases Prios(q)
  {
    if q == [] then []
    else if q[0].prio then
      PriosAppend(q[1..], Faded(q[0]));
      Spared(q[1..] + [Faded(q[0])])
    else q[1..]
  }

  /** The queue after an access; room says that a block is free, takes that the location is to be cached. */
  function Touched(q: seq<Entry>, room: bool, takes: bool, d: nat, loc: nat, prio: bool): (r: seq<Entry>) {
    var i := Position(q, d, loc);
    if i < |q| then q[..i] + q[i + 1..] + [q[i].(prio := q[i].prio || prio)]
    else if !takes then q
    else (if room then q else Spared(q)) + [Entry(d, loc, prio)]
  }

  // ----- what is given up -----

  /** The first location without priority, or the first one if all have it. */
  ghost predicate GivenUp(q: seq<Entry>, k: nat) {
    && k < |q|
    && ((forall i :: 0 <= i < |q| ==> q[i].prio) ==> k == 0)
    && (!(forall i :: 0 <= i < |q| ==> q[i].prio) ==> !q[k].prio && forall i :: 0 <= i < k ==> q[i].prio)
  }

  function AllFaded(q: seq<Entry>): (r: seq<Entry>)
    ensures |r| == |q| && forall i :: 0 <= i < |q| ==> r[i] == Faded(q[i])
  {
    seq(|q|, i requires 0 <= i < |q| => Faded(q[i]))
  }

  /** Locations with priority go to the end one after the other. */
  lemma {:induction false} SparedTurn(q: seq<Entry>, k: nat)
    requires k <= |q| && forall i :: 0 <= i < k ==> q[i].prio
    ensures Spared(q) == Spared(q[k..] + AllFaded(q[..k]))
  {
    if k == 0 {
      assert q[0..] + AllFaded(q[..0]) == q;
    } else {
      SparedTurn(q, k - 1);
      var e := q[k - 1..] + AllFaded(q[..k - 1]);
      PriosAppend(e[1..], Faded(e[0]));
      assert e[0] == q[k - 1];
      assert e[1..] + [Faded(e[0])] == q[k..] + AllFaded(q[..k]);
    }
  }

  /** Exactly one location is given up; those before it go behind the others and have lost their priority. */
  lemma SparedIs(q: seq<Entry>, k: nat)
    requires GivenUp(q, k)
    ensures Spared(q) == if q[k].prio then AllFaded(q[1..]) else q[k + 1..] + AllFaded(q[..k])
  {
    if q[k].prio {
      SparedTurn(q, |q|);
      assert q[|q|..] + AllFaded(q[..|q|]) == AllFaded(q);
      assert AllFaded(q)[1..] == AllFaded(q[1..]);
    } else {
      SparedTurn(q, k);
      var e := q[k..] + AllFaded(q[..k]);
      assert e[0] == q[k] && e[1..] == q[k + 1..] + AllFaded(q[..k]);
    }
  }

  lemma {:induction false} FindGivenUp(q: seq<Entry>) returns (k: nat)
    requires q != []
    ensures GivenUp(q, k)
  {
    k := 0;
    while k < |q| && q[k].prio
      invariant k <= |q| && forall i :: 0 <= i < k ==> q[i].prio
    {
      k := k + 1;
    }
    if k == |q| { k := 0; }
  }

  // ----- what an access means for the cached locations -----

  ghost predicate NoneTwice(q: seq<Entry>) {
    forall i, j :: 0 <= i < j < |q| ==> !Is(q[i], q[j].disk, q[j].loc)
  }

  lemma PositionHas(q: seq<Entry>, d: nat, loc: nat)
    ensures Position(q, d, loc) < |q| <==> Has(q, d, loc)
  {
  }

  /** The location of an access is cached and the last to be given up afterwards, if it was cached or is to be. */
  lemma TouchedLast(q: seq<Entry>, room: bool, takes: bool, d: nat, loc: nat, prio: bool)
    requires takes || Has(q, d, loc)
    ensures var r := Touched(q, room, takes, d, loc, prio);
            && r != [] && Is(r[|r| - 1], d, loc) && (prio ==> r[|r| - 1].prio) && Has(r, d, loc)
  {
    PositionHas(q, d, loc);
    var r := Touched(q, room, takes, d, loc, prio);
    assert Is(r[|r| - 1], d, loc);
  }

  /** Other locations stay cached unless a new one needs the room; then exactly one is given up. */
  lemma TouchedOthers(q: seq<Entry>, room: bool, takes: bool, d: nat, loc: nat, prio: bool, e: nat, l: nat)
    requires NoneTwice(q) && !(e == d && l == loc)
    ensures var r := Touched(q, room, takes, d, loc, prio);
            && (room || !takes || Has(q, d, loc) || q == [] ==> (Has(r, e, l) <==> Has(q, e, l)))
            && (forall k: nat :: !room && takes && !Has(q, d, loc) && GivenUp(q, k) ==>
                  (Has(r, e, l) <==> Has(q, e, l) && !Is(q[k], e, l)))
  {
    PositionHas(q, d, loc);
    var r := Touched(q, room, takes, d, loc, prio);
    var i := Position(q, d, loc);
    if i < |q| {
      MovedHas(q, i, q[i].(prio := q[i].prio || prio), e, l);
    } else if takes {
      forall k: nat | !room && GivenUp(q, k)
        ensures Has(r, e, l) <==> Has(q, e, l) && !Is(q[k], e, l)
      {
        SparedHas(q, k, e, l);
        AddedHas(Spared(q), Entry(d, loc, prio), e, l);
      }
      AddedHas(q, Entry(d, loc, prio), e, l);
    }
  }

  lemma AddedHas(q: seq<Entry>, x: Entry, e: nat, l: nat)
    requires !Is(x, e, l)
    ensures Has(q + [x], e, l) <==> Has(q, e, l)
  {
    var r := q + [x];
    if Has(q, e, l) {
      var j :| 0 <= j < |q| && Is(q[j], e, l);
      assert r[j] == q[j];
    }
  }

  lemma MovedHas(q: seq<Entry>, i: nat, x: Entry, e: nat, l: nat)
    requires i < |q| && Is(x, q[i].disk, q[i].loc) && !Is(x, e, l)
    ensures Has(q[..i] + q[i + 1..] + [x], e, l) <==> Has(q, e, l)
  {
    var r := q[..i] + q[i + 1..] + [x];
    if Has(q, e, l) {
      var j :| 0 <= j < |q| && Is(q[j], e, l);
      assert r[if j < i then j else j - 1] == q[j];
    }
    if Has(r, e, l) {
      var j :| 0 <= j < |r| && Is(r[j], e, l);
      assert r[j] == q[if j < i then j else j + 1];
    }
  }

  lemma SparedHas(q: seq<Entry>, k: nat, e: nat, l: nat)
    requires NoneTwice(q) && GivenUp(q, k)
    ensures Has(Spared(q), e, l) <==> Has(q, e, l) && !Is(q[k], e, l)
  {
    SparedIs(q, k);
    var r := Spared(q);
    hide Spared;
    if Has(q, e, l) && !Is(q[k], e, l) {
      var j :| 0 <= j < |q| && Is(q[j], e, l);
      var m := if j > k then j - k - 1 else |q| - k - 1 + j;
      assert Is(r[m], e, l);
    }
    if Has(r, e, l) {
      var m :| 0 <= m < |r| && Is(r[m], e, l);
      var j := if m < |q| - k - 1 then m + k + 1 else m - (|q| - k - 1);
      assert Is(q[j], e, l) && j != k;
    }
  }

  lemma SparedNoneTwice(q: seq<Entry>)
    requires NoneTwice(q)
    ensures NoneTwice(Spared(q)) && forall e, l :: Has(Spared(q), e, l) ==> Has(q, e, l)
  {
    if q != [] {
      var k := FindGivenUp(q);
      SparedIs(q, k);
      var r := Spared(q);
      hide Spared;
      forall a | 0 <= a < |r|
        ensures var x := if a < |q| - k - 1 then a + k + 1 else a - (|q| - k - 1);
                r[a].disk == q[x].disk && r[a].loc == q[x].loc
      {
      }
      forall e, l
        ensures Has(r, e, l) ==> Has(q, e, l)
      {
        SparedHas(q, k, e, l);
      }
    }
  }

  lemma AddedNoneTwice(q: seq<Entry>, e: Entry)
    requires NoneTwice(q) && !Has(q, e.disk, e.loc)
    ensures NoneTwice(q + [e])
  {
  }

  lemma TouchedNoneTwice(q: seq<Entry>, room: bool, takes: bool, d: nat, loc: nat, prio: bool)
    requires NoneTwice(q)
    ensures NoneTwice(Touched(q, room, takes, d, loc, prio))
  {
    PositionHas(q, d, loc);
    var r := Touched(q, room, takes, d, loc, prio);
    var i := Position(q, d, loc);
    if i < |q| {
      forall a, b | 0 <= a < b < |r|
        ensures !Is(r[a], r[b].disk, r[b].loc)
      {
        assert r[a] == q[if a < i then a else a + 1];
      }
    } else if takes {
      SparedNoneTwice(q);
      hide Spared;
      AddedNoneTwice(if room then q else Spared(q), Entry(d, loc, prio));
    }
  }

  // ----- a request of several locations -----

  /** The queue and the number of free blocks. */
  datatype Caching = Caching(q: seq<Entry>, room: nat)

  function Accessed(c: Caching, takes: bool, d: nat, loc: nat, prio: bool): Caching {
    Caching(Touched(c.q, c.room > 0, takes, d, loc, prio),
            if takes && Position(c.q, d, loc) == |c.q| && c.room > 0 then c.room - 1 else c.room)
  }

  predicate HasPriority(geo: Geometry, prios: seq<bool>, d: nat, loc: nat)
    requires geo.group > 0
  {
    Key(geo, d, loc) < |prios| && prios[Key(geo, d, loc)]
  }

  /**
   * n sectors from pos on, location by location. A read caches every location it meets, a write only those it covers
   * as a whole, and a direct write (2) none.
   */
  function Requested(geo: Geometry, prios: seq<bool>, c: Caching, d: nat, pos: nat, n: nat, write: nat): Caching
    requires geo.group > 0 && d < |geo.disks| && geo.disks[d].s32 > 0
    decreases n
  {
    if n == 0 then c
    else
      var s := geo.disks[d].s32;
      var loc, m := pos / s, if n < s - pos % s then n else s - pos % s;
      var takes := write == 0 || (write == 1 && m == s);
      Requested(geo, prios, Accessed(c, takes, d, loc, HasPriority(geo, prios, d, loc)), d, pos + m, n - m, write)
  }

  lemma AccessedRoom(c: Caching, d: nat, loc: nat, prio: bool, e: nat, l: nat)
    requires c.room > 0 && NoneTwice(c.q)
    ensures var r := Accessed(c, true, d, loc, prio);
            && NoneTwice(r.q) && r.room >= c.room - 1
            && (Has(r.q, e, l) <==> Has(c.q, e, l) || (e == d && l == loc))
  {
    TouchedNoneTwice(c.q, true, true, d, loc, prio);
    TouchedLast(c.q, true, true, d, loc, prio);
    if !(e == d && l == loc) { TouchedOthers(c.q, true, true, d, loc, prio, e, l); }
  }

  /** While free blocks are left, a read leaves its own locations cached beside all that were cached before. */
  lemma {:induction false} ReadCaches(geo: Geometry, prios: seq<bool>, c: Caching, d: nat, pos: nat, n: nat, e: nat,
      l: nat)
    requires geo.group > 0 && d < |geo.disks| && geo.disks[d].s32 > 0 && NoneTwice(c.q) && n > 0
    requires (pos + n - 1) / geo.disks[d].s32 - pos / geo.disks[d].s32 < c.room
    ensures var r := Requested(geo, prios, c, d, pos, n, 0).q;
            var s := geo.disks[d].s32;
            Has(r, e, l) <==> Has(c.q, e, l) || (e == d && pos / s <= l <= (pos + n - 1) / s)
    decreases n
  {
    var s := geo.disks[d].s32;
    var loc, m := pos / s, if n < s - pos % s then n else s - pos % s;
    var prio := HasPriority(geo, prios, d, loc);
    var c1 := Accessed(c, true, d, loc, prio);
    Pieces(pos, n, s);
    ReadFirst(geo, prios, c, d, pos, n);
    hide *;
    AccessedRoom(c, d, loc, prio, e, l);
    if n > m {
      ReadCaches(geo, prios, c1, d, pos + m, n - m, e, l);
    }
  }

  /** The first access of a read, and the rest. */
  lemma ReadFirst(geo: Geometry, prios: seq<bool>, c: Caching, d: nat, pos: nat, n: nat)
    requires geo.group > 0 && d < |geo.disks| && geo.disks[d].s32 > 0 && n > 0
    ensures var s := geo.disks[d].s32;
            var m, c1 := if n < s - pos % s then n else s - pos % s,
              Accessed(c, true, d, pos / s, HasPriority(geo, prios, d, pos / s));
            0 < m && Requested(geo, prios, c, d, pos, n, 0)
                     == if n > m then Requested(geo, prios, c1, d, pos + m, n - m, 0) else c1
  {
    hide Accessed, HasPriority;
  }

  /** The first location of a stretch and the rest of it. */
  lemma Pieces(pos: nat, n: nat, s: nat)
    requires s > 0 && n > 0
    ensures pos / s <= (pos + n - 1) / s
    ensures n <= s - pos % s ==> (pos + n - 1) / s == pos / s
    ensures n > s - pos % s ==> (pos + (s - pos % s)) / s == pos / s + 1
  {
    var q, r := pos / s, pos % s;
    assert pos == q * s + r;
    Divided(pos + n - 1, s);
    if n <= s - r {
      Between(pos + n - 1, s, q);
    } else {
      Between(pos + (s - r), s, q + 1);
    }
  }

  lemma Divided(a: nat, s: nat)
    requires s > 0
    ensures a / s * s <= a < (a / s + 1) * s
  {
    assert a == a / s * s + a % s;
  }

  lemma Between(a: nat, s: nat, q: nat)
    requires s > 0 && q * s <= a < (q + 1) * s
    ensures a / s == q
  {
    Divided(a, s);
  }

  // ----- invalidation -----

  /** Locations lo .. hi of a disk, or all of them, leave the queue. */
  function Purged(q: seq<Entry>, d: nat, all: bool, lo: nat, hi: nat): (r: seq<Entry>)
    ensures |r| <= |q|
  {
    if q == [] then []
    else (if q[0].disk == d && (all || lo <= q[0].loc <= hi) then [] else [q[0]]) + Purged(q[1..], d, all, lo, hi)
  }

  /** Exactly those locations are no longer cached. */
  lemma {:induction false} PurgedHas(q: seq<Entry>, d: nat, all: bool, lo: nat, hi: nat, e: nat, l: nat)
    ensures Has(Purged(q, d, all, lo, hi), e, l) <==> Has(q, e, l) && !(e == d && (all || lo <= l <= hi))
  {
    if q != [] {
      PurgedHas(q[1..], d, all, lo, hi, e, l);
      HeadHas(q, e, l);
      var r := Purged(q[1..], d, all, lo, hi);
      HeadHas([q[0]] + r, e, l);
      assert ([q[0]] + r)[1..] == r && [] + r == r;
    }
  }

  lemma HeadHas(q: seq<Entry>, e: nat, l: nat)
    requires q != []
    ensures Has(q, e, l) <==> Is(q[0], e, l) || Has(q[1..], e, l)
  {
    if Has(q, e, l) {
      var i :| 0 <= i < |q| && Is(q[i], e, l);
      if i > 0 { assert Is(q[1..][i - 1], e, l); }
    }
    if Has(q[1..], e, l) {
      var i :| 0 <= i < |q[1..]| && Is(q[1..][i], e, l);
      assert Is(q[i + 1], e, l);
    }
  }

  /** A sequence without some of its elements. */
  ghost function Minus(s: seq<nat>, gone: set<nat>): seq<nat> {
    if s == [] then [] else (if s[0] in gone then [] else [s[0]]) + Minus(s[1..], gone)
  }

  lemma {:induction false} MinusNone(s: seq<nat>, gone: set<nat>)
    requires forall i :: 0 <= i < |s| ==> s[i] !in gone
    ensures Minus(s, gone) == s
  {
    if s != [] { MinusNone(s[1..], gone); }
  }

  lemma {:induction false} MinusTwice(s: seq<nat>, g: set<nat>, h: set<nat>)
    ensures Minus(Minus(s, g), h) == Minus(s, g + h)
  {
    if s != [] {
      MinusTwice(s[1..], g, h);
      var m := Minus(s[1..], g);
      assert ([s[0]] + m)[1..] == m && [] + m == m;
      assert [] + Minus(s[1..], g + h) == Minus(s[1..], g + h);
    }
  }

  lemma {:induction false} WithoutIsMinus(s: seq<nat>, i: nat)
    requires Distinct(s) && i < |s|
    ensures Without(s, i) == Minus(s, {s[i]})
  {
    if i == 0 {
      MinusNone(s[1..], {s[0]});
    } else {
      WithoutIsMinus(s[1..], i - 1);
      assert Without(s, i) == [s[0]] + Without(s[1..], i - 1);
    }
  }

  // ----- the queue behind the tables -----

  function EntryOf(t: Table, b: nat): Entry {
    if b < |t| && t[b].disk.Some? then Entry(t[b].disk.value, t[b].loc, t[b].prio) else Entry(0, 0, false)
  }

  function QueueOf(t: Table, ring: seq<nat>): (q: seq<Entry>)
    ensures |q| == |ring| && forall i :: 0 <= i < |ring| ==> q[i] == EntryOf(t, ring[i])
  {
    seq(|ring|, i requires 0 <= i < |ring| => EntryOf(t, ring[i]))
  }

  lemma QueueAt(t: Table, ring: seq<nat>, i: nat)
    requires i < |ring|
    ensures QueueOf(t, ring)[i] == EntryOf(t, ring[i])
  {
  }

  lemma QueueSame(t: Table, u: Table, ring: seq<nat>)
    requires forall i :: 0 <= i < |ring| ==> EntryOf(t, ring[i]) == EntryOf(u, ring[i])
    ensures QueueOf(t, ring) == QueueOf(u, ring)
  {
  }

  lemma QueueAppend(t: Table, ring: seq<nat>, b: nat)
    ensures QueueOf(t, ring + [b]) == QueueOf(t, ring) + [EntryOf(t, b)]
  {
  }

  lemma QueueWithout(t: Table, ring: seq<nat>, i: nat)
    requires i < |ring|
    ensures QueueOf(t, Without(ring, i)) == QueueOf(t, ring)[..i] + QueueOf(t, ring)[i + 1..]
  {
  }

  /** No location is cached twice. */
  lemma QueueNoneTwice(geo: Geometry, t: Table, free: seq<nat>, ring: seq<nat>)
    requires Placed(geo, t) && Parted(t, free, ring) && Distinct(ring) && Inside(ring, |t|)
    ensures NoneTwice(QueueOf(t, ring))
  {
    hide OnDisk;
    forall i, j | 0 <= i < j < |ring|
      ensures !Is(QueueOf(t, ring)[i], QueueOf(t, ring)[j].disk, QueueOf(t, ring)[j].loc)
    {
      assert ring[i] in ring && ring[j] in ring;
    }
  }

  lemma QueueFinds(geo: Geometry, t: Table, free: seq<nat>, ring: seq<nat>, i: nat, d: nat, loc: nat)
    requires Placed(geo, t) && Parted(t, free, ring) && Distinct(ring) && Inside(ring, |t|)
    requires i < |ring| && At(t, ring[i], d, loc)
    ensures Position(QueueOf(t, ring), d, loc) == i
  {
    QueueNoneTwice(geo, t, free, ring);
    var q := QueueOf(t, ring);
    assert Is(q[i], d, loc);
  }

  lemma QueueMisses(t: Table, free: seq<nat>, ring: seq<nat>, d: nat, loc: nat)
    requires Parted(t, free, ring) && Inside(ring, |t|) && forall b: nat :: !At(t, b, d, loc)
    ensures Position(QueueOf(t, ring), d, loc) == |ring|
  {
    forall i | 0 <= i < |ring|
      ensures !Is(QueueOf(t, ring)[i], d, loc)
    {
      assert ring[i] in ring && !At(t, ring[i], d, loc);
    }
  }

  /** The cached locations of the queue are those of the tables. */
  lemma QueueHas(t: Table, free: seq<nat>, ring: seq<nat>, d: nat, loc: nat)
    requires Parted(t, free, ring) && Inside(ring, |t|)
    ensures Has(QueueOf(t, ring), d, loc) <==> exists b: nat :: At(t, b, d, loc)
  {
    var q := QueueOf(t, ring);
    if Has(q, d, loc) {
      var i :| 0 <= i < |q| && Is(q[i], d, loc);
      assert ring[i] in ring;
      assert At(t, ring[i], d, loc);
    }
    if exists b: nat :: At(t, b, d, loc) {
      var b: nat :| At(t, b, d, loc);
      assert Used(t, b) && b in ring;
      var i :| 0 <= i < |ring| && ring[i] == b;
      assert Is(q[i], d, loc);
    }
  }

  lemma QueueTurned(t: Table, ring: seq<nat>)
    requires ring != [] && Distinct(ring) && ring[0] < |t|
    ensures var q, u := QueueOf(t, ring), t[ring[0] := t[ring[0]].(prio := false)];
            QueueOf(u, Turned(ring, 1)) == q[1..] + [Faded(q[0])]
  {
    var q, u, r := QueueOf(t, ring), t[ring[0] := t[ring[0]].(prio := false)], Turned(ring, 1);
    forall i | 0 <= i < |r|
      ensures QueueOf(u, r)[i] == (q[1..] + [Faded(q[0])])[i]
    {
      if i < |r| - 1 { assert ring[i + 1] != ring[0]; }
    }
  }

  lemma {:induction false} QueuePurged(t: Table, u: Table, ring: seq<nat>, gone: set<nat>, d: nat, all: bool, lo: nat,
      hi: nat)
    requires forall i :: 0 <= i < |ring| ==>
      Used(t, ring[i]) && (ring[i] in gone <==> t[ring[i]].disk == Some(d) && (all || lo <= t[ring[i]].loc <= hi))
    requires forall i :: 0 <= i < |ring| && ring[i] !in gone ==> EntryOf(u, ring[i]) == EntryOf(t, ring[i])
    ensures QueueOf(u, Minus(ring, gone)) == Purged(QueueOf(t, ring), d, all, lo, hi)
  {
    if ring != [] {
      QueuePurged(t, u, ring[1..], gone, d, all, lo, hi);
      assert Used(t, ring[0]);
      assert QueueOf(t, ring)[0] == EntryOf(t, ring[0]) && QueueOf(t, ring)[1..] == QueueOf(t, ring[1..]);
      var m := Minus(ring[1..], gone);
      assert QueueOf(u, [ring[0]] + m) == [EntryOf(u, ring[0])] + QueueOf(u, m);
    }
  }
}
