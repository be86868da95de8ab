/** The linked lists of the sector cache: free list, recency ring, rings of blocks in one group. */
module CacheLists {
  import opened Machine

  /** One cache block: list links, priority flag, and the location on a disk it holds. */
  datatype Info = Info(prev: nat, next: nat, snext: nat, prio: bool, loc: nat, disk: Option<nat>)

  type Table = seq<Info>

  ghost predicate Distinct(s: seq<nat>) {
    forall i, j | 0 <= i < j < |s| :: s[i] != s[j]
  }

  /** Element after position i, the first one after the last. */
  function Succ(s: seq<nat>, i: nat): nat
    requires i < |s|
  {
    if i + 1 < |s| then s[i + 1] else s[0]
  }

  /** All are blocks; block 0 is never used. */
  ghost predicate Inside(s: seq<nat>, n: nat) {
    forall i | 0 <= i < |s| :: 0 < s[i] < n
  }

  function Head(s: seq<nat>): nat {
    if s == [] then 0 else s[0]
  }

  ghost predicate FreeLink(t: Table, free: seq<nat>, i: nat)
    requires i < |free|
  {
    free[i] < |t| && t[free[i]].next == if i + 1 < |free| then free[i + 1] else 0
  }

  ghost predicate FreeOk(t: Table, head: nat, free: seq<nat>) {
    && Inside(free, |t|) && Distinct(free) && head == Head(free)
    && forall i | 0 <= i < |free| :: FreeLink(t, free, i)
  }

  ghost predicate RingOk(t: Table, head: nat, ring: seq<nat>) {
    && Inside(ring, |t|) && Distinct(ring) && head == Head(ring)
    && forall i | 0 <= i < |ring| :: t[ring[i]].next == Succ(ring, i) && t[Succ(ring, i)].prev == ring[i]
  }

  /** A ring of blocks linked by snext; a single block has no link. */
  ghost predicate ClassRing(t: Table, c: seq<nat>) {
    && c != [] && Inside(c, |t|) && Distinct(c)
    && forall i | 0 <= i < |c| :: t[c[i]].snext == if |c| == 1 then 0 else Succ(c, i)
  }

  function Without(s: seq<nat>, i: nat): (r: seq<nat>)
    requires i < |s|
    ensures |r| == |s| - 1
  {
    s[..i] + s[i + 1..]
  }

  /** The same cycle begun at position i. */
  function Turned(s: seq<nat>, i: nat): (r: seq<nat>)
    requires i <= |s|
    ensures |r| == |s|
  {
    s[i..] + s[..i]
  }

  // ----- sequences -----

  lemma TurnedAt(s: seq<nat>, i: nat, k: nat)
    requires i < |s| && k < |s|
    ensures Turned(s, i)[k] == s[if i + k < |s| then i + k else i + k - |s|]
    ensures Succ(Turned(s, i), k) == Succ(s, if i + k < |s| then i + k else i + k - |s|)
  {
  }

  lemma TurnedSame(s: seq<nat>, i: nat)
    requires i < |s| && Distinct(s)
    ensures Distinct(Turned(s, i)) && forall x :: x in Turned(s, i) <==> x in s
  {
    forall x | x in s
      ensures x in Turned(s, i)
    {
      var k :| 0 <= k < |s| && s[k] == x;
      var t := Turned(s, i);
      assert k >= i ==> t[k - i] == x;
      assert k < i ==> t[k + |s| - i] == x;
    }
  }

  lemma WithoutSame(s: seq<nat>, i: nat)
    requires i < |s| && Distinct(s)
    ensures Distinct(Without(s, i)) && forall x :: x in Without(s, i) <==> x in s && x != s[i]
  {
    var r := Without(s, i);
    forall x | x in s && x != s[i]
      ensures x in r
    {
      var k :| 0 <= k < |s| && s[k] == x;
      assert r[if k < i then k else k - 1] == x;
    }
  }

  lemma AppendSame(s: seq<nat>, b: nat)
    requires Distinct(s) && b !in s
    ensures Distinct(s + [b]) && forall x :: x in s + [b] <==> x in s || x == b
  {
  }

  // ----- free list -----

  lemma FreePush(t: Table, head: nat, free: seq<nat>, b: nat, u: Table)
    requires FreeOk(t, head, free) && 0 < b < |t| == |u| && b !in free && u[b].next == head
    requires forall i | 0 <= i < |free| :: u[free[i]].next == t[free[i]].next
    ensures FreeOk(u, b, [b] + free)
  {
    var r := [b] + free;
    forall i | 0 <= i < |r|
      ensures FreeLink(u, r, i)
    {
      if i > 0 { assert FreeLink(t, free, i - 1); }
    }
  }

  lemma FreePop(t: Table, head: nat, free: seq<nat>, u: Table)
    requires FreeOk(t, head, free) && free != [] && |u| == |t|
    requires forall i | 1 <= i < |free| :: u[free[i]].next == t[free[i]].next
    ensures head < |t| && FreeOk(u, t[head].next, free[1..])
  {
    var f := free[1..];
    assert FreeLink(t, free, 0);
    forall i | 0 <= i < |f|
      ensures FreeLink(u, f, i)
    {
      assert FreeLink(t, free, i + 1);
    }
  }

  lemma FreeFrame(t: Table, head: nat, free: seq<nat>, u: Table)
    requires FreeOk(t, head, free) && |u| == |t| && forall i | 0 <= i < |free| :: u[free[i]].next == t[free[i]].next
    ensures FreeOk(u, head, free)
  {
    forall i | 0 <= i < |free|
      ensures FreeLink(u, free, i)
    {
      assert FreeLink(t, free, i);
    }
  }

  // ----- recency ring -----

  lemma RingFrame(t: Table, head: nat, ring: seq<nat>, u: Table)
    requires RingOk(t, head, ring) && |u| == |t|
    requires forall i | 0 <= i < |ring| :: u[ring[i]].next == t[ring[i]].next && u[ring[i]].prev == t[ring[i]].prev
    ensures RingOk(u, head, ring)
  {
    forall i | 0 <= i < |ring|
      ensures u[ring[i]].next == Succ(ring, i) && u[Succ(ring, i)].prev == ring[i]
    {
      var j := if i + 1 < |ring| then i + 1 else 0;
      assert ring[j] == Succ(ring, i);
    }
  }

  /** Turning the head to the next block keeps the ring. */
  lemma RingTurn(t: Table, head: nat, ring: seq<nat>)
    requires RingOk(t, head, ring) && ring != []
    ensures RingOk(t, t[head].next, Turned(ring, 1))
  {
    TurnedSame2(ring);
    forall i | 0 <= i < |ring|
      ensures t[Turned(ring, 1)[i]].next == Succ(Turned(ring, 1), i)
        && t[Succ(Turned(ring, 1), i)].prev == Turned(ring, 1)[i]
    {
      TurnedAt1(ring, i);
    }
  }

  lemma TurnedSame2(s: seq<nat>)
    requires s != [] && Distinct(s)
    ensures Distinct(Turned(s, 1)) && Turned(s, 1)[0] == Succ(s, 0)
    ensures forall n: nat :: Inside(s, n) ==> Inside(Turned(s, 1), n)
  {
  }

  lemma TurnedAt1(s: seq<nat>, k: nat)
    requires k < |s|
    ensures Turned(s, 1)[k] == Succ(s, k) && Succ(Turned(s, 1), k) == Succ(s, if k + 1 < |s| then k + 1 else 0)
    ensures Turned(s, 1)[k] == s[if k + 1 < |s| then k + 1 else 0]
  {
  }

  /** Position before i. */
  function Before(s: seq<nat>, i: nat): (j: nat)
    requires i < |s|
    ensures j < |s| && Succ(s, j) == s[i]
  {
    if i > 0 then i - 1 else |s| - 1
  }

  lemma RingPrev(t: Table, head: nat, ring: seq<nat>, i: nat)
    requires RingOk(t, head, ring) && i < |ring|
    ensures t[ring[i]].prev == ring[Before(ring, i)] && t[ring[i]].next == Succ(ring, i)
    ensures 0 < t[ring[i]].prev < |t| && 0 < t[ring[i]].next < |t|
  {
    assert Succ(ring, Before(ring, i)) == ring[i];
  }

  /** The table after a block's neighbours were linked to each other. */
  function Relink(t: Table, b: nat): (u: Table)
    requires b < |t| && t[b].prev < |t| && t[b].next < |t|
    ensures |u| == |t|
  {
    var u := t[t[b].prev := t[t[b].prev].(next := t[b].next)];
    u[t[b].next := u[t[b].next].(prev := t[b].prev)]
  }

  lemma RelinkAt(t: Table, b: nat, x: nat)
    requires b < |t| && t[b].prev < |t| && t[b].next < |t| && x < |t|
    ensures Relink(t, b)[x].next == if x == t[b].prev then t[b].next else t[x].next
    ensures Relink(t, b)[x].prev == if x == t[b].next then t[b].prev else t[x].prev
    ensures Relink(t, b)[x] == t[x].(next := Relink(t, b)[x].next, prev := Relink(t, b)[x].prev)
  {
  }

  lemma DistinctAt(s: seq<nat>, i: nat, j: nat)
    requires Distinct(s) && i < |s| && j < |s|
    ensures s[i] == s[j] <==> i == j
  {
  }

  lemma WithoutInside(s: seq<nat>, i: nat, n: nat)
    requires i < |s| && Inside(s, n)
    ensures Inside(Without(s, i), n)
  {
  }

  /** Taking a block out of the ring. */
  lemma RingRemove(t: Table, head: nat, ring: seq<nat>, i: nat)
    requires RingOk(t, head, ring) && i < |ring| && |ring| > 1
    ensures t[ring[i]].prev < |t| && t[ring[i]].next < |t|
    ensures RingOk(Relink(t, ring[i]), if i == 0 then t[ring[i]].next else head, Without(ring, i))
  {
    RingPrev(t, head, ring, i);
    var u := Relink(t, ring[i]);
    var r := Without(ring, i);
    WithoutSame(ring, i);
    WithoutInside(ring, i, |t|);
    forall k | 0 <= k < |r|
      ensures u[r[k]].next == Succ(r, k) && u[Succ(r, k)].prev == r[k]
    {
      RingRemoveAt(t, head, ring, i, k);
    }
    assert r[0] == if i == 0 then Succ(ring, 0) else ring[0];
  }

  /** Position after i. */
  function After(s: seq<nat>, i: nat): (j: nat)
    requires i < |s|
    ensures j < |s| && Succ(s, i) == s[j]
  {
    if i + 1 < |s| then i + 1 else 0
  }

  /** Where element k of the shortened ring and its successor stood. */
  function Was(i: nat, k: nat): nat {
    if k < i then k else k + 1
  }

  lemma WithoutAt(s: seq<nat>, i: nat, k: nat)
    requires i < |s| && k < |s| - 1
    ensures Without(s, i)[k] == s[Was(i, k)]
    ensures Succ(Without(s, i), k) == s[Was(i, After(Without(s, i), k))]
    ensures Was(i, After(Without(s, i), k)) == if After(s, Was(i, k)) == i then After(s, i) else After(s, Was(i, k))
  {
  }

  lemma AfterBefore(s: seq<nat>, i: nat, j: nat)
    requires i < |s| && j < |s|
    ensures After(s, j) == i <==> j == Before(s, i)
  {
  }

  lemma RingRemoveAt(t: Table, head: nat, ring: seq<nat>, i: nat, k: nat)
    requires RingOk(t, head, ring) && i < |ring| && k < |ring| - 1
    requires t[ring[i]].prev == ring[Before(ring, i)] && t[ring[i]].next == Succ(ring, i)
    requires t[ring[i]].prev < |t| && t[ring[i]].next < |t|
    ensures Without(ring, i)[k] < |t| && Succ(Without(ring, i), k) < |t|
    ensures Relink(t, ring[i])[Without(ring, i)[k]].next == Succ(Without(ring, i), k)
    ensures Relink(t, ring[i])[Succ(Without(ring, i), k)].prev == Without(ring, i)[k]
  {
    var j := Was(i, k);
    var j2 := Was(i, After(Without(ring, i), k));
    WithoutAt(ring, i, k);
    RingLink(t, head, ring, j);
    RingLink(t, head, ring, i);
    AfterBefore(ring, i, j);
    AfterBefore(ring, j2, j);
    AfterBefore(ring, j2, i);
    RelinkAt(t, ring[i], ring[j]);
    RelinkAt(t, ring[i], ring[j2]);
    DistinctAt(ring, j, Before(ring, i));
    DistinctAt(ring, j2, After(ring, i));
    hide Without, Relink, RingOk, Was, After, Before;
  }

  lemma RingLink(t: Table, head: nat, ring: seq<nat>, i: nat)
    requires RingOk(t, head, ring) && i < |ring|
    ensures 0 < ring[i] < |t| && t[ring[i]].next == ring[After(ring, i)] && t[ring[After(ring, i)]].prev == ring[i]
    ensures Distinct(ring) && After(ring, i) < |ring| && 0 < ring[After(ring, i)] < |t|
  {
  }

  /** The table after block b was put before the head, as the last one. */
  function LinkLast(t: Table, head: nat, b: nat): (u: Table)
    requires b < |t| && head < |t| && (head != 0 ==> t[head].prev < |t|)
    ensures |u| == |t|
  {
    if head == 0 then t[b := t[b].(next := b, prev := b)]
    else
      var p := t[head].prev;
      var u := t[b := t[b].(next := head, prev := p)];
      var v := u[p := u[p].(next := b)];
      v[head := v[head].(prev := b)]
  }

  lemma LinkLastAt(t: Table, head: nat, b: nat, x: nat)
    requires b < |t| && head < |t| && x < |t| && b != head && (head != 0 ==> t[head].prev < |t| && b != t[head].prev)
    ensures LinkLast(t, head, b)[x].next ==
      if x == b then (if head == 0 then b else head) else if head != 0 && x == t[head].prev then b else t[x].next
    ensures LinkLast(t, head, b)[x].prev ==
      if x == b then (if head == 0 then b else t[head].prev) else if head != 0 && x == head then b else t[x].prev
    ensures LinkLast(t, head, b)[x] == t[x].(next := LinkLast(t, head, b)[x].next, prev := LinkLast(t, head, b)[x].prev)
  {
  }

  lemma RingFacts(t: Table, head: nat, ring: seq<nat>)
    requires RingOk(t, head, ring) && ring != []
    ensures head == ring[0] != 0 && head < |t| && t[head].prev == ring[|ring| - 1] && 0 < ring[|ring| - 1] < |t|
  {
    RingPrev(t, head, ring, 0);
  }

  lemma RingAppend(t: Table, head: nat, ring: seq<nat>, b: nat)
    requires RingOk(t, head, ring) && 0 < b < |t| && b !in ring
    ensures head < |t| && (head != 0 ==> t[head].prev < |t|)
    ensures RingOk(LinkLast(t, head, b), if head == 0 then b else head, ring + [b])
  {
    var r := ring + [b];
    if ring == [] {
    } else {
      RingFacts(t, head, ring);
      var u := LinkLast(t, head, b);
      AppendSame(ring, b);
      forall k | 0 <= k < |r|
        ensures u[r[k]].next == Succ(r, k) && u[Succ(r, k)].prev == r[k]
      {
        RingAppendAt(t, head, ring, b, k);
      }
    }
  }

  lemma RingAppendAt(t: Table, head: nat, ring: seq<nat>, b: nat, k: nat)
    requires RingOk(t, head, ring) && ring != [] && 0 < b < |t| && b !in ring && k <= |ring|
    requires head == ring[0] != 0 && t[head].prev == ring[|ring| - 1] && 0 < ring[|ring| - 1] < |t|
    ensures (ring + [b])[k] < |t| && Succ(ring + [b], k) < |t|
    ensures LinkLast(t, head, b)[(ring + [b])[k]].next == Succ(ring + [b], k)
    ensures LinkLast(t, head, b)[Succ(ring + [b], k)].prev == (ring + [b])[k]
  {
    var m := |ring|;
    var r := ring + [b];
    assert ring[m - 1] in ring && ring[0] in ring;
    LinkLastAt(t, head, b, r[k]);
    if k + 1 < m {
      assert r[k] == ring[k] && Succ(r, k) == ring[k + 1] == Succ(ring, k);
      assert ring[k + 1] in ring && ring[k] in ring;
      LinkLastAt(t, head, b, ring[k + 1]);
      DistinctAt(ring, k, m - 1);
      DistinctAt(ring, k + 1, 0);
      assert t[ring[k]].next == Succ(ring, k) && t[Succ(ring, k)].prev == ring[k];
    } else if k + 1 == m {
      assert r[k] == ring[m - 1] && Succ(r, k) == b;
      LinkLastAt(t, head, b, b);
    } else {
      assert r[k] == b && Succ(r, k) == ring[0];
      LinkLastAt(t, head, b, ring[0]);
    }
  }

  // ----- blocks of one group -----

  lemma ClassFrame(t: Table, c: seq<nat>, u: Table)
    requires ClassRing(t, c) && |u| == |t| && forall i | 0 <= i < |c| :: u[c[i]].snext == t[c[i]].snext
    ensures ClassRing(u, c)
  {
  }

  /** A class can be read from any of its blocks on. */
  lemma ClassTurn(t: Table, c: seq<nat>, j: nat)
    requires ClassRing(t, c) && j < |c|
    ensures ClassRing(t, Turned(c, j)) && Turned(c, j)[0] == c[j] && forall x :: x in Turned(c, j) <==> x in c
  {
    var d := Turned(c, j);
    TurnedSame(c, j);
    forall k | 0 <= k < |d|
      ensures 0 < d[k] < |t| && t[d[k]].snext == if |d| == 1 then 0 else Succ(d, k)
    {
      TurnedAt(c, j, k);
    }
  }

  /** A new block goes between the last block of the class and the first. */
  function JoinClass(t: Table, first: nat, last: nat, b: nat): (u: Table)
    requires first < |t| && last < |t| && b < |t|
    ensures |u| == |t|
  {
    var u := t[b := t[b].(snext := first)];
    u[last := u[last].(snext := b)]
  }

  lemma ClassAdd(t: Table, c: seq<nat>, b: nat)
    requires ClassRing(t, c) && 0 < b < |t| && b !in c
    ensures c[0] < |t| && c[|c| - 1] < |t| && ClassRing(JoinClass(t, c[0], c[|c| - 1], b), c + [b])
  {
    var u := JoinClass(t, c[0], c[|c| - 1], b);
    var d := c + [b];
    AppendSame(c, b);
    assert c[|c| - 1] in c;
    forall k | 0 <= k < |d|
      ensures 0 < d[k] < |t| && u[d[k]].snext == Succ(d, k)
    {
      if k < |c| - 1 { DistinctAt(c, k, |c| - 1); assert c[k] in c; }
    }
  }

  /** The first block leaves a class of several. */
  function LeaveClass(t: Table, first: nat, last: nat): (u: Table)
    requires first < |t| && last < |t|
    ensures |u| == |t|
  {
    t[last := t[last].(snext := if t[first].snext == last then 0 else t[first].snext)]
  }

  lemma ClassLeave(t: Table, c: seq<nat>)
    requires ClassRing(t, c) && |c| > 1
    ensures c[0] < |t| && c[|c| - 1] < |t| && ClassRing(LeaveClass(t, c[0], c[|c| - 1]), c[1..])
    ensures forall x :: x in c[1..] <==> x in c && x != c[0]
  {
    var u := LeaveClass(t, c[0], c[|c| - 1]);
    var d := c[1..];
    assert t[c[0]].snext == c[1];
    DistinctAt(c, 1, |c| - 1);
    forall k | 0 <= k < |d|
      ensures 0 < d[k] < |t| && u[d[k]].snext == if |d| == 1 then 0 else Succ(d, k)
    {
      assert d[k] == c[k + 1];
      DistinctAt(c, k + 1, |c| - 1);
    }
    forall x | x in c && x != c[0]
      ensures x in d
    {
      var k :| 0 <= k < |c| && c[k] == x;
      assert d[k - 1] == x;
    }
  }
}
