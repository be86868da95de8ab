/** From reported memory ranges to the table of physical memory blocks. */
module MemoryMap {
  import opened Machine
  import opened MemoryReport

  datatype Event = Event(addr: u32, start: bool)

  /** A table entry; blocklen holds the last address until the final step makes it a length. */
  datatype Block = Block(startaddr: u32, blocklen: u32)

  // ----- events -----

  ghost function StartOf(r: Range): Event {
    Event(r.start, true)
  }

  ghost function EndOf(r: Range): Event {
    Event(r.end, false)
  }

  ghost predicate Boundary(ma: seq<Range>, e: Event) {
    exists i :: 0 <= i < |ma| && (e == StartOf(ma[i]) || e == EndOf(ma[i]))
  }

  ghost predicate Listed(s: seq<Event>, a: int) {
    exists k :: 0 <= k < |s| && s[k].addr == a
  }

  /** The events are boundaries of the ranges, and every boundary address is among them. */
  ghost predicate EventsOf(ma: seq<Range>, s: seq<Event>) {
    && (forall k | 0 <= k < |s| :: Boundary(ma, s[k]))
    && (forall i | 0 <= i < |ma| :: Listed(s, ma[i].start) && Listed(s, ma[i].end))
  }

  /** The events in the order of the ranges. */
  ghost function Raw(ma: seq<Range>): (s: seq<Event>)
    ensures |s| == 2 * |ma|
    ensures forall i :: 0 <= i < |ma| ==> s[2 * i] == StartOf(ma[i]) && s[2 * i + 1] == EndOf(ma[i])
  {
    if ma == [] then [] else Raw(ma[..|ma| - 1]) + [StartOf(ma[|ma| - 1]), EndOf(ma[|ma| - 1])]
  }

  method CollectEvents(ma: seq<Range>, sa: array<Event>)
    requires 2 * |ma| <= sa.Length
    modifies sa
    ensures sa[..2 * |ma|] == Raw(ma)
  {
    for ii := 0 to |ma|
      invariant forall i :: 0 <= i < ii ==> sa[2 * i] == StartOf(ma[i]) && sa[2 * i + 1] == EndOf(ma[i])
    {
      sa[2 * ii] := Event(ma[ii].start, true);
      sa[2 * ii + 1] := Event(ma[ii].end, false);
    }
    RawIs(ma, sa[..2 * |ma|]);
  }

  lemma RawIs(ma: seq<Range>, s: seq<Event>)
    requires |s| == 2 * |ma|
    requires forall i :: 0 <= i < |ma| ==> s[2 * i] == StartOf(ma[i]) && s[2 * i + 1] == EndOf(ma[i])
    ensures s == Raw(ma)
  {
    hide Raw;
    forall k | 0 <= k < |s|
      ensures s[k] == Raw(ma)[k]
    {
      var i := k / 2;
      assert s[2 * i] == StartOf(ma[i]) && s[2 * i + 1] == EndOf(ma[i]);
    }
  }

  lemma RawEvents(ma: seq<Range>)
    ensures EventsOf(ma, Raw(ma))
  {
    var s := Raw(ma);
    hide Raw;
    forall k | 0 <= k < |s|
      ensures Boundary(ma, s[k])
    {
      var i := k / 2;
      assert s[2 * i] == StartOf(ma[i]) && s[2 * i + 1] == EndOf(ma[i]);
    }
    forall i | 0 <= i < |ma|
      ensures Listed(s, ma[i].start) && Listed(s, ma[i].end)
    {
      assert s[2 * i].addr == ma[i].start && s[2 * i + 1].addr == ma[i].end;
    }
  }

  // ----- sort and elimination of duplicates -----

  ghost predicate Sorted(s: seq<Event>) {
    forall i, j | 0 <= i < j < |s| :: s[i].addr <= s[j].addr
  }

  ghost predicate Increasing(s: seq<Event>) {
    forall i, j | 0 <= i < j < |s| :: s[i].addr < s[j].addr
  }

  ghost function DistinctAfter(d: seq<Event>, e: Event): (r: seq<Event>)
    requires d != []
    ensures d <= r && |r| <= |d| + 1
  {
    if e.addr > d[|d| - 1].addr then d + [e] else d
  }

  /** The first event of every address in a sorted list. */
  ghost function Distinct(s: seq<Event>): (d: seq<Event>)
    ensures s != [] ==> d != []
    ensures |d| <= |s|
  {
    if |s| <= 1 then s
    else DistinctAfter(Distinct(s[..|s| - 1]), s[|s| - 1])
  }

  ghost function Swapped(r: seq<Event>, jj: nat): (q: seq<Event>)
    requires 0 < jj < |r|
    ensures |q| == |r|
  {
    if r[0].addr > r[jj].addr then r[0 := r[jj]][jj := r[0]] else r
  }

  /** The exchange pass: the first event is compared with all others in turn. */
  ghost function Exchanged(r: seq<Event>, jj: nat): (q: seq<Event>)
    requires 0 < jj
    ensures |q| == |r|
    decreases |r| - jj
  {
    if jj >= |r| then r else Exchanged(Swapped(r, jj), jj + 1)
  }

  /** The passes from place ii on. */
  ghost function Selected(s: seq<Event>, ii: nat): (q: seq<Event>)
    ensures |q| == |s|
    decreases |s| - ii
  {
    if ii + 1 >= |s| then s else Selected(s[..ii] + Exchanged(s[ii..], 1), ii + 1)
  }

  /** The borders of the ranges as the sweep sees them: sorted, one event of each address. */
  ghost function Borders(ma: seq<Range>): seq<Event> {
    Distinct(Selected(Raw(ma), 0))
  }

  ghost predicate Lowest(r: seq<Event>, jj: nat) {
    0 < jj <= |r| && forall k :: 0 < k < jj ==> r[0].addr <= r[k].addr
  }

  lemma SwapKeeps(s: seq<Event>, t: seq<Event>, j: nat)
    requires 0 < j < |s| && t == s[0 := s[j]][j := s[0]]
    ensures multiset(t) == multiset(s)
  {
  }

  lemma LowestNext(r: seq<Event>, jj: nat)
    requires Lowest(r, jj) && jj < |r|
    ensures Lowest(Swapped(r, jj), jj + 1) && multiset(Swapped(r, jj)) == multiset(r)
  {
    SwapKeeps(r, r[0 := r[jj]][jj := r[0]], jj);
  }

  lemma {:induction false} ExchangedLowest(r: seq<Event>, jj: nat)
    requires Lowest(r, jj)
    ensures Lowest(Exchanged(r, jj), |r|) && multiset(Exchanged(r, jj)) == multiset(r)
    decreases |r| - jj
  {
    if jj < |r| {
      LowestNext(r, jj);
      hide Lowest, Swapped;
      ExchangedLowest(Swapped(r, jj), jj + 1);
    }
  }

  /** The list after ii passes. */
  ghost predicate Passed(full: seq<Event>, ii: nat) {
    ii <= |full|
    && (forall i, j | 0 <= i < j < |full| && i < ii :: full[i].addr <= full[j].addr)
  }

  lemma PassKeeps(full: seq<Event>, ii: nat, rest: seq<Event>)
    requires ii < |full| && Passed(full, ii) && |rest| == |full| - ii && multiset(rest) == multiset(full[ii..])
    requires Lowest(rest, |rest|)
    ensures Passed(full[..ii] + rest, ii + 1) && multiset(full[..ii] + rest) == multiset(full)
  {
    assert full == full[..ii] + full[ii..];
    forall i, k | 0 <= i < ii && 0 <= k < |rest|
      ensures full[i].addr <= rest[k].addr
    {
      assert rest[k] in multiset(full[ii..]);
      var j :| 0 <= j < |full[ii..]| && full[ii..][j] == rest[k];
      assert full[ii + j] == rest[k];
    }
  }

  /** The passes sort the list. */
  lemma {:induction false} SelectedSorted(s: seq<Event>, ii: nat)
    requires Passed(s, ii)
    ensures Sorted(Selected(s, ii)) && multiset(Selected(s, ii)) == multiset(s)
    decreases |s| - ii
  {
    if ii + 1 < |s| {
      ExchangedLowest(s[ii..], 1);
      hide Lowest, Exchanged, Sorted;
      PassKeeps(s, ii, Exchanged(s[ii..], 1));
      hide Passed;
      SelectedSorted(s[..ii] + Exchanged(s[ii..], 1), ii + 1);
    }
  }

  method ExchangeStep(sa: array<Event>, ii: nat, jj: nat, scount: nat)
    requires ii < jj <= scount < sa.Length
    modifies sa
    ensures sa[ii..scount + 1] == Swapped(old(sa[ii..scount + 1]), jj - ii)
    ensures forall k | 0 <= k < sa.Length && !(ii <= k <= scount) :: sa[k] == old(sa[k])
  {
    ghost var r := sa[ii..scount + 1];
    if sa[ii].addr > sa[jj].addr {
      sa[ii], sa[jj] := sa[jj], sa[ii];
      assert sa[ii..scount + 1] == r[0 := r[jj - ii]][jj - ii := r[0]];
    }
  }

  /** The exchange pass for place ii. */
  method ExchangePass(sa: array<Event>, ii: nat, scount: nat)
    requires ii < scount < sa.Length
    modifies sa
    ensures sa[ii..scount + 1] == Exchanged(old(sa[ii..scount + 1]), 1)
    ensures forall k | 0 <= k < sa.Length && !(ii <= k <= scount) :: sa[k] == old(sa[k])
  {
    hide Swapped;
    ghost var goal := Exchanged(sa[ii..scount + 1], 1);
    for jj := ii + 1 to scount + 1
      invariant Exchanged(sa[ii..scount + 1], jj - ii) == goal
      invariant forall k | 0 <= k < sa.Length && !(ii <= k <= scount) :: sa[k] == old(sa[k])
    {
      ExchangeStep(sa, ii, jj, scount);
    }
  }

  lemma DistinctNext(s: seq<Event>)
    requires |s| >= 2
    ensures Distinct(s[..|s| - 1]) != []
    ensures Distinct(s) == DistinctAfter(Distinct(s[..|s| - 1]), s[|s| - 1])
  {
  }

  /** One step of the elimination: event ii is kept if its address is new. */
  method Eliminate(sa: array<Event>, ii: nat, scnew: nat, ghost full: seq<Event>) returns (r: nat)
    requires 0 < ii < |full| && ii < sa.Length && scnew < ii && sa[ii] == full[ii]
    requires sa[..scnew + 1] == Distinct(full[..ii])
    modifies sa
    ensures r <= ii && sa[..r + 1] == Distinct(full[..ii + 1])
    ensures forall k :: ii < k < sa.Length ==> sa[k] == old(sa[k])
  {
    ghost var f := full[..ii + 1];
    assert f[..|f| - 1] == full[..ii];
    DistinctNext(f);
    r := scnew;
    assert sa[..scnew + 1][scnew] == sa[scnew];
    if sa[ii].addr > sa[scnew].addr {
      r := scnew + 1;
      ghost var d := sa[..scnew + 1];
      sa[r] := sa[ii];
      assert sa[..r + 1] == d + [full[ii]];
    }
  }

  /** The state of the list before pass ii: the rest still unsorted, the front already thinned out. */
  ghost predicate Pending(sa: array<Event>, full: seq<Event>, ii: nat, scnew: nat)
    reads sa
  {
    && ii < |full| <= sa.Length && sa[ii..|full|] == full[ii..]
    && (ii == 0 ==> scnew == 0)
    && (ii > 0 ==> scnew < ii && sa[..scnew + 1] == Distinct(full[..ii]))
  }

  method SortPass(sa: array<Event>, ii: nat, scount: nat, scnew: nat, ghost full: seq<Event>)
    returns (r: nat, ghost f: seq<Event>)
    requires ii < scount < sa.Length && |full| == scount + 1 && Pending(sa, full, ii, scnew)
    modifies sa
    ensures f == full[..ii] + Exchanged(full[ii..], 1) && Pending(sa, f, ii + 1, r)
  {
    hide Distinct, Exchanged;
    ghost var was := sa[..];
    assert was[ii..scount + 1] == full[ii..];
    ExchangePass(sa, ii, scount);
    f := full[..ii] + Exchanged(full[ii..], 1);
    assert sa[..][ii..|full|] == Exchanged(full[ii..], 1);
    assert sa[..][..ii] == was[..ii];
    r := ThinOut(sa, ii, scount, scnew, full, f, was);
  }

  lemma JoinAt(a: seq<Event>, b: seq<Event>, ii: nat, n: nat)
    requires |a| == ii < n <= |b|
    ensures var f := a + b[ii..n]; f[..ii] == a && f[ii] == b[ii] && f[ii + 1..] == b[ii + 1..n]
  {
  }

  /** The elimination step of a pass. */
  method ThinOut(sa: array<Event>, ii: nat, scount: nat, scnew: nat, ghost full: seq<Event>, ghost f: seq<Event>,
                 ghost was: seq<Event>)
    returns (r: nat)
    requires ii < scount < sa.Length && |full| == |f| == scount + 1 && |was| == sa.Length
    requires f == full[..ii] + sa[..][ii..|full|] && sa[..][..ii] == was[..ii]
    requires ii == 0 ==> scnew == 0
    requires ii > 0 ==> scnew < ii && was[..scnew + 1] == Distinct(full[..ii])
    modifies sa
    ensures Pending(sa, f, ii + 1, r)
  {
    hide Distinct;
    JoinAt(full[..ii], sa[..], ii, |full|);
    ghost var rest := sa[ii + 1..scount + 1];
    assert rest == sa[..][ii + 1..|full|];
    r := scnew;
    if ii > 0 {
      assert sa[..scnew + 1] == sa[..][..ii][..scnew + 1] == was[..scnew + 1];
      r := Eliminate(sa, ii, scnew, f);
    } else {
      OneEvent(f[..1]);
      assert sa[..1] == f[..1];
    }
    assert sa[ii + 1..scount + 1] == rest;
  }

  /** Sorts the events by address and drops all but one of each address. */
  method SortEvents(sa: array<Event>, scount: nat) returns (scnew: nat)
    requires 0 < scount < sa.Length
    modifies sa
    ensures scnew <= scount && sa[..scnew + 1] == Distinct(Selected(old(sa[..scount + 1]), 0))
  {
    hide Distinct, Pending, Exchanged;
    scnew := 0;
    ghost var full := sa[..scount + 1];
    ghost var goal := Selected(full, 0);
    NothingPassed(sa, full);
    for ii := 0 to scount
      invariant |full| == scount + 1 && Selected(full, ii) == goal && Pending(sa, full, ii, scnew)
    {
      scnew, full := SortPass(sa, ii, scount, scnew, full);
    }
    AllPassed(sa, full, scount, scnew);
    scnew := Eliminate(sa, scount, scnew, full);
    assert full[..scount + 1] == full;
  }

  lemma OneEvent(s: seq<Event>)
    requires |s| == 1
    ensures Distinct(s) == s
  {
  }

  lemma SortedPrefix(s: seq<Event>, n: nat)
    requires Sorted(s) && n <= |s|
    ensures Sorted(s[..n])
  {
  }

  lemma {:induction false} DistinctIncreasing(s: seq<Event>)
    requires Sorted(s) && s != []
    ensures Increasing(Distinct(s)) && Distinct(s)[|Distinct(s)| - 1].addr == s[|s| - 1].addr
  {
    if |s| == 1 {
      OneEvent(s);
    } else {
      var f := s[..|s| - 1];
      SortedPrefix(s, |s| - 1);
      DistinctIncreasing(f);
      DistinctNext(s);
      hide Distinct;
      assert f[|f| - 1] == s[|s| - 2];
    }
  }

  lemma {:induction false} DistinctMembers(s: seq<Event>)
    requires s != []
    ensures forall e :: e in Distinct(s) ==> e in s
  {
    if |s| == 1 {
      OneEvent(s);
    } else {
      DistinctMembers(s[..|s| - 1]);
      DistinctNext(s);
      hide Distinct;
    }
  }

  lemma {:induction false} DistinctLists(s: seq<Event>, k: nat)
    requires Sorted(s) && k < |s|
    ensures Listed(Distinct(s), s[k].addr)
  {
    DistinctIncreasing(s);
    if k == |s| - 1 {
      assert Distinct(s)[|Distinct(s)| - 1].addr == s[k].addr;
    } else {
      var f := s[..|s| - 1];
      SortedPrefix(s, |s| - 1);
      DistinctLists(f, k);
      DistinctNext(s);
      hide Distinct;
      ListedMore(Distinct(f), Distinct(s), f[k].addr);
    }
  }

  lemma ListedMore(d: seq<Event>, e: seq<Event>, a: int)
    requires Listed(d, a) && d <= e
    ensures Listed(e, a)
  {
    var i :| 0 <= i < |d| && d[i].addr == a;
    assert e[i].addr == a;
  }

  lemma SameMembers(raw: seq<Event>, full: seq<Event>, e: Event)
    requires multiset(full) == multiset(raw)
    ensures e in full <==> e in raw
  {
    assert e in full <==> e in multiset(full);
    assert e in raw <==> e in multiset(raw);
  }

  lemma StillListed(raw: seq<Event>, full: seq<Event>, a: int)
    requires multiset(full) == multiset(raw) && Sorted(full) && Listed(raw, a)
    ensures full != [] && Listed(Distinct(full), a)
  {
    var k :| 0 <= k < |raw| && raw[k].addr == a;
    SameMembers(raw, full, raw[k]);
    var j :| 0 <= j < |full| && full[j] == raw[k];
    hide Sorted, Distinct;
    DistinctLists(full, j);
  }

  /** The elimination loses no address. */
  lemma EventsLeft(ma: seq<Range>, raw: seq<Event>, full: seq<Event>)
    requires EventsOf(ma, raw) && multiset(full) == multiset(raw) && Sorted(full) && ma != []
    ensures full != [] && EventsOf(ma, Distinct(full)) && Increasing(Distinct(full)) && Distinct(full) != []
  {
    hide Sorted, Distinct, Increasing, Listed, Boundary;
    StillListed(raw, full, ma[0].start);
    DistinctIncreasing(full);
    DistinctMembers(full);
    var d := Distinct(full);
    forall k | 0 <= k < |d|
      ensures Boundary(ma, d[k])
    {
      assert d[k] in d;
      SameMembers(raw, full, d[k]);
      var j :| 0 <= j < |raw| && raw[j] == d[k];
    }
    forall i | 0 <= i < |ma|
      ensures Listed(d, ma[i].start) && Listed(d, ma[i].end)
    {
      StillListed(raw, full, ma[i].start);
      StillListed(raw, full, ma[i].end);
    }
  }

  /** Whatever the ranges are, every border address is kept once, in increasing order, and no other. */
  lemma BordersAre(ma: seq<Range>)
    requires ma != []
    ensures EventsOf(ma, Borders(ma)) && Increasing(Borders(ma)) && Borders(ma) != [] && |Borders(ma)| <= 2 * |ma|
  {
    RawEvents(ma);
    SelectedSorted(Raw(ma), 0);
    hide *;
    BordersIs(ma);
    EventsLeft(ma, Raw(ma), Selected(Raw(ma), 0));
  }

  lemma BordersIs(ma: seq<Range>)
    ensures Borders(ma) == Distinct(Selected(Raw(ma), 0)) && |Borders(ma)| <= 2 * |ma|
  {
  }

  // ----- which addresses the events stand for -----

  ghost predicate Gap(s: seq<Event>, k: nat, x: int) {
    k + 1 < |s| && !s[k].start && s[k + 1].start && s[k].addr < x < s[k + 1].addr
  }

  /** Strictly between an end and the start that follows it. */
  ghost predicate InGap(s: seq<Event>, x: int) {
    exists k: nat :: Gap(s, k, x)
  }

  ghost function LastEvent(s: seq<Event>): Event
    requires s != []
  {
    s[|s| - 1]
  }

  /** Where the closed blocks end: before a start, after an end. */
  ghost function Closed(e: Event): int {
    if e.start then e.addr - 1 else e.addr
  }

  /** What the sweep takes for memory; a last start stays open. */
  ghost predicate Spanned(s: seq<Event>, x: int) {
    s != [] && s[0].addr <= x <= Closed(LastEvent(s)) && !InGap(s, x)
  }

  lemma {:induction false} Between(s: seq<Event>, x: int) returns (k: nat)
    requires s != [] && s[0].addr <= x <= s[|s| - 1].addr
    ensures k < |s| && s[k].addr <= x && (k + 1 < |s| ==> x < s[k + 1].addr) && (k + 1 == |s| ==> x == s[k].addr)
    decreases |s|
  {
    if |s| == 1 {
      k := 0;
    } else if x == s[|s| - 1].addr {
      k := |s| - 1;
    } else if s[|s| - 2].addr <= x {
      k := |s| - 2;
    } else {
      k := Between(s[..|s| - 1], x);
    }
  }

  /** No boundary lies strictly between neighbours. */
  lemma NextListed(s: seq<Event>, a: int, k: nat)
    requires Increasing(s) && Listed(s, a) && k < |s|
    ensures a > s[k].addr ==> k + 1 < |s| && s[k + 1].addr <= a
    ensures k + 1 < |s| && a < s[k + 1].addr ==> a <= s[k].addr
  {
    var j :| 0 <= j < |s| && s[j].addr == a;
    assert j > k + 1 ==> s[k + 1].addr < s[j].addr;
    assert j < k ==> s[j].addr < s[k].addr;
  }

  lemma BoundaryAt(ma: seq<Range>, s: seq<Event>, k: nat) returns (i: nat)
    requires EventsOf(ma, s) && k < |s|
    ensures i < |ma| && s[k] == if s[k].start then StartOf(ma[i]) else EndOf(ma[i])
  {
    assert Boundary(ma, s[k]);
    i :| 0 <= i < |ma| && (s[k] == StartOf(ma[i]) || s[k] == EndOf(ma[i]));
  }

  lemma ListedBoth(ma: seq<Range>, s: seq<Event>, i: nat)
    requires EventsOf(ma, s) && i < |ma|
    ensures Listed(s, ma[i].start) && Listed(s, ma[i].end)
  {
  }

  lemma ProperAt(ma: seq<Range>, i: nat)
    requires Proper(ma) && i < |ma|
    ensures ma[i].start < ma[i].end
  {
  }

  lemma ListedInside(s: seq<Event>, a: int)
    requires Increasing(s) && Listed(s, a)
    ensures s != [] && s[0].addr <= a <= s[|s| - 1].addr
  {
    var j :| 0 <= j < |s| && s[j].addr == a;
    assert j > 0 ==> s[0].addr < s[j].addr;
    assert j < |s| - 1 ==> s[j].addr < s[|s| - 1].addr;
  }

  /** Ends of the event list. */
  lemma EndsOfEvents(ma: seq<Range>, s: seq<Event>)
    requires Proper(ma) && EventsOf(ma, s) && Increasing(s) && s != []
    ensures |s| >= 2 && s[0].start && !s[|s| - 1].start
    ensures forall i :: 0 <= i < |ma| ==> s[0].addr <= ma[i].start && ma[i].end <= s[|s| - 1].addr
  {
    hide EventsOf, Increasing, Proper, Listed;
    forall i | 0 <= i < |ma|
      ensures s[0].addr <= ma[i].start && ma[i].end <= s[|s| - 1].addr
    {
      ListedBoth(ma, s, i);
      ListedInside(s, ma[i].start);
      ListedInside(s, ma[i].end);
    }
    var f := BoundaryAt(ma, s, 0);
    var l := BoundaryAt(ma, s, |s| - 1);
    ProperAt(ma, f);
    ProperAt(ma, l);
  }

  /** Ranges that start before they end, overlapping or not, span reported addresses only. */
  lemma SpannedInUnion(ma: seq<Range>, s: seq<Event>, x: int)
    requires Proper(ma) && EventsOf(ma, s) && Increasing(s) && Spanned(s, x)
    ensures InUnion(ma, x)
  {
    hide Proper, EventsOf, Increasing, Listed;
    var k := Between(s, x);
    if s[k].addr != x {
      assert !Gap(s, k, x);
      var i := BoundaryAt(ma, s, if s[k].start then k else k + 1);
      ListedBoth(ma, s, i);
      ProperAt(ma, i);
      NextListed(s, ma[i].end, k);
      NextListed(s, ma[i].start, k);
      assert In(x, ma[i]);
    } else {
      var i := BoundaryAt(ma, s, k);
      ProperAt(ma, i);
      assert In(x, ma[i]);
    }
  }

  ghost predicate Disjoint(ma: seq<Range>) {
    forall i, j, x: int | 0 <= i < |ma| && 0 <= j < |ma| && In(x, ma[i]) && In(x, ma[j]) :: i == j
  }

  lemma Apart(ma: seq<Range>, i: nat, j: nat, x: int)
    requires Disjoint(ma) && i < |ma| && j < |ma| && In(x, ma[i]) && In(x, ma[j])
    ensures i == j
  {
  }

  /** Disjoint ranges lose nothing. */
  lemma UnionSpanned(ma: seq<Range>, s: seq<Event>, x: int)
    requires Proper(ma) && Disjoint(ma) && EventsOf(ma, s) && Increasing(s) && s != [] && InUnion(ma, x)
    ensures Spanned(s, x)
  {
    EndsOfEvents(ma, s);
    var r :| 0 <= r < |ma| && In(x, ma[r]);
    hide Proper, EventsOf, Increasing, Listed, Disjoint;
    forall k: nat | Gap(s, k, x)
      ensures false
    {
      var i := BoundaryAt(ma, s, k);
      ListedBoth(ma, s, r);
      NextListed(s, ma[r].start, k);
      ProperAt(ma, i);
      Apart(ma, i, r, s[k].addr);
    }
  }

  // ----- the sweep -----

  ghost predicate Covered(B: seq<Range>, x: int) {
    exists i :: 0 <= i < |B| && In(x, B[i])
  }

  /** Blocks in order of address, none overlapping the next. */
  ghost predicate Ordered(B: seq<Range>) {
    && (forall i | 0 <= i < |B| :: B[i].start <= B[i].end)
    && (forall i, j | 0 <= i < j < |B| :: B[i].end < B[j].start)
  }

  ghost predicate Swept(s: seq<Event>, B: seq<Range>) {
    && s != [] && Ordered(B)
    && (forall i | 0 <= i < |B| :: B[i].end <= Closed(LastEvent(s)))
    && (!LastEvent(s).start ==> B != [] && B[|B| - 1].end == LastEvent(s).addr)
    && (forall x: int :: Covered(B, x) <==> Spanned(s, x))
  }

  lemma GapMore(s: seq<Event>, e: Event, x: int)
    requires s != []
    ensures InGap(s + [e], x) <==> InGap(s, x) || (!LastEvent(s).start && e.start && LastEvent(s).addr < x < e.addr)
  {
    var t := s + [e];
    forall k: nat | Gap(s, k, x)
      ensures Gap(t, k, x)
    {
    }
    if !LastEvent(s).start && e.start && LastEvent(s).addr < x < e.addr {
      assert Gap(t, |s| - 1, x);
    }
    if InGap(t, x) {
      var k: nat :| Gap(t, k, x);
      assert k < |s| - 1 ==> Gap(s, k, x);
    }
  }

  lemma GapInside(s: seq<Event>, x: int)
    requires s != [] && Increasing(s) && InGap(s, x)
    ensures x < LastEvent(s).addr
  {
  }

  lemma CoveredMore(B: seq<Range>, r: Range, x: int)
    ensures Covered(B + [r], x) <==> Covered(B, x) || In(x, r)
  {
    var C := B + [r];
    if Covered(B, x) {
      var i :| 0 <= i < |B| && In(x, B[i]);
      assert In(x, C[i]);
    }
    if In(x, r) { assert In(x, C[|B|]); }
    if Covered(C, x) {
      var i :| 0 <= i < |C| && In(x, C[i]);
      assert i < |B| ==> In(x, B[i]);
    }
  }

  /** Closing a block from the last event on. */
  lemma SweepClose(s: seq<Event>, B: seq<Range>, e: Event, r: Range)
    requires Swept(s, B) && Increasing(s) && LastEvent(s).addr < e.addr && (LastEvent(s).start || !e.start)
    requires r.start as int == Closed(LastEvent(s)) + 1 && r.end as int == Closed(e)
    ensures Swept(s + [e], B + [r])
  {
    hide InGap, Increasing, Covered;
    var t := s + [e];
    forall x: int
      ensures Covered(B + [r], x) <==> t[0].addr <= x <= Closed(e) && !InGap(t, x)
    {
      GapMore(s, e, x);
      CoveredMore(B, r, x);
      if InGap(s, x) { GapInside(s, x); }
      FirstIsLower(s);
    }
  }

  lemma FirstIsLower(s: seq<Event>)
    requires Increasing(s) && s != []
    ensures s[0].addr <= LastEvent(s).addr
  {
  }

  /** A start after an end opens a new block and leaves a gap. */
  lemma SweepOpen(s: seq<Event>, B: seq<Range>, e: Event)
    requires Swept(s, B) && Increasing(s) && LastEvent(s).addr < e.addr && !LastEvent(s).start && e.start
    ensures Swept(s + [e], B)
  {
    hide InGap, Increasing, Covered;
    var t := s + [e];
    forall x: int
      ensures Covered(B, x) <==> t[0].addr <= x <= Closed(e) && !InGap(t, x)
    {
      GapMore(s, e, x);
    }
  }

  lemma SweepFirst(e: Event)
    requires e.start
    ensures Swept([e], [])
  {
  }

  /** Table entries the sweep touches. */
  ghost function Pieces(s: seq<Event>): nat {
    if |s| <= 1 then 1
    else Pieces(s[..|s| - 1]) + if s[|s| - 2].start && !LastEvent(s).start then 0 else 1
  }

  lemma PiecesNext(s: seq<Event>, e: Event)
    requires s != []
    ensures Pieces(s + [e]) == Pieces(s) + if LastEvent(s).start && !e.start then 0 else 1
  {
    assert (s + [e])[..|s|] == s;
  }

  lemma {:induction false} PiecesGrow(s: seq<Event>, n: nat)
    requires 0 < n <= |s|
    ensures Pieces(s[..n]) <= Pieces(s)
    decreases |s|
  {
    if n == |s| {
      assert s[..n] == s;
    } else {
      PiecesGrow(s[..|s| - 1], n);
      assert s[..|s| - 1][..n] == s[..n];
    }
  }

  ghost function AsRange(b: Block): Range {
    Range(b.startaddr, b.blocklen)
  }

  /** The table holds the closed blocks, and the start of the open one after them. */
  ghost predicate Drawn(t: seq<Block>, B: seq<Range>, s: seq<Event>, scnew: nat) {
    && s != [] && scnew < |t| && scnew as int == (if LastEvent(s).start then |B| else |B| - 1)
    && (forall k | 0 <= k < |B| :: AsRange(t[k]) == B[k])
    && (LastEvent(s).start ==> t[scnew].startaddr == LastEvent(s).addr)
  }

  /** One event of the sweep. */
  method SweepStep(e: Event, ppm: array<Block>, scnew: nat, tmpf: bool, ghost s: seq<Event>, ghost B: seq<Range>)
    returns (n: nat, f: bool, ghost C: seq<Range>)
    requires Swept(s, B) && Increasing(s) && LastEvent(s).addr < e.addr && tmpf == LastEvent(s).start
    requires Drawn(ppm[..], B, s, scnew)
    requires if tmpf && !e.start then true else scnew + 1 < ppm.Length
    modifies ppm
    ensures Swept(s + [e], C) && f == e.start && Drawn(ppm[..], C, s + [e], n)
    ensures n == scnew + if tmpf && !e.start then 0 else 1
    ensures forall k | n < k < ppm.Length || (k == n && f) :: ppm[k].blocklen == old(ppm[k].blocklen)
  {
    hide Swept, Increasing;
    n, f, C := scnew, tmpf, B;
    if tmpf {
      if e.start {
        C := B + [Range(ppm[n].startaddr, e.addr - 1)];
        SweepClose(s, B, e, Range(ppm[n].startaddr, e.addr - 1));
        ppm[n] := ppm[n].(blocklen := e.addr - 1);
        n := n + 1;
        ppm[n] := ppm[n].(startaddr := e.addr);
      } else {
        C := B + [Range(ppm[n].startaddr, e.addr)];
        SweepClose(s, B, e, Range(ppm[n].startaddr, e.addr));
        ppm[n] := ppm[n].(blocklen := e.addr);
        f := false;
      }
    } else {
      if e.start {
        SweepOpen(s, B, e);
        n := n + 1;
        ppm[n] := ppm[n].(startaddr := e.addr);
        f := true;
      } else {
        LastClosed(s, B);
        assert AsRange(ppm[..][n]) == B[n];
        C := B + [Range(ppm[n].blocklen + 1, e.addr)];
        SweepClose(s, B, e, Range(ppm[n].blocklen + 1, e.addr));
        ppm[n + 1] := ppm[n + 1].(startaddr := ppm[n].blocklen + 1);
        n := n + 1;
        ppm[n] := ppm[n].(blocklen := e.addr);
      }
    }
  }

  lemma LastClosed(s: seq<Event>, B: seq<Range>)
    requires Swept(s, B) && !LastEvent(s).start
    ensures B != [] && B[|B| - 1].end == LastEvent(s).addr
  {
  }

  /**
   * Builds the blocks between the events; ok says whether they fit into the table. Afterwards they cover exactly the
   * spanned addresses. A last start leaves an entry open: it keeps the second word the table held before.
   */
  method Sweep(sa: array<Event>, scount: nat, ppm: array<Block>) returns (ok: bool, scnew: nat, ghost B: seq<Range>)
    requires scount < sa.Length && Increasing(sa[..scount + 1]) && sa[0].start && 0 < ppm.Length
    modifies ppm
    ensures ok <==> Pieces(sa[..scount + 1]) <= ppm.Length
    ensures ok ==> Swept(sa[..scount + 1], B) && Drawn(ppm[..], B, sa[..scount + 1], scnew)
    ensures ok ==> scnew + 1 == Pieces(sa[..scount + 1])
    ensures ok && sa[scount].start ==> ppm[scnew].blocklen == old(ppm[scnew].blocklen)
  {
    hide Swept, Increasing, Drawn, Ordered, Covered, Pieces;
    scnew, B := 0, [];
    ghost var s := sa[..scount + 1];
    PiecesGrow(s, 1);
    assert s[..1] == [sa[0]];
    OnePiece(sa[0]);
    ppm[0] := ppm[0].(startaddr := sa[0].addr);
    var tmpf := sa[0].start;
    SweepFirst(sa[0]);
    DrawnFirst(ppm[..], sa[0]);
    for ii := 1 to scount + 1
      invariant Swept(s[..ii], B) && tmpf == sa[ii - 1].start && Drawn(ppm[..], B, s[..ii], scnew)
      invariant scnew + 1 == Pieces(s[..ii]) <= ppm.Length
      invariant forall k | scnew < k < ppm.Length || (k == scnew && tmpf) :: ppm[k].blocklen == old(ppm[k].blocklen)
    {
      NextEvent(s, ii);
      if !(tmpf && !sa[ii].start) && scnew + 1 >= ppm.Length {
        return false, scnew, B;
      }
      scnew, tmpf, B := SweepStep(sa[ii], ppm, scnew, tmpf, s[..ii], B);
    }
    assert s[..scount + 1] == s;
    ok := true;
  }

  lemma PrefixNext(s: seq<Event>, n: nat)
    requires 0 < n < |s|
    ensures s[..n + 1] == s[..n] + [s[n]] && LastEvent(s[..n]) == s[n - 1]
  {
  }

  lemma PiecesStep(s: seq<Event>, n: nat)
    requires 0 < n < |s|
    ensures Pieces(s[..n + 1]) == Pieces(s[..n]) + if s[n - 1].start && !s[n].start then 0 else 1
  {
    PrefixNext(s, n);
    hide Pieces;
    PiecesNext(s[..n], s[n]);
  }

  lemma NextEvent(s: seq<Event>, ii: nat)
    requires Increasing(s) && 0 < ii < |s|
    ensures Increasing(s[..ii]) && LastEvent(s[..ii]) == s[ii - 1] && s[ii - 1].addr < s[ii].addr
    ensures s[..ii + 1] == s[..ii] + [s[ii]]
    ensures Pieces(s[..ii + 1]) == Pieces(s[..ii]) + (if s[ii - 1].start && !s[ii].start then 0 else 1)
    ensures Pieces(s[..ii + 1]) <= Pieces(s)
  {
    hide Pieces, Increasing;
    IncreasingPrefix(s, ii);
    PrefixNext(s, ii);
    PiecesStep(s, ii);
    PiecesGrow(s, ii + 1);
  }

  lemma IncreasingPrefix(s: seq<Event>, ii: nat)
    requires Increasing(s) && 0 < ii < |s|
    ensures Increasing(s[..ii]) && s[ii - 1].addr < s[ii].addr
  {
  }

  lemma DrawnParts(s: seq<Event>, B: seq<Range>, t: seq<Block>, scnew: nat)
    requires Swept(s, B) && Drawn(t, B, s, scnew)
    ensures Ordered(B) && |B| <= scnew + 1 <= |t| && (forall k :: 0 <= k < |B| ==> AsRange(t[k]) == B[k])
    ensures scnew + 1 == |B| + if LastEvent(s).start then 1 else 0
    ensures LastEvent(s).start ==> t[|B|].startaddr == LastEvent(s).addr
    ensures forall i | 0 <= i < |B| :: B[i].end <= Closed(LastEvent(s))
    ensures forall x: int :: Covered(B, x) <==> Spanned(s, x)
  {
  }

  // ----- merging adjacent blocks -----

  /** No two blocks touch. */
  ghost predicate Separate(B: seq<Range>) {
    forall i, j | 0 <= i < j < |B| :: B[i].end + 1 < B[j].start
  }

  ghost predicate Merged(B: seq<Range>, M: seq<Range>) {
    && Ordered(M) && Separate(M) && |M| <= |B|
    && (B != [] ==> M != [] && M[|M| - 1].end == B[|B| - 1].end)
    && (forall x: int :: Covered(M, x) <==> Covered(B, x))
  }

  lemma MergeTouching(B: seq<Range>, M: seq<Range>, r: Range)
    requires Merged(B, M) && B != [] && r.start == B[|B| - 1].end + 1 && r.start <= r.end
    ensures M != [] && Merged(B + [r], M[..|M| - 1] + [Range(M[|M| - 1].start, r.end)])
  {
    var front := M[..|M| - 1];
    var last := M[|M| - 1];
    var N := front + [Range(last.start, r.end)];
    assert M == front + [last];
    forall x: int
      ensures Covered(N, x) <==> Covered(B + [r], x)
    {
      CoveredMore(front, last, x);
      CoveredMore(front, Range(last.start, r.end), x);
      CoveredMore(B, r, x);
    }
  }

  lemma MergeApart(B: seq<Range>, M: seq<Range>, r: Range)
    requires Merged(B, M) && r.start <= r.end && B != [] && B[|B| - 1].end + 1 < r.start
    ensures Merged(B + [r], M + [r])
  {
    hide Covered;
    forall x: int
      ensures Covered(M + [r], x) <==> Covered(B + [r], x)
    {
      CoveredMore(M, r, x);
      CoveredMore(B, r, x);
    }
    if M != [] { assert forall i :: 0 <= i < |M| ==> M[i].end <= M[|M| - 1].end; }
  }

  ghost predicate Holds(t: seq<Block>, M: seq<Range>) {
    |M| <= |t| && forall k | 0 <= k < |M| :: AsRange(t[k]) == M[k]
  }

  /** The merge so far: the merged blocks in front, the ones still to come in place. */
  ghost predicate Merging(t: seq<Block>, B: seq<Range>, M: seq<Range>, ii: nat) {
    && 0 < ii <= |B| <= |t| && Merged(B[..ii], M) && |M| <= ii && Holds(t, M)
    && forall k | ii <= k < |B| :: AsRange(t[k]) == B[k]
  }

  /** Entry ii joins the last merged one or follows it; 32-bit arithmetic. */
  ghost function MergeOne(t: seq<Block>, ii: nat, c: nat): (r: (seq<Block>, nat))
    requires c < ii < |t|
    ensures |r.0| == |t| && c <= r.1 <= ii
  {
    if (t[ii].startaddr - t[c].blocklen) % TWO32 == 1 then (t[c := t[c].(blocklen := t[ii].blocklen)], c)
    else (t[c + 1 := t[ii]], c + 1)
  }

  method MergeStep(ppm: array<Block>, ii: nat, ccount: nat) returns (c: nat)
    requires ccount < ii < ppm.Length
    modifies ppm
    ensures (ppm[..], c) == MergeOne(old(ppm[..]), ii, ccount)
  {
    c := ccount;
    ghost var t := ppm[..];
    if (ppm[ii].startaddr - ppm[ccount].blocklen) % TWO32 == 1 {
      ppm[ccount] := ppm[ccount].(blocklen := ppm[ii].blocklen);
      assert ppm[..] == t[c := t[c].(blocklen := t[ii].blocklen)];
    } else {
      c := c + 1;
      if c != ii {
        ppm[c] := ppm[c].(startaddr := ppm[ii].startaddr);
        ppm[c] := ppm[c].(blocklen := ppm[ii].blocklen);
      }
      assert ppm[..] == t[c := t[ii]];
    }
  }

  /** A closed block joins the last merged one or follows it. */
  lemma MergeClosed(t: seq<Block>, B: seq<Range>, M: seq<Range>, ii: nat, c: nat) returns (N: seq<Range>)
    requires Ordered(B) && ii < |B| && Merging(t, B, M, ii) && c + 1 == |M|
    ensures c < ii && var r := MergeOne(t, ii, c);
      Merging(r.0, B, N, ii + 1) && r.1 + 1 == |N| && forall k | |B| <= k < |t| :: r.0[k] == t[k]
  {
    hide Merged;
    MergedLast(B, M, ii);
    assert AsRange(t[ii]) == B[ii] && AsRange(t[c]) == M[c];
    assert B[..ii + 1] == B[..ii] + [B[ii]];
    if (t[ii].startaddr - t[c].blocklen) % TWO32 == 1 {
      N := M[..c] + [Range(M[c].start, B[ii].end)];
      MergeTouching(B[..ii], M, B[ii]);
    } else {
      N := M + [B[ii]];
      MergeApart(B[..ii], M, B[ii]);
    }
  }

  /** The blocks and the open entry behind them, which joins the last block if it touches it. */
  ghost function WithOpen(M: seq<Range>, e: Block): (t: seq<Block>)
    ensures |M| <= |t| <= |M| + 1
  {
    if M != [] && M[|M| - 1].end + 1 == e.startaddr then Blocks(M)[|M| - 1 := Block(M[|M| - 1].start, e.blocklen)]
    else Blocks(M) + [e]
  }

  lemma MergeOpen(t: seq<Block>, B: seq<Range>, M: seq<Range>, c: nat)
    requires B != [] && |B| < |t| && Merging(t, B, M, |B|) && c + 1 == |M| && B[|B| - 1].end < t[|B|].startaddr
    ensures c < |B| && var r := MergeOne(t, |B|, c); r.0[..r.1 + 1] == WithOpen(M, t[|B|])
  {
    MergingDone(t, B, M);
    MergedEnd(B, M);
    hide Merged, Merging;
    assert AsRange(t[c]) == M[c];
    var r := MergeOne(t, |B|, c);
    HoldsBlocks(t, M);
    assert t[..c + 1] == Blocks(M);
  }

  lemma MergedEnd(B: seq<Range>, M: seq<Range>)
    requires Merged(B, M) && B != []
    ensures M != [] && M[|M| - 1].end == B[|B| - 1].end
  {
  }

  lemma MergedLast(B: seq<Range>, M: seq<Range>, ii: nat)
    requires Ordered(B) && 0 < ii < |B| && Merged(B[..ii], M)
    ensures M != [] && M[|M| - 1].end == B[..ii][ii - 1].end < B[ii].start <= B[ii].end
  {
    assert B[..ii][ii - 1] == B[ii - 1];
  }

  /** What the merge leaves of the blocks B and, if there is one, the open entry. */
  ghost function MergeResult(M: seq<Range>, open: bool, e: Block): seq<Block> {
    if open then WithOpen(M, e) else Blocks(M)
  }

  /** Merges adjacent blocks in place; with an open entry behind the closed blocks. */
  method Merge(ppm: array<Block>, scnew: nat, ghost B: seq<Range>, ghost open: bool)
    returns (count: nat, ghost M: seq<Range>)
    requires B != [] && scnew + 1 == |B| + (if open then 1 else 0) <= ppm.Length && Ordered(B)
    requires forall k :: 0 <= k < |B| ==> AsRange(ppm[k]) == B[k]
    requires open ==> B[|B| - 1].end < ppm[|B|].startaddr
    modifies ppm
    ensures Merged(B, M) && count <= ppm.Length
    ensures ppm[..count] == MergeResult(M, open, if open then old(ppm[|B|]) else Block(0, 0))
  {
    hide Merged, Merging, Holds, Ordered, WithOpen, MergeOne;
    var ii: nat := 1;
    var ccount: nat := 0;
    M := B[..1];
    ghost var e := if open then ppm[|B|] else Block(0, 0);
    MergeFirst(ppm[..], B);
    while ii <= scnew
      invariant 1 <= ii <= scnew + 1 && ccount < ii && ccount < ppm.Length
      invariant ii <= |B| ==> ccount + 1 == |M| && Merging(ppm[..], B, M, ii) && (open ==> ppm[|B|] == e)
      invariant ii > |B| ==> open && Merged(B, M) && ppm[..ccount + 1] == WithOpen(M, e)
    {
      ghost var t := ppm[..];
      if ii < |B| { M := MergeClosed(t, B, M, ii, ccount); } else {
        MergingDone(t, B, M);
        MergeOpen(t, B, M, ccount);
      }
      ccount := MergeStep(ppm, ii, ccount);
      ii := ii + 1;
    }
    count := ccount + 1;
    if !open {
      MergingDone(ppm[..], B, M);
      HoldsBlocks(ppm[..], M);
    }
  }

  lemma MergeFirst(t: seq<Block>, B: seq<Range>)
    requires 0 < |B| <= |t| && Ordered(B) && forall k :: 0 <= k < |B| ==> AsRange(t[k]) == B[k]
    ensures Merging(t, B, B[..1], 1)
  {
  }

  // ----- rounding to pages -----

  ghost function Up(x: nat): nat {
    (x + 0xFFF) / 0x1000 * 0x1000
  }

  ghost function Down(x: nat): nat {
    x / 0x1000 * 0x1000
  }

  /** High blocks end and start on page borders; 32-bit arithmetic. */
  ghost function RoundBlock(b: Block): Block {
    if b.startaddr < 0x10_0000 then b
    else Block(Up(b.startaddr) % TWO32, (Down((b.blocklen + 1) % TWO32) - 1) % TWO32)
  }

  /** blocklen turns from a last address into a length; 32-bit arithmetic. */
  ghost function SetLength(b: Block): Block {
    Block(b.startaddr, (b.blocklen - (b.startaddr - 1)) % TWO32)
  }

  lemma PageBorders(a: nat, e: nat)
    requires a <= e
    ensures a <= Up(a) < a + PAGE && e + 1 - PAGE < Down(e + 1) <= e + 1
    ensures Up(a) <= Down(e + 1) || Up(a) == Down(e + 1) + PAGE
    ensures a <= 0xFFFF_F000 ==> Up(a) <= 0xFFFF_F000
  {
    var q := (a + 0xFFF) / 0x1000;
    var d := (e + 1) / 0x1000;
    assert 0x1000 * q <= a + 0xFFF < 0x1000 * q + 0x1000;
    assert 0x1000 * d <= e + 1 < 0x1000 * d + 0x1000;
  }

  /** On a high block the 32-bit arithmetic of the rounding does not wrap around. */
  lemma RoundedHigh(b: Block)
    requires MB <= b.startaddr <= b.blocklen && b.startaddr <= 0xFFFF_F000
    ensures RoundBlock(b).startaddr as int == Up(b.startaddr)
    ensures RoundBlock(b).blocklen as int == Down(b.blocklen + 1) - 1
  {
    PageBorders(b.startaddr, b.blocklen);
    LastPage();
    hide Up, Down;
    if b.blocklen == 0xFFFF_FFFF {
      assert (b.blocklen + 1) % TWO32 == 0;
    } else {
      assert (b.blocklen + 1) % TWO32 == b.blocklen + 1;
    }
  }

  lemma LastPage()
    ensures Down(0) == 0 && Down(0x1_0000_0000) == 0x1_0000_0000
  {
  }

  /** A high block is recorded with the length of its whole pages exactly when its rounded borders do not cross;
      otherwise the length wraps around to almost 4 GB. */
  lemma RoundedLength(b: Block)
    requires MB <= b.startaddr <= b.blocklen && b.startaddr <= 0xFFFF_F000
    ensures var r := SetLength(RoundBlock(b));
      && r.startaddr as int == Up(b.startaddr)
      && (r.blocklen as int == Down(b.blocklen + 1) - Up(b.startaddr) <==> Up(b.startaddr) <= Down(b.blocklen + 1))
      && (Up(b.startaddr) > Down(b.blocklen + 1) ==> r.blocklen as int == TWO32 - PAGE)
  {
    PageBorders(b.startaddr, b.blocklen);
    RoundedHigh(b);
    hide Up, Down, RoundBlock;
  }

  // ----- the finished table -----

  ghost function Blocks(M: seq<Range>): (t: seq<Block>)
    ensures |t| == |M| && forall k :: 0 <= k < |M| ==> t[k] == Block(M[k].start, M[k].end)
  {
    seq(|M|, k requires 0 <= k < |M| => Block(M[k].start, M[k].end))
  }

  ghost function Rounded(t: seq<Block>): (r: seq<Block>)
    ensures |r| == |t| && forall k :: 0 <= k < |t| ==> r[k] == RoundBlock(t[k])
  {
    seq(|t|, k requires 0 <= k < |t| => RoundBlock(t[k]))
  }

  ghost predicate Crosses(b: Block) {
    b.blocklen > 0x100_0000 > b.startaddr
  }

  /** The first block across the 16 MB border becomes two. */
  ghost function Split(t: seq<Block>): seq<Block> {
    if t == [] then []
    else if Crosses(t[0]) then [Block(t[0].startaddr, 0xFF_FFFF), Block(0x100_0000, t[0].blocklen)] + t[1..]
    else [t[0]] + Split(t[1..])
  }

  ghost function Lengths(t: seq<Block>): (r: seq<Block>)
    ensures |r| == |t| && forall k :: 0 <= k < |t| ==> r[k] == SetLength(t[k])
  {
    seq(|t|, k requires 0 <= k < |t| => SetLength(t[k]))
  }

  /** Entries up to which a block across the 16 MB border is divided. */
  const TABLE: nat := 16

  ghost function Finished(t: seq<Block>): seq<Block> {
    var r := Rounded(t);
    Lengths(if |t| < 16 then Split(r) else r)
  }

  ghost function Table(M: seq<Range>): seq<Block> {
    Finished(Blocks(M))
  }

  method Round(ppm: array<Block>, count: nat)
    requires count <= ppm.Length
    modifies ppm
    ensures ppm[..count] == Rounded(old(ppm[..count]))
  {
    for ii := 0 to count
      invariant forall k :: 0 <= k < ii ==> ppm[k] == RoundBlock(old(ppm[k]))
      invariant forall k :: ii <= k < count ==> ppm[k] == old(ppm[k])
    {
      if ppm[ii].startaddr >= MB {
        ppm[ii] := ppm[ii].(blocklen := ((ppm[ii].blocklen + 1) % TWO32 / PAGE * PAGE - 1) % TWO32);
        ppm[ii] := ppm[ii].(startaddr := (ppm[ii].startaddr + PAGE - 1) / PAGE * PAGE % TWO32);
      }
    }
  }

  lemma {:induction false} SplitAt(t: seq<Block>, ii: nat)
    requires ii <= |t| && forall k :: 0 <= k < ii ==> !Crosses(t[k])
    ensures Split(t) == if ii < |t| && Crosses(t[ii])
      then t[..ii] + [Block(t[ii].startaddr, MB16 - 1), Block(MB16, t[ii].blocklen)] + t[ii + 1..]
        else t[..ii] + Split(t[ii..])
  {
    hide Crosses;
    if ii > 0 {
      SplitAt(t[1..], ii - 1);
      assert t[..ii] == [t[0]] + t[1..][..ii - 1];
      assert ii < |t| ==> t[1..][ii - 1 + 1..] == t[ii + 1..];
      assert t[1..][ii - 1..] == t[ii..];
    } else {
      assert t[0..] == t;
    }
  }

  method SplitBorder(ppm: array<Block>, count: nat) returns (c: nat)
    requires count < ppm.Length
    modifies ppm
    ensures c <= ppm.Length && ppm[..c] == Split(old(ppm[..count]))
  {
    hide Split;
    ghost var t := ppm[..count];
    var ii: nat := 0;
    while ii < count
      invariant ii <= count && ppm[..count] == t && forall k :: 0 <= k < ii ==> !Crosses(t[k])
    {
      assert ppm[ii] == t[ii];
      if ppm[ii].blocklen > MB16 && ppm[ii].startaddr < MB16 {
        SplitAt(t, ii);
        c := InsertBorder(ppm, ii, count);
        return;
      }
      ii := ii + 1;
    }
    SplitAt(t, count);
    assert t[count..] == [];
    SplitNone();
    assert t[..count] + [] == t;
    c := count;
  }

  lemma SplitNone()
    ensures Split([]) == []
  {
  }

  /** Moves the entries from ii on up by one and divides block ii. */
  method InsertBorder(ppm: array<Block>, ii: nat, count: nat) returns (c: nat)
    requires ii < count < ppm.Length
    modifies ppm
    ensures c == count + 1
    ensures ppm[..c] == old(ppm[..ii]) + [Block(old(ppm[ii].startaddr), MB16 - 1), Block(MB16, old(ppm[ii].blocklen))]
                        + old(ppm[ii + 1..count])
  {
    forall k | ii < k <= count {
      ppm[k] := ppm[k - 1];
    }
    ppm[ii + 1] := ppm[ii + 1].(startaddr := MB16);
    ppm[ii] := ppm[ii].(blocklen := MB16 - 1);
    c := count + 1;
  }

  method MakeLengths(ppm: array<Block>, count: nat)
    requires count <= ppm.Length
    modifies ppm
    ensures ppm[..count] == Lengths(old(ppm[..count]))
  {
    for ii := 0 to count
      invariant forall k :: 0 <= k < ii ==> ppm[k] == SetLength(old(ppm[k]))
      invariant forall k :: ii <= k < count ==> ppm[k] == old(ppm[k])
    {
      ppm[ii] := ppm[ii].(blocklen := (ppm[ii].blocklen - (ppm[ii].startaddr - 1)) % TWO32);
    }
  }

  // ----- what the finished table says -----

  /** Every high block holds a whole page, or at least its rounded borders do not cross. */
  ghost predicate Fits(M: seq<Range>) {
    forall i | 0 <= i < |M| :: M[i].start >= MB ==> Up(M[i].start) <= Down(M[i].end + 1)
  }

  /** No block starts inside the last page. */
  ghost predicate Below4G(M: seq<Range>) {
    forall i | 0 <= i < |M| :: M[i].start as int <= TWO32 - PAGE
  }

  /** The addresses of a block that survive the rounding. */
  ghost predicate Survives(r: Range, x: int) {
    In(x, r) && (r.start >= MB ==> Up(r.start) <= x < Down(r.end + 1))
  }

  ghost predicate Spans(b: Block, x: int) {
    b.startaddr <= x <= b.blocklen
  }

  ghost predicate Recorded(t: seq<Block>, x: int) {
    exists i :: 0 <= i < |t| && t[i].startaddr <= x < t[i].startaddr + t[i].blocklen
  }

  ghost predicate Spanning(t: seq<Block>, x: int) {
    exists i :: 0 <= i < |t| && Spans(t[i], x)
  }

  /** Not all of the address space, whose length has no 32-bit form. */
  ghost predicate Partial(b: Block) {
    b.startaddr == 0 ==> b.blocklen < 0xFFFF_FFFF
  }

  /** Blocks given by first and last address, in order; an empty one ends just before it starts. */
  ghost predicate Tidy(t: seq<Block>) {
    && (forall i | 0 <= i < |t| :: t[i].startaddr <= t[i].blocklen + 1 && Partial(t[i]))
    && (forall i, j | 0 <= i < j < |t| :: t[i].blocklen < t[j].startaddr)
  }

  lemma RoundedAt(r: Range, x: int)
    requires r.start <= r.end && r.start <= 0xFFFF_F000
    requires r.start >= MB ==> Up(r.start) <= Down(r.end + 1)
    ensures var b := RoundBlock(Block(r.start, r.end));
      && r.start <= b.startaddr <= b.blocklen + 1 && b.blocklen <= r.end && (Spans(b, x) <==> Survives(r, x))
      && (Partial(b) <==> r != Range(0, 0xFFFF_FFFF))
  {
    if r.start >= MB {
      PageBorders(r.start, r.end);
      RoundedHigh(Block(r.start, r.end));
      hide Up, Down, RoundBlock;
    }
  }

  lemma RoundedTidy(M: seq<Range>)
    requires Ordered(M) && Below4G(M) && Fits(M) && Range(0, 0xFFFF_FFFF) !in M
    ensures Tidy(Rounded(Blocks(M)))
  {
    hide RoundBlock, Survives, Spans, Partial;
    var r := Rounded(Blocks(M));
    forall i | 0 <= i < |M|
      ensures M[i].start <= r[i].startaddr <= r[i].blocklen + 1 && r[i].blocklen <= M[i].end && Partial(r[i])
    {
      RoundedAt(M[i], 0);
      assert M[i] in M;
    }
  }

  lemma RoundedSpans(M: seq<Range>, x: int)
    requires Ordered(M) && Below4G(M) && Fits(M)
    ensures Spanning(Rounded(Blocks(M)), x) <==> exists i :: 0 <= i < |M| && Survives(M[i], x)
  {
    hide RoundBlock, Survives, Spans;
    var t := Rounded(Blocks(M));
    forall i | 0 <= i < |M|
      ensures Spans(t[i], x) <==> Survives(M[i], x)
    {
      RoundedAt(M[i], x);
    }
    if Spanning(t, x) {
      var i :| 0 <= i < |t| && Spans(t[i], x);
      assert Survives(M[i], x);
    }
    if exists i :: 0 <= i < |M| && Survives(M[i], x) {
      var i :| 0 <= i < |M| && Survives(M[i], x);
      assert Spans(t[i], x);
    }
  }

  lemma SpanningHead(t: seq<Block>, x: int)
    requires t != []
    ensures Spanning(t, x) <==> Spans(t[0], x) || Spanning(t[1..], x)
  {
    hide Spans;
    if Spanning(t, x) {
      var i :| 0 <= i < |t| && Spans(t[i], x);
      assert i > 0 ==> Spans(t[1..][i - 1], x);
    }
    if Spanning(t[1..], x) {
      var i :| 0 <= i < |t[1..]| && Spans(t[1..][i], x);
      assert Spans(t[i + 1], x);
    }
  }

  lemma TidyTail(t: seq<Block>)
    requires Tidy(t) && t != []
    ensures Tidy(t[1..]) && forall k :: 0 <= k < |t[1..]| ==> t[0].blocklen < t[1..][k].startaddr
  {
  }

  lemma TidyCons(b: Block, t: seq<Block>)
    requires Tidy(t) && b.startaddr <= b.blocklen + 1 && Partial(b)
    requires forall k :: 0 <= k < |t| ==> b.blocklen < t[k].startaddr
    ensures Tidy([b] + t)
  {
  }

  /** The split keeps order and coverage. */
  lemma {:induction false} SplitKeeps(t: seq<Block>, x: int)
    requires Tidy(t)
    ensures Tidy(Split(t)) && (Spanning(Split(t), x) <==> Spanning(t, x))
    ensures t != [] ==> Split(t) != [] && forall k :: 0 <= k < |Split(t)| ==> t[0].startaddr <= Split(t)[k].startaddr
  {
    if t != [] {
      TidyTail(t);
      SpanningHead(t, x);
      if Crosses(t[0]) {
        SplitTwo(t, x);
      } else {
        SplitKeeps(t[1..], x);
        var r := [t[0]] + Split(t[1..]);
        assert r[1..] == Split(t[1..]);
        hide Split, Crosses, Spanning, Spans;
        SpanningHead(r, x);
        StartsRise(t);
        TidyCons(t[0], Split(t[1..]));
      }
    }
  }

  lemma StartsRise(t: seq<Block>)
    requires Tidy(t) && t != []
    ensures |t| > 1 ==> t[0].blocklen < t[1].startaddr && t[0].startaddr <= t[1].startaddr
    ensures |t| == 1 ==> t[1..] == [] && Split(t[1..]) == []
  {
  }

  lemma SplitTwo(t: seq<Block>, x: int)
    requires Tidy(t) && t != [] && Crosses(t[0])
    ensures Tidy(Split(t)) && (Spanning(Split(t), x) <==> Spans(t[0], x) || Spanning(t[1..], x))
    ensures forall k :: 0 <= k < |Split(t)| ==> t[0].startaddr <= Split(t)[k].startaddr
  {
    var low := Block(t[0].startaddr, MB16 - 1);
    var high := Block(MB16, t[0].blocklen);
    var rest := [high] + t[1..];
    TidyTail(t);
    SplitFirst(t);
    hide Split, Spanning, Tidy;
    TidyHead(t);
    TidyCons(high, t[1..]);
    TidyCons(low, rest);
    SpanningCons(low, rest, x);
    SpanningCons(high, t[1..], x);
    assert Spans(low, x) || Spans(high, x) <==> Spans(t[0], x);
    hide Spans;
    RestRises(low, high, t[1..]);
  }

  lemma SplitFirst(t: seq<Block>)
    requires t != [] && Crosses(t[0])
    ensures Split(t) == [Block(t[0].startaddr, MB16 - 1)] + ([Block(MB16, t[0].blocklen)] + t[1..])
  {
    assert Split(t) == [Block(t[0].startaddr, MB16 - 1), Block(MB16, t[0].blocklen)] + t[1..];
  }

  lemma TidyHead(t: seq<Block>)
    requires Tidy(t) && t != []
    ensures t[0].startaddr <= t[0].blocklen + 1 && Partial(t[0])
  {
  }

  lemma RestRises(low: Block, high: Block, t: seq<Block>)
    requires low.startaddr <= high.startaddr <= high.blocklen && forall k :: 0 <= k < |t| ==>
      high.blocklen < t[k].startaddr
    ensures forall k :: 0 <= k < |[low] + ([high] + t)| ==> low.startaddr <= ([low] + ([high] + t))[k].startaddr
  {
  }

  lemma SpanningCons(b: Block, t: seq<Block>, x: int)
    ensures Spanning([b] + t, x) <==> Spans(b, x) || Spanning(t, x)
  {
    hide Spanning, Spans;
    SpanningHead([b] + t, x);
    assert ([b] + t)[1..] == t;
  }

  lemma {:induction false} SplitDivides(t: seq<Block>)
    requires Tidy(t)
    ensures forall k :: 0 <= k < |Split(t)| ==> !Crosses(Split(t)[k])
  {
    if t != [] {
      TidyTail(t);
      if !Crosses(t[0]) { SplitDivides(t[1..]); }
    }
  }

  lemma LengthsMean(t: seq<Block>, x: int)
    requires Tidy(t)
    ensures Recorded(Lengths(t), x) <==> Spanning(t, x)
    ensures forall i | 0 <= i < |t| :: Lengths(t)[i].startaddr == t[i].startaddr
    ensures forall i | 0 <= i < |t| :: Lengths(t)[i].blocklen as int == t[i].blocklen - t[i].startaddr + 1
  {
    var f := Lengths(t);
    forall i | 0 <= i < |t|
      ensures f[i].startaddr == t[i].startaddr && f[i].blocklen as int == t[i].blocklen - t[i].startaddr + 1
    {
      LengthAt(t[i]);
    }
    if Recorded(f, x) {
      var i :| 0 <= i < |f| && f[i].startaddr <= x < f[i].startaddr + f[i].blocklen;
      assert Spans(t[i], x);
    }
    if Spanning(t, x) {
      var i :| 0 <= i < |t| && Spans(t[i], x);
      assert f[i].startaddr <= x < f[i].startaddr + f[i].blocklen;
    }
  }

  lemma LengthAt(b: Block)
    requires b.startaddr <= b.blocklen + 1 && Partial(b)
    ensures SetLength(b).blocklen as int == b.blocklen - b.startaddr + 1
  {
  }

  /** Entries in order of address, each ending before the next begins. */
  ghost predicate InOrder(t: seq<Block>) {
    forall i, j | 0 <= i < j < |t| :: t[i].startaddr + t[i].blocklen <= t[j].startaddr
  }

  /**
   * Above 1 MB the table records exactly the whole pages of every block, below it the blocks as they are; unless the
   * table is full no entry goes across 16 MB.
   */
  lemma TableMeans(M: seq<Range>, x: int)
    requires Ordered(M) && Below4G(M) && Fits(M)
    ensures Recorded(Table(M), x) <==> exists i :: 0 <= i < |M| && Survives(M[i], x)
    ensures InOrder(Table(M))
    ensures |M| < TABLE ==> forall b | b in Table(M) ::
      !(b.startaddr < MB16 && b.startaddr + b.blocklen > MB16 + 1)
  {
    if Range(0, 0xFFFF_FFFF) in M {
      WholeAlone(M);
      WholeTable(M, x);
    } else {
      PartsTable(M, x);
    }
  }

  lemma PartsTable(M: seq<Range>, x: int)
    requires Ordered(M) && Below4G(M) && Fits(M) && Range(0, 0xFFFF_FFFF) !in M
    ensures Recorded(Table(M), x) <==> exists i :: 0 <= i < |M| && Survives(M[i], x)
    ensures InOrder(Table(M))
    ensures |M| < TABLE ==> forall b | b in Table(M) ::
      !(b.startaddr < MB16 && b.startaddr + b.blocklen > MB16 + 1)
  {
    var r := Rounded(Blocks(M));
    var t := if |M| < TABLE then Split(r) else r;
    RoundedTidy(M);
    RoundedSpans(M, x);
    hide Ordered, Below4G, Fits, Rounded, Survives, Split, SetLength, Recorded, Spanning, Spans;
    SplitKeeps(r, x);
    SplitDivides(r);
    LengthsMean(t, x);
    hide Tidy;
    TidyOrder(t);
  }

  lemma TidyOrder(t: seq<Block>)
    requires Tidy(t)
    ensures InOrder(Lengths(t))
    ensures (forall b | b in t :: !Crosses(b)) ==>
      forall b | b in Lengths(t) :: !(b.startaddr < MB16 && b.startaddr + b.blocklen > MB16 + 1)
  {
    var f := Lengths(t);
    forall i | 0 <= i < |t|
      ensures f[i].startaddr == t[i].startaddr && f[i].blocklen as int == t[i].blocklen - t[i].startaddr + 1
    {
      LengthAt(t[i]);
    }
    hide Lengths;
    if forall b | b in t :: !Crosses(b) {
      forall b | b in f
        ensures !(b.startaddr < MB16 && b.startaddr + b.blocklen > MB16 + 1)
      {
        var i :| 0 <= i < |f| && f[i] == b;
        assert t[i] in t;
      }
    }
  }

  lemma WholeAlone(M: seq<Range>)
    requires Ordered(M) && Range(0, 0xFFFF_FFFF) in M
    ensures M == [Range(0, 0xFFFF_FFFF)]
  {
    hide Ordered;
    var k :| 0 <= k < |M| && M[k] == Range(0, 0xFFFF_FFFF);
    var next := if k + 1 < |M| then k + 1 else k;
    OrderedAt(M, k, next);
    OrderedAt(M, 0, k);
  }

  lemma OrderedAt(M: seq<Range>, j: nat, k: nat)
    requires Ordered(M) && j < |M| && k < |M|
    ensures M[j].start <= M[j].end && (j < k ==> M[j].end < M[k].start) && (k < j ==> M[k].end < M[j].start)
  {
  }

  /** One block from 0 to the last address: its length fits into 32 bits only because it is divided. */
  lemma WholeTable(M: seq<Range>, x: int)
    requires M == [Range(0, 0xFFFF_FFFF)]
    ensures Table(M) == [Block(0, 0x100_0000), Block(0x100_0000, 0xFF00_0000)]
    ensures Recorded(Table(M), x) <==> exists i :: 0 <= i < |M| && Survives(M[i], x)
    ensures InOrder(Table(M))
    ensures forall b | b in Table(M) :: !(b.startaddr < MB16 && b.startaddr + b.blocklen > MB16 + 1)
  {
    var whole := Block(0, 0xFFFF_FFFF);
    assert Rounded(Blocks(M)) == [whole];
    assert Split([whole]) == [Block(0, MB16 - 1), Block(MB16, 0xFFFF_FFFF)] + [whole][1..];
    assert Split([whole]) == [Block(0, MB16 - 1), Block(MB16, 0xFFFF_FFFF)];
    assert Table(M)[0] == Block(0, 0x100_0000) && Table(M)[1] == Block(0x100_0000, 0xFF00_0000);
    hide Table;
    assert Survives(M[0], x) <==> 0 <= x <= 0xFFFF_FFFF;
    if 0 <= x < 0x100_0000 { assert Table(M)[0].startaddr <= x < Table(M)[0].startaddr + Table(M)[0].blocklen; }
    if 0x100_0000 <= x <= 0xFFFF_FFFF {
      assert Table(M)[1].startaddr <= x < Table(M)[1].startaddr + Table(M)[1].blocklen;
    }
  }

  /** Addresses that are all covered lie in one block. */
  lemma {:induction false} SameBlock(M: seq<Range>, i: nat, a: int, b: int)
    requires Ordered(M) && Separate(M) && i < |M| && In(a, M[i]) && a <= b
    requires forall x: int | a <= x <= b :: Covered(M, x)
    ensures In(b, M[i])
    decreases b - a
  {
    if a < b {
      assert Covered(M, a + 1);
      NextInBlock(M, i, a);
      SameBlock(M, i, a + 1, b);
    }
  }

  lemma NextInBlock(M: seq<Range>, i: nat, a: int)
    requires Ordered(M) && Separate(M) && i < |M| && In(a, M[i]) && Covered(M, a + 1)
    ensures In(a + 1, M[i])
  {
    var j :| 0 <= j < |M| && In(a + 1, M[j]);
    Farther(M, i, j);
  }

  lemma Farther(M: seq<Range>, i: nat, j: nat)
    requires Separate(M) && i < |M| && j < |M|
    ensures i < j ==> M[i].end + 1 < M[j].start
    ensures j < i ==> M[j].end + 1 < M[i].start
  {
  }

  /** High ranges of at least two pages that are all covered keep a whole page in every high block. */
  lemma LongRangesFit(ma: seq<Range>, M: seq<Range>)
    requires Ordered(M) && Separate(M) && (forall x: int :: Covered(M, x) <==> InUnion(ma, x))
    requires forall i | 0 <= i < |ma| :: ma[i].start >= MB ==> ma[i].start + 2 * PAGE <= ma[i].end + 1
    ensures Fits(M)
  {
    hide Ordered, Separate;
    forall i | 0 <= i < |M| && M[i].start >= MB
      ensures Up(M[i].start) <= Down(M[i].end + 1)
    {
      BlockContains(ma, M, i);
      PageInside(M[i].start, M[i].end);
    }
  }

  lemma PageInside(a: nat, b: nat)
    requires a + 2 * PAGE <= b + 1
    ensures Up(a) <= Down(b + 1)
  {
  }

  lemma BlockContains(ma: seq<Range>, M: seq<Range>, i: nat)
    requires Ordered(M) && Separate(M) && (forall x: int :: Covered(M, x) <==> InUnion(ma, x))
    requires i < |M| && M[i].start >= MB
    requires forall i | 0 <= i < |ma| :: ma[i].start >= MB ==> ma[i].start + 2 * PAGE <= ma[i].end + 1
    ensures M[i].start + 2 * PAGE <= M[i].end + 1
  {
    BlockSpan(M, i);
    var r :| 0 <= r < |ma| && In(M[i].start, ma[r]);
    forall x: int | ma[r].start <= x <= ma[r].end
      ensures Covered(M, x)
    {
      assert In(x, ma[r]);
    }
    var b, e: int := M[i].start, ma[r].end;
    assert In(b, M[i]);
    SameBlock(M, i, b, e);
    var j := BorderOf(M, ma[r].start);
    SameBlock(M, j, ma[r].start, b);
    Farther(M, i, j);
  }

  // ----- where blocks begin and end -----

  /** The merged blocks are the maximal runs of what the events span. */
  ghost predicate Made(ma: seq<Range>, s: seq<Event>, M: seq<Range>) {
    && EventsOf(ma, s) && Increasing(s) && s != [] && Ordered(M) && Separate(M)
    && forall x: int :: Covered(M, x) <==> Spanned(s, x)
  }

  /** Start k is the first event or stands behind a gap. */
  ghost predicate OpensAt(s: seq<Event>, k: nat) {
    k < |s| && s[k].start && (k > 0 ==> !s[k - 1].start && s[k - 1].addr + 1 < s[k].addr)
  }

  /** End k is the last event or stands before a gap. */
  ghost predicate ClosesAt(s: seq<Event>, k: nat) {
    k < |s| && !s[k].start && (k + 1 < |s| ==> s[k + 1].start && s[k].addr + 1 < s[k + 1].addr)
  }

  lemma Neighbours(s: seq<Event>, k: nat)
    requires Increasing(s) && k + 1 < |s|
    ensures s[k].addr < s[k + 1].addr
  {
  }

  lemma EventInside(s: seq<Event>, k: nat)
    requires Increasing(s) && k < |s|
    ensures s[0].addr <= s[k].addr <= s[|s| - 1].addr
    ensures k + 1 < |s| || !s[k].start ==> Spanned(s, s[k].addr)
  {
    assert k > 0 ==> s[0].addr < s[k].addr;
    assert k < |s| - 1 ==> s[k].addr < s[|s| - 1].addr;
    forall j: nat
      ensures !Gap(s, j, s[k].addr)
    {
      EventNoGap(s, k, j);
    }
  }

  lemma EventNoGap(s: seq<Event>, k: nat, j: nat)
    requires Increasing(s) && k < |s|
    ensures !Gap(s, j, s[k].addr)
  {
    if j + 1 < k { assert s[j + 1].addr < s[k].addr; }
    if k < j < |s| { assert s[k].addr < s[j].addr; }
  }

  /** Just outside an opening start or a closing end nothing is spanned. */
  lemma EdgeBare(s: seq<Event>, k: nat)
    requires Increasing(s)
    ensures OpensAt(s, k) ==> !Spanned(s, s[k].addr - 1)
    ensures ClosesAt(s, k) ==> !Spanned(s, s[k].addr + 1)
  {
    if OpensAt(s, k) && k > 0 { Neighbours(s, k - 1); assert Gap(s, k - 1, s[k].addr - 1); }
    if ClosesAt(s, k) && k + 1 < |s| { Neighbours(s, k); assert Gap(s, k, s[k].addr + 1); }
  }

  /** Where the spanned addresses begin there is an opening start. */
  lemma SpanBegins(s: seq<Event>, b: int) returns (k: nat)
    requires Increasing(s) && s != [] && s[0].start && Spanned(s, b) && !Spanned(s, b - 1)
    ensures OpensAt(s, k) && s[k].addr == b
  {
    k := 0;
    if b != s[0].addr {
      assert InGap(s, b - 1);
      var j: nat :| Gap(s, j, b - 1);
      assert !Gap(s, j, b);
      k := j + 1;
    }
  }

  /** Where the spanned addresses end there is a closing end. */
  lemma SpanEnds(s: seq<Event>, a: int) returns (k: nat)
    requires Increasing(s) && s != [] && !s[|s| - 1].start && Spanned(s, a) && !Spanned(s, a + 1)
    ensures ClosesAt(s, k) && s[k].addr == a
  {
    k := |s| - 1;
    if a != s[|s| - 1].addr {
      assert InGap(s, a + 1);
      var j: nat :| Gap(s, j, a + 1);
      assert !Gap(s, j, a);
      k := j;
    }
  }

  lemma BlockSpan(M: seq<Range>, i: nat)
    requires Ordered(M) && Separate(M) && i < |M|
    ensures M[i].start <= M[i].end && Covered(M, M[i].start) && Covered(M, M[i].end)
    ensures !Covered(M, M[i].start - 1) && !Covered(M, M[i].end + 1)
  {
    assert In(M[i].start, M[i]) && In(M[i].end, M[i]);
    forall x, j: nat | (x == M[i].start - 1 || x == M[i].end + 1) && j < |M|
      ensures !In(x, M[j])
    {
      if i != j { Farther(M, i, j); }
    }
  }

  /** A covered address with a bare one next to it is the border of a block. */
  lemma BorderOf(M: seq<Range>, x: int) returns (i: nat)
    requires Ordered(M) && Covered(M, x)
    ensures i < |M| && In(x, M[i])
    ensures !Covered(M, x - 1) ==> M[i].start == x
    ensures !Covered(M, x + 1) ==> M[i].end == x
  {
    i :| 0 <= i < |M| && In(x, M[i]);
    if M[i].start < x { assert In(x - 1, M[i]); }
    if x < M[i].end { assert In(x + 1, M[i]); }
  }

  /** The borders of a block are an opening start and a closing end. */
  lemma BlockBorders(ma: seq<Range>, s: seq<Event>, M: seq<Range>, i: nat) returns (k: nat, l: nat)
    requires Proper(ma) && Made(ma, s, M) && i < |M|
    ensures k < |s| && OpensAt(s, k) && s[k].addr == M[i].start && s[k].start && M[i].start <= M[i].end
    ensures l < |s| && ClosesAt(s, l) && s[l].addr == M[i].end && !s[l].start
  {
    EndsOfEvents(ma, s);
    BlockSpan(M, i);
    hide Ordered, Separate, EventsOf, Increasing, Proper, Covered, Spanned;
    k := SpanBegins(s, M[i].start);
    l := SpanEnds(s, M[i].end);
  }

  /** An opening start begins a block, and that block ends no later than any closing end behind. */
  lemma OpenedBlock(ma: seq<Range>, s: seq<Event>, M: seq<Range>, k: nat, l: nat) returns (i: nat)
    requires Made(ma, s, M) && OpensAt(s, k) && ClosesAt(s, l) && s[k].addr <= s[l].addr
    ensures i < |M| && M[i].start == s[k].addr && M[i].end <= s[l].addr
  {
    EventOrder(s, k, l);
    EventInside(s, k);
    EventInside(s, l);
    EdgeBare(s, k);
    EdgeBare(s, l);
    hide EventsOf, Increasing, Covered, Spanned, OpensAt, ClosesAt;
    i := BorderOf(M, s[k].addr);
    var j := BorderOf(M, s[l].addr);
    hide Ordered;
    Farther(M, j, i);
  }

  // ----- which reports leave a whole page in every high block -----

  ghost predicate StartsAt(ma: seq<Range>, x: int) {
    exists i :: 0 <= i < |ma| && ma[i].start == x
  }

  ghost predicate EndsAt(ma: seq<Range>, x: int) {
    exists i :: 0 <= i < |ma| && ma[i].end == x
  }

  /** No range starts at the last byte of another one. */
  ghost predicate NoClash(ma: seq<Range>) {
    forall i, j | 0 <= i < |ma| && 0 <= j < |ma| :: ma[i].start != ma[j].end
  }

  /** A range starts at b, nothing ends just before it, and of the reported borders below b the highest is an end. */
  ghost predicate Opens(ma: seq<Range>, b: int) {
    && StartsAt(ma, b) && !EndsAt(ma, b - 1)
    && forall a: int | a < b && StartsAt(ma, a) :: exists e: int :: a < e < b && EndsAt(ma, e)
  }

  /** A range ends at e, nothing starts just behind it, and of the reported borders above e the lowest is a start. */
  ghost predicate Closes(ma: seq<Range>, e: int) {
    && EndsAt(ma, e) && !StartsAt(ma, e + 1)
    && forall c: int | e < c && EndsAt(ma, c) :: exists b: int :: e < b < c && StartsAt(ma, b)
  }

  /** Above 1 MB no opening start and closing end behind it share a page they leave incomplete. */
  ghost predicate PagesHeld(ma: seq<Range>) {
    forall b: nat, e: nat | MB <= b <= e && Opens(ma, b) && Closes(ma, e) :: Up(b) <= Down(e + 1)
  }

  lemma EventKinds(ma: seq<Range>, s: seq<Event>, k: nat)
    requires EventsOf(ma, s) && k < |s|
    ensures if s[k].start then StartsAt(ma, s[k].addr) else EndsAt(ma, s[k].addr)
  {
    var i := BoundaryAt(ma, s, k);
  }

  /** Without a clash a border keeps its kind through the elimination. */
  lemma EventFor(ma: seq<Range>, s: seq<Event>, x: int) returns (k: nat)
    requires EventsOf(ma, s) && NoClash(ma) && (StartsAt(ma, x) || EndsAt(ma, x))
    ensures k < |s| && s[k].addr == x && s[k].start == StartsAt(ma, x) && s[k].start == !EndsAt(ma, x)
  {
    var i :| 0 <= i < |ma| && (ma[i].start == x || ma[i].end == x);
    ListedBoth(ma, s, i);
    k :| 0 <= k < |s| && s[k].addr == x;
    EventKinds(ma, s, k);
  }

  lemma EventOrder(s: seq<Event>, k: nat, l: nat)
    requires Increasing(s) && k < |s| && l < |s|
    ensures k < l <==> s[k].addr < s[l].addr
  {
    assert l < k ==> s[l].addr < s[k].addr;
  }

  lemma OpensIff(ma: seq<Range>, s: seq<Event>, k: nat)
    requires EventsOf(ma, s) && Increasing(s) && NoClash(ma) && k < |s|
    ensures OpensAt(s, k) <==> Opens(ma, s[k].addr)
  {
    hide EventsOf, Increasing, NoClash, StartsAt, EndsAt;
    var b: int := s[k].addr;
    EventKinds(ma, s, k);
    var k1 := EventFor(ma, s, b);
    EventOrder(s, k, k1);
    EventOrder(s, k1, k);
    if OpensAt(s, k) {
      if EndsAt(ma, b - 1) {
        var j := EventFor(ma, s, b - 1);
        EventOrder(s, j, k);
        EventOrder(s, k - 1, j);
      }
      forall a: int | a < b && StartsAt(ma, a)
        ensures exists e: int :: a < e < b && EndsAt(ma, e)
      {
        var j := EventFor(ma, s, a);
        EventOrder(s, j, k);
        EventKinds(ma, s, k - 1);
        EventOrder(s, j, k - 1);
        EventOrder(s, k - 1, k);
        assert j != k - 1;
        assert a < s[k - 1].addr < b && EndsAt(ma, s[k - 1].addr);
      }
    }
    if Opens(ma, b) && k > 0 {
      EventKinds(ma, s, k - 1);
      EventOrder(s, k - 1, k);
      if s[k - 1].start {
        var e: int :| s[k - 1].addr < e < b && EndsAt(ma, e);
        var j := EventFor(ma, s, e);
        EventOrder(s, k - 1, j);
        EventOrder(s, j, k);
      }
    }
  }

  lemma ClosesIff(ma: seq<Range>, s: seq<Event>, k: nat)
    requires EventsOf(ma, s) && Increasing(s) && NoClash(ma) && k < |s|
    ensures ClosesAt(s, k) <==> Closes(ma, s[k].addr)
  {
    hide EventsOf, Increasing, NoClash, StartsAt, EndsAt;
    var e: int := s[k].addr;
    EventKinds(ma, s, k);
    var k1 := EventFor(ma, s, e);
    EventOrder(s, k, k1);
    EventOrder(s, k1, k);
    if ClosesAt(s, k) {
      if StartsAt(ma, e + 1) {
        var j := EventFor(ma, s, e + 1);
        EventOrder(s, k, j);
        EventOrder(s, j, k + 1);
      }
      forall c: int | e < c && EndsAt(ma, c)
        ensures exists b: int :: e < b < c && StartsAt(ma, b)
      {
        var j := EventFor(ma, s, c);
        EventOrder(s, k, j);
        EventKinds(ma, s, k + 1);
        EventOrder(s, k + 1, j);
        EventOrder(s, k, k + 1);
        assert j != k + 1;
        assert e < s[k + 1].addr < c && StartsAt(ma, s[k + 1].addr);
      }
    }
    if Closes(ma, e) && k + 1 < |s| {
      EventKinds(ma, s, k + 1);
      EventOrder(s, k, k + 1);
      if !s[k + 1].start {
        var b: int :| e < b < s[k + 1].addr && StartsAt(ma, b);
        var j := EventFor(ma, s, b);
        EventOrder(s, k, j);
        EventOrder(s, j, k + 1);
      }
    }
  }

  /** Above 1 MB no opening start and closing end behind it share a page they leave incomplete, border by border. */
  ghost predicate PagesWhole(s: seq<Event>) {
    forall k: nat, l: nat | k < |s| && OpensAt(s, k) && l < |s| && ClosesAt(s, l) && MB <= s[k].addr <= s[l].addr ::
      Up(s[k].addr) <= Down(s[l].addr + 1)
  }

  /** For all ranges in order: exactly then the rounded borders of no block cross. */
  lemma FitsIff(ma: seq<Range>, s: seq<Event>, M: seq<Range>)
    requires Proper(ma) && Made(ma, s, M)
    ensures Fits(M) <==> PagesWhole(s)
  {
    hide Proper, EventsOf, Increasing, Ordered, Separate, Covered, Spanned, OpensAt, ClosesAt, Up, Down;
    if PagesWhole(s) {
      forall i | 0 <= i < |M| && M[i].start >= MB
        ensures Up(M[i].start) <= Down(M[i].end + 1)
      {
        var k, l := BlockBorders(ma, s, M, i);
      }
    }
    if Fits(M) {
      forall k: nat, l: nat | k < |s| && OpensAt(s, k) && l < |s| && ClosesAt(s, l) && MB <= s[k].addr <= s[l].addr
        ensures Up(s[k].addr) <= Down(s[l].addr + 1)
      {
        var i := OpenedBlock(ma, s, M, k, l);
        DownGrows(M[i].end + 1, s[l].addr + 1);
      }
    }
  }

  /** Unless a range starts at the last byte of another, the condition can be read off the ranges without sorting. */
  lemma HeldIff(ma: seq<Range>, s: seq<Event>)
    requires NoClash(ma) && EventsOf(ma, s) && Increasing(s)
    ensures PagesWhole(s) <==> PagesHeld(ma)
  {
    hide NoClash, EventsOf, Increasing, Opens, Closes, Up, Down;
    if PagesHeld(ma) {
      forall k: nat, l: nat | k < |s| && OpensAt(s, k) && l < |s| && ClosesAt(s, l) && MB <= s[k].addr <= s[l].addr
        ensures Up(s[k].addr) <= Down(s[l].addr + 1)
      {
        OpensIff(ma, s, k);
        ClosesIff(ma, s, l);
      }
    }
    if PagesWhole(s) {
      forall b: nat, e: nat | MB <= b <= e && Opens(ma, b) && Closes(ma, e)
        ensures Up(b) <= Down(e + 1)
      {
        var k, l := BorderEvents(ma, s, b, e);
      }
    }
  }

  lemma BorderEvents(ma: seq<Range>, s: seq<Event>, b: int, e: int) returns (k: nat, l: nat)
    requires EventsOf(ma, s) && Increasing(s) && NoClash(ma) && Opens(ma, b) && Closes(ma, e)
    ensures k < |s| && OpensAt(s, k) && s[k].addr == b && l < |s| && ClosesAt(s, l) && s[l].addr == e
  {
    k := EventFor(ma, s, b);
    l := EventFor(ma, s, e);
    hide *;
    OpensIff(ma, s, k);
    ClosesIff(ma, s, l);
  }

  lemma DownGrows(x: nat, y: nat)
    requires x <= y
    ensures Down(x) <= Down(y)
  {
  }

  /** Page-aligned high ranges never cross, whatever else they do. */
  lemma AlignedFit(ma: seq<Range>, s: seq<Event>, M: seq<Range>)
    requires Proper(ma) && Made(ma, s, M)
    requires (forall i | 0 <= i < |ma| :: ma[i].start >= MB ==> ma[i].start % PAGE == 0)
      || forall i | 0 <= i < |ma| :: ma[i].end >= MB ==> (ma[i].end + 1) % PAGE == 0
    ensures Fits(M)
  {
    hide Proper, EventsOf, Increasing, Ordered, Separate, Covered, Spanned, Up, Down;
    forall i | 0 <= i < |M| && M[i].start >= MB
      ensures Up(M[i].start) <= Down(M[i].end + 1)
    {
      var k, l := BlockBorders(ma, s, M, i);
      var p := BoundaryAt(ma, s, k);
      var q := BoundaryAt(ma, s, l);
      AlignedPage(M[i].start, M[i].end);
    }
  }

  lemma AlignedPage(a: nat, e: nat)
    requires a <= e && (a % PAGE == 0 || (e + 1) % PAGE == 0)
    ensures Up(a) <= Down(e + 1)
  {
  }

  /** A block whose borders cross is still recorded, as almost 4 GB from the next page on. */
  lemma CrossedRecorded(M: seq<Range>, i: nat)
    requires Ordered(M) && Below4G(M) && i < |M| && M[i].start >= MB && Up(M[i].start) > Down(M[i].end + 1)
    ensures Up(M[i].start) as int < TWO32 && Block(Up(M[i].start), 0xFFFF_F000) in Table(M)
  {
    var b := Block(M[i].start, M[i].end);
    RoundedLength(b);
    RoundedHigh(b);
    PageBorders(M[i].start, M[i].end);
    hide Up, Down, RoundBlock, Split, SetLength, Finished, Below4G, Ordered;
    assert Blocks(M)[i] == b;
    FinishedEntry(Blocks(M), i);
  }

  /** An entry that is not divided stands in the finished table with its length. */
  lemma FinishedEntry(t: seq<Block>, i: nat)
    requires i < |t| && !Crosses(RoundBlock(t[i]))
    ensures SetLength(RoundBlock(t[i])) in Finished(t)
  {
    var r := Rounded(t);
    var b := RoundBlock(t[i]);
    assert r[i] == b;
    hide RoundBlock, Split, SetLength, Crosses;
    var q := if |t| < TABLE then Split(r) else r;
    if |t| < TABLE { SplitLeaves(r, b); }
    var j :| 0 <= j < |q| && q[j] == b;
    assert Lengths(q)[j] == SetLength(b);
  }

  lemma {:induction false} SplitLeaves(t: seq<Block>, b: Block)
    requires b in t && !Crosses(b)
    ensures b in Split(t)
  {
    if !Crosses(t[0]) && b != t[0] {
      assert b in t[1..];
      SplitLeaves(t[1..], b);
    }
  }

  /** The table records exactly the surviving addresses of the blocks if and only if no block crosses. */
  lemma TableMeansIff(M: seq<Range>)
    requires Ordered(M) && Below4G(M)
    ensures (forall x: int :: Recorded(Table(M), x) <==> exists i :: 0 <= i < |M| && Survives(M[i], x)) <==>
      Fits(M)
  {
    hide Ordered, Below4G, Table, Up, Down;
    if Fits(M) {
      forall x: int
        ensures Recorded(Table(M), x) <==> exists i :: 0 <= i < |M| && Survives(M[i], x)
      {
        TableMeans(M, x);
      }
    } else {
      var i :| 0 <= i < |M| && M[i].start >= MB && Up(M[i].start) > Down(M[i].end + 1);
      CrossedRecorded(M, i);
      var u := Up(M[i].start);
      PageAbove(M[i].start);
      assert Block(u, 0xFFFF_F000) in Table(M);
      assert Recorded(Table(M), u + 0xFFFF_EFFF);
      assert forall j | 0 <= j < |M| :: !Survives(M[j], u + 0xFFFF_EFFF);
    }
  }

  lemma PageAbove(x: nat)
    ensures Up(x) >= x
  {
  }

  ghost predicate LowStarts(ma: seq<Range>) {
    forall i | 0 <= i < |ma| :: ma[i].start <= 0xFFFF_F000
  }

  lemma BlocksBelow(ma: seq<Range>, s: seq<Event>, M: seq<Range>)
    requires Made(ma, s, M) && s[0].start && LowStarts(ma)
    ensures Below4G(M)
  {
    forall i | 0 <= i < |M|
      ensures M[i].start as int <= TWO32 - PAGE
    {
      BlockStart(ma, s, M, i);
      var j :| 0 <= j < |ma| && Starts(ma)[j] == M[i].start;
    }
  }

  /** Overlapping ranges of 256 KB and more that leave a block of 64 bytes: it is recorded with 0xFFFFF000 bytes. */
  lemma CrossedExample(s: seq<Event>, M: seq<Range>)
    requires Made(CrossedRanges(0x20_0000), s, M)
    ensures Range(0x20_2010, 0x20_204F) in M && Block(0x20_3000, 0xFFFF_F000) in Table(M)
  {
    var ma := CrossedRanges(0x20_0000);
    CrossedBorders(ma);
    hide *;
    var i := CrossedBlock(ma, s, M);
    CrossedEnd(M, i, ma, s);
  }

  lemma CrossedBlock(ma: seq<Range>, s: seq<Event>, M: seq<Range>) returns (i: nat)
    requires Proper(ma) && NoClash(ma) && Made(ma, s, M) && Opens(ma, 0x20_2010) && Closes(ma, 0x20_204F)
    requires forall q | 0 <= q < |ma| && 0x20_2010 <= ma[q].end <= 0x20_204F :: ma[q].end == 0x20_204F
    ensures i < |M| && M[i] == Range(0x20_2010, 0x20_204F)
  {
    hide Proper, NoClash, EventsOf, Increasing, Ordered, Separate, Covered, Spanned, OpensAt, ClosesAt, Opens, Closes;
    var k, l := BorderEvents(ma, s, 0x20_2010, 0x20_204F);
    i := OpenedBlock(ma, s, M, k, l);
    var k1, l1 := BlockBorders(ma, s, M, i);
    var q := BoundaryAt(ma, s, l1);
  }

  lemma CrossedEnd(M: seq<Range>, i: nat, ma: seq<Range>, s: seq<Event>)
    requires Proper(ma) && Made(ma, s, M) && LowStarts(ma) && i < |M| && M[i] == Range(0x20_2010, 0x20_204F)
    ensures Range(0x20_2010, 0x20_204F) in M && Block(0x20_3000, 0xFFFF_F000) in Table(M)
  {
    EndsOfEvents(ma, s);
    BlocksBelow(ma, s, M);
    CrossedPages(M[i].start, M[i].end);
    hide Proper, EventsOf, Increasing, Separate, Ordered, Covered, Spanned, Table, Below4G, Up, Down;
    CrossedRecorded(M, i);
  }

  lemma CrossedPages(a: nat, e: nat)
    requires a == 0x20_2010 && e == 0x20_204F
    ensures Up(a) == 0x20_3000 && Down(e + 1) == 0x20_2000
  {
  }

  /** Lower memory and four overlapping reports around address m. */
  ghost function CrossedRanges(m: u32): seq<Range>
    requires m == 0x20_0000
  {
    [Range(0, 0x9_FFFF), Range(m / 2, m - 1), Range(m / 2 + 1, m + 0x204F), Range(m + 0x2010, 2 * m - 1),
     Range(m + 0x3000, 2 * m + m / 2 - 1)]
  }

  lemma CrossedBorders(ma: seq<Range>)
    requires ma == CrossedRanges(0x20_0000)
    ensures Proper(ma) && NoClash(ma) && LowStarts(ma) && Opens(ma, 0x20_2010) && Closes(ma, 0x20_204F)
    ensures forall q | 0 <= q < |ma| && 0x20_2010 <= ma[q].end <= 0x20_204F :: ma[q].end == 0x20_204F
  {
    CrossedOpens(ma);
    CrossedCloses(ma);
    hide Opens, Closes;
  }

  lemma CrossedOpens(ma: seq<Range>)
    requires ma == CrossedRanges(0x20_0000)
    ensures Opens(ma, 0x20_2010)
  {
    assert ma[3].start == 0x20_2010 && ma[1].end == 0x1F_FFFF;
    assert EndsAt(ma, 0x1F_FFFF);
    forall a: int | a < 0x20_2010 && StartsAt(ma, a)
      ensures a < 0x1F_FFFF
    {
    }
  }

  lemma CrossedCloses(ma: seq<Range>)
    requires ma == CrossedRanges(0x20_0000)
    ensures Closes(ma, 0x20_204F)
  {
    assert ma[2].end == 0x20_204F && ma[4].start == 0x20_3000;
    assert StartsAt(ma, 0x20_3000);
    forall c: int | 0x20_204F < c && EndsAt(ma, c)
      ensures c > 0x20_3000
    {
    }
  }

  // ----- hlp_basemem -----

  /** Starts and ends alternate when the ranges are disjoint. */
  lemma Alternate(ma: seq<Range>, s: seq<Event>, k: nat)
    requires Proper(ma) && Disjoint(ma) && EventsOf(ma, s) && Increasing(s) && k + 1 < |s|
    ensures s[k].start != s[k + 1].start
  {
    var i := BoundaryAt(ma, s, k);
    var j := BoundaryAt(ma, s, k + 1);
    ListedBoth(ma, s, i);
    ListedBoth(ma, s, j);
    ProperAt(ma, i);
    ProperAt(ma, j);
    hide Proper, EventsOf, Disjoint, Listed;
    if s[k].start && s[k + 1].start {
      NextListed(s, ma[i].end, k);
      Apart(ma, i, j, s[k + 1].addr);
    }
    if !s[k].start && !s[k + 1].start {
      NextListed(s, ma[j].start, k);
      Apart(ma, i, j, s[k].addr);
    }
  }

  lemma {:induction false} PiecesBound(s: seq<Event>, n: nat)
    requires 0 < n <= |s| && s[0].start
    ensures Pieces(s[..n]) <= if s[n - 1].start then n else n - 1
  {
    if n > 1 {
      hide Pieces;
      PiecesBound(s, n - 1);
      PiecesStep(s, n - 1);
    }
  }

  ghost predicate Alternating(s: seq<Event>) {
    s != [] && s[0].start && forall k | 0 <= k < |s| - 1 :: s[k].start != s[k + 1].start
  }

  lemma {:induction false} Parity(s: seq<Event>, n: nat)
    requires Alternating(s) && n < |s|
    ensures s[n].start == (n % 2 == 0)
  {
    if n > 0 {
      Parity(s, n - 1);
      assert s[n - 1].start != s[n - 1 + 1].start;
    }
  }

  lemma {:induction false} PiecesHalf(s: seq<Event>, n: nat)
    requires 0 < n <= |s| && Alternating(s)
    ensures Pieces(s[..n]) == (n + 1) / 2
  {
    if n > 1 {
      PiecesHalf(s, n - 1);
      Parity(s, n - 1);
      Parity(s, n - 2);
      hide Pieces, Alternating;
      PiecesStep(s, n - 1);
    }
  }

  lemma DisjointAlternate(ma: seq<Range>, s: seq<Event>)
    requires Proper(ma) && Disjoint(ma) && EventsOf(ma, s) && Increasing(s) && s != [] && s[0].start
    ensures Alternating(s)
  {
    hide Proper, Disjoint, EventsOf, Increasing;
    forall k | 0 <= k < |s| - 1
      ensures s[k].start != s[k + 1].start
    {
      Alternate(ma, s, k);
    }
  }

  /** Disjoint ranges take an entry each; any ranges take at most one for every border but the last. */
  lemma PiecesNeeded(ma: seq<Range>)
    requires Proper(ma)
    ensures Pieces(Borders(ma)) <= |Borders(ma)| - 1 <= 2 * |ma| - 1
    ensures Disjoint(ma) ==> Pieces(Borders(ma)) <= |ma|
  {
    BordersAre(ma);
    var s := Borders(ma);
    hide Pieces, Proper, Disjoint, EventsOf, Increasing, Borders;
    EndsOfEvents(ma, s);
    PiecesBound(s, |s|);
    if Disjoint(ma) {
      DisjointAlternate(ma, s);
      PiecesHalf(s, |s|);
    }
    assert s[..|s|] == s;
  }

  lemma {:induction false} PiecesAtMost(s: seq<Event>, n: nat)
    requires 0 < n <= |s|
    ensures Pieces(s[..n]) <= n
  {
    if n == 1 {
      OnePiece(s[0]);
      assert s[..1] == [s[0]];
    } else {
      hide Pieces;
      PiecesAtMost(s, n - 1);
      PiecesStep(s, n - 1);
    }
  }

  /** The low range is the first, and it alone starts at address 0. */
  ghost predicate LowFirst(ma: seq<Range>) {
    && ma != [] && ma[0].start == 0 < ma[0].end
    && forall i | 1 <= i < |ma| :: 0 < ma[i].start && 0 < ma[i].end
  }

  lemma FirstBorder(ma: seq<Range>)
    requires LowFirst(ma)
    ensures ma != [] && |Borders(ma)| >= 2 && Borders(ma)[0] == Event(0, true)
  {
    BordersAre(ma);
    hide Borders;
    LowestEvent(ma, Borders(ma));
  }

  lemma LowestEvent(ma: seq<Range>, s: seq<Event>)
    requires LowFirst(ma) && EventsOf(ma, s) && Increasing(s) && s != []
    ensures |s| >= 2 && s[0] == Event(0, true)
  {
    assert ma != [];
    hide *;
    LowAt(ma, 0);
    ListedBoth(ma, s, 0);
    ListedInside(s, 0);
    ListedInside(s, ma[0].end);
    var i := BoundaryAt(ma, s, 0);
    LowAt(ma, i);
    EventKind(ma, s, i);
  }

  lemma LowAt(ma: seq<Range>, i: nat)
    requires LowFirst(ma) && i < |ma|
    ensures ma[0].start == 0 && 0 < ma[i].end && (i > 0 ==> 0 < ma[i].start)
  {
  }

  lemma EventKind(ma: seq<Range>, s: seq<Event>, i: nat)
    requires s != [] && i < |ma| && s[0] == if s[0].start then StartOf(ma[i]) else EndOf(ma[i])
    ensures if s[0].start then s[0] == Event(ma[i].start, true) else s[0] == Event(ma[i].end, false)
  {
  }

  /** Sorted events of the ranges, one of every address. */
  method PrepareEvents(ma: seq<Range>) returns (sa: array<Event>, scount: nat)
    requires ma != []
    ensures fresh(sa) && scount < sa.Length && sa[..scount + 1] == Borders(ma)
  {
    hide Distinct, Selected, Raw;
    sa := new Event[2 * |ma|];
    CollectEvents(ma, sa);
    scount := SortEvents(sa, 2 * |ma| - 1);
    BordersIs(ma);
  }

  /** The merged blocks of a report are the maximal runs of what its borders span. */
  ghost predicate Collected(ma: seq<Range>, M: seq<Range>) {
    Made(ma, Borders(ma), M)
  }

  /** The entries after the merge: the blocks, and the open entry if the highest border is a start. */
  ghost function Entries(ma: seq<Range>, M: seq<Range>, old1: u32): seq<Block>
    requires Borders(ma) != []
  {
    MergeResult(M, LastEvent(Borders(ma)).start, Block(LastEvent(Borders(ma)).addr, old1))
  }

  /** The second word an open entry keeps: what the table held at its place. */
  ghost function OldWord(ma: seq<Range>, t: seq<Block>): u32 {
    var n := Pieces(Borders(ma));
    if 0 < n <= |t| then t[n - 1].blocklen else 0
  }

  /** From the ranges to the merged entries; ok says whether the blocks before the merge fit into the table. */
  method CollectBlocks(ma: seq<Range>, ppm: array<Block>) returns (ok: bool, count: nat, ghost M: seq<Range>)
    requires LowFirst(ma) && 0 < ppm.Length
    modifies ppm
    ensures ok <==> Pieces(Borders(ma)) <= ppm.Length
    ensures count <= ppm.Length && Borders(ma) != []
    ensures ok ==> Collected(ma, M) && ppm[..count] == Entries(ma, M, OldWord(ma, old(ppm[..])))
  {
    hide EventsOf, Increasing, Pieces, Borders, Spanned, Covered, Ordered, Separate, Holds, Swept, Drawn, LowFirst;
    FirstBorder(ma);
    BordersAre(ma);
    ghost var s, was := Borders(ma), ppm[..];
    var sa, scount := PrepareEvents(ma);
    assert s[0] == sa[0] && s[scount] == sa[scount] == LastEvent(s);
    var scnew;
    ghost var B;
    ok, scnew, B := Sweep(sa, scount, ppm);
    count, M := 0, [];
    if ok {
      DrawnParts(s, B, ppm[..], scnew);
      SomethingClosed(s, B);
      OldWordIs(ma, was);
      ghost var open := LastEvent(s).start;
      ghost var e := if open then ppm[|B|] else Block(0, 0);
      assert forall k :: 0 <= k < |B| ==> AsRange(ppm[..][k]) == B[k];
      count, M := Merge(ppm, scnew, B, open);
      MergedParts(B, M);
      MadeIs(ma, s, M);
    }
  }

  lemma OldWordIs(ma: seq<Range>, t: seq<Block>)
    requires 0 < Pieces(Borders(ma)) <= |t|
    ensures OldWord(ma, t) == t[Pieces(Borders(ma)) - 1].blocklen
  {
  }

  lemma MadeIs(ma: seq<Range>, s: seq<Event>, M: seq<Range>)
    requires s == Borders(ma) && EventsOf(ma, s) && Increasing(s) && s != [] && Ordered(M) && Separate(M)
    requires forall x: int :: Covered(M, x) <==> Spanned(s, x)
    ensures Collected(ma, M)
  {
  }

  /** With two borders something is closed. */
  lemma SomethingClosed(s: seq<Event>, B: seq<Range>)
    requires |s| >= 2 && Increasing(s) && forall x: int :: Covered(B, x) <==> Spanned(s, x)
    ensures B != []
  {
    EventInside(s, 0);
  }

  /** The rest of hlp_basemem: rounding, the division at 16 MB, and lengths instead of last addresses. */
  method Finish(ppm: array<Block>, ccount: nat) returns (count: nat)
    requires ccount <= ppm.Length && TABLE <= ppm.Length
    modifies ppm
    ensures count <= ppm.Length && ppm[..count] == Finished(old(ppm[..ccount]))
  {
    hide Rounded, Split, Lengths;
    count := ccount;
    Round(ppm, count);
    if count < TABLE {
      count := SplitBorder(ppm, count);
    }
    MakeLengths(ppm, count);
  }

  // ----- no table is too small -----

  /** Different values that all occur in another list are no more than that list has. */
  lemma {:induction false} Pigeon(xs: seq<int>, ys: seq<int>)
    requires forall i, j | 0 <= i < j < |xs| :: xs[i] != xs[j]
    requires forall i | 0 <= i < |xs| :: xs[i] in ys
    ensures |xs| <= |ys|
  {
    if xs != [] {
      var x := xs[|xs| - 1];
      var j :| 0 <= j < |ys| && ys[j] == x;
      var rest := ys[..j] + ys[j + 1..];
      var front := xs[..|xs| - 1];
      forall i | 0 <= i < |front|
        ensures front[i] in rest
      {
        assert front[i] == xs[i];
        var k :| 0 <= k < |ys| && ys[k] == xs[i];
        assert k < j ==> rest[k] == xs[i];
        assert k > j ==> rest[k - 1] == xs[i];
      }
      Pigeon(front, rest);
    }
  }

  ghost function Starts(M: seq<Range>): (r: seq<int>)
    ensures |r| == |M| && forall i :: 0 <= i < |M| ==> r[i] == M[i].start
  {
    seq(|M|, i requires 0 <= i < |M| => M[i].start)
  }

  lemma BlockStart(ma: seq<Range>, s: seq<Event>, M: seq<Range>, i: nat)
    requires Made(ma, s, M) && s[0].start && i < |M|
    ensures M[i].start in Starts(ma) && M[i].start <= M[i].end <= Closed(LastEvent(s))
  {
    BlockSpan(M, i);
    hide Ordered, Separate, EventsOf, Increasing, Covered;
    var k := SpanBegins(s, M[i].start);
    hide Spanned;
    var j := BoundaryAt(ma, s, k);
    assert Starts(ma)[j] == M[i].start;
  }

  lemma CountStarts(M: seq<Range>, ys: seq<int>, open: bool, a: int)
    requires Ordered(M) && (open ==> a in ys)
    requires forall i | 0 <= i < |M| :: M[i].start in ys && (open ==> M[i].start < a)
    ensures |M| + (if open then 1 else 0) <= |ys|
  {
    StartsDiffer(M);
    hide Ordered;
    if open {
      var xs := Starts(M) + [a];
      forall i, j | 0 <= i < j < |xs|
        ensures xs[i] != xs[j]
      {
        assert xs[i] == Starts(M)[i];
      }
      Pigeon(xs, ys);
    } else {
      Pigeon(Starts(M), ys);
    }
  }

  /** Every entry begins where some range begins, so there are no more entries than ranges. */
  lemma EntriesCount(ma: seq<Range>, M: seq<Range>, old1: u32)
    requires ma != [] && Borders(ma) != [] && Borders(ma)[0].start && Collected(ma, M)
    ensures |Entries(ma, M, old1)| <= |ma|
  {
    var s := Borders(ma);
    var last := LastEvent(s);
    EventsOfMade(ma, s, M);
    assert last.start ==> Closed(last) < last.addr;
    hide *;
    EntriesLength(ma, M, old1);
    CollectedIs(ma, M);
    MadeParts(ma, M);
    forall i | 0 <= i < |M|
      ensures M[i].start in Starts(ma) && M[i].start <= Closed(last)
    {
      BlockStart(ma, s, M, i);
    }
    if last.start {
      LastStart(ma, s);
    }
    CountStarts(M, Starts(ma), last.start, last.addr);
  }

  lemma LastStart(ma: seq<Range>, s: seq<Event>)
    requires EventsOf(ma, s) && s != [] && LastEvent(s).start
    ensures LastEvent(s).addr as int in Starts(ma)
  {
    var j := BoundaryAt(ma, s, |s| - 1);
    hide EventsOf;
    assert Starts(ma)[j] == ma[j].start;
  }

  lemma EntriesLength(ma: seq<Range>, M: seq<Range>, old1: u32)
    requires Borders(ma) != []
    ensures |Entries(ma, M, old1)| <= |M| + if LastEvent(Borders(ma)).start then 1 else 0
  {
    hide Borders;
  }

  lemma EventsOfMade(ma: seq<Range>, s: seq<Event>, M: seq<Range>)
    requires Made(ma, s, M)
    ensures EventsOf(ma, s) && s != [] && LastEvent(s) == s[|s| - 1]
  {
  }

  lemma StartsDiffer(M: seq<Range>)
    requires Ordered(M)
    ensures forall i, j | 0 <= i < j < |M| :: Starts(M)[i] != Starts(M)[j]
  {
    forall i, j | 0 <= i < j < |M|
      ensures Starts(M)[i] != Starts(M)[j]
    {
      assert M[i].start <= M[i].end < M[j].start;
    }
  }

  lemma {:induction false} SplitLength(t: seq<Block>)
    ensures |t| <= |Split(t)| <= |t| + 1
  {
    if t != [] && !Crosses(t[0]) { SplitLength(t[1..]); }
  }

  /**
   * The table as start.asm reserves it has 32 entries. The raw blocks of a report of ten entries always fit there, and
   * the finished table has at most one entry more than there are ranges.
   */
  method Basemem(int12: u16, acpi: array<AcpiInfo>, acpiCount: nat, m88: u16, e8: u16, ppm: array<Block>)
    returns (count: nat, ghost M: seq<Range>)
    requires acpiCount <= 10 && acpiCount <= acpi.Length && ppm.Length == 32
    modifies acpi, ppm
    ensures acpi[..acpiCount] == CutAll(old(acpi[..acpiCount]))
    ensures var ma := Reports(int12, old(acpi[..acpiCount]), m88, e8);
            && Collected(ma, M) && Borders(ma) != [] && count <= |ma| + 1 <= 12
            && ppm[..count] == Finished(Entries(ma, M, OldWord(ma, old(ppm[..]))))
  {
    hide CutAll, Reports, Collected, Entries, OldWord, Finished, Borders, Pieces, LowFirst;
    var ranges := new Range[128](i => Range(0, 0));
    ghost var t := ppm[..];
    var fcount := FindRanges(int12, acpi, acpiCount, m88, e8, ranges);
    var ma := ranges[..fcount + 1];
    ReportLow(int12, old(acpi[..acpiCount]), m88, e8);
    FirstBorder(ma);
    ReportRoom(ma);
    var ok, ccount;
    ok, ccount, M := CollectBlocks(ma, ppm);
    EntriesCount(ma, M, OldWord(ma, t));
    FinishedLength(ppm[..ccount]);
    count := Finish(ppm, ccount);
  }

  lemma FinishedLength(t: seq<Block>)
    ensures |Finished(t)| <= |t| + 1
  {
    SplitLength(Rounded(t));
    hide Split;
  }

  lemma ReportLow(int12: u16, es: seq<AcpiInfo>, m88: u16, e8: u16)
    ensures LowFirst(Reports(int12, es, m88, e8)) && |Reports(int12, es, m88, e8)| <= 1 + if |es| < 2 then 2 else |es|
  {
    var ma := Reports(int12, es, m88, e8);
    HighBorders(int12, es, m88, e8, 0);
    forall i | 1 <= i < |ma|
      ensures 0 < ma[i].start && 0 < ma[i].end
    {
      HighBorders(int12, es, m88, e8, i);
    }
  }

  lemma ReportRoom(ma: seq<Range>)
    requires ma != [] && |ma| <= 16 && Borders(ma) != []
    ensures Pieces(Borders(ma)) <= 32
  {
    BordersAre(ma);
    var s := Borders(ma);
    hide Borders, Pieces;
    PiecesAtMost(s, |s|);
    assert s[..|s|] == s;
  }

  lemma HoldsBlocks(t: seq<Block>, M: seq<Range>)
    requires Holds(t, M)
    ensures t[..|M|] == Blocks(M)
  {
    forall k | 0 <= k < |M|
      ensures t[k] == Block(M[k].start, M[k].end)
    {
      assert AsRange(t[k]) == M[k];
    }
  }

  lemma NothingPassed(sa: array<Event>, full: seq<Event>)
    requires 0 < |full| <= sa.Length && full == sa[..|full|]
    ensures Pending(sa, full, 0, 0)
  {
  }

  lemma AllPassed(sa: array<Event>, full: seq<Event>, scount: nat, scnew: nat)
    requires 0 < scount && |full| == scount + 1 && Pending(sa, full, scount, scnew)
    ensures scount < sa.Length && sa[scount] == full[scount] && scnew < scount
    ensures sa[..scnew + 1] == Distinct(full[..scount])
  {
    assert sa[scount] == sa[scount..|full|][0] == full[scount..][0];
  }

  lemma OnePiece(e: Event)
    ensures Pieces([e]) == 1
  {
  }

  lemma DrawnFirst(t: seq<Block>, e: Event)
    requires t != [] && e.start && t[0].startaddr == e.addr
    ensures Drawn(t, [], [e], 0)
  {
  }

  lemma MergingDone(t: seq<Block>, B: seq<Range>, M: seq<Range>)
    requires Merging(t, B, M, |B|)
    ensures Merged(B, M) && Holds(t, M) && |M| <= |B|
  {
    assert B[..|B|] == B;
  }

  lemma MergedParts(B: seq<Range>, M: seq<Range>)
    requires Merged(B, M)
    ensures Ordered(M) && Separate(M) && forall x: int :: Covered(M, x) <==> Covered(B, x)
  {
  }

  // ----- memory that nobody reported -----

  /** No border of the report lies above x. */
  ghost predicate Highest(ma: seq<Range>, x: int) {
    forall j | 0 <= j < |ma| :: ma[j].start <= x && ma[j].end <= x
  }

  /** Every border of the report lies in a reported range, but for a start above all other borders. */
  ghost predicate BordersBacked(ma: seq<Range>) {
    forall i | 0 <= i < |ma| ::
      InUnion(ma, ma[i].end) && (InUnion(ma, ma[i].start) || Highest(ma, ma[i].start))
  }

  lemma BackedAt(ma: seq<Range>, i: nat)
    requires BordersBacked(ma) && i < |ma|
    ensures InUnion(ma, ma[i].end) && (InUnion(ma, ma[i].start) || Highest(ma, ma[i].start))
  {
  }

  lemma NoClashAt(ma: seq<Range>, i: nat, j: nat)
    requires NoClash(ma) && i < |ma| && j < |ma|
    ensures ma[i].start != ma[j].end
  {
  }

  /** If borders are backed, so is everything between them that counts as memory. */
  lemma BackedInside(ma: seq<Range>, s: seq<Event>, x: int)
    requires NoClash(ma) && EventsOf(ma, s) && Increasing(s) && BordersBacked(ma) && Spanned(s, x)
    ensures InUnion(ma, x)
  {
    hide NoClash, EventsOf, Increasing, BordersBacked, Highest, InUnion, Listed;
    var k := Between(s, x);
    var i := BoundaryAt(ma, s, k);
    BackedAt(ma, i);
    if s[k].start {
      BackedStart(ma, s, k, i, x);
    } else if s[k].addr != x {
      assert !Gap(s, k, x);
      var j := BoundaryAt(ma, s, k + 1);
      BackedAt(ma, j);
      BackedEnd(ma, s, k, j, x);
    }
  }

  lemma BackedStart(ma: seq<Range>, s: seq<Event>, k: nat, i: nat, x: int)
    requires NoClash(ma) && EventsOf(ma, s) && Increasing(s) && i < |ma| && k + 1 < |s| && s[k] == StartOf(ma[i])
    requires s[k].addr <= x < s[k + 1].addr && (InUnion(ma, ma[i].start) || Highest(ma, ma[i].start))
    ensures InUnion(ma, x)
  {
    hide NoClash, EventsOf, Increasing, Listed, Highest;
    NotHighest(ma, s, k);
    var r :| 0 <= r < |ma| && In(ma[i].start, ma[r]);
    ListedBoth(ma, s, r);
    NoClashAt(ma, i, r);
    NextListed(s, ma[r].end, k);
    assert In(x, ma[r]);
  }

  lemma NotHighest(ma: seq<Range>, s: seq<Event>, k: nat)
    requires EventsOf(ma, s) && Increasing(s) && k + 1 < |s|
    ensures !Highest(ma, s[k].addr)
  {
    Neighbours(s, k);
    var j := BoundaryAt(ma, s, k + 1);
    hide EventsOf, Increasing;
  }

  lemma BackedEnd(ma: seq<Range>, s: seq<Event>, k: nat, j: nat, x: int)
    requires NoClash(ma) && EventsOf(ma, s) && Increasing(s) && j < |ma| && k + 1 < |s| && s[k + 1] == EndOf(ma[j])
    requires s[k].addr < x < s[k + 1].addr && InUnion(ma, ma[j].end)
    ensures InUnion(ma, x)
  {
    var r :| 0 <= r < |ma| && In(ma[j].end, ma[r]);
    hide EventsOf, Increasing, Listed;
    ListedBoth(ma, s, r);
    NoClashAt(ma, r, j);
    NextListed(s, ma[r].start, k);
    assert In(x, ma[r]);
  }

  /**
   * For any ranges, in order or not: the sweep makes up no memory exactly if every reported border, but for a start
   * above all others, lies in a reported range.
   */
  lemma PhantomIff(ma: seq<Range>, s: seq<Event>)
    requires NoClash(ma) && EventsOf(ma, s) && Increasing(s)
    ensures (forall x: int | Spanned(s, x) :: InUnion(ma, x)) <==> BordersBacked(ma)
  {
    hide NoClash, EventsOf, Increasing, Spanned, InUnion, Highest, Listed;
    if BordersBacked(ma) {
      forall x: int | Spanned(s, x)
        ensures InUnion(ma, x)
      {
        BackedInside(ma, s, x);
      }
    }
    if forall x: int | Spanned(s, x) :: InUnion(ma, x) {
      forall i | 0 <= i < |ma|
        ensures InUnion(ma, ma[i].end) && (InUnion(ma, ma[i].start) || Highest(ma, ma[i].start))
      {
        BorderSpanned(ma, s, i);
      }
    }
  }

  /** Every end counts as memory, and every start with a border above it. */
  lemma BorderSpanned(ma: seq<Range>, s: seq<Event>, i: nat)
    requires NoClash(ma) && EventsOf(ma, s) && Increasing(s) && i < |ma|
    ensures Spanned(s, ma[i].end) && (Spanned(s, ma[i].start) || Highest(ma, ma[i].start))
  {
    hide NoClash, EventsOf, Increasing, Spanned, Listed, StartsAt, EndsAt;
    BorderKinds(ma, i);
    var k := EventFor(ma, s, ma[i].start);
    var l := EventFor(ma, s, ma[i].end);
    EventInside(s, k);
    EventInside(s, l);
    if k + 1 >= |s| {
      forall j | 0 <= j < |ma|
        ensures ma[j].start <= ma[i].start && ma[j].end <= ma[i].start
      {
        ListedBoth(ma, s, j);
        ListedInside(s, ma[j].start);
        ListedInside(s, ma[j].end);
      }
    }
  }

  lemma BorderKinds(ma: seq<Range>, i: nat)
    requires i < |ma|
    ensures StartsAt(ma, ma[i].start) && EndsAt(ma, ma[i].end)
  {
  }

  // ----- what the table says about a report -----

  /** A report whose entries start below 0xFFFFEFFF: all memory in the table was reported, and no entry stays open. */
  lemma ReportSound(int12: u16, es: seq<AcpiInfo>, m88: u16, e8: u16, M: seq<Range>)
    requires StartsBelow(es, e8, 0xFFFF_EFFF) && Collected(Reports(int12, es, m88, e8), M)
    ensures var ma := Reports(int12, es, m88, e8);
            && Borders(ma) != [] && !LastEvent(Borders(ma)).start && (forall old1 :: Entries(ma, M, old1) == Blocks(M))
            && forall x: int :: Covered(M, x) ==> InUnion(ma, x)
  {
    var ma := Reports(int12, es, m88, e8);
    ProperIff(int12, es, m88, e8);
    BordersAre(ma);
    hide Reports, Borders, Proper, EventsOf, Increasing, Covered, InUnion, Spanned, Ordered, Separate;
    EndsOfEvents(ma, Borders(ma));
    forall x: int | Covered(M, x)
      ensures InUnion(ma, x)
    {
      SpannedInUnion(ma, Borders(ma), x);
    }
  }

  /** For every such report the table is right exactly if no page is left incomplete between the borders of a block. */
  lemma ReportIff(int12: u16, es: seq<AcpiInfo>, m88: u16, e8: u16, M: seq<Range>)
    requires StartsBelow(es, e8, 0xFFFF_EFFF) && Collected(Reports(int12, es, m88, e8), M)
    ensures var ma := Reports(int12, es, m88, e8);
            (forall x: int :: Recorded(Table(M), x) <==> exists i :: 0 <= i < |M| && Survives(M[i], x)) <==>
            PagesWhole(Borders(ma))
  {
    var ma := Reports(int12, es, m88, e8);
    ProperIff(int12, es, m88, e8);
    forall i | 0 <= i < |ma|
      ensures ma[i].start <= 0xFFFF_F000
    {
      ProperStarts(int12, es, m88, e8, i);
    }
    ReportLow(int12, es, m88, e8);
    hide Reports, Borders, Proper;
    FirstBorder(ma);
    hide LowFirst;
    BlocksBelow(ma, Borders(ma), M);
    FitsIff(ma, Borders(ma), M);
    TableMeansIff(M);
  }

  /** Disjoint ranges whose entries start at 0xFFFFD000 at the latest never leave a page incomplete. */
  lemma ReportLong(int12: u16, es: seq<AcpiInfo>, m88: u16, e8: u16, M: seq<Range>)
    requires StartsBelow(es, e8, 0xFFFF_D001) && (es == [] ==> m88 == 0 || m88 >= 8)
    requires Disjoint(Reports(int12, es, m88, e8)) && Collected(Reports(int12, es, m88, e8), M)
    ensures Fits(M) && forall x: int :: Covered(M, x) <==> InUnion(Reports(int12, es, m88, e8), x)
  {
    var ma := Reports(int12, es, m88, e8);
    assert StartsBelow(es, e8, 0xFFFF_EFFF);
    ProperIff(int12, es, m88, e8);
    ReportSound(int12, es, m88, e8, M);
    forall i | 0 <= i < |ma| && ma[i].start >= MB
      ensures ma[i].start + 2 * PAGE <= ma[i].end + 1
    {
      HighBorders(int12, es, m88, e8, 0);
      LongRanges(int12, es, m88, e8, i);
    }
    hide Reports, Borders, Proper, EventsOf, Increasing, Covered, InUnion, Spanned, Ordered, Separate, Disjoint;
    forall x: int | InUnion(ma, x)
      ensures Covered(M, x)
    {
      UnionSpanned(ma, Borders(ma), x);
    }
    LongRangesFit(ma, M);
  }

  // ----- how many entries overlapping ranges take -----

  ghost function Addresses(s: seq<Event>): (r: seq<int>)
    ensures |r| == |s| && forall i :: 0 <= i < |s| ==> r[i] == s[i].addr
  {
    seq(|s|, i requires 0 <= i < |s| => s[i].addr)
  }

  /** No two borders of the report have the same address. */
  ghost predicate BordersDiffer(ma: seq<Range>) {
    forall k, l | 0 <= k < l < 2 * |ma| :: Raw(ma)[k].addr != Raw(ma)[l].addr
  }

  /** Then the elimination drops none. */
  lemma AllBorders(ma: seq<Range>)
    requires ma != [] && BordersDiffer(ma)
    ensures |Borders(ma)| == 2 * |ma|
  {
    BordersAre(ma);
    var raw, s := Raw(ma), Borders(ma);
    hide Borders, Raw;
    forall k | 0 <= k < |raw|
      ensures Addresses(raw)[k] in Addresses(s)
    {
      RawListed(ma, s, k);
      var j :| 0 <= j < |s| && s[j].addr == raw[k].addr;
      assert Addresses(s)[j] == raw[k].addr;
    }
    Pigeon(Addresses(raw), Addresses(s));
  }

  lemma RawListed(ma: seq<Range>, s: seq<Event>, k: nat)
    requires EventsOf(ma, s) && k < 2 * |ma|
    ensures Listed(s, Raw(ma)[k].addr)
  {
    RawAt(ma, k);
    hide *;
    ListedBoth(ma, s, k / 2);
  }

  lemma RawAt(ma: seq<Range>, k: nat)
    requires k < 2 * |ma|
    ensures k / 2 < |ma| && (Raw(ma)[k].addr == ma[k / 2].start || Raw(ma)[k].addr == ma[k / 2].end)
  {
    hide Raw;
    var i := k / 2;
    assert Raw(ma)[2 * i] == StartOf(ma[i]) && Raw(ma)[2 * i + 1] == EndOf(ma[i]);
  }

  /** The low range ends before all others start, and none of the others ends before all have started. */
  ghost predicate Common(ma: seq<Range>) {
    && (forall i | 1 <= i < |ma| :: ma[0].end < ma[i].start)
    && forall i, j | 1 <= i < |ma| && 1 <= j < |ma| :: ma[i].start < ma[j].end
  }

  /** The low range beside n ranges with an address in common and different borders takes 2 * n entries. */
  lemma CommonPieces(ma: seq<Range>)
    requires LowFirst(ma) && |ma| >= 2 && BordersDiffer(ma) && Common(ma)
    ensures Pieces(Borders(ma)) == 2 * (|ma| - 1)
  {
    hide *;
    FirstBorder(ma);
    BordersAre(ma);
    AllBorders(ma);
    var s := Borders(ma);
    SecondBorder(ma, s);
    assert s[..|s|] == s;
    LastIsEnd(ma, s);
    CommonPrefix(ma, s, |s|);
  }

  lemma CommonAt(ma: seq<Range>, i: nat, j: nat)
    requires Common(ma) && LowFirst(ma) && i < |ma| && j < |ma|
    ensures ma[0].start == 0 < ma[0].end
    ensures i > 0 ==> ma[0].end < ma[i].start && ma[0].end < ma[i].end
    ensures i > 0 && j > 0 ==> ma[i].start < ma[j].end
  {
    if i > 0 { assert ma[i].start < ma[i].end; }
  }

  /** The second border is the end of the low range. */
  lemma SecondBorder(ma: seq<Range>, s: seq<Event>)
    requires EventsOf(ma, s) && Increasing(s) && |s| >= 2 && LowFirst(ma) && Common(ma) && s[0] == Event(0, true)
    ensures s[1] == EndOf(ma[0])
  {
    assert ma != [];
    hide EventsOf, Increasing, LowFirst, Common, Listed;
    ListedBoth(ma, s, 0);
    Neighbours(s, 0);
    var i := BoundaryAt(ma, s, 1);
    CommonAt(ma, i, 0);
    NextListed(s, ma[0].end, 0);
  }

  /** Borders behind the second one belong to the other ranges. */
  lemma OtherBorder(ma: seq<Range>, s: seq<Event>, k: nat) returns (i: nat)
    requires EventsOf(ma, s) && Increasing(s) && 2 <= k < |s| && LowFirst(ma) && Common(ma) && s[1] == EndOf(ma[0])
    ensures 0 < i < |ma| && s[k] == if s[k].start then StartOf(ma[i]) else EndOf(ma[i])
  {
    hide EventsOf, Increasing, LowFirst, Common, Listed;
    i := BoundaryAt(ma, s, k);
    CommonAt(ma, i, 0);
    EventOrder(s, 1, k);
  }

  lemma LastIsEnd(ma: seq<Range>, s: seq<Event>)
    requires EventsOf(ma, s) && Increasing(s) && |s| == 2 * |ma| >= 4 && LowFirst(ma) && Common(ma)
    requires s[1] == EndOf(ma[0])
    ensures !s[|s| - 1].start
  {
    hide EventsOf, Increasing, LowFirst, Common, Listed;
    var i := OtherBorder(ma, s, |s| - 1);
    ListedBoth(ma, s, i);
    ListedInside(s, ma[i].end);
    CommonAt(ma, i, i);
  }

  lemma {:induction false} CommonPrefix(ma: seq<Range>, s: seq<Event>, n: nat)
    requires EventsOf(ma, s) && Increasing(s) && 3 <= n <= |s| && LowFirst(ma) && Common(ma)
    requires s[0].start && s[1] == EndOf(ma[0])
    ensures Pieces(s[..n]) == if s[n - 1].start then n - 1 else n - 2
  {
    hide EventsOf, Increasing, LowFirst, Common, Listed;
    var j := OtherBorder(ma, s, n - 1);
    if n == 3 {
      ThirdBorder(ma, s, j);
      assert s[..1] == [s[0]];
      OnePiece(s[0]);
      PiecesStep(s, 1);
      PiecesStep(s, 2);
    } else {
      CommonPrefix(ma, s, n - 1);
      PiecesStep(s, n - 1);
      Neighbours(s, n - 2);
      var i := OtherBorder(ma, s, n - 2);
      CommonAt(ma, j, i);
    }
  }

  lemma ThirdBorder(ma: seq<Range>, s: seq<Event>, i: nat)
    requires EventsOf(ma, s) && Increasing(s) && |s| >= 3 && LowFirst(ma) && Common(ma) && 0 < i < |ma|
    requires s[1] == EndOf(ma[0]) && s[2] == if s[2].start then StartOf(ma[i]) else EndOf(ma[i])
    ensures s[2].start
  {
    hide EventsOf, Increasing, LowFirst, Common, Listed;
    CommonAt(ma, i, i);
    ListedBoth(ma, s, i);
    NextListed(s, ma[i].start, 1);
    Neighbours(s, 1);
  }

  // ----- reports that show it -----

  /** 2 GB from 1 MB on, and an entry that starts inside the last page. */
  function StrayEntries(b: u32): (es: seq<AcpiInfo>)
    ensures |es| == 2
  {
    [AcpiInfo(0x10_0000, 0, 0x7FF0_0000, 0), AcpiInfo(b, 0, 0x4_0000, 0)]
  }

  ghost predicate Stray(ma: seq<Range>, b: u32) {
    ma == [Range(0, 0x9_FFFF), Range(0x10_0000, 0x7FFF_FFFF), Range(b, 0xFFFF_EFFF)] && 0xFFFF_EFFF < b
  }

  lemma StrayRanges(b: u32)
    requires 0xFFFF_EFFF < b
    ensures Stray(Reports(640, StrayEntries(b), 0, 0), b)
  {
    var es := StrayEntries(b);
    assert Taken(es[0]) && Taken(es[1]);
    EveryTaken(es);
    OverflowRange(es[1]);
  }

  lemma StraySweep(ma: seq<Range>, b: u32, x: int)
    requires Stray(ma, b) && 0x8000_0000 <= x <= 0xFFFF_EFFF
    ensures Borders(ma) != [] && Borders(ma)[0].start && LastEvent(Borders(ma)) == Event(b, true)
    ensures Spanned(Borders(ma), x) && !InUnion(ma, x) && !BordersBacked(ma)
  {
    StrayBorders(ma, b, x);
    hide *;
    FirstBorder(ma);
    BordersAre(ma);
    StretchSpanned(ma, Borders(ma), x, 0xFFFF_EFFF);
    HighestStart(ma, Borders(ma), b);
  }

  /**
   * An entry that starts in the last page but one or behind passes the filter and makes up memory: everything from the
   * end of the reported memory to 0xFFFFEFFF counts as part of a block, and the entry itself stays open.
   */
  lemma StrayReport(b: u32, x: int)
    requires 0xFFFF_EFFF < b && 0x8000_0000 <= x <= 0xFFFF_EFFF
    ensures var ma := Reports(640, StrayEntries(b), 0, 0);
            && Borders(ma) != [] && LastEvent(Borders(ma)) == Event(b, true)
            && Spanned(Borders(ma), x) && !InUnion(ma, x) && !BordersBacked(ma)
  {
    hide *;
    StrayRanges(b);
    StraySweep(Reports(640, StrayEntries(b), 0, 0), b, x);
  }

  /** All borders lie below x or from hi on. */
  ghost predicate NoneBetween(ma: seq<Range>, x: int, hi: int) {
    forall i | 0 <= i < |ma| :: (ma[i].start < x || hi <= ma[i].start) && (ma[i].end < x || hi <= ma[i].end)
  }

  lemma BetweenAt(ma: seq<Range>, x: int, hi: int, i: nat)
    requires NoneBetween(ma, x, hi) && i < |ma|
    ensures (ma[i].start < x || hi <= ma[i].start) && (ma[i].end < x || hi <= ma[i].end)
  {
  }

  lemma StrayBorders(ma: seq<Range>, b: u32, x: int)
    requires Stray(ma, b) && 0x8000_0000 <= x <= 0xFFFF_EFFF
    ensures LowFirst(ma) && NoClash(ma) && StartsAt(ma, b) && Highest(ma, b) && EndsAt(ma, 0xFFFF_EFFF)
    ensures NoneBetween(ma, x, 0xFFFF_EFFF) && !InUnion(ma, x) && !BordersBacked(ma)
  {
    assert ma[2].start == b && ma[2].end == 0xFFFF_EFFF;
    StrayUnion(ma, b, 0xFFFF_EFFF);
    StrayUnion(ma, b, x);
    hide InUnion;
    assert !InUnion(ma, ma[2].end);
  }

  lemma StrayUnion(ma: seq<Range>, b: u32, x: int)
    requires Stray(ma, b) && 0x8000_0000 <= x <= 0xFFFF_EFFF
    ensures !InUnion(ma, x)
  {
  }

  /** What lies right below an end counts as memory. */
  lemma StretchSpanned(ma: seq<Range>, s: seq<Event>, x: int, hi: int)
    requires NoClash(ma) && EventsOf(ma, s) && Increasing(s) && s != [] && s[0].addr <= x <= hi
    requires EndsAt(ma, hi) && NoneBetween(ma, x, hi)
    ensures Spanned(s, x)
  {
    hide NoClash, EventsOf, Increasing, Listed, StartsAt, EndsAt, NoneBetween, Gap;
    var l := EventFor(ma, s, hi);
    EventOrder(s, l, |s| - 1);
    EventInside(s, l);
    forall j: nat
      ensures !Gap(s, j, x)
    {
      StretchGap(ma, s, x, hi, j, l);
    }
  }

  lemma StretchGap(ma: seq<Range>, s: seq<Event>, x: int, hi: int, j: nat, l: nat)
    requires EventsOf(ma, s) && Increasing(s) && x <= hi && NoneBetween(ma, x, hi)
    requires l < |s| && s[l].addr == hi && !s[l].start
    ensures !Gap(s, j, x)
  {
    if j + 1 < |s| && s[j].addr < x < s[j + 1].addr {
      hide EventsOf, Increasing, Listed, NoneBetween;
      var i := BoundaryAt(ma, s, j + 1);
      BetweenAt(ma, x, hi, i);
      EventOrder(s, j, l);
      EventOrder(s, l, j + 1);
    }
  }

  lemma HighestStart(ma: seq<Range>, s: seq<Event>, b: int)
    requires NoClash(ma) && EventsOf(ma, s) && Increasing(s) && s != [] && StartsAt(ma, b) && Highest(ma, b)
    ensures LastEvent(s).addr == b && LastEvent(s).start
  {
    hide NoClash, EventsOf, Increasing, Listed, StartsAt, EndsAt;
    var k := EventFor(ma, s, b);
    var i := BoundaryAt(ma, s, |s| - 1);
    EventOrder(s, k, |s| - 1);
  }

  /** More entries leave what is recorded. */
  lemma FinishedMore(t: seq<Block>, e: Block, x: int)
    requires |t| + 1 < TABLE && Recorded(Finished(t), x)
    ensures Recorded(Finished(t + [e]), x)
  {
    var r := Rounded(t);
    assert Rounded(t + [e]) == r + [RoundBlock(e)];
    SplitPrefix(r, RoundBlock(e));
    var p, q := Split(r), Split(r + [RoundBlock(e)]);
    hide Rounded, Split, SetLength, RoundBlock;
    var i :| 0 <= i < |Lengths(p)| && Lengths(p)[i].startaddr <= x < Lengths(p)[i].startaddr + Lengths(p)[i].blocklen;
    assert p[i] == q[i];
    assert Lengths(q)[i] == Lengths(p)[i];
  }

  lemma {:induction false} SplitPrefix(t: seq<Block>, e: Block)
    ensures Split(t) <= Split(t + [e])
  {
    if t != [] {
      assert (t + [e])[1..] == t[1..] + [e];
      if !Crosses(t[0]) { SplitPrefix(t[1..], e); }
    }
  }

  /** Blocks of the example begin at 0 or at 1 MB. */
  lemma StrayStarts(ma: seq<Range>, b: u32, M: seq<Range>, i: nat)
    requires Stray(ma, b) && Collected(ma, M) && i < |M|
    ensures M[i].start == 0 || M[i].start == 0x10_0000
  {
    ThreeStarts(ma, b);
    assert Closed(Event(b, true)) == b - 1;
    hide *;
    CollectedIs(ma, M);
    StraySweep(ma, b, 0x8000_0000);
    BlockStart(ma, Borders(ma), M, i);
  }

  lemma CollectedIs(ma: seq<Range>, M: seq<Range>)
    ensures Collected(ma, M) == Made(ma, Borders(ma), M)
  {
  }

  lemma MadeParts(ma: seq<Range>, M: seq<Range>)
    requires Collected(ma, M)
    ensures Ordered(M) && Separate(M) && forall x: int :: Covered(M, x) <==> Spanned(Borders(ma), x)
  {
  }

  lemma ThreeStarts(ma: seq<Range>, b: u32)
    requires Stray(ma, b)
    ensures Starts(ma) == [0, 0x10_0000, b as int]
  {
  }

  lemma StrayFits(ma: seq<Range>, b: u32, M: seq<Range>)
    requires Stray(ma, b) && Collected(ma, M)
    ensures Fits(M) && Below4G(M)
  {
    hide Stray, Collected, Up, Down;
    MadeParts(ma, M);
    hide Ordered, Separate, Covered, Spanned;
    forall i | 0 <= i < |M|
      ensures M[i].start <= 0x10_0000 && Up(M[i].start) <= Down(M[i].end + 1)
    {
      StrayStarts(ma, b, M, i);
      BlockSpan(M, i);
      AlignedPage(M[i].start, M[i].end);
    }
  }

  /** The block that holds x reaches to 0xFFFFEFFF. */
  lemma StrayBlock(ma: seq<Range>, b: u32, M: seq<Range>, x: int) returns (i: nat)
    requires Stray(ma, b) && Collected(ma, M) && 0x8000_0000 <= x <= 0xFFFF_EFFF
    ensures i < |M| && Survives(M[i], x)
  {
    hide Stray, Collected, Borders, Spanned, Ordered, Separate;
    MadeParts(ma, M);
    var top: int := 0xFFFF_EFFF;
    forall y: int | x <= y <= top
      ensures Covered(M, y)
    {
      StraySweep(ma, b, y);
    }
    assert Covered(M, x);
    i :| 0 <= i < |M| && In(x, M[i]);
    hide Covered;
    StrayStarts(ma, b, M, i);
    SameBlock(M, i, x, top);
    StrayPages(M[i], x);
  }

  lemma StrayPages(r: Range, x: int)
    requires (r.start == 0 || r.start == 0x10_0000) && In(x, r) && In(0xFFFF_EFFF, r) && 0x8000_0000 <= x <= 0xFFFF_EFFF
    ensures Survives(r, x)
  {
  }

  /** Just below the open start nothing counts as memory. */
  lemma StrayEnds(ma: seq<Range>, s: seq<Event>, b: u32)
    requires Stray(ma, b) && 0xFFFF_F000 < b
    requires EventsOf(ma, s) && Increasing(s) && NoClash(ma) && EndsAt(ma, 0xFFFF_EFFF) && s != []
    requires LastEvent(s) == Event(b, true)
    ensures !Spanned(s, b - 1)
  {
    hide EventsOf, Increasing, NoClash, Listed, StartsAt, EndsAt;
    var l := EventFor(ma, s, 0xFFFF_EFFF);
    EventOrder(s, l, |s| - 1);
    if l + 1 < |s| - 1 {
      var i := BoundaryAt(ma, s, l + 1);
      EventOrder(s, l, l + 1);
      EventOrder(s, l + 1, |s| - 1);
    }
    assert l == |s| - 2;
    assert Gap(s, l, b - 1);
  }

  lemma StrayApart(ma: seq<Range>, b: u32, M: seq<Range>)
    requires Stray(ma, b) && 0xFFFF_F000 < b && Collected(ma, M)
    ensures |M| <= 2 && (M != [] ==> M[|M| - 1].end + 1 != b)
  {
    StrayBorders(ma, b, 0x8000_0000);
    hide *;
    MadeParts(ma, M);
    var two := [0, 0x10_0000];
    forall i | 0 <= i < |M|
      ensures Starts(M)[i] in two
    {
      StrayStarts(ma, b, M, i);
      assert Starts(M)[i] == two[0] || Starts(M)[i] == two[1];
    }
    StartsDiffer(M);
    Pigeon(Starts(M), two);
    if M != [] {
      BlockSpan(M, |M| - 1);
      StraySweep(ma, b, 0x8000_0000);
      LowNotEmpty(ma);
      BordersAre(ma);
      StrayEnds(ma, Borders(ma), b);
    }
  }

  lemma LowNotEmpty(ma: seq<Range>)
    requires LowFirst(ma)
    ensures ma != []
  {
  }

  lemma StrayJoined(ma: seq<Range>, M: seq<Range>, b: u32, old1: u32, x: int)
    requires Borders(ma) != [] && LastEvent(Borders(ma)) == Event(b, true) && |M| <= 2 && Recorded(Table(M), x)
    requires M != [] ==> M[|M| - 1].end + 1 != b
    ensures Recorded(Finished(Entries(ma, M, old1)), x)
  {
    hide Borders, Recorded, Finished;
    FinishedMore(Blocks(M), Block(b, old1), x);
  }

  /** Whatever the table held before, the finished table records the memory nobody reported. */
  lemma StrayTable(b: u32, M: seq<Range>, old1: u32, x: int)
    requires 0xFFFF_F000 < b && Collected(Reports(640, StrayEntries(b), 0, 0), M) && 0x8000_0000 <= x <= 0xFFFF_EFFF
    ensures var ma := Reports(640, StrayEntries(b), 0, 0);
            Borders(ma) != [] && Recorded(Finished(Entries(ma, M, old1)), x) && !InUnion(ma, x)
  {
    hide *;
    var ma := Reports(640, StrayEntries(b), 0, 0);
    StrayRanges(b);
    StraySweep(ma, b, x);
    MadeParts(ma, M);
    StrayFits(ma, b, M);
    StrayApart(ma, b, M);
    var i := StrayBlock(ma, b, M, x);
    TableMeans(M, x);
    StrayJoined(ma, M, b, old1, x);
  }

  lemma {:induction false} EveryTaken(es: seq<AcpiInfo>)
    requires forall i | 0 <= i < |es| :: Taken(es[i])
    ensures |AcpiRanges(es)| == |es| && forall i | 0 <= i < |es| :: AcpiRanges(es)[i] == RangeOf(es[i])
  {
    if es != [] {
      EveryTaken(es[..|es| - 1]);
      hide Taken, RangeOf;
    }
  }

  /** n ranges, each inside the one before, from 16 MB to 64 MB. */
  function Nested(n: nat): (es: seq<AcpiInfo>)
    requires n <= 10
    ensures |es| == n
    ensures forall i :: 0 <= i < n ==> es[i] == AcpiInfo((16 + i) * 0x10_0000, 0, (48 - 2 * i) * 0x10_0000, 0)
  {
    seq(n, i requires 0 <= i < n => AcpiInfo((16 + i) * 0x10_0000, 0, (48 - 2 * i) * 0x10_0000, 0))
  }

  lemma NestedRanges(n: nat)
    requires 1 <= n <= 10
    ensures var ma := Reports(640, Nested(n), 0, 0);
            && |ma| == n + 1 && ma[0] == Range(0, 0x9_FFFF)
            && forall i | 1 <= i <= n :: ma[i] == Range((15 + i) * 0x10_0000, (65 - i) * 0x10_0000 - 1)
  {
    var es := Nested(n);
    hide Nested;
    forall i | 0 <= i < n
      ensures Taken(es[i]) && RangeOf(es[i]) == Range((16 + i) * 0x10_0000, (64 - i) * 0x10_0000 - 1)
    {
      NestedRange(es[i], i);
    }
    hide Taken, RangeOf;
    EveryTaken(es);
    hide AcpiRanges;
    var ma := Reports(640, es, 0, 0);
    forall i | 1 <= i <= n
      ensures ma[i] == Range((15 + i) * 0x10_0000, (65 - i) * 0x10_0000 - 1)
    {
      assert ma[i] == RangeOf(es[i - 1]);
    }
  }

  lemma NestedRange(e: AcpiInfo, i: nat)
    requires i < 10 && e == AcpiInfo((16 + i) * 0x10_0000, 0, (48 - 2 * i) * 0x10_0000, 0)
    ensures Taken(e) && RangeOf(e) == Range((16 + i) * 0x10_0000, (64 - i) * 0x10_0000 - 1)
  {
  }

  /** Beside the low range eight nested ranges fill a table of 16 entries, nine need 18. */
  lemma NestedReport(n: nat)
    requires 1 <= n <= 10
    ensures Pieces(Borders(Reports(640, Nested(n), 0, 0))) == 2 * n
  {
    var ma := Reports(640, Nested(n), 0, 0);
    NestedRanges(n);
    hide Reports, Borders, Pieces;
    NestedDiffer(ma, n);
    CommonPieces(ma);
  }

  lemma NestedDiffer(ma: seq<Range>, n: nat)
    requires 1 <= n <= 10 && |ma| == n + 1 && ma[0] == Range(0, 0x9_FFFF)
    requires forall i | 1 <= i <= n :: ma[i] == Range((15 + i) * 0x10_0000, (65 - i) * 0x10_0000 - 1)
    ensures LowFirst(ma) && Common(ma) && BordersDiffer(ma)
  {
    var raw := Raw(ma);
    hide Raw;
    forall k, l | 0 <= k < l < 2 * |ma|
      ensures raw[k].addr != raw[l].addr
    {
      var i, j := k / 2, l / 2;
      assert raw[2 * i] == StartOf(ma[i]) && raw[2 * i + 1] == EndOf(ma[i]);
      assert raw[2 * j] == StartOf(ma[j]) && raw[2 * j + 1] == EndOf(ma[j]);
    }
  }
}
