/** What remove_chain leaves of the objects of an exFAT volume. */
module ObjCut {
  import opened Machine
  import opened BitStream
  import opened FatTable
  import opened Window
  import opened Chains
  import opened ExFatAlloc
  import opened FatAlloc
  import opened ObjChains

  /** The size takes every cluster of the object. */
  ghost predicate Sized(o: ObjInfo, v: Shape, n: nat) {
    n > 0 && (n - 1) * (v.csize * v.ss) < o.objsize <= n * (v.csize * v.ss)
  }

  /** Then following the object by its own size gives its clusters. */
  lemma OwnSize(f: seq<nat>, b: seq<bit>, o: ObjInfo, v: Shape, xs: seq<nat>)
    requires Sectors32(f, v) && ObjHolds(f, b, o, v, xs) && Sized(o, v, |xs|)
    ensures ObjChain(f, o, v, xs)
  {
    HoldsParts(f, b, o, v, xs);
    if o.stat == 2 {
      forall i: nat | i < |xs|
        ensures StepOf(f, o, v, xs, i)
      {
        OwnStep(f, b, o, v, xs, i);
      }
    } else {
      hide Next;
      SizePositive(o, v, |xs|);
      SizeFree(f, Filled(o, v, |xs|), v, xs, o.objsize);
      assert Filled(o, v, |xs|).(objsize := o.objsize) == o;
    }
  }

  lemma SizePositive(o: ObjInfo, v: Shape, n: nat)
    requires Sized(o, v, n)
    ensures o.objsize > 0
  {
    assert (n - 1) * (v.csize * v.ss) >= 0;
  }

  lemma OwnStep(f: seq<nat>, b: seq<bit>, o: ObjInfo, v: Shape, xs: seq<nat>, i: nat)
    requires Sectors32(f, v) && ObjHolds(f, b, o, v, xs) && Sized(o, v, |xs|) && o.stat == 2 && i < |xs|
    ensures v.ss > 0 && v.csize > 0 && StepOf(f, o, v, xs, i)
  {
    HoldsParts(f, b, o, v, xs);
    hide Next, ObjHolds, Sectors32;
    FollowContiguous(f, b, o, v, xs, i);
    if i + 1 < |xs| {
      NotMore(i + 1, |xs| - 1, v.csize * v.ss);
      FollowContiguous(f, b, o, v, xs, i + 1);
    }
  }

  /** A contiguous object of full size ends with the mark 0x7FFFFFFF, which is a cluster's number plus one only
      there. */
  lemma LastMark(f: seq<nat>, b: seq<bit>, o: ObjInfo, v: Shape, xs: seq<nat>)
    requires Sectors32(f, v) && ObjHolds(f, b, o, v, xs) && Sized(o, v, |xs|) && o.stat == 2
    ensures v.ss > 0 && v.csize > 0
    ensures Next(f, o, v, xs[|xs| - 1]) == xs[|xs| - 1] + 1 <==> xs[|xs| - 1] == 0x7FFF_FFFE
  {
    HoldsParts(f, b, o, v, xs);
    hide Next, ObjHolds, Sectors32;
    FollowContiguous(f, b, o, v, xs, |xs| - 1);
  }

  // ----- the part in front of the cut -----

  /** Consecutive clusters make a contiguous object, whatever the FAT says. */
  lemma ContiguousHolds(g: seq<nat>, o: ObjInfo, v: Shape, ys: seq<nat>)
    requires Sound(g, v) && (|g| - 2) * v.csize < TWO32 && o.stat == 2 && ys != []
    requires 2 <= o.sclust && o.sclust + |ys| <= |g| && forall i: nat :: i < |ys| ==> ys[i] == o.sclust + i
    ensures ObjChain(g, Filled(o, v, |ys|), v, ys)
  {
    NotMore(|ys|, |g| - 2, v.csize);
    FullIndex(v, |ys|);
    hide Next, LastIndex;
    forall i: nat | i < |ys|
      ensures StepOf(g, Filled(o, v, |ys|), v, ys, i)
    {
      ContiguousStatus(g, Filled(o, v, |ys|), v, ys[i]);
    }
  }

  /** Cluster number j - 1 of a fragmented object lies in its contiguous part exactly if its number does. */
  lemma InFirstPart(f: seq<nat>, o: ObjInfo, v: Shape, xs: seq<nat>, j: nat)
    requires ObjChain(f, o, v, xs) && o.stat == 3 && o.nCont < |xs| && j < |xs|
    ensures o.sclust <= xs[j] <= o.sclust + o.nCont <==> j <= o.nCont
    ensures forall i: nat :: i <= o.nCont ==> xs[i] == o.sclust + i
    ensures 2 <= o.sclust && o.sclust + o.nCont < |f|
  {
    forall i: nat | i <= o.nCont
      ensures xs[i] == o.sclust + i
    {
      FirstPart(f, o, v, xs, i);
    }
    assert StepOf(f, o, v, xs, 0) && StepOf(f, o, v, xs, o.nCont);
    hide Next;
    if o.sclust <= xs[j] <= o.sclust + o.nCont && j > o.nCont {
      ObjDistinct(f, o, v, xs, xs[j] - o.sclust, j);
    }
  }

  lemma CutFragmented(f: seq<nat>, o: ObjInfo, v: Shape, xs: seq<nat>, j: nat, e: nat)
    requires ObjChain(f, o, v, xs) && (|f| - 2) * v.csize < TWO32 && o.stat == 3 && o.nCont < |xs| && o.objsize > 0
    requires 0 < j < |xs| && e >= |f|
    ensures xs[j - 1] < |f|
    ensures var g, o' := Marked(f, o, xs[j - 1], e), o.(stat := StatAfter(o, xs[j - 1]));
            ObjChain(g, Filled(o', v, j), v, xs[..j]) && (o'.stat == 3 ==> o'.nCont < j)
  {
    var p, ys := xs[j - 1], xs[..j];
    InFirstPart(f, o, v, xs, j - 1);
    assert StepOf(f, o, v, xs, j - 1);
    var g, o' := Marked(f, o, p, e), o.(stat := StatAfter(o, p));
    if j - 1 <= o.nCont {
      ContiguousHolds(g, o', v, ys);
    } else {
      Positive(v.csize, v.ss);
      Positive(j, v.csize * v.ss);
      hide Next;
      forall i: nat | i < j
        ensures StepOf(g, Filled(o, v, j), v, ys, i)
      {
        assert StepOf(f, o, v, xs, i);
        FragmentedStatus(f, o, v, xs[i]);
        if i < j - 1 { ObjDistinct(f, o, v, xs, i, j - 1); }
        FragmentedStatus(g, Filled(o, v, j), v, ys[i]);
      }
    }
  }

  lemma CutContiguous(f: seq<nat>, o: ObjInfo, v: Shape, xs: seq<nat>, j: nat)
    requires ObjChain(f, o, v, xs) && (|f| - 2) * v.csize < TWO32 && o.stat == 2 && 0 < j < |xs|
    ensures ObjChain(f, Filled(o, v, j), v, xs[..j])
  {
    AllContiguous(f, o, v, xs);
    ContiguousHolds(f, o, v, xs[..j]);
  }

  lemma CutOnFat(f: seq<nat>, o: ObjInfo, v: Shape, xs: seq<nat>, j: nat, e: nat)
    requires ObjChain(f, o, v, xs) && o.stat != 2 && o.stat != 3 && o.objsize > 0 && 0 < j < |xs| && e >= |f|
    ensures xs[j - 1] < |f| && ObjChain(Marked(f, o, xs[j - 1], e), Filled(o, v, j), v, xs[..j])
  {
    var p, ys := xs[j - 1], xs[..j];
    assert StepOf(f, o, v, xs, j - 1) && StepOf(f, o, v, xs, 0);
    var g := Marked(f, o, p, e);
    Positive(v.csize, v.ss);
    Positive(j, v.csize * v.ss);
    forall i: nat | i < j
      ensures StepOf(g, Filled(o, v, j), v, ys, i)
    {
      assert StepOf(f, o, v, xs, i);
      if i < j - 1 { ObjDistinct(f, o, v, xs, i, j - 1); }
    }
  }

  /** After the cut the object holds the clusters in front of it. */
  lemma CutHolds(f: seq<nat>, b: seq<bit>, o: ObjInfo, v: Shape, xs: seq<nat>, j: nat, e: nat)
    requires Sectors32(f, v) && ObjHolds(f, b, o, v, xs) && Sized(o, v, |xs|) && 0 < j < |xs| && e >= |f|
    ensures ObjHolds(Marked(f, o, xs[j - 1], e), Cleared(b, xs[j..]), o.(stat := StatAfter(o, xs[j - 1])), v, xs[..j])
  {
    OwnSize(f, b, o, v, xs);
    SizePositive(o, v, |xs|);
    HoldsParts(f, b, o, v, xs);
    FrontUsed(b, xs, j);
    hide Next, ObjChain, StepOf;
    if o.stat == 2 {
      CutContiguous(f, o, v, xs, j);
    } else if o.stat == 3 {
      CutFragmented(f, o, v, xs, j, e);
    } else {
      CutOnFat(f, o, v, xs, j, e);
    }
  }

  lemma FrontUsed(b: seq<bit>, xs: seq<nat>, j: nat)
    requires AllUsed(b, xs) && j <= |xs| && forall i: nat, k: nat :: i < k < |xs| ==> xs[i] != xs[k]
    ensures AllUsed(Cleared(b, xs[j..]), xs[..j])
  {
    var b' := Cleared(b, xs[j..]);
    forall i: nat | i < j
      ensures b'[xs[i] - 2] == 1 && xs[..j][i] == xs[i]
    {
      assert xs[i] !in xs[j..];
    }
    hide Cleared;
  }

  // ----- the other objects -----

  /** Objects none of whose clusters are touched stay as they are. */
  lemma UntouchedHolds(f: seq<nat>, g: seq<nat>, b: seq<bit>, b': seq<bit>, q: ObjInfo, v: Shape, ys: seq<nat>)
    requires ObjHolds(f, b, q, v, ys) && |g| == |f| && |b'| == |b|
    requires forall c: nat | c < |f| && c in ys :: g[c] == f[c] && (c >= 2 ==> b'[c - 2] == b[c - 2])
    ensures ObjHolds(g, b', q, v, ys)
  {
    HoldsParts(f, b, q, v, ys);
    var q1 := Filled(q, v, |ys|);
    hide Next;
    forall i: nat | i < |ys|
      ensures StepOf(g, q1, v, ys, i)
    {
      assert StepOf(f, q1, v, ys, i) && ys[i] in ys;
      OtherStatus(f, g, q1, v, ys[i]);
    }
    forall i: nat | i < |ys|
      ensures 2 <= ys[i] < |b'| + 2 && b'[ys[i] - 2] == 1
    {
      assert ys[i] in ys && b[ys[i] - 2] == 1;
    }
  }

  /** The objects after number k was cut at its cluster number j; cut at 0 it is gone. */
  function Truncated(os: seq<Holding>, k: nat, j: nat): (r: seq<Holding>)
    requires k < |os| && j <= |os[k].xs|
  {
    if j == 0 then os[..k] + os[k + 1..]
    else os[k := Holding(os[k].o.(stat := StatAfter(os[k].o, os[k].xs[j - 1])), os[k].xs[..j])]
  }

  /** Every object after the cut is an untouched one or the one that was cut. */
  lemma TruncatedFrom(os: seq<Holding>, k: nat, j: nat, i: nat) returns (l: nat)
    requires k < |os| && j <= |os[k].xs| && i < |Truncated(os, k, j)|
    ensures l < |os| && (if l == k then j > 0 && i == k else Truncated(os, k, j)[i] == os[l])
    ensures l == if j == 0 && i >= k then i + 1 else i
  {
    l := if j == 0 && i >= k then i + 1 else i;
  }

  lemma MarkedAt(f: seq<nat>, o: ObjInfo, p: nat, e: nat, c: nat)
    requires c < |f| && c != p
    ensures Marked(f, o, p, e)[c] == f[c]
  {
  }

  lemma ApartAt(os: seq<Holding>, k: nat, l: nat, c: nat)
    requires forall i: nat, j: nat :: i < j < |os| ==> Disjoint(os[i].xs, os[j].xs)
    requires k < |os| && l < |os| && k != l && c in os[l].xs
    ensures c !in os[k].xs
  {
    if k < l { assert Disjoint(os[k].xs, os[l].xs); } else { assert Disjoint(os[l].xs, os[k].xs); }
  }

  lemma OthersHold(f: seq<nat>, b: seq<bit>, v: Shape, os: seq<Holding>, k: nat, j: nat, e: nat, l: nat)
    requires Objects(f, b, v, os) && k < |os| && l < |os| && l != k && j < |os[k].xs|
    ensures var p := if j > 0 then os[k].xs[j - 1] else 0;
            ObjHolds(Marked(f, os[k].o, p, e), Cleared(b, os[k].xs[j..]), os[l].o, v, os[l].xs)
  {
    var xs, ys := os[k].xs, os[l].xs;
    var p := if j > 0 then xs[j - 1] else 0;
    var g, b' := Marked(f, os[k].o, p, e), Cleared(b, xs[j..]);
    HoldsParts(f, b, os[l].o, v, ys);
    hide ObjHolds;
    forall c: nat | c < |f| && c in ys
      ensures g[c] == f[c] && (c >= 2 ==> b'[c - 2] == b[c - 2])
    {
      ApartAt(os, k, l, c);
      var i :| 0 <= i < |ys| && ys[i] == c;
      MarkedAt(f, os[k].o, p, e, c);
    }
    UntouchedHolds(f, g, b, b', os[l].o, v, ys);
  }

  lemma StillApart(os: seq<Holding>, k: nat, j: nat)
    requires k < |os| && j <= |os[k].xs|
    requires forall i: nat, l: nat :: i < l < |os| ==> Disjoint(os[i].xs, os[l].xs)
    ensures var r := Truncated(os, k, j); forall i: nat, l: nat :: i < l < |r| ==> Disjoint(r[i].xs, r[l].xs)
  {
    var r := Truncated(os, k, j);
    forall i: nat, l: nat | i < l < |r|
      ensures Disjoint(r[i].xs, r[l].xs)
    {
      var i' := TruncatedFrom(os, k, j, i);
      var l' := TruncatedFrom(os, k, j, l);
    }
  }

  lemma NotCut(b: seq<bit>, xs: seq<nat>, j: nat, i: nat)
    requires j <= |xs| && i < |xs| && 2 <= xs[i] < |b| + 2 && Cleared(b, xs[j..])[xs[i] - 2] == 1
    ensures i < j
  {
    if i >= j { InCut(xs, j, i); }
  }

  lemma InCut(xs: seq<nat>, j: nat, i: nat)
    requires j <= i < |xs|
    ensures xs[i] in xs[j..]
  {
    assert xs[j..][i - j] == xs[i];
  }

  lemma StillHeld(f: seq<nat>, b: seq<bit>, os: seq<Holding>, k: nat, j: nat, c: nat)
    requires |b| + 2 == |f| && k < |os| && j <= |os[k].xs| && 2 <= c < |f| && HeldBy(os, c)
    requires Cleared(b, os[k].xs[j..])[c - 2] == 1
    ensures HeldBy(Truncated(os, k, j), c)
  {
    var r := Truncated(os, k, j);
    var l: nat :| l < |os| && c in os[l].xs;
    if l == k {
      var i :| 0 <= i < |os[k].xs| && os[k].xs[i] == c;
      NotCut(b, os[k].xs, j, i);
      assert os[k].xs[..j][i] == c;
      TruncatedCut(os, k, j);
    } else {
      var i := if j == 0 && l > k then l - 1 else l;
      assert r[i] == os[l];
    }
  }

  /**
   * Truncating object k in front of its cluster number j: exactly the bits of the clusters from there on are cleared,
   * the object holds the others in its new state, and all other objects keep theirs, so that again the clusters in use
   * are those of the objects. The exception is the last cluster of a volume whose end mark is the number behind it.
   */
  lemma RemoveKeeps(f: seq<nat>, b: seq<bit>, v: Shape, os: seq<Holding>, k: nat, j: nat, e: nat)
    requires Objects(f, b, v, os) && k < |os| && j < |os[k].xs| && e >= |f| && Sized(os[k].o, v, |os[k].xs|)
    requires var xs := os[k].xs; xs[|xs| - 1] < |f| - 1 || Next(f, os[k].o, v, xs[|xs| - 1]) != |f|
    ensures var o, xs := os[k].o, os[k].xs;
            var g := Marked(f, o, if j > 0 then xs[j - 1] else 0, e);
            && 2 <= xs[j] < |f| && Sound(g, v)
            && Released(g, o, v, b, xs[j], xs[j]) == (Cleared(b, xs[j..]), true)
            && Passed(g, o, v, b, xs[j], xs[j]) == |xs| - j
            && Objects(g, Cleared(b, xs[j..]), v, Truncated(os, k, j))
  {
    hide *;
    var o, xs := os[k].o, os[k].xs;
    var p := if j > 0 then xs[j - 1] else 0;
    var g, b', os' := Marked(f, o, p, e), Cleared(b, xs[j..]), Truncated(os, k, j);
    ObjectsParts(f, b, v, os);
    HeldAt(f, b, v, os, k);
    HoldsParts(f, b, o, v, xs);
    OwnSize(f, b, o, v, xs);
    UsedAt(f, b, o, v, xs);
    RemoveObjectIff(f, o, v, b, xs, j, e);
    RemovedObjects(f, b, v, os, k, j, e);
  }

  lemma HeldAt(f: seq<nat>, b: seq<bit>, v: Shape, os: seq<Holding>, k: nat)
    requires Objects(f, b, v, os) && k < |os|
    ensures ObjHolds(f, b, os[k].o, v, os[k].xs)
  {
  }

  lemma ObjectsParts(f: seq<nat>, b: seq<bit>, v: Shape, os: seq<Holding>)
    requires Objects(f, b, v, os)
    ensures Sectors32(f, v) && |b| + 2 == |f|
  {
  }

  lemma UsedAt(f: seq<nat>, b: seq<bit>, o: ObjInfo, v: Shape, xs: seq<nat>)
    requires ObjHolds(f, b, o, v, xs)
    ensures forall k: nat :: k < |xs| ==> 2 <= xs[k] < |f| && b[xs[k] - 2] == 1
  {
    HoldsParts(f, b, o, v, xs);
  }

  lemma RemovedObjects(f: seq<nat>, b: seq<bit>, v: Shape, os: seq<Holding>, k: nat, j: nat, e: nat)
    requires Objects(f, b, v, os) && k < |os| && j < |os[k].xs| && e >= |f| && Sized(os[k].o, v, |os[k].xs|)
    ensures var o, xs := os[k].o, os[k].xs;
            var g := Marked(f, o, if j > 0 then xs[j - 1] else 0, e);
            Objects(g, Cleared(b, xs[j..]), v, Truncated(os, k, j))
  {
    var o, xs := os[k].o, os[k].xs;
    var p := if j > 0 then xs[j - 1] else 0;
    var g, b', os' := Marked(f, o, p, e), Cleared(b, xs[j..]), Truncated(os, k, j);
    HeldAt(f, b, v, os, k);
    if j > 0 { CutHolds(f, b, o, v, xs, j, e); }
    hide ObjHolds, Marked, Cleared, Truncated, HeldBy;
    forall i: nat | i < |os'|
      ensures ObjHolds(g, b', os'[i].o, v, os'[i].xs)
    {
      var l := TruncatedFrom(os, k, j, i);
      if l == k { TruncatedCut(os, k, j); } else { OthersHold(f, b, v, os, k, j, e, l); }
    }
    StillApart(os, k, j);
    forall c: nat | 2 <= c < |g| && b'[c - 2] == 1
      ensures HeldBy(os', c)
    {
      WasUsed(b, xs[j..], c);
      StillHeld(f, b, os, k, j, c);
    }
  }

  lemma WasUsed(b: seq<bit>, ys: seq<nat>, c: nat)
    requires 2 <= c < |b| + 2 && Cleared(b, ys)[c - 2] == 1
    ensures b[c - 2] == 1
  {
  }

  lemma TruncatedCut(os: seq<Holding>, k: nat, j: nat)
    requires k < |os| && 0 < j <= |os[k].xs|
    ensures k < |Truncated(os, k, j)|
    ensures Truncated(os, k, j)[k] == Holding(os[k].o.(stat := StatAfter(os[k].o, os[k].xs[j - 1])), os[k].xs[..j])
  {
  }
}
