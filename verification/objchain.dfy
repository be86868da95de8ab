/** exFAT objects: contiguous chains, chains that were just fragmented, and chains on the FAT. */
module ObjChains {
  import opened Machine
  import opened BitStream
  import opened FatTable
  import opened Window
  import opened Chains
  import opened ExFatAlloc
  import opened FatAlloc

  /** The volume parameters a cluster status depends on. */
  datatype Shape = Shape(ss: nat, csize: nat)

  ghost predicate Sound(f: seq<nat>, v: Shape) {
    v.ss > 0 && v.csize > 0 && 2 < |f| < 0x8000_0000
  }

  function Next(f: seq<nat>, o: ObjInfo, v: Shape, c: nat): nat
    requires v.ss > 0 && v.csize > 0
  {
    NextCluster(ExFat, f, o, v.ss, v.csize, c)
  }

  ghost predicate StepOf(f: seq<nat>, o: ObjInfo, v: Shape, xs: seq<nat>, i: nat)
    requires v.ss > 0 && v.csize > 0 && i < |xs|
  {
    2 <= xs[i] < |f| && if i + 1 < |xs| then Next(f, o, v, xs[i]) == xs[i + 1] else Next(f, o, v, xs[i]) >= |f|
  }

  /** The clusters that get_fat yields one after the other from the start cluster of an object. */
  ghost predicate ObjChain(f: seq<nat>, o: ObjInfo, v: Shape, xs: seq<nat>) {
    Sound(f, v) && xs != [] && xs[0] == o.sclust && forall i: nat :: i < |xs| ==> StepOf(f, o, v, xs, i)
  }

  /** Distance of a cluster from the start of the object, as 32-bit subtraction gives it. */
  lemma Offset32(c: nat, s: nat, n: nat)
    requires c < n < 0x8000_0000 && s < n
    ensures c >= s ==> (c - s) % TWO32 == c - s
    ensures c < s ==> (c - s) % TWO32 >= 0x8000_0000
  {
    if c < s {
      assert (c - s) % TWO32 == c - s + TWO32;
    }
  }

  /** A contiguous object consists of consecutive clusters, as many as its size takes. */
  lemma {:induction false} ContiguousClusters(f: seq<nat>, o: ObjInfo, v: Shape, xs: seq<nat>, i: nat)
    requires ObjChain(f, o, v, xs) && o.stat == 2 && i < |xs|
    ensures xs[i] == o.sclust + i
  {
    if i > 0 {
      ContiguousClusters(f, o, v, xs, i - 1);
      assert StepOf(f, o, v, xs, i - 1) && StepOf(f, o, v, xs, i);
    }
  }

  lemma AllContiguous(f: seq<nat>, o: ObjInfo, v: Shape, xs: seq<nat>)
    requires ObjChain(f, o, v, xs) && o.stat == 2
    ensures forall i: nat :: i < |xs| ==> xs[i] == o.sclust + i
    ensures 2 <= o.sclust && o.sclust + |xs| <= |f| && o.objsize > 0
  {
    assert StepOf(f, o, v, xs, 0) && StepOf(f, o, v, xs, |xs| - 1);
    forall i: nat | i < |xs| ensures xs[i] == o.sclust + i {
      ContiguousClusters(f, o, v, xs, i);
    }
    ContiguousClusters(f, o, v, xs, |xs| - 1);
  }

  lemma InsideRun(xs: seq<nat>, s: nat, r: nat)
    requires (forall i: nat :: i < |xs| ==> xs[i] == s + i) && s <= r < s + |xs|
    ensures r in xs
  {
    assert xs[r - s] == r;
  }

  /** Status of a cluster of a contiguous object. */
  lemma ContiguousStatus(f: seq<nat>, o: ObjInfo, v: Shape, c: nat)
    requires Sound(f, v) && o.stat == 2 && o.objsize > 0 && 2 <= o.sclust <= c < |f|
    ensures Next(f, o, v, c) == var clen := LastIndex(o.objsize, v.ss, v.csize);
                                if c - o.sclust > clen then 1 else if c - o.sclust == clen then 0x7FFF_FFFF else c + 1
  {
    Offset32(c, o.sclust, |f|);
  }

  /** Status of a cluster of a just fragmented object. */
  lemma FragmentedStatus(f: seq<nat>, o: ObjInfo, v: Shape, c: nat)
    requires Sound(f, v) && o.stat == 3 && o.objsize > 0 && 2 <= o.sclust < |f| && 2 <= c < |f| && o.nCont <= |f|
    ensures Next(f, o, v, c) == if o.sclust <= c < o.sclust + o.nCont then c + 1 else f[c]
  {
    Offset32(c, o.sclust, |f|);
  }

  /**
   * When create_chain breaks a contiguous object up, following the object gives the old clusters
   * and then the new one.
   */
  lemma FragmentKeeps(f: seq<nat>, o: ObjInfo, v: Shape, xs: seq<nat>, r: nat, e: nat)
    requires ObjChain(f, o, v, xs) && o.stat == 2 && 2 <= r < |f| && r !in xs && e >= |f|
    requires r != xs[|xs| - 1] + 1 && xs[|xs| - 1] < |f|
    ensures var last := xs[|xs| - 1];
            ObjChain(Linked(f, last, r, e), StretchedObj(o, last, r), v, xs + [r])
    ensures StretchedObj(o, xs[|xs| - 1], r).stat == 3
  {
    var n, last := |xs|, xs[|xs| - 1];
    var g, o', ys := Linked(f, last, r, e), StretchedObj(o, last, r), xs + [r];
    AllContiguous(f, o, v, xs);
    Offset32(last, o.sclust, |f|);
    if o.sclust <= r < o.sclust + n { InsideRun(xs, o.sclust, r); }
    hide Next;
    forall i: nat | i < |ys| ensures StepOf(g, o', v, ys, i) {
      FragmentedStatus(g, o', v, ys[i]);
    }
  }

  /** A contiguous object stays contiguous when the new cluster follows its end; no FAT entry is needed. */
  lemma ContiguousGrows(f: seq<nat>, o: ObjInfo, v: Shape, xs: seq<nat>, size: nat)
    requires ObjChain(f, o, v, xs) && o.stat == 2 && xs[|xs| - 1] + 1 < |f|
    requires size > 0 && LastIndex(size, v.ss, v.csize) == |xs|
    ensures StretchedObj(o, xs[|xs| - 1], xs[|xs| - 1] + 1) == o
    ensures ObjChain(f, o.(objsize := size), v, xs + [xs[|xs| - 1] + 1])
  {
    var n, r, o' := |xs|, xs[|xs| - 1] + 1, o.(objsize := size);
    var ys := xs + [r];
    AllContiguous(f, o, v, xs);
    hide Next, LastIndex;
    forall i: nat | i < |ys| ensures StepOf(f, o', v, ys, i) {
      ContiguousStatus(f, o', v, ys[i]);
    }
  }

  /** Later clusters of a fragmented object are linked on the FAT. */
  lemma FatPartGrows(f: seq<nat>, o: ObjInfo, v: Shape, xs: seq<nat>, r: nat, e: nat)
    requires ObjChain(f, o, v, xs) && o.stat == 3 && 2 <= r < |f| && r !in xs && e >= |f|
    requires o.sclust + o.nCont <= |f| && xs[|xs| - 1] < |f|
    requires !(o.sclust <= r < o.sclust + o.nCont) && !(o.sclust <= xs[|xs| - 1] < o.sclust + o.nCont)
    ensures var last := xs[|xs| - 1];
            StretchedObj(o, last, r) == o && ObjChain(Linked(f, last, r, e), o, v, xs + [r])
  {
    var n, last := |xs|, xs[|xs| - 1];
    var g, ys := Linked(f, last, r, e), xs + [r];
    assert StepOf(f, o, v, xs, 0) && StepOf(f, o, v, xs, n - 1);
    hide Next;
    FragmentedPositive(f, o, v, last);
    forall i: nat | i < |ys| ensures StepOf(g, o, v, ys, i) {
      if i < n {
        assert StepOf(f, o, v, xs, i);
        FragmentedStatus(f, o, v, xs[i]);
        if i + 1 < n { ObjDistinct(f, o, v, xs, i, n - 1); }
      }
      FragmentedStatus(g, o, v, ys[i]);
    }
  }

  lemma FragmentedPositive(f: seq<nat>, o: ObjInfo, v: Shape, c: nat)
    requires Sound(f, v) && Next(f, o, v, c) >= |f|
    ensures o.objsize > 0
  {
  }

  /** Following an object never comes back to a cluster. */
  lemma {:induction false} ObjDistinct(f: seq<nat>, o: ObjInfo, v: Shape, xs: seq<nat>, i: nat, j: nat)
    requires ObjChain(f, o, v, xs) && i < j < |xs|
    ensures xs[i] != xs[j]
    decreases |xs| - j
  {
    hide Next;
    assert StepOf(f, o, v, xs, i) && StepOf(f, o, v, xs, i + 1) && StepOf(f, o, v, xs, j);
    if j + 1 < |xs| {
      ObjDistinct(f, o, v, xs, i + 1, j + 1);
    }
  }

  // ----- what an object holds on a volume -----

  lemma IndexBetween(p: nat, n: nat, ss: nat, csize: nat)
    requires ss > 0 && csize > 0 && n > 0 && (n - 1) * (csize * ss) < p <= n * (csize * ss) && n * csize <= TWO32
    ensures LastIndex(p, ss, csize) == n - 1
  {
    var q := (p - 1) / ss;
    SectorsBefore(p, n - 1, n, ss, csize);
    assert csize * (n - 1) == (n - 1) * csize && n * csize == csize * (n - 1) + csize;
    SectorOf(n - 1, q - csize * (n - 1), csize);
  }

  /** An object whose size fills n clusters. */
  function Filled(o: ObjInfo, v: Shape, n: nat): ObjInfo {
    o.(objsize := n * (v.csize * v.ss))
  }

  lemma FullIndex(v: Shape, n: nat)
    requires v.ss > 0 && v.csize > 0 && n > 0 && n * v.csize <= TWO32
    ensures n * (v.csize * v.ss) > 0 && LastIndex(n * (v.csize * v.ss), v.ss, v.csize) == n - 1
  {
    Positive(v.csize, v.ss);
    Positive(n, v.csize * v.ss);
    assert (n - 1) * (v.csize * v.ss) == n * (v.csize * v.ss) - v.csize * v.ss;
    IndexBetween(n * (v.csize * v.ss), n, v.ss, v.csize);
  }

  lemma Positive(a: nat, b: nat)
    requires a > 0 && b > 0
    ensures a * b > 0
  {
  }

  /** The clusters of a chain are marked in use. */
  ghost predicate AllUsed(b: seq<bit>, xs: seq<nat>) {
    forall i: nat :: i < |xs| ==> 2 <= xs[i] < |b| + 2 && b[xs[i] - 2] == 1
  }

  /** The object consists of the clusters xs, whatever its size; the number of links it generates fits them. */
  ghost predicate ObjHolds(f: seq<nat>, b: seq<bit>, o: ObjInfo, v: Shape, xs: seq<nat>) {
    && |b| + 2 == |f| && ObjChain(f, Filled(o, v, |xs|), v, xs) && (o.stat == 3 ==> o.nCont < |xs|) && AllUsed(b, xs)
  }

  /** Sector numbers inside the data area fit into 32 bits. */
  ghost predicate Sectors32(f: seq<nat>, v: Shape) {
    Sound(f, v) && (|f| - 2) * v.csize < TWO32
  }

  lemma HoldsParts(f: seq<nat>, b: seq<bit>, o: ObjInfo, v: Shape, xs: seq<nat>)
    requires ObjHolds(f, b, o, v, xs)
    ensures Sound(f, v) && xs != [] && xs[0] == o.sclust && |b| + 2 == |f|
    ensures forall i: nat :: i < |xs| ==> 2 <= xs[i] < |f|
    ensures forall i: nat, j: nat :: i < j < |xs| ==> xs[i] != xs[j]
  {
    var o' := Filled(o, v, |xs|);
    forall i: nat | i < |xs| ensures 2 <= xs[i] < |f| { assert StepOf(f, o', v, xs, i); }
    forall i: nat, j: nat | i < j < |xs| ensures xs[i] != xs[j] { ObjDistinct(f, o', v, xs, i, j); }
  }

  /** The size of an object matters only while it is contiguous. */
  lemma SizeFree(f: seq<nat>, o: ObjInfo, v: Shape, xs: seq<nat>, size: nat)
    requires ObjChain(f, o, v, xs) && o.stat != 2 && size > 0
    ensures ObjChain(f, o.(objsize := size), v, xs)
  {
    assert StepOf(f, o, v, xs, |xs| - 1);
    FragmentedPositive(f, o, v, xs[|xs| - 1]);
    forall i: nat | i < |xs| ensures StepOf(f, o.(objsize := size), v, xs, i) {
      assert StepOf(f, o, v, xs, i);
    }
  }

  /** Following a contiguous object by its real size. */
  lemma FollowContiguous(f: seq<nat>, b: seq<bit>, o: ObjInfo, v: Shape, xs: seq<nat>, i: nat)
    requires ObjHolds(f, b, o, v, xs) && o.stat == 2 && Sectors32(f, v) && i < |xs|
      && o.objsize <= |xs| * (v.csize * v.ss)
    ensures xs[i] == o.sclust + i && 2 <= o.sclust && |xs| * v.csize <= TWO32
    ensures (i + 1) * (v.csize * v.ss) < o.objsize ==> Next(f, o, v, xs[i]) == xs[i] + 1
    ensures i + 1 == |xs| && i * (v.csize * v.ss) < o.objsize ==> Next(f, o, v, xs[i]) == 0x7FFF_FFFF
  {
    AllContiguous(f, Filled(o, v, |xs|), v, xs);
    NotMore(|xs|, |f| - 2, v.csize);
    if i * (v.csize * v.ss) < o.objsize {
      hide Next, LastIndex;
      ContiguousStatus(f, o, v, xs[i]);
      if i + 1 == |xs| {
        IndexBetween(o.objsize, |xs|, v.ss, v.csize);
      } else if (i + 1) * (v.csize * v.ss) < o.objsize {
        IndexAbove(o.objsize, i + 1, |xs|, v.ss, v.csize);
      }
    } else {
      NotMore(i, i + 1, v.csize * v.ss);
    }
  }

  lemma NotMore(a: nat, b: nat, c: nat)
    requires a <= b
    ensures a * c <= b * c
  {
    if a < b { LaterSector(a, b, c); }
  }

  lemma IndexAbove(p: nat, m: nat, n: nat, ss: nat, csize: nat)
    requires ss > 0 && csize > 0 && m * (csize * ss) < p <= n * (csize * ss) && n * csize <= TWO32
    ensures LastIndex(p, ss, csize) >= m
  {
    var q := (p - 1) / ss;
    SectorsBefore(p, m, n, ss, csize);
    Position(q, csize);
    if q / csize < m { LaterSector(q / csize, m, csize); }
  }

  lemma SectorsBefore(p: nat, m: nat, n: nat, ss: nat, csize: nat)
    requires ss > 0 && m * (csize * ss) < p <= n * (csize * ss)
    ensures m * csize <= (p - 1) / ss < n * csize
  {
    Regroup(m, csize, ss);
    Regroup(n, csize, ss);
    QuotientBounds(p - 1, m * csize, n * csize, ss);
  }

  lemma Regroup(m: nat, csize: nat, ss: nat)
    ensures ss * (m * csize) == m * (csize * ss)
  {
  }

  lemma QuotientBounds(x: nat, lo: nat, hi: nat, ss: nat)
    requires ss > 0 && ss * lo <= x < ss * hi
    ensures lo <= x / ss < hi
  {
    var q := x / ss;
    Position(x, ss);
    if q < lo { LaterSector(q, lo, ss); }
    if hi < q { LaterSector(hi, q, ss); }
  }

  /** Following any other object. */
  lemma FollowOther(f: seq<nat>, b: seq<bit>, o: ObjInfo, v: Shape, xs: seq<nat>, i: nat)
    requires ObjHolds(f, b, o, v, xs) && o.stat != 2 && i < |xs| && o.objsize > 0
    ensures i + 1 < |xs| ==> Next(f, o, v, xs[i]) == xs[i + 1]
    ensures i + 1 == |xs| ==> Next(f, o, v, xs[i]) >= |f|
  {
    HoldsParts(f, b, o, v, xs);
    SizeFree(f, Filled(o, v, |xs|), v, xs, o.objsize);
    assert Filled(o, v, |xs|).(objsize := o.objsize) == o;
    assert StepOf(f, o, v, xs, i);
  }

  /** get_fat on an object of the clusters xs: the next cluster where the object goes on behind cluster i, and an end
      mark at the last cluster if the size reaches it. */
  lemma FollowObject(f: seq<nat>, b: seq<bit>, o: ObjInfo, v: Shape, xs: seq<nat>, i: nat)
    requires ObjHolds(f, b, o, v, xs) && Sectors32(f, v) && i < |xs| && 0 < o.objsize <= |xs| * (v.csize * v.ss)
    ensures i + 1 < |xs| && (i + 1) * (v.csize * v.ss) < o.objsize ==> Next(f, o, v, xs[i]) == xs[i + 1]
    ensures i + 1 == |xs| && (o.stat == 2 ==> i * (v.csize * v.ss) < o.objsize) ==> Next(f, o, v, xs[i]) >= |f|
  {
    if o.stat == 2 {
      FollowContiguous(f, b, o, v, xs, i);
      if i + 1 < |xs| { FollowContiguous(f, b, o, v, xs, i + 1); }
    } else {
      FollowOther(f, b, o, v, xs, i);
    }
  }

  // ----- create_chain on exFAT -----

  /** The contiguous part of a fragmented object. */
  lemma {:induction false} FirstPart(f: seq<nat>, o: ObjInfo, v: Shape, xs: seq<nat>, i: nat)
    requires ObjChain(f, o, v, xs) && o.stat == 3 && i <= o.nCont < |xs|
    ensures xs[i] == o.sclust + i
  {
    if i > 0 {
      FirstPart(f, o, v, xs, i - 1);
      assert StepOf(f, o, v, xs, i - 1) && StepOf(f, o, v, xs, i);
      Offset32(xs[i - 1], o.sclust, |f|);
    }
  }

  lemma TableGrows(f: seq<nat>, o: ObjInfo, v: Shape, xs: seq<nat>, r: nat, e: nat)
    requires ObjChain(f, o, v, xs) && o.stat != 2 && o.stat != 3 && 2 <= r < |f| && r !in xs && e >= |f|
    requires xs[|xs| - 1] < |f|
    ensures var last := xs[|xs| - 1];
            StretchedObj(o, last, r) == o && ObjChain(Linked(f, last, r, e), o, v, xs + [r])
  {
    var n, last := |xs|, xs[|xs| - 1];
    var g, ys := Linked(f, last, r, e), xs + [r];
    assert StepOf(f, o, v, xs, 0) && StepOf(f, o, v, xs, n - 1);
    FragmentedPositive(f, o, v, last);
    forall i: nat | i < |ys| ensures StepOf(g, o, v, ys, i) {
      if i < n {
        assert StepOf(f, o, v, xs, i);
        if i + 1 < n { ObjDistinct(f, o, v, xs, i, n - 1); }
      }
    }
  }

  /** A fragmented object takes a cluster that is none of its own. */
  lemma FragmentedGrows(f: seq<nat>, o: ObjInfo, v: Shape, xs: seq<nat>, r: nat, e: nat)
    requires ObjChain(f, o, v, xs) && o.stat == 3 && o.nCont < |xs| && 2 <= r < |f| && r !in xs && e >= |f|
    requires xs[|xs| - 1] < |f|
    ensures var last := xs[|xs| - 1];
            StretchedObj(o, last, r) == o && ObjChain(Linked(f, last, r, e), o, v, xs + [r])
  {
    var n, last := |xs|, xs[|xs| - 1];
    FirstPart(f, o, v, xs, o.nCont);
    assert StepOf(f, o, v, xs, o.nCont);
    hide ObjChain, Linked, StretchedObj;
    if o.sclust <= r < o.sclust + o.nCont {
      FirstPart(f, o, v, xs, r - o.sclust);
    }
    if o.sclust <= last < o.sclust + o.nCont {
      FirstPart(f, o, v, xs, last - o.sclust);
      ObjDistinct(f, o, v, xs, last - o.sclust, n - 1);
    }
    FatPartGrows(f, o, v, xs, r, e);
  }

  lemma UsedMore(b: seq<bit>, xs: seq<nat>, r: nat)
    requires AllUsed(b, xs) && 2 <= r < |b| + 2
    ensures AllUsed(b[r - 2 := 1], xs) && AllUsed(b[r - 2 := 1], xs + [r])
  {
  }

  lemma FreeIsNew(b: seq<bit>, xs: seq<nat>, r: nat)
    requires AllUsed(b, xs) && 2 <= r < |b| + 2 && b[r - 2] == 0
    ensures r !in xs
  {
  }

  /** A contiguous object takes a cluster: it stays contiguous exactly if the cluster follows its end. */
  lemma ContiguousTakes(f: seq<nat>, o: ObjInfo, v: Shape, xs: seq<nat>, r: nat, e: nat)
    requires Sectors32(f, v) && xs != [] && ObjChain(f, Filled(o, v, |xs|), v, xs) && o.stat == 2
    requires 2 <= r < |f| && r !in xs && e >= |f|
    ensures xs[|xs| - 1] < |f|
    ensures var last := xs[|xs| - 1];
            var o', f' := StretchedObj(o, last, r), if r == last + 1 then f else Linked(f, last, r, e);
            && ObjChain(f', Filled(o', v, |xs| + 1), v, xs + [r])
            && (o'.stat == 2 <==> r == last + 1) && (o'.stat == 3 ==> o'.nCont == |xs| - 1)
  {
    var n, last := |xs|, xs[|xs| - 1];
    var o1 := Filled(o, v, n);
    AllContiguous(f, o1, v, xs);
    if r == last + 1 {
      NotMore(n + 1, |f| - 2, v.csize);
      FullIndex(v, n + 1);
      ContiguousGrows(f, o1, v, xs, (n + 1) * (v.csize * v.ss));
    } else {
      Positive(v.csize, v.ss);
      Positive(n + 1, v.csize * v.ss);
      FragmentKeeps(f, o1, v, xs, r, e);
      Offset32(last, o.sclust, |f|);
      hide ObjChain;
      SizeFree(Linked(f, last, r, e), StretchedObj(o1, last, r), v, xs + [r], (n + 1) * (v.csize * v.ss));
      assert StretchedObj(o1, last, r).(objsize := (n + 1) * (v.csize * v.ss)) ==
        Filled(StretchedObj(o, last, r), v, n + 1);
    }
  }

  /** Any other object takes a cluster. */
  lemma OtherTakes(f: seq<nat>, o: ObjInfo, v: Shape, xs: seq<nat>, r: nat, e: nat)
    requires Sound(f, v) && xs != [] && ObjChain(f, Filled(o, v, |xs|), v, xs) && o.stat != 2
      && (o.stat == 3 ==> o.nCont < |xs|)
    requires 2 <= r < |f| && r !in xs && e >= |f| && xs[|xs| - 1] < |f|
    ensures StretchedObj(o, xs[|xs| - 1], r) == o
    ensures ObjChain(Linked(f, xs[|xs| - 1], r, e), Filled(o, v, |xs| + 1), v, xs + [r])
  {
    var n, o1 := |xs|, Filled(o, v, |xs|);
    Positive(v.csize, v.ss);
    Positive(n + 1, v.csize * v.ss);
    if o.stat == 3 {
      FragmentedGrows(f, o1, v, xs, r, e);
    } else {
      TableGrows(f, o1, v, xs, r, e);
    }
    hide ObjChain, Linked;
    SizeFree(Linked(f, xs[n - 1], r, e), o1, v, xs + [r], (n + 1) * (v.csize * v.ss));
    assert o1.(objsize := (n + 1) * (v.csize * v.ss)) == Filled(o, v, n + 1);
  }

  /** create_chain at the end of an object: the object holds its clusters and the new one. */
  lemma GrownObject(f: seq<nat>, f': seq<nat>, b: seq<bit>, b': seq<bit>, o: ObjInfo, o': ObjInfo, v: Shape,
      xs: seq<nat>, e: nat, r: nat)
    requires Sectors32(f, v) && ObjHolds(f, b, o, v, xs) && e >= |f| && r != 0 && xs != []
    requires xs[|xs| - 1] < |f| && ExFatGrown(f, f', b, b', o, o', xs[|xs| - 1], e, r)
    ensures r !in xs && ObjHolds(f', b', o', v, xs + [r]) && o'.sclust == o.sclust
  {
    FreeIsNew(b, xs, r);
    UsedMore(b, xs, r);
    hide ObjChain, Linked;
    HoldsParts(f, b, o, v, xs);
    if o.stat == 2 {
      ContiguousTakes(f, o, v, xs, r, e);
    } else {
      OtherTakes(f, o, v, xs, r, e);
    }
  }

  /** create_chain for an object without clusters. */
  lemma NewObject(f: seq<nat>, f': seq<nat>, b: seq<bit>, b': seq<bit>, o: ObjInfo, o': ObjInfo, v: Shape, e: nat,
      r: nat)
    requires Sectors32(f, v) && |b| + 2 == |f| && r != 0 && ExFatGrown(f, f', b, b', o, o', 0, e, r)
    ensures ObjHolds(f', b', o'.(sclust := r), v, [r])
  {
    var o1 := Filled(o'.(sclust := r), v, 1);
    NotMore(1, |f| - 2, v.csize);
    FullIndex(v, 1);
    ContiguousStatus(f, o1, v, r);
    assert StepOf(f, o1, v, [r], 0);
  }

  /** Objects that do not meet the one that grows stay as they are. */
  lemma OtherObject(f: seq<nat>, f': seq<nat>, b: seq<bit>, b': seq<bit>, o: ObjInfo, o': ObjInfo, v: Shape, clst: nat,
      e: nat, r: nat,
                    q: ObjInfo, ys: seq<nat>)
    requires ObjHolds(f, b, q, v, ys) && r != 0 && clst < |f| && clst !in ys
    requires |f| >= 3 && |b| == |f| - 2 && ExFatGrown(f, f', b, b', o, o', clst, e, r)
    ensures ObjHolds(f', b', q, v, ys) && r !in ys
  {
    FreeIsNew(b, ys, r);
    UsedMore(b, ys, r);
    HoldsParts(f, b, q, v, ys);
    var q1 := Filled(q, v, |ys|);
    hide Next;
    forall i: nat | i < |ys| ensures StepOf(f', q1, v, ys, i) {
      assert StepOf(f, q1, v, ys, i);
      OtherStatus(f, f', q1, v, ys[i]);
    }
  }

  /** An object and its clusters. */
  datatype Holding = Holding(o: ObjInfo, xs: seq<nat>)

  /** The clusters in use are exactly those of the objects, which do not meet. */
  ghost predicate Objects(f: seq<nat>, b: seq<bit>, v: Shape, os: seq<Holding>) {
    && Sectors32(f, v) && |b| + 2 == |f|
    && (forall k: nat :: k < |os| ==> ObjHolds(f, b, os[k].o, v, os[k].xs))
    && (forall k: nat, l: nat :: k < l < |os| ==> Disjoint(os[k].xs, os[l].xs))
    && (forall c: nat :: 2 <= c < |f| && b[c - 2] == 1 ==> HeldBy(os, c))
  }

  ghost predicate HeldBy(os: seq<Holding>, c: nat) {
    exists k: nat :: k < |os| && c in os[k].xs
  }

  /** The objects after create_chain gave cluster r to object number k, or to a new one. */
  function Given(os: seq<Holding>, k: nat, o': ObjInfo, r: nat, isNew: bool): (r': seq<Holding>)
    requires isNew || k < |os|
  {
    if isNew then os + [Holding(o'.(sclust := r), [r])] else os[k := Holding(o', os[k].xs + [r])]
  }

  /**
   * On a sound exFAT volume create_chain fails only when every cluster is in use, and otherwise appends one free
   * cluster to the object that ends in clst, or to a new object; all other objects stay as they are.
   */
  lemma ObjectsKept(f: seq<nat>, f': seq<nat>, b: seq<bit>, b': seq<bit>, v: Shape, os: seq<Holding>, k: nat,
                    o: ObjInfo, o': ObjInfo, clst: nat, e: nat, r: nat)
    requires Objects(f, b, v, os) && clst < |f| && e >= |f| && |f| >= 3
    requires ExFatGrown(f, f', b, b', o, o', clst, e, r)
    requires clst != 0 ==> k < |os| && os[k].o == o && os[k].xs != [] && os[k].xs[|os[k].xs| - 1] == clst
    ensures r == 0 <==> forall i :: 0 <= i < |b| ==> b[i] == 1
    ensures r == 0 ==> f' == f && b' == b && o' == o
    ensures r != 0 ==> 2 <= r < |f| && b[r - 2] == 0 && Objects(f', b', v, Given(os, k, o', r, clst == 0))
  {
    if r != 0 {
      var os' := Given(os, k, o', r, clst == 0);
      if clst == 0 { NewObject(f, f', b, b', o, o', v, e, r); }
        else { GrownObject(f, f', b, b', o, o', v, os[k].xs, e, r); }
      hide ObjHolds, ExFatGrown;
      forall l: nat | l < |os| && (clst != 0 ==> l != k) ensures ObjHolds(f', b', os[l].o, v, os[l].xs)
        && r !in os[l].xs {
        NotInOther(f, b, v, os, k, clst, l);
        OtherObject(f, f', b, b', o, o', v, clst, e, r, os[l].o, os[l].xs);
      }
      GrownSizes(f, f', b, b', o, o', clst, e, r);
      StillApart(os, os', k, r, clst == 0, o');
      StillHeld(f, b, b', os, os', k, r, clst == 0, o');
    }
  }

  lemma GrownSizes(f: seq<nat>, f': seq<nat>, b: seq<bit>, b': seq<bit>, o: ObjInfo, o': ObjInfo, clst: nat, e: nat,
      r: nat)
    requires |f| >= 3 && clst < |f| && |b| == |f| - 2 && ExFatGrown(f, f', b, b', o, o', clst, e, r) && r != 0
    ensures |f'| == |f| && 2 <= r < |f| && b' == b[r - 2 := 1] && b[r - 2] == 0
  {
  }

  lemma NotInOther(f: seq<nat>, b: seq<bit>, v: Shape, os: seq<Holding>, k: nat, clst: nat, l: nat)
    requires Objects(f, b, v, os) && l < |os|
    requires clst != 0 ==> k < |os| && l != k && os[k].xs != [] && os[k].xs[|os[k].xs| - 1] == clst
    ensures clst !in os[l].xs
  {
    HoldsParts(f, b, os[l].o, v, os[l].xs);
    if clst != 0 {
      if k < l { assert Disjoint(os[k].xs, os[l].xs); } else { assert Disjoint(os[l].xs, os[k].xs); }
    }
  }

  lemma StillApart(os: seq<Holding>, os': seq<Holding>, k: nat, r: nat, isNew: bool, o': ObjInfo)
    requires isNew || k < |os|
    requires os' == Given(os, k, o', r, isNew)
    requires forall i: nat, j: nat :: i < j < |os| ==> Disjoint(os[i].xs, os[j].xs)
    requires forall l: nat | l < |os| && (!isNew ==> l != k) :: r !in os[l].xs
    ensures forall i: nat, j: nat :: i < j < |os'| ==> Disjoint(os'[i].xs, os'[j].xs)
  {
    forall i: nat, j: nat | i < j < |os'| ensures Disjoint(os'[i].xs, os'[j].xs) {
      if j < |os| { assert Disjoint(os[i].xs, os[j].xs); }
    }
  }

  lemma StillHeld(f: seq<nat>, b: seq<bit>, b': seq<bit>, os: seq<Holding>, os': seq<Holding>, k: nat, r: nat,
      isNew: bool, o': ObjInfo)
    requires |b| + 2 == |f| && (isNew || k < |os|) && os' == Given(os, k, o', r, isNew) && 2 <= r < |f|
      && b' == b[r - 2 := 1]
    requires forall c: nat :: 2 <= c < |f| && b[c - 2] == 1 ==> HeldBy(os, c)
    ensures forall c: nat :: 2 <= c < |f| && b'[c - 2] == 1 ==> HeldBy(os', c)
  {
    forall c: nat | 2 <= c < |f| && b'[c - 2] == 1 ensures HeldBy(os', c) {
      if c == r {
        var l := if isNew then |os| else k;
        assert c in os'[l].xs;
      } else {
        assert HeldBy(os, c);
        var l: nat :| l < |os| && c in os[l].xs;
        assert c in os'[l].xs;
      }
    }
  }

  // ----- fill_fat_chain -----

  /** FAT links through n consecutive clusters from s on. */
  ghost function Links(f: seq<nat>, s: nat, n: nat): (g: seq<nat>)
    requires s + n <= |f|
    ensures |g| == |f|
    ensures forall c: nat :: c < |f| ==> g[c] == if s <= c < s + n then c + 1 else f[c]
  {
    seq(|f|, c requires 0 <= c < |f| => if s <= c < s + n then c + 1 else f[c])
  }

  /** Once the contiguous part is on the FAT, the object looks the same without its special state. */
  lemma FillSame(f: seq<nat>, o: ObjInfo, v: Shape, c: nat)
    requires Sound(f, v) && o.stat == 3 && 2 <= o.sclust < |f| && o.sclust + o.nCont <= |f|
    ensures Next(Links(f, o.sclust, o.nCont), o.(stat := 0), v, c) == Next(f, o, v, c)
  {
    if c < |f| { Offset32(c, o.sclust, |f|); }
  }

  /** fill_fat_chain leaves the object with the clusters it holds, now all of them linked on the FAT. */
  lemma FillKeeps(f: seq<nat>, b: seq<bit>, o: ObjInfo, v: Shape, xs: seq<nat>)
    requires ObjHolds(f, b, o, v, xs) && o.stat == 3
    ensures 2 <= o.sclust && o.sclust + o.nCont <= |f|
    ensures ObjHolds(Links(f, o.sclust, o.nCont), b, o.(stat := 0), v, xs)
  {
    var o1 := Filled(o, v, |xs|);
    FirstPart(f, o1, v, xs, o.nCont);
    assert StepOf(f, o1, v, xs, o.nCont) && StepOf(f, o1, v, xs, 0);
    hide Next;
    var g, o' := Links(f, o.sclust, o.nCont), Filled(o.(stat := 0), v, |xs|);
    forall i: nat | i < |xs| ensures StepOf(g, o', v, xs, i) {
      assert StepOf(f, o1, v, xs, i);
      FillSame(f, o1, v, xs[i]);
    }
  }

  /** fill_fat_chain: writes the links of the contiguous part; false when a cluster number is out of range. */
  method FillFatChain(fs: FatFs, obj: Obj) returns (ok: bool, ghost done: nat)
    requires fs.Valid() && fs.kind == ExFat
    modifies fs`disk, fs`wflag, fs`winsect, fs`view, fs.win, obj`stat
    ensures fs.Valid() && fs.Geometry() && fs.Sized(fs.view) && fs.OthersKept(old(fs.view), fs.view)
    ensures old(obj.stat) != 3 ==> ok && fs.view == old(fs.view) && obj.stat == old(obj.stat)
    ensures old(obj.stat) == 3 ==>
              && (ok <==> obj.nCont == 0 || (2 <= obj.sclust && obj.sclust + obj.nCont <= fs.nent))
              && obj.stat == (if ok then 0 else 3)
              && (ok ==> done == obj.nCont)
              && (if done == 0 then fs.Fat() == old(fs.Fat())
                  else obj.sclust + done <= fs.nent && fs.Fat() == Links(old(fs.Fat()), obj.sclust, done))
  {
    hide *;
    fs.ValidParts();
    fs.KeptSame(fs.view);
    ok, done := true, 0;
    if obj.stat == 3 {
      var cl, n := obj.sclust, obj.nCont;
      ghost var f0, w := fs.Fat(), fs.view;
      while n != 0
        invariant fs.Valid() && fs.Geometry() && fs.Sized(fs.view) && fs.OthersKept(w, fs.view)
        invariant done + n == obj.nCont && cl == obj.sclust + done
        invariant done > 0 ==> 2 <= obj.sclust && cl <= fs.nent
        invariant fs.Fat() == if done == 0 then f0 else Links(f0, obj.sclust, done)
        invariant obj.stat == 3
        decreases n
      {
        ghost var w1 := fs.view;
        ok := fs.PutFat(cl, cl + 1);
        fs.ValidParts();
        if !ok {
          return;
        }
        FitsNext(fs, cl);
        fs.KeptTrans(w, w1, fs.view);
        OneMoreLink(f0, obj.sclust, done);
        cl := cl + 1;
        n := n - 1;
        done := done + 1;
      }
      obj.stat := 0;
    }
  }

  lemma FitsNext(fs: FatFs, c: nat)
    requires fs.Geometry() && c < fs.nent
    ensures (c + 1) % Limit(fs.kind) == c + 1
  {
  }

  lemma OneMoreLink(f: seq<nat>, s: nat, n: nat)
    requires s + n < |f|
    ensures (if n == 0 then f else Links(f, s, n))[s + n := s + n + 1] == Links(f, s, n + 1)
  {
  }

  // ----- remove_chain on exFAT -----

  ghost function On(b: seq<bit>): set<nat> {
    set i: nat | i < |b| && b[i] == 1
  }

  /** Length of the run of set bits from position v on, at most n. */
  function SetRun(b: seq<bit>, v: nat, n: nat): (m: nat)
    requires v + n <= |b|
    ensures m <= n && (forall i :: v <= i < v + m ==> b[i] == 1) && (m < n ==> b[v + m] == 0)
    decreases n
  {
    if n == 0 || b[v] == 0 then 0 else 1 + SetRun(b, v + 1, n - 1)
  }

  lemma {:induction false} RunIs(b: seq<bit>, v: nat, n: nat, m: nat)
    requires v + n <= |b| && m <= n && (forall i :: v <= i < v + m ==> b[i] == 1) && (m < n ==> b[v + m] == 0)
    ensures SetRun(b, v, n) == m
    decreases n
  {
    if m > 0 {
      RunIs(b, v + 1, n - 1, m - 1);
    }
  }

  lemma OnShrinks(b: seq<bit>, v: nat, n: nat)
    requires v + n <= |b| && n > 0 && b[v] == 1
    ensures On(SetBits(b, v, n, 0)) < On(b)
  {
    assert v in On(b) && v !in On(SetBits(b, v, n, 0));
  }

  /**
   * Following an object from cluster cl on and clearing the bitmap run by run; scl starts the run that cl
   * belongs to. A run is cleared when the next status is not the next cluster number.
   */
  ghost function Released(f: seq<nat>, o: ObjInfo, v: Shape, b: seq<bit>, scl: nat, cl: nat): (r: (seq<bit>, bool))
    requires Sound(f, v) && |b| == |f| - 2 && 2 <= scl <= cl < |f|
    ensures |r.0| == |b|
    decreases On(b), |f| - cl
  {
    var nxt := Next(f, o, v, cl);
    if nxt == 0 then (b, true)
    else if nxt == 1 then (b, false)
    else if nxt == cl + 1 then
      if nxt >= |f| then (b, true) else Released(f, o, v, b, scl, nxt)
    else
      var n := cl - scl + 1;
      var m := SetRun(b, scl - 2, n);
      var b' := SetBits(b, scl - 2, m, 0);
      if m < n then (b', false)
      else if nxt >= |f| then (b', true)
      else
        OnShrinks(b, scl - 2, n);
        Released(f, o, v, b', nxt, nxt)
  }

  /** How many clusters such a removal passes, each of which counts as freed. */
  ghost function Passed(f: seq<nat>, o: ObjInfo, v: Shape, b: seq<bit>, scl: nat, cl: nat): nat
    requires Sound(f, v) && |b| == |f| - 2 && 2 <= scl <= cl < |f|
    decreases On(b), |f| - cl
  {
    var nxt := Next(f, o, v, cl);
    if nxt < 2 then 0
    else if nxt == cl + 1 then
      if nxt >= |f| then 1 else 1 + Passed(f, o, v, b, scl, nxt)
    else
      var n := cl - scl + 1;
      if SetRun(b, scl - 2, n) < n || nxt >= |f| then 1
      else
        OnShrinks(b, scl - 2, n);
        1 + Passed(f, o, v, SetBits(b, scl - 2, n, 0), nxt, nxt)
  }

  /** The bitmap with the bits of the given clusters cleared. */
  function Cleared(b: seq<bit>, ys: seq<nat>): (r: seq<bit>)
    ensures |r| == |b|
  {
    seq(|b|, k requires 0 <= k < |b| => if k + 2 in ys then 0 else b[k])
  }

  /** xs[i..j] are consecutive clusters, and all clusters from position i on are marked in use. */
  ghost predicate Pending(f: seq<nat>, o: ObjInfo, v: Shape, b: seq<bit>, xs: seq<nat>, i: nat, j: nat) {
    && Sound(f, v) && |b| == |f| - 2 && i <= j < |xs|
    && (forall k: nat :: i <= k < |xs| ==> StepOf(f, o, v, xs, k))
    && (forall k: nat :: k < |xs| ==> 2 <= xs[k] < |f|)
    && (forall k: nat :: i <= k <= j ==> xs[k] == xs[i] + (k - i))
    && (forall k: nat :: i <= k < |xs| ==> b[xs[k] - 2] == 1)
    && (forall k: nat, l: nat :: k < l < |xs| ==> xs[k] != xs[l])
  }

  lemma RunAt(xs: seq<nat>, i: nat, j: nat, p: nat)
    requires i <= j < |xs| && p <= j - i && forall k: nat :: i <= k <= j ==> xs[k] == xs[i] + (k - i)
    ensures xs[i + p] == xs[i] + p
  {
  }

  lemma BeyondRun(xs: seq<nat>, i: nat, j: nat, k: nat)
    requires i <= j < k < |xs| && forall l: nat :: i <= l <= j ==> xs[l] == xs[i] + (l - i)
    requires forall l: nat, m: nat :: l < m < |xs| ==> xs[l] != xs[m]
    ensures !(xs[i] <= xs[k] < xs[i] + (j - i + 1))
  {
    if xs[i] <= xs[k] < xs[i] + (j - i + 1) {
      RunAt(xs, i, j, xs[k] - xs[i]);
      assert false;
    }
  }

  lemma RunFull(f: seq<nat>, o: ObjInfo, v: Shape, b: seq<bit>, xs: seq<nat>, i: nat, j: nat)
    requires Pending(f, o, v, b, xs, i, j)
    ensures xs[j] == xs[i] + (j - i) && xs[i] - 2 + (j - i + 1) <= |b|
    ensures SetRun(b, xs[i] - 2, j - i + 1) == j - i + 1
    ensures j + 1 < |xs| ==> Pending(f, o, v, SetBits(b, xs[i] - 2, j - i + 1, 0), xs, j + 1, j + 1)
  {
    var s, n := xs[i], j - i + 1;
    assert xs[j] == s + (j - i);
    forall p | s - 2 <= p < s - 2 + n ensures b[p] == 1 {
      assert xs[i + (p - (s - 2))] == p + 2;
    }
    RunIs(b, s - 2, n, n);
    if j + 1 < |xs| {
      var b' := SetBits(b, s - 2, n, 0);
      forall k: nat | j + 1 <= k < |xs| ensures b'[xs[k] - 2] == 1 {
        BeyondRun(xs, i, j, k);
      }
    }
  }

  lemma PendingNext(f: seq<nat>, o: ObjInfo, v: Shape, b: seq<bit>, xs: seq<nat>, i: nat, j: nat)
    requires Pending(f, o, v, b, xs, i, j)
    ensures 2 <= xs[i] <= xs[j] < |f|
    ensures j + 1 < |xs| ==> Next(f, o, v, xs[j]) == xs[j + 1] && 2 <= xs[j + 1] < |f|
    ensures j + 1 == |xs| ==> Next(f, o, v, xs[j]) >= |f| > 2
    ensures j + 1 < |xs| && xs[j + 1] == xs[j] + 1 ==> Pending(f, o, v, b, xs, i, j + 1)
  {
    assert StepOf(f, o, v, xs, j);
  }

  lemma RunMembers(xs: seq<nat>, i: nat, j: nat, c: nat)
    requires i <= j < |xs| && forall k: nat :: i <= k <= j ==> xs[k] == xs[i] + (k - i)
    ensures c in xs[i..] <==> xs[i] <= c < xs[i] + (j - i + 1) || c in xs[j + 1..]
  {
    assert xs[i..] == xs[i..j + 1] + xs[j + 1..];
    if xs[i] <= c < xs[i] + (j - i + 1) { assert xs[i..j + 1][c - xs[i]] == c; }
  }

  lemma ClearedStep(b: seq<bit>, xs: seq<nat>, i: nat, j: nat, s: nat)
    requires i <= j < |xs| && s == xs[i] >= 2 && s - 2 + (j - i + 1) <= |b|
    requires forall k: nat :: i <= k <= j ==> xs[k] == s + (k - i)
    ensures Cleared(SetBits(b, s - 2, j - i + 1, 0), xs[j + 1..]) == Cleared(b, xs[i..])
  {
    var x, y := Cleared(SetBits(b, s - 2, j - i + 1, 0), xs[j + 1..]), Cleared(b, xs[i..]);
    forall k: nat | k < |b| ensures x[k] == y[k] {
      RunMembers(xs, i, j, k + 2);
    }
  }

  /**
   * Removing the rest of an object clears exactly the bits of its clusters, unless the last status equals
   * the number after the last cluster; then the last run stays marked.
   */
  lemma {:induction false} ReleasedRuns(f: seq<nat>, o: ObjInfo, v: Shape, b: seq<bit>, xs: seq<nat>, i: nat, j: nat)
    requires Pending(f, o, v, b, xs, i, j)
    ensures Sound(f, v) && |b| == |f| - 2 && 2 <= xs[i] <= xs[j] < |f|
    ensures var last := xs[|xs| - 1];
            var r := Released(f, o, v, b, xs[i], xs[j]);
            2 <= last < |f| && r.1 && if Next(f, o, v, last) == last + 1 then r.0[last - 2] == 1
              else r.0 == Cleared(b, xs[i..])
    ensures Passed(f, o, v, b, xs[i], xs[j]) == |xs| - j
    decreases |xs| - j
  {
    hide *;
    PendingParts(f, o, v, b, xs, i, j);
    PendingNext(f, o, v, b, xs, i, j);
    ReleasedStep(f, o, v, b, xs[i], xs[j]);
    PassedStep(f, o, v, b, xs[i], xs[j]);
    RunFull(f, o, v, b, xs, i, j);
    var n := j - i + 1;
    var b' := SetBits(b, xs[i] - 2, n, 0);
    if j + 1 < |xs| {
      if xs[j + 1] == xs[j] + 1 {
        ReleasedRuns(f, o, v, b, xs, i, j + 1);
      } else {
        ReleasedRuns(f, o, v, b', xs, j + 1, j + 1);
        ClearedStep(b, xs, i, j, xs[i]);
      }
    } else {
      ClearedStep(b, xs, i, j, xs[i]);
      ClearedNone(b', xs[j + 1..]);
    }
  }

  lemma PendingParts(f: seq<nat>, o: ObjInfo, v: Shape, b: seq<bit>, xs: seq<nat>, i: nat, j: nat)
    requires Pending(f, o, v, b, xs, i, j)
    ensures Sound(f, v) && |b| == |f| - 2 && i <= j < |xs| && 2 <= xs[|xs| - 1] < |f| && b[xs[|xs| - 1] - 2] == 1
    ensures 2 <= xs[i] && forall k: nat :: i <= k <= j ==> xs[k] == xs[i] + (k - i)
  {
  }

  lemma ClearedNone(b: seq<bit>, ys: seq<nat>)
    requires ys == []
    ensures Cleared(b, ys) == b
  {
  }

  /** The FAT after the new end of the object was marked, unless it is contiguous. */
  function Marked(f: seq<nat>, o: ObjInfo, pclst: nat, e: nat): (g: seq<nat>)
    ensures |g| == |f|
  {
    if 0 < pclst < |f| && o.stat != 2 then f[pclst := e] else f
  }

  /** The object's state after its end was removed. */
  function StatAfter(o: ObjInfo, pclst: nat): nat {
    if pclst == 0 then 0 else if o.stat == 3 && o.sclust <= pclst <= o.sclust + o.nCont then 2 else o.stat
  }

  lemma ReleasedStep(f: seq<nat>, o: ObjInfo, v: Shape, b: seq<bit>, scl: nat, cl: nat)
    requires Sound(f, v) && |b| == |f| - 2 && 2 <= scl <= cl < |f|
    ensures var nxt, n := Next(f, o, v, cl), cl - scl + 1;
            var m := SetRun(b, scl - 2, n);
            var b', r := SetBits(b, scl - 2, m, 0), Released(f, o, v, b, scl, cl);
            if nxt == 0 then r == (b, true)
            else if nxt == 1 then r == (b, false)
            else if nxt == cl + 1 then r == if nxt >= |f| then (b, true) else Released(f, o, v, b, scl, nxt)
            else if m < n then r == (b', false)
            else if nxt >= |f| then r == (b', true)
            else r == Released(f, o, v, b', nxt, nxt) && On(b') < On(b)
  {
    hide Next, SetRun, SetBits;
    var n := cl - scl + 1;
    if SetRun(b, scl - 2, n) == n { OnShrinks(b, scl - 2, n); }
  }

  lemma PassedStep(f: seq<nat>, o: ObjInfo, v: Shape, b: seq<bit>, scl: nat, cl: nat)
    requires Sound(f, v) && |b| == |f| - 2 && 2 <= scl <= cl < |f|
    ensures var nxt, n := Next(f, o, v, cl), cl - scl + 1;
            var k := Passed(f, o, v, b, scl, cl);
            if nxt < 2 then k == 0
            else if nxt == cl + 1 then k == if nxt >= |f| then 1 else 1 + Passed(f, o, v, b, scl, nxt)
            else if SetRun(b, scl - 2, n) < n || nxt >= |f| then k == 1
            else k == 1 + Passed(f, o, v, SetBits(b, scl - 2, n, 0), nxt, nxt)
  {
    hide Next, SetRun, SetBits;
    var n := cl - scl + 1;
    if SetRun(b, scl - 2, n) == n { OnShrinks(b, scl - 2, n); }
  }

  lemma SoundVolume(fs: FatFs)
    requires fs.Geometry() && fs.Sized(fs.view) && fs.kind == ExFat
    ensures Sound(fs.Fat(), Shape(fs.ss, fs.csize))
  {
  }

  /** remove_chain on exFAT: frees the clusters from clst on in the bitmap, run by run. */
  method RemoveObject(fs: FatFs, obj: Obj, clst: nat, pclst: nat) returns (ok: bool)
    requires fs.Valid() && fs.Geometry() && fs.Sized(fs.view) && fs.kind == ExFat
      && Sound(fs.Fat(), Shape(fs.ss, fs.csize))
    modifies fs`disk, fs`wflag, fs`winsect, fs`view, fs.win, fs`freeClst, fs`fsiFlag, obj`stat
    ensures fs.Valid() && fs.Geometry() && fs.Sized(fs.view) && |old(Bitmap(fs))| == fs.nent - 2
    ensures var f, b, o := old(fs.Fat()), old(Bitmap(fs)), old(obj.Info());
            if clst < 2 || clst >= fs.nent || (o.stat != 2 && (pclst == 1 || pclst >= fs.nent)) then
              !ok && fs.Fat() == f && Bitmap(fs) == b && obj.Info() == o
            else
              && fs.Fat() == Marked(f, o, pclst, EndMark(fs.kind))
              && Sound(fs.Fat(), Shape(fs.ss, fs.csize))
              && (Bitmap(fs), ok) == Released(fs.Fat(), o, Shape(fs.ss, fs.csize), b, clst, clst)
              && obj.Info() == if ok then o.(stat := StatAfter(o, pclst)) else o
    ensures fs.nent >= 3
    ensures var f, b, o := old(fs.Fat()), old(Bitmap(fs)), old(obj.Info());
            if clst < 2 || clst >= fs.nent || (o.stat != 2 && (pclst == 1 || pclst >= fs.nent)) then
              fs.freeClst == old(fs.freeClst) && fs.fsiFlag == old(fs.fsiFlag)
            else
              Returned(fs.nent, Passed(fs.Fat(), o, Shape(fs.ss, fs.csize), b, clst, clst), old(fs.freeClst),
                old(fs.fsiFlag), fs.freeClst, fs.fsiFlag)
  {
    hide *;
    fs.ValidParts();
    BitmapIs(fs);
    InfoIs(obj);
    ghost var f, b, o, v := fs.Fat(), Bitmap(fs), obj.Info(), Shape(fs.ss, fs.csize);
    if clst < 2 || clst >= fs.nent {
      return false;
    }
    EndMarkStored(fs.kind);
    if pclst != 0 && obj.stat != 2 {
      ghost var was := fs.view;
      ok := fs.PutFat(pclst, 0xFFFF_FFFF);
      fs.ValidParts();
      BitmapKept(fs, was);
      BitmapIs(fs);
      if !ok {
        return;
      }
    }
    MarkedIs(f, o, pclst, EndMark(fs.kind));
    SoundVolume(fs);
    ok := ReleaseRuns(fs, obj, clst);
    InfoIs(obj);
    if !ok {
      return;
    }
    StatAfterIs(o, pclst);
    if pclst == 0 {
      obj.stat := 0;
    } else {
      if obj.stat == 3 && pclst >= obj.sclust && pclst <= obj.sclust + obj.nCont {
        obj.stat := 2;
      }
    }
    InfoIs(obj);
    fs.ValidParts();
  }

  lemma MarkedIs(f: seq<nat>, o: ObjInfo, pclst: nat, e: nat)
    ensures 0 < pclst < |f| && o.stat != 2 ==> Marked(f, o, pclst, e) == f[pclst := e]
    ensures pclst == 0 || o.stat == 2 ==> Marked(f, o, pclst, e) == f
  {
  }

  lemma StatAfterIs(o: ObjInfo, pclst: nat)
    ensures StatAfter(o, pclst) == if pclst == 0 then 0
                                   else if o.stat == 3 && o.sclust <= pclst <= o.sclust + o.nCont then 2 else o.stat
  {
  }

  /** The loop of remove_chain on exFAT. */
  method ReleaseRuns(fs: FatFs, obj: Obj, clst: nat) returns (ok: bool)
    requires fs.Valid() && fs.Geometry() && fs.Sized(fs.view) && fs.kind == ExFat && 2 <= clst < fs.nent
    requires Sound(fs.Fat(), Shape(fs.ss, fs.csize))
    modifies fs`disk, fs`wflag, fs`winsect, fs`view, fs.win, fs`freeClst, fs`fsiFlag
    ensures fs.Valid() && fs.Geometry() && fs.Sized(fs.view) && fs.Fat() == old(fs.Fat())
      && |old(Bitmap(fs))| == fs.nent - 2
    ensures (Bitmap(fs), ok) == Released(fs.Fat(), obj.Info(), Shape(fs.ss, fs.csize), old(Bitmap(fs)), clst, clst)
    ensures fs.nent >= 3
      && Returned(fs.nent, Passed(fs.Fat(), obj.Info(), Shape(fs.ss, fs.csize), old(Bitmap(fs)), clst, clst),
           old(fs.freeClst), old(fs.fsiFlag), fs.freeClst, fs.fsiFlag)
  {
    hide *;
    fs.ValidParts();
    BitmapIs(fs);
    ghost var f, b, o, v := fs.Fat(), Bitmap(fs), obj.Info(), Shape(fs.ss, fs.csize);
    SoundParts(f, v);
    ghost var goal, all := Released(f, o, v, b, clst, clst), Passed(f, o, v, b, clst, clst);
    ghost var free, flag, k := fs.freeClst, fs.fsiFlag, 0;
    ReturnedNone(fs.nent, free, flag);
    var scl, ecl, cl := clst, clst, clst;
    while true
      invariant fs.Valid() && fs.Geometry() && fs.Sized(fs.view) && fs.Fat() == f && |Bitmap(fs)| == fs.nent - 2
      invariant 2 <= scl <= ecl == cl < fs.nent && goal == Released(f, o, v, Bitmap(fs), scl, cl)
      invariant all == k + Passed(f, o, v, Bitmap(fs), scl, cl)
      invariant Returned(fs.nent, k, free, flag, fs.freeClst, fs.fsiFlag)
      decreases On(Bitmap(fs)), fs.nent - cl
    {
      ghost var b1 := Bitmap(fs);
      ReleasedStep(f, o, v, b1, scl, cl);
      PassedStep(f, o, v, b1, scl, cl);
      NextIs(f, o, v, cl);
      var nxt := fs.GetFat(obj, cl);
      fs.ValidParts();
      BitmapIs(fs);
      if nxt == 0 {
        break;
      }
      if nxt == 1 {
        return false;
      }
      NoteFreed(fs, k, free, flag);
      k := k + 1;
      fs.ValidParts();
      if ecl + 1 == nxt {
        ecl := nxt;
      } else {
        ghost var done;
        ok, done := ChangeBitmap(fs, scl, ecl - scl + 1, 0);
        fs.ValidParts();
        BitmapIs(fs);
        ClearedRun(b1, scl - 2, ecl - scl + 1, done);
        if !ok {
          return;
        }
        scl, ecl := nxt, nxt;
      }
      cl := nxt;
      if cl >= fs.nent {
        break;
      }
    }
    ok := true;
  }

  lemma SoundParts(f: seq<nat>, v: Shape)
    requires Sound(f, v)
    ensures v.ss > 0 && v.csize > 0 && |f| > 2
  {
  }

  lemma NextIs(f: seq<nat>, o: ObjInfo, v: Shape, c: nat)
    requires v.ss > 0 && v.csize > 0
    ensures Next(f, o, v, c) == NextCluster(ExFat, f, o, v.ss, v.csize, c)
  {
  }

  /** The bits change_bitmap cleared are the run of set bits. */
  lemma ClearedRun(b: seq<bit>, v: nat, n: nat, done: nat)
    requires v + n <= |b| && done <= n
    requires (forall i :: v <= i < v + done ==> b[i] != 0) && (done < n ==> b[v + done] == 0)
    ensures SetRun(b, v, n) == done
  {
    RunIs(b, v, n, done);
  }

  /**
   * Removing the end of an object from position j on: the call succeeds, and clears exactly the bits of the removed
   * clusters unless the last of them is the highest cluster of the volume and its end mark is the number behind it,
   * which looks like the next cluster; then its bit stays set.
   */
  lemma RemoveObjectIff(f: seq<nat>, o: ObjInfo, v: Shape, b: seq<bit>, xs: seq<nat>, j: nat, e: nat)
    requires ObjChain(f, o, v, xs) && j < |xs| && |b| == |f| - 2 && e >= |f|
    requires forall k: nat :: k < |xs| ==> 2 <= xs[k] < |f| && b[xs[k] - 2] == 1
    ensures var g, last := Marked(f, o, if j > 0 then xs[j - 1] else 0, e), xs[|xs| - 1];
            Sound(g, v) && var r := Released(g, o, v, b, xs[j], xs[j]);
            r.1 && (r.0 == Cleared(b, xs[j..]) <==> last < |f| - 1 || Next(f, o, v, last) != |f|)
            && Passed(g, o, v, b, xs[j], xs[j]) == |xs| - j
  {
    hide *;
    var g, last := Marked(f, o, if j > 0 then xs[j - 1] else 0, e), xs[|xs| - 1];
    EndStatus(f, o, v, xs);
    StillPending(f, o, v, b, xs, j, e);
    ReleasedRuns(g, o, v, b, xs, j, j);
    LastCleared(b, xs, j);
  }

  /** Marking the cluster before position j does not change the status of those behind it. */
  lemma StillPending(f: seq<nat>, o: ObjInfo, v: Shape, b: seq<bit>, xs: seq<nat>, j: nat, e: nat)
    requires ObjChain(f, o, v, xs) && j < |xs| && |b| == |f| - 2 && e >= |f|
    requires forall k: nat :: k < |xs| ==> 2 <= xs[k] < |f| && b[xs[k] - 2] == 1
    ensures var g, last := Marked(f, o, if j > 0 then xs[j - 1] else 0, e), xs[|xs| - 1];
            Pending(g, o, v, b, xs, j, j) && Sound(g, v) && Next(g, o, v, last) == Next(f, o, v, last)
  {
    hide Next;
    var p := if j > 0 then xs[j - 1] else 0;
    var g := Marked(f, o, p, e);
    forall k: nat, l: nat | k < l < |xs| ensures xs[k] != xs[l] {
      ObjDistinct(f, o, v, xs, k, l);
    }
    forall k: nat | j <= k < |xs| ensures StepOf(g, o, v, xs, k) && Next(g, o, v, xs[k]) == Next(f, o, v, xs[k]) {
      assert StepOf(f, o, v, xs, k);
      assert k != j - 1;
      OtherStatus(f, g, o, v, xs[k]);
    }
  }

  /** The status of the last cluster is the number behind it only at the end of the volume. */
  lemma EndStatus(f: seq<nat>, o: ObjInfo, v: Shape, xs: seq<nat>)
    requires ObjChain(f, o, v, xs)
    ensures var last := xs[|xs| - 1];
            last < |f| && (Next(f, o, v, last) == last + 1 <==> last == |f| - 1 && Next(f, o, v, last) == |f|)
  {
    assert StepOf(f, o, v, xs, |xs| - 1);
  }

  lemma OtherStatus(f: seq<nat>, g: seq<nat>, o: ObjInfo, v: Shape, c: nat)
    requires Sound(f, v) && |g| == |f| && c < |f| && g[c] == f[c]
    ensures Next(g, o, v, c) == Next(f, o, v, c)
  {
  }

  lemma LastCleared(b: seq<bit>, xs: seq<nat>, j: nat)
    requires j < |xs| && 2 <= xs[|xs| - 1] < |b| + 2
    ensures Cleared(b, xs[j..])[xs[|xs| - 1] - 2] == 0
  {
    var last := xs[|xs| - 1];
    assert xs[j..][|xs| - 1 - j] == last;
    assert last in xs[j..];
  }

  /** A one-cluster object on the highest cluster number is such a case. */
  lemma HighestClusterStays(f: seq<nat>)
    requires |f| == 0x7FFF_FFFF
    ensures var o, v := ObjInfo(2, 0x7FFF_FFFE, 1, 0), Shape(512, 1);
            ObjChain(f, o, v, [0x7FFF_FFFE]) && Next(f, o, v, 0x7FFF_FFFE) == 0x7FFF_FFFE + 1
  {
    var o, v := ObjInfo(2, 0x7FFF_FFFE, 1, 0), Shape(512, 1);
    assert LastIndex(1, 512, 1) == 0;
    ContiguousStatus(f, o, v, 0x7FFF_FFFE);
    assert StepOf(f, o, v, [0x7FFF_FFFE], 0);
  }
}
