/** The bytes of a file as they lie in the sectors of its clusters. */
module FileData {
  import opened Machine
  import opened FatTable
  import opened Window

  /** What the place of a file's data depends on. */
  datatype Geo = Geo(ss: nat, csize: nat, database: nat, nent: nat)

  ghost predicate GeoOk(g: Geo) {
    g.ss > 0 && g.csize > 0 && g.nent >= 3
  }

  /** All clusters are numbers of data clusters, and no cluster occurs twice. */
  ghost predicate Clusters(g: Geo, xs: seq<nat>) {
    && (forall i: nat :: i < |xs| ==> 2 <= xs[i] < g.nent)
    && (forall i: nat, j: nat :: i < j < |xs| ==> xs[i] != xs[j])
  }

  ghost predicate Volume(g: Geo, view: seq<seq<byte>>) {
    GeoOk(g) && g.database + (g.nent - 2) * g.csize <= |view| && forall i :: 0 <= i < |view| ==> |view[i]| == g.ss
  }

  /** Sector k of a file. */
  ghost function SectorAt(g: Geo, xs: seq<nat>, k: nat): nat
    requires GeoOk(g) && Clusters(g, xs) && k / g.csize < |xs|
  {
    g.database + g.csize * (xs[k / g.csize] - 2) + k % g.csize
  }

  lemma QuotientNat(k: nat, c: nat)
    requires c > 0
    ensures 0 <= k / c
  {
  }

  lemma QuotientLess(k: nat, n: nat, c: nat)
    requires c > 0 && k < n * c
    ensures 0 <= k / c < n
  {
    SectorInside(k, n, c);
    Position(k, c);
  }

  lemma SectorAtInside(g: Geo, view: seq<seq<byte>>, xs: seq<nat>, k: nat)
    requires Volume(g, view) && Clusters(g, xs) && 0 <= k / g.csize < |xs|
    ensures g.database <= SectorAt(g, xs, k) < |view|
  {
    Position(k, g.csize);
    LaterSector(xs[k / g.csize] - 2, g.nent - 2, g.csize);
  }

  /** Different sectors of a file lie in different places. */
  lemma SectorAtDistinct(g: Geo, xs: seq<nat>, k: nat, l: nat)
    requires GeoOk(g) && Clusters(g, xs) && 0 <= k / g.csize < |xs| && 0 <= l / g.csize < |xs| && k != l
    ensures SectorAt(g, xs, k) != SectorAt(g, xs, l)
  {
    Position(k, g.csize);
    Position(l, g.csize);
    PlacesDiffer(xs[k / g.csize] - 2, k % g.csize, xs[l / g.csize] - 2, l % g.csize, g.csize);
    if k / g.csize < l / g.csize {
      assert xs[k / g.csize] != xs[l / g.csize];
    } else if l / g.csize < k / g.csize {
      assert xs[k / g.csize] != xs[l / g.csize];
    }
  }

  lemma PlacesDiffer(q: nat, r: nat, q': nat, r': nat, c: nat)
    requires r < c && r' < c
    ensures c * q + r == c * q' + r' <==> q == q' && r == r'
  {
    if q < q' { LaterSector(q, q', c); }
    if q' < q { LaterSector(q', q, c); }
  }

  /** The sectors of a file, in file order. */
  ghost function Sectors(g: Geo, view: seq<seq<byte>>, xs: seq<nat>): (r: seq<seq<byte>>)
    requires Volume(g, view) && Clusters(g, xs)
    ensures |r| == |xs| * g.csize && forall k :: 0 <= k < |r| ==> |r[k]| == g.ss
  {
    seq(|xs| * g.csize, k requires 0 <= k < |xs| * g.csize => SectorData(g, view, xs, k))
  }

  ghost function SectorData(g: Geo, view: seq<seq<byte>>, xs: seq<nat>, k: nat): (r: seq<byte>)
    requires Volume(g, view) && Clusters(g, xs) && k < |xs| * g.csize
    ensures |r| == g.ss
  {
    QuotientLess(k, |xs|, g.csize);
    SectorAtInside(g, view, xs, k);
    view[SectorAt(g, xs, k)]
  }

  /** All bytes in the clusters of a file, including those after its end. */
  ghost function Space(g: Geo, view: seq<seq<byte>>, xs: seq<nat>): (r: seq<byte>)
    requires Volume(g, view) && Clusters(g, xs)
    ensures |r| == |xs| * g.csize * g.ss
  {
    Bytes(Sectors(g, view, xs), 0, |xs| * g.csize, g.ss)
  }

  /** Changing the place of sector k changes no other sector of the file. */
  lemma ChangedSector(g: Geo, view: seq<seq<byte>>, xs: seq<nat>, k: nat, data: seq<byte>, l: nat)
    requires Volume(g, view) && Clusters(g, xs) && k < |xs| * g.csize && 0 <= k / g.csize < |xs| && l < |xs| * g.csize
    requires |data| == g.ss
    ensures SectorAt(g, xs, k) < |view| && Volume(g, view[SectorAt(g, xs, k) := data])
    ensures SectorData(g, view[SectorAt(g, xs, k) := data], xs, l) == if l == k then data
      else SectorData(g, view, xs, l)
  {
    hide Clusters, SectorAt;
    QuotientLess(l, |xs|, g.csize);
    SectorAtInside(g, view, xs, k);
    SectorAtInside(g, view, xs, l);
    if l != k { SectorAtDistinct(g, xs, k, l); }
  }

  /** Writing into sector k of a file writes into its space. */
  lemma StoreInFile(g: Geo, view: seq<seq<byte>>, xs: seq<nat>, p: nat, s: seq<byte>)
    requires Volume(g, view) && Clusters(g, xs) && p < |xs| * g.csize * g.ss && p % g.ss + |s| <= g.ss
    requires p / g.ss < |xs| * g.csize && 0 <= p / g.ss / g.csize < |xs|
    ensures SectorAt(g, xs, p / g.ss) < |view|
    ensures var sec := SectorAt(g, xs, p / g.ss);
            var view' := view[sec := Store(view[sec], p % g.ss, s)];
            && Volume(g, view') && p + |s| <= |Space(g, view, xs)|
            && Space(g, view', xs) == Store(Space(g, view, xs), p, s)
  {
    hide Store, Clusters, Bytes, SectorAt;
    var k := p / g.ss;
    SectorAtInside(g, view, xs, k);
    var sec := SectorAt(g, xs, k);
    var view' := view[sec := Store(view[sec], p % g.ss, s)];
    var a, b := Sectors(g, view, xs), Sectors(g, view', xs);
    forall l: nat | l < |xs| * g.csize ensures b[l] == if l == k then view'[sec] else a[l] {
      ChangedSector(g, view, xs, k, view'[sec], l);
    }
    assert a[k] == view[sec];
    StoreInSector(a, b, 0, |xs| * g.csize, g.ss, p, s);
  }

  /** Bytes inside one sector of a file. */
  lemma SpaceInSector(g: Geo, view: seq<seq<byte>>, xs: seq<nat>, p: nat, n: nat)
    requires Volume(g, view) && Clusters(g, xs) && p < |xs| * g.csize * g.ss && p % g.ss + n <= g.ss
    requires p / g.ss < |xs| * g.csize && 0 <= p / g.ss / g.csize < |xs| && p + n <= |xs| * g.csize * g.ss
    ensures SectorAt(g, xs, p / g.ss) < |view|
    ensures Space(g, view, xs)[p..p + n] == view[SectorAt(g, xs, p / g.ss)][p % g.ss..p % g.ss + n]
  {
    hide Clusters, Bytes, SectorAt;
    SectorAtInside(g, view, xs, p / g.ss);
    BytesInSector(Sectors(g, view, xs), 0, |xs| * g.csize, g.ss, p, n);
  }

  /** Sectors of one cluster follow each other on the medium. */
  lemma SameCluster(g: Geo, xs: seq<nat>, k: nat, i: nat)
    requires GeoOk(g) && Clusters(g, xs) && 0 <= k / g.csize < |xs| && k % g.csize + i < g.csize
    ensures (k + i) / g.csize == k / g.csize && SectorAt(g, xs, k + i) == SectorAt(g, xs, k) + i
  {
    Position(k, g.csize);
    SectorOf(k / g.csize, k % g.csize + i, g.csize);
  }

  lemma Multiple(k: nat, j: nat, ss: nat)
    requires ss > 0
    ensures (k * ss + j) / ss == k + j / ss && (k * ss + j) % ss == j % ss && 0 <= j / ss
  {
    var q, r := j / ss, j % ss;
    Position(j, ss);
    Spread(k, q, ss);
    SectorOf(k + q, r, ss);
  }

  lemma Spread(k: nat, q: nat, ss: nat)
    ensures k * ss + ss * q == ss * (k + q)
  {
  }

  lemma MoreSectors(k: nat, cc: nat, n: nat, ss: nat)
    requires k + cc <= n
    ensures k * ss + cc * ss <= n * ss
  {
    assert k * ss + cc * ss == (k + cc) * ss;
    if k + cc < n { LaterSector(k + cc, n, ss); }
  }

  lemma SpaceByte(g: Geo, view: seq<seq<byte>>, xs: seq<nat>, p: nat)
    requires Volume(g, view) && Clusters(g, xs) && p < |xs| * g.csize * g.ss
    ensures 0 <= p / g.ss < |xs| * g.csize && 0 <= p / g.ss / g.csize < |xs| && p % g.ss < g.ss
    ensures SectorAt(g, xs, p / g.ss) < |view|
    ensures Space(g, view, xs)[p] == view[SectorAt(g, xs, p / g.ss)][p % g.ss]
  {
    hide Clusters, SectorAt;
    SectorInside(p, |xs| * g.csize, g.ss);
    QuotientLess(p / g.ss, |xs|, g.csize);
    SectorAtInside(g, view, xs, p / g.ss);
    Cell(Sectors(g, view, xs), 0, |xs| * g.csize, g.ss, p);
  }

  /** A run of sectors inside one cluster holds consecutive bytes of the file. */
  lemma RunInSpace(g: Geo, view: seq<seq<byte>>, xs: seq<nat>, k: nat, cc: nat)
    requires Volume(g, view) && Clusters(g, xs) && k < |xs| * g.csize && 0 <= k / g.csize < |xs|
      && k % g.csize + cc <= g.csize
    ensures k + cc <= |xs| * g.csize && SectorAt(g, xs, k) + cc <= |view|
    ensures k * g.ss + cc * g.ss <= |Space(g, view, xs)|
    ensures Space(g, view, xs)[k * g.ss..k * g.ss + cc * g.ss] == Bytes(view, SectorAt(g, xs, k), cc, g.ss)
  {
    RunRoom(g, view, xs, k, cc);
    MoreSectors(k, cc, |xs| * g.csize, g.ss);
    var sec := SectorAt(g, xs, k);
    var a, b := Space(g, view, xs)[k * g.ss..k * g.ss + cc * g.ss], Bytes(view, sec, cc, g.ss);
    hide *;
    forall j: nat | j < cc * g.ss ensures a[j] == b[j] {
      RunByte(g, view, xs, k, cc, j);
    }
  }

  lemma RunRoom(g: Geo, view: seq<seq<byte>>, xs: seq<nat>, k: nat, cc: nat)
    requires Volume(g, view) && Clusters(g, xs) && k < |xs| * g.csize && 0 <= k / g.csize < |xs|
      && k % g.csize + cc <= g.csize
    ensures k + cc <= |xs| * g.csize && SectorAt(g, xs, k) + cc <= |view|
  {
    Position(k, g.csize);
    LaterSector(k / g.csize, |xs|, g.csize);
    LaterSector(xs[k / g.csize] - 2, g.nent - 2, g.csize);
  }

  lemma RunByte(g: Geo, view: seq<seq<byte>>, xs: seq<nat>, k: nat, cc: nat, j: nat)
    requires Volume(g, view) && Clusters(g, xs) && k < |xs| * g.csize && 0 <= k / g.csize < |xs|
      && k % g.csize + cc <= g.csize
    requires SectorAt(g, xs, k) + cc <= |view| && j < cc * g.ss && k * g.ss + j < |xs| * g.csize * g.ss
    ensures Space(g, view, xs)[k * g.ss + j] == Bytes(view, SectorAt(g, xs, k), cc, g.ss)[j]
  {
    hide Clusters, SectorAt, Space, Bytes;
    SpaceByte(g, view, xs, k * g.ss + j);
    Multiple(k, j, g.ss);
    Cell(view, SectorAt(g, xs, k), cc, g.ss, j);
    SameCluster(g, xs, k, j / g.ss);
  }

  lemma PointwiseStore(a: seq<byte>, b: seq<byte>, from: nat, d: seq<byte>)
    requires |b| == |a| && from + |d| <= |a|
    requires forall p: nat :: from <= p < from + |d| ==> b[p] == d[p - from]
    requires forall p: nat :: p < |a| && !(from <= p < from + |d|) ==> b[p] == a[p]
    ensures b == Store(a, from, d)
  {
  }

  /** Replacing a run of sectors inside one cluster replaces those bytes of the file and no others. */
  lemma StoreRun(g: Geo, view: seq<seq<byte>>, view': seq<seq<byte>>, xs: seq<nat>, k: nat, cc: nat, from: nat,
      d: seq<byte>)
    requires Volume(g, view) && Volume(g, view') && |view'| == |view| && Clusters(g, xs) && from == k * g.ss
    requires k < |xs| * g.csize && 0 <= k / g.csize < |xs| && k % g.csize + cc <= g.csize
    requires SectorAt(g, xs, k) + cc <= |view| && Bytes(view', SectorAt(g, xs, k), cc, g.ss) == d
    requires forall i :: 0 <= i < |view| && !(SectorAt(g, xs, k) <= i < SectorAt(g, xs, k) + cc) ==> view'[i] == view[i]
    ensures from + |d| <= |Space(g, view, xs)| && Space(g, view', xs) == Store(Space(g, view, xs), from, d)
  {
    RunRoom(g, view, xs, k, cc);
    MoreSectors(k, cc, |xs| * g.csize, g.ss);
    var a, b, n := Space(g, view, xs), Space(g, view', xs), |xs| * g.csize * g.ss;
    assert |a| == n && |b| == n && |d| == cc * g.ss;
    hide *;
    forall p: nat | p < n ensures b[p] == if from <= p < from + |d| then d[p - from] else a[p] {
      StoreRunByte(g, view, view', xs, k, cc, p);
    }
    PointwiseStore(a, b, from, d);
  }

  lemma StoreRunByte(g: Geo, view: seq<seq<byte>>, view': seq<seq<byte>>, xs: seq<nat>, k: nat, cc: nat, p: nat)
    requires Volume(g, view) && Volume(g, view') && |view'| == |view| && Clusters(g, xs)
    requires k < |xs| * g.csize && 0 <= k / g.csize < |xs| && k % g.csize + cc <= g.csize
    requires SectorAt(g, xs, k) + cc <= |view| && p < |xs| * g.csize * g.ss
    requires forall i :: 0 <= i < |view| && !(SectorAt(g, xs, k) <= i < SectorAt(g, xs, k) + cc) ==> view'[i] == view[i]
    ensures k * g.ss <= p < k * g.ss + cc * g.ss ==>
              Space(g, view', xs)[p] == Bytes(view', SectorAt(g, xs, k), cc, g.ss)[p - k * g.ss]
    ensures !(k * g.ss <= p < k * g.ss + cc * g.ss) ==> Space(g, view', xs)[p] == Space(g, view, xs)[p]
  {
    hide Clusters, SectorAt, Space, Bytes, Volume;
    if k * g.ss <= p < k * g.ss + cc * g.ss {
      RunByte(g, view', xs, k, cc, p - k * g.ss);
    } else {
      VolumeOk(g, view);
      SpaceByte(g, view, xs, p);
      SpaceByte(g, view', xs, p);
      OutsideRun(g, xs, k, cc, p);
    }
  }

  lemma VolumeOk(g: Geo, view: seq<seq<byte>>)
    requires Volume(g, view)
    ensures GeoOk(g)
  {
  }

  lemma SectorRange(k: nat, cc: nat, p: nat, ss: nat)
    requires ss > 0 && k <= p / ss < k + cc
    ensures k * ss <= p < k * ss + cc * ss
  {
    Position(p, ss);
    var l := p / ss;
    assert k * ss <= l * ss by { if k < l { LaterSector(k, l, ss); } }
    LaterSector(l, k + cc, ss);
    assert (k + cc) * ss == k * ss + cc * ss;
  }

  lemma OutsideRun(g: Geo, xs: seq<nat>, k: nat, cc: nat, p: nat)
    requires GeoOk(g) && Clusters(g, xs) && 0 <= k / g.csize < |xs| && k % g.csize + cc <= g.csize
    requires 0 <= p / g.ss && 0 <= p / g.ss / g.csize < |xs|
    requires !(k * g.ss <= p < k * g.ss + cc * g.ss)
    ensures !(SectorAt(g, xs, k) <= SectorAt(g, xs, p / g.ss) < SectorAt(g, xs, k) + cc)
  {
    hide Clusters, SectorAt;
    if k <= p / g.ss < k + cc {
      SectorRange(k, cc, p, g.ss);
      assert false;
    }
    SectorOutside(g, xs, k, cc, p / g.ss);
  }

  lemma SectorOutside(g: Geo, xs: seq<nat>, k: nat, cc: nat, l: nat)
    requires GeoOk(g) && Clusters(g, xs) && 0 <= k / g.csize < |xs| && k % g.csize + cc <= g.csize
    requires 0 <= l / g.csize < |xs| && !(k <= l < k + cc)
    ensures !(SectorAt(g, xs, k) <= SectorAt(g, xs, l) < SectorAt(g, xs, k) + cc)
  {
    hide Clusters, SectorAt;
    var i := SectorAt(g, xs, l) - SectorAt(g, xs, k);
    if 0 <= i < cc {
      SameCluster(g, xs, k, i);
      SectorAtDistinct(g, xs, k + i, l);
      assert false;
    }
  }

  /** A new cluster at the end keeps the bytes before it. */
  lemma SpaceGrows(g: Geo, view: seq<seq<byte>>, xs: seq<nat>, c: nat)
    requires Volume(g, view) && Clusters(g, xs) && Clusters(g, xs + [c])
    ensures |xs| * g.csize * g.ss <= |xs + [c]| * g.csize * g.ss
    ensures Space(g, view, xs + [c])[..|xs| * g.csize * g.ss] == Space(g, view, xs)
  {
    var ys := xs + [c];
    MoreSectors(|xs|, 1, |ys|, g.csize);
    MoreSectors(0, |xs| * g.csize, |ys| * g.csize, g.ss);
    var a, b := Space(g, view, xs), Space(g, view, ys);
    hide Clusters, Space, Bytes;
    forall p: nat | p < |a| ensures b[p] == a[p] {
      SpaceByte(g, view, xs, p);
      SpaceByte(g, view, ys, p);
    }
  }

  // ----- runs of sectors as bytes -----

  lemma OneMoreSector(view: seq<seq<byte>>, base: nat, n: nat, ss: nat)
    requires ss > 0 && base + n < |view| && forall i :: 0 <= i < |view| ==> |view[i]| == ss
    ensures Bytes(view, base, n + 1, ss) == Bytes(view, base, n, ss) + view[base + n]
  {
    var a, b, m := Bytes(view, base, n + 1, ss), Bytes(view, base, n, ss) + view[base + n], n * ss;
    NextMultiple(n, ss);
    hide *;
    forall j: nat | j < m + ss ensures a[j] == b[j] {
      if j < m {
        Cell(view, base, n + 1, ss, j);
        Cell(view, base, n, ss, j);
      } else {
        LastCell(view, base, n, ss, j - m);
      }
    }
  }

  lemma NextMultiple(n: nat, ss: nat)
    ensures (n + 1) * ss == n * ss + ss
  {
  }

  lemma LastCell(view: seq<seq<byte>>, base: nat, n: nat, ss: nat, j: nat)
    requires ss > 0 && base + n < |view| && j < ss && forall i :: 0 <= i < |view| ==> |view[i]| == ss
    ensures n * ss + j < (n + 1) * ss && Bytes(view, base, n + 1, ss)[n * ss + j] == view[base + n][j]
  {
    NextMultiple(n, ss);
    Multiple(n, j, ss);
    SectorOf(0, j, ss);
    hide *;
    Cell(view, base, n + 1, ss, n * ss + j);
  }

  lemma OneSectorReplaced(view: seq<seq<byte>>, base: nat, n: nat, ss: nat, i: nat, data: seq<byte>)
    requires ss > 0 && base + n <= |view| && (forall l :: 0 <= l < |view| ==> |view[l]| == ss) && i < n && |data| == ss
    ensures i * ss + ss <= n * ss
    ensures Bytes(view[base + i := data], base, n, ss) == Store(Bytes(view, base, n, ss), i * ss, data)
  {
    MoreSectors(i, 1, n, ss);
    Multiple(i, 0, ss);
    SectorOf(0, 0, ss);
    WholeSector(view[base + i], data);
    StoreInSector(view, view[base + i := data], base, n, ss, i * ss, data);
  }

  lemma WholeSector(a: seq<byte>, b: seq<byte>)
    requires |a| == |b|
    ensures Store(a, 0, b) == b
  {
  }

  // ----- positions -----

  lemma LastOfRun(k: nat, cc: nat, ss: nat, c: nat)
    requires ss > 0 && c > 0 && cc > 0 && k % c + cc <= c
    ensures ((k + cc) * ss - 1) / ss / c == k / c
  {
    assert (k + cc) * ss - 1 == ss * (k + cc - 1) + (ss - 1);
    SectorOf(k + cc - 1, ss - 1, ss);
    Position(k, c);
    SectorOf(k / c, k % c + cc - 1, c);
  }

  /** A position on a sector boundary after a run of sectors inside one cluster. */
  lemma AfterRun(p: nat, cc: nat, ss: nat, c: nat)
    requires ss > 0 && c > 0 && cc > 0 && p % ss == 0 && p / ss % c + cc <= c
    ensures p == p / ss * ss && (p + cc * ss) % ss == 0 && (p + cc * ss - 1) / ss / c == p / ss / c
  {
    var k: nat := p / ss;
    assert p == k * ss by { Position(p, ss); }
    assert p + cc * ss == (k + cc) * ss;
    assert ((k + cc) * ss) % ss == 0 by {
      Multiple(k + cc, 0, ss);
      SectorOf(0, 0, ss);
    }
    LastOfRun(k, cc, ss, c);
  }

  /** Moving inside a sector, or to its end. */
  lemma StepInside(p: nat, m: nat, ss: nat)
    requires ss > 0 && p % ss + m < ss
    ensures (p + m) / ss == p / ss && (p + m) % ss == p % ss + m
  {
    Position(p, ss);
    SectorOf(p / ss, p % ss + m, ss);
  }

  lemma StepToEnd(p: nat, n: nat, ss: nat)
    requires ss > 0 && p % ss + n == ss
    ensures (p + n) % ss == 0
  {
    Position(p, ss);
    assert p + n == ss * (p / ss + 1) + 0;
    SectorOf(p / ss + 1, 0, ss);
  }

  /** A position after some bytes of one sector. */
  lemma AfterPart(p: nat, n: nat, ss: nat)
    requires ss > 0 && n > 0 && p % ss + n <= ss
    ensures (p + n - 1) / ss == p / ss && ((p + n) % ss != 0 ==> (p + n) / ss == p / ss)
  {
    StepInside(p, n - 1, ss);
    if p % ss + n < ss {
      StepInside(p, n, ss);
    } else {
      StepToEnd(p, n, ss);
    }
  }

  lemma InsideSector(p: nat, ss: nat)
    requires ss > 0 && p % ss != 0
    ensures p > 0 && (p - 1) / ss == p / ss
  {
    Position(p, ss);
    SectorOf(p / ss, p % ss - 1, ss);
  }

  /** Files without common clusters have no common sectors. */
  lemma ApartSectors(g: Geo, xs: seq<nat>, ys: seq<nat>, k: nat, l: nat)
    requires GeoOk(g) && Clusters(g, xs) && Clusters(g, ys) && 0 <= k / g.csize < |xs| && 0 <= l / g.csize < |ys|
    requires forall c :: c in xs ==> c !in ys
    ensures SectorAt(g, xs, k) != SectorAt(g, ys, l)
  {
    Position(k, g.csize);
    Position(l, g.csize);
    var c, d := xs[k / g.csize], ys[l / g.csize];
    assert c in xs && d in ys;
    PlacesDiffer(c - 2, k % g.csize, d - 2, l % g.csize, g.csize);
  }

  /** Dividing twice is dividing by the product. */
  lemma DivideTwice(p: nat, ss: nat, c: nat)
    requires ss > 0 && c > 0
    ensures c * ss > 0 && p / (c * ss) == p / ss / c && 0 <= p / ss / c
  {
    Position(p, ss);
    var k := p / ss;
    Position(k, c);
    var q, r := k / c, ss * (k % c) + p % ss;
    assert p == (c * ss) * q + r by { assert ss * (c * q + k % c) == (c * ss) * q + ss * (k % c); }
    LaterSector(k % c, c, ss);
    assert ss * c == c * ss;
    SectorOf(q, r, c * ss);
  }

  /** The byte before a position that is rest bytes into (or at the end of) cluster number c of a file. */
  lemma SeekBefore(c: nat, rest: nat, ss: nat, csize: nat)
    requires ss > 0 && csize > 0 && 0 < rest <= csize * ss
    ensures (c * (csize * ss) + rest - 1) / ss / csize == c
  {
    var b := csize * ss;
    DivideTwice(c * b + rest - 1, ss, csize);
    assert c * b == b * c;
    SectorOf(c, rest - 1, b);
  }

  lemma ThreeFactors(c: nat, m: nat, ss: nat, csize: nat)
    ensures c * (csize * ss) + m * ss == ss * (csize * c + m)
  {
    assert c * (csize * ss) == (csize * c) * ss;
    assert ss * (csize * c + m) == (csize * c) * ss + m * ss;
  }

  lemma SectorsBefore(rest: nat, ss: nat, csize: nat)
    requires ss > 0 && 0 < rest <= csize * ss && rest % ss != 0
    ensures 0 <= rest / ss < csize
  {
    Position(rest, ss);
    if rest / ss >= csize { MoreSectors(0, csize, rest / ss, ss); }
  }

  lemma SeekWithin(c: nat, rest: nat, ss: nat, csize: nat)
    requires ss > 0 && csize > 0 && 0 < rest <= csize * ss
    ensures var p := c * (csize * ss) + rest;
            && p % ss == rest % ss
            && (rest % ss != 0 ==> 0 <= p / ss && p / ss / csize == c && p / ss % csize == rest / ss)
  {
    var p, m, r := c * (csize * ss) + rest, rest / ss, rest % ss;
    var k := csize * c + m;
    assert p == ss * k + r by {
      Position(rest, ss);
      ThreeFactors(c, m, ss, csize);
    }
    assert p % ss == r && p / ss == k by { SectorOf(k, r, ss); }
    if r != 0 {
      SectorsBefore(rest, ss, csize);
      assert k / csize == c && k % csize == m by { SectorOf(c, m, csize); }
    }
  }

  /** The start of the cluster that holds byte p. */
  lemma ClusterStart(p: nat, ss: nat, csize: nat)
    requires ss > 0 && csize > 0
    ensures csize * ss > 0 && 0 <= p / (csize * ss) && p / (csize * ss) * (csize * ss) <= p
    ensures p / (csize * ss) == p / ss / csize
  {
    DivideTwice(p, ss, csize);
    Position(p, csize * ss);
  }

  lemma ClusterEnds(c: nat, n: nat, b: nat)
    requires c < n
    ensures c * b + b <= n * b
  {
    MoreSectors(c, 1, n, b);
  }
}
