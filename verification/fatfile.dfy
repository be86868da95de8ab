/** Open files: a byte sequence behind a one-sector buffer and the clusters of an object. */
module FatFile {
  import opened Machine
  import opened BitStream
  import opened FatTable
  import opened Window
  import opened Chains
  import opened ExFatAlloc
  import opened FatAlloc
  import opened ObjChains
  import opened FileData

  /** The sector buffer laid over the volume. */
  ghost function Overlay(view: seq<seq<byte>>, dirty: bool, sect: nat, buf: seq<byte>): (r: seq<seq<byte>>)
    ensures |r| == |view|
  {
    if dirty && sect < |view| then view[sect := buf] else view
  }

  /** Sector s belongs to the file. */
  ghost predicate Owns(g: Geo, xs: seq<nat>, s: nat)
    requires GeoOk(g) && Clusters(g, xs)
  {
    exists k: nat :: OwnsAt(g, xs, s, k)
  }

  ghost predicate OwnsAt(g: Geo, xs: seq<nat>, s: nat, k: nat)
    requires GeoOk(g) && Clusters(g, xs)
  {
    0 <= k / g.csize < |xs| && k < |xs| * g.csize && SectorAt(g, xs, k) == s
  }

  /** What a volume records about its clusters: the FAT, and on exFAT the bitmap of clusters in use. */
  datatype Alloc = Alloc(kind: Kind, v: Shape, fat: seq<nat>, used: seq<bit>)

  ghost function AllocOf(fs: FatFs, view: seq<seq<byte>>): (a: Alloc)
    requires fs.Geometry() && fs.Sized(view)
    ensures a.kind == fs.kind && a.v == Shape(fs.ss, fs.csize) && |a.fat| == fs.nent
      && |a.used| == if fs.kind == ExFat then fs.nent - 2 else 0
  {
    Alloc(fs.kind, Shape(fs.ss, fs.csize), fs.FatOf(view), if fs.kind == ExFat then BitmapOf(fs, view) else [])
  }

  /** The object consists of the clusters xs. */
  ghost predicate ChainOf(a: Alloc, o: ObjInfo, xs: seq<nat>) {
    if xs == [] then o.sclust == 0
    else if a.kind == ExFat then ObjHolds(a.fat, a.used, o, a.v, xs)
    else IsChain(a.fat, xs) && xs[0] == o.sclust
  }

  /** Cluster c begins in the bitmap. */
  predicate InMap(fs: FatFs, c: nat) {
    c >= 2 && (c - 2) * fs.csize < MetaEnd(fs) - fs.database
  }

  /** On exFAT sector numbers fit into 32 bits, and the bitmap's own clusters are marked in use. */
  ghost predicate MapOk(fs: FatFs, a: Alloc) {
    a.kind == ExFat ==>
      && Sectors32(a.fat, a.v) && |a.used| + 2 == |a.fat|
      && forall c: nat :: 2 <= c < |a.fat| && InMap(fs, c) ==> a.used[c - 2] == 1
  }

  ghost predicate NoneInMap(fs: FatFs, xs: seq<nat>) {
    forall i: nat :: i < |xs| ==> !InMap(fs, xs[i])
  }

  /** Changing a data sector changes neither the FAT nor the bitmap. */
  lemma DataChange(fs: FatFs, was: seq<seq<byte>>, sector: nat, data: seq<byte>)
    requires fs.Geometry() && fs.Sized(was) && MetaEnd(fs) <= sector < |was| && |data| == fs.ss
    ensures fs.Sized(was[sector := data]) && AllocOf(fs, was[sector := data]) == AllocOf(fs, was)
  {
    var now := was[sector := data];
    FatsBelow(fs);
    hide BitsOf;
    fs.TableKept(was, now, sector, 1);
    if fs.kind == ExFat {
      BitmapRoom(fs, was);
      fs.Layout(was);
      fs.Layout(now);
      SameSectors(was, now, fs.database, BitmapSectors(fs.nent, fs.ss), fs.ss);
    }
  }

  /** Only sectors of the file differ. */
  ghost predicate OwnOnly(g: Geo, xs: seq<nat>, was: seq<seq<byte>>, now: seq<seq<byte>>)
    requires GeoOk(g) && Clusters(g, xs)
  {
    |now| == |was| && forall i: nat :: i < |was| && !Owns(g, xs, i) ==> now[i] == was[i]
  }

  lemma OwnOnlySame(g: Geo, xs: seq<nat>, a: seq<seq<byte>>)
    requires GeoOk(g) && Clusters(g, xs)
    ensures OwnOnly(g, xs, a, a)
  {
  }

  lemma OwnedInside(g: Geo, view: seq<seq<byte>>, xs: seq<nat>, s: nat)
    requires Volume(g, view) && Clusters(g, xs) && Owns(g, xs, s)
    ensures g.database <= s < |view|
  {
    var k: nat :| OwnsAt(g, xs, s, k);
    SectorAtInside(g, view, xs, k);
  }

  lemma OwnOnlyTrans(g: Geo, xs: seq<nat>, a: seq<seq<byte>>, b: seq<seq<byte>>, c: seq<seq<byte>>)
    requires GeoOk(g) && Clusters(g, xs) && OwnOnly(g, xs, a, b) && OwnOnly(g, xs, b, c)
    ensures OwnOnly(g, xs, a, c)
  {
  }

  lemma NoSectorZero(g: Geo, view: seq<seq<byte>>, xs: seq<nat>)
    requires Volume(g, view) && Clusters(g, xs) && g.database > 0
    ensures !Owns(g, xs, 0)
  {
    forall k: nat ensures !OwnsAt(g, xs, 0, k) {
      if OwnsAt(g, xs, 0, k) { SectorAtInside(g, view, xs, k); }
    }
  }

  /** clust2sect: first sector of a cluster, 0 for an invalid number. */
  function Clust2Sect(g: Geo, clst: nat): nat
    requires g.nent >= 2
  {
    if clst < 2 || clst - 2 >= g.nent - 2 then 0 else (clst - 2) * g.csize + g.database
  }

  /** The sector before a sector boundary. */
  lemma BeforeBoundary(p: nat, ss: nat, c: nat)
    requires ss > 0 && c > 0 && p > 0 && p % ss == 0
    ensures p / ss > 0 && (p - 1) / ss == p / ss - 1
    ensures 0 <= p / ss / c && (p / ss - 1) / c == if p / ss % c == 0 then p / ss / c - 1 else p / ss / c
  {
    Position(p, ss);
    var k := p / ss;
    assert p - 1 == ss * (k - 1) + (ss - 1);
    SectorOf(k - 1, ss - 1, ss);
    Position(k, c);
    if k % c == 0 {
      assert k - 1 == c * (k / c - 1) + (c - 1);
      SectorOf(k / c - 1, c - 1, c);
    } else {
      SectorOf(k / c, k % c - 1, c);
    }
  }

  lemma WithinFile(p: nat, n: nat, c: nat, ss: nat)
    requires ss > 0 && c > 0 && p < n * c * ss
    ensures 0 <= p / ss < n * c && 0 <= p / ss / c < n
  {
    SectorInside(p, n * c, ss);
    QuotientLess(p / ss, n, c);
  }

  /** Where the sector of a position lies. */
  lemma SectorIs(g: Geo, view: seq<seq<byte>>, xs: seq<nat>, k: nat)
    requires Volume(g, view) && Clusters(g, xs) && 0 <= k / g.csize < |xs| && k < |xs| * g.csize
    ensures GeoOk(g) && Clust2Sect(g, xs[k / g.csize]) + k % g.csize == SectorAt(g, xs, k)
    ensures Clust2Sect(g, xs[k / g.csize]) != 0 || g.database == 0
    ensures OwnsAt(g, xs, SectorAt(g, xs, k), k) && Owns(g, xs, SectorAt(g, xs, k))
  {
    assert OwnsAt(g, xs, SectorAt(g, xs, k), k);
  }

  class Fil {
    const fs: FatFs
    const obj: Obj
    const buf: array<byte>
    const readable: bool
    const writable: bool
    var fptr: nat
    var clust: nat    // cluster of the byte before fptr
    var sect: nat     // sector shown in buf
    var dirty: bool   // FA_DIRTY
    var modified: bool      // FA_MODIFIED: the directory entry is out of date
    var err: bool     // an internal error ended an earlier call
    ghost var xs: seq<nat>
    ghost const size0: nat   // size and first cluster as f_open found them in the directory
    ghost const start0: nat

    /** An object as f_open leaves it: at the start of the file, with nothing buffered. */
    constructor (fs: FatFs, obj: Obj, readable: bool, writable: bool, ghost xs: seq<nat>)
      requires fs.Valid() && fs.Geometry() && fs.Sized(fs.view)
      requires var g := Geo(fs.ss, fs.csize, fs.database, fs.nent);
               && Volume(g, fs.view) && Clusters(g, xs) && !Owns(g, xs, fs.winsect)
               && obj.objsize <= |xs| * fs.csize * fs.ss && (fs.kind == ExFat || obj.objsize < 0x1_0000_0000)
      requires ChainOf(AllocOf(fs, fs.view), obj.Info(), xs)
      requires MapOk(fs, AllocOf(fs, fs.view)) && NoneInMap(fs, xs)
      requires fs.kind == ExFat && obj.stat == 2 && |xs| > 1 ==> (|xs| - 1) * (fs.csize * fs.ss) < obj.objsize
      ensures this.fs == fs && this.obj == obj && this.readable == readable && this.writable == writable
        && this.xs == xs
      ensures Valid() && Base() && fptr == 0 && !err && !modified && fresh(buf)
      ensures size0 == obj.objsize && start0 == obj.sclust
      ensures Content() == Space(G(), fs.view, xs)[..obj.objsize]
    {
      this.fs, this.obj, this.readable, this.writable, this.xs := fs, obj, readable, writable, xs;
      buf := new byte[fs.ss](i => 0);
      fptr, clust, sect := 0, 0, 0;
      dirty, modified, err := false, false, false;
      size0, start0 := obj.objsize, obj.sclust;
      new;
      NoSectorZero(G(), fs.view, xs);
    }

    function G(): Geo {
      Geo(fs.ss, fs.csize, fs.database, fs.nent)
    }

    /** What the volume records about its clusters. */
    ghost function Tables(): Alloc
      requires fs.Geometry() && fs.Sized(fs.view)
      reads fs`view
    {
      AllocOf(fs, fs.view)
    }

    /** The bitmap of an exFAT volume lies in clusters of its own. */
    ghost predicate Sound()
      requires fs.Geometry() && fs.Sized(fs.view)
      reads this`xs, fs`view
    {
      MapOk(fs, Tables()) && NoneInMap(fs, xs)
    }

    /** A contiguous exFAT object has no clusters but those its size takes, if the size were at least n. */
    ghost predicate Fit(n: nat)
      reads this`xs, obj
    {
      fs.kind == ExFat && obj.stat == 2 && xs != [] ==> (|xs| - 1) * (fs.csize * fs.ss) < Larger(obj.objsize, n)
    }

    lemma FitMore(n: nat, m: nat)
      requires Fit(n) && n <= m
      ensures Fit(m)
    {
    }

    /** The volume and the chain are sound; the window shows no sector of this file. */
    ghost predicate Core()
      reads this`xs, obj, fs`disk, fs`view, fs`winsect, fs`wflag, fs.win
    {
      && fs.Valid() && fs.Geometry() && fs.Sized(fs.view) && Volume(G(), fs.view)
      && buf.Length == fs.ss && buf != fs.win
      && Clusters(G(), xs) && ChainOf(Tables(), obj.Info(), xs) && Sound()
      && obj.objsize <= |xs| * fs.csize * fs.ss && (fs.kind == ExFat || obj.objsize < 0x1_0000_0000)
      && !Owns(G(), xs, fs.winsect)
    }

    /** Besides, a dirty buffer belongs to the file, and a clean one agrees with the medium if it does. */
    ghost predicate Base()
      reads this`dirty, this`sect, this`xs, obj, buf, fs`disk, fs`view, fs`winsect, fs`wflag, fs.win
    {
      && Core()
      && (dirty ==> Owns(G(), xs, sect)) && (sect == 0 || Owns(G(), xs, sect))
      && (!dirty && Owns(G(), xs, sect) ==> sect < |fs.view| && buf[..] == fs.view[sect])
    }

    /** Where the file pointer stands. */
    ghost predicate At()
      reads this`fptr, this`clust, this`sect, this`xs, obj
    {
      GeoOk(G()) && Clusters(G(), xs) && fptr <= obj.objsize && Fit(1) && InCluster() && InSector(sect)
    }

    /** The current cluster is that of the last byte before the pointer. */
    ghost predicate InCluster()
      requires GeoOk(G()) && Clusters(G(), xs)
      reads this`fptr, this`clust, this`xs
    {
      fptr > 0 ==> 0 <= (fptr - 1) / fs.ss / fs.csize < |xs| && clust == xs[(fptr - 1) / fs.ss / fs.csize]
    }

    /** Inside a sector, s is the sector of the pointer. */
    ghost predicate InSector(s: nat)
      requires GeoOk(G()) && Clusters(G(), xs)
      reads this`fptr, this`xs
    {
      fptr % fs.ss != 0 ==> 0 <= fptr / fs.ss / fs.csize < |xs| && s == SectorAt(G(), xs, fptr / fs.ss)
    }

    /** Ready for the next call. */
    ghost predicate Ready()
      reads this`fptr, this`clust, this`dirty, this`sect, this`xs, obj, buf, fs`disk, fs`view, fs`winsect, fs`wflag,
        fs.win
    {
      Base() && At()
    }

    /** Without FA_MODIFIED the directory entry still describes the file. */
    ghost predicate Recorded()
      reads this`modified, obj
    {
      !modified ==> obj.objsize == size0 && obj.sclust == start0
    }

    /** The object between calls; after an internal error it refuses all further work. */
    ghost predicate Valid()
      reads this`fptr, this`clust, this`dirty, this`sect, this`xs, this`err, this`modified, obj, buf, fs`disk, fs`view,
        fs`winsect, fs`wflag, fs.win
    {
      Base() && (!err ==> At() && Recorded())
    }

    /** What the sectors of the volume will hold once the buffer is written back. */
    ghost function Eff(): (r: seq<seq<byte>>)
      reads this`dirty, this`sect, buf, fs`view
    {
      Overlay(fs.view, dirty, sect, buf[..])
    }

    /** The bytes of the file. */
    ghost function Content(): (r: seq<byte>)
      requires Base()
      reads this`dirty, this`sect, this`xs, obj, buf, fs`disk, fs`view, fs`winsect, fs`wflag, fs.win
    {
      EffVolume();
      Space(G(), Eff(), xs)[..obj.objsize]
    }

    lemma EffVolume()
      requires Base()
      ensures Volume(G(), Eff()) && |Space(G(), Eff(), xs)| == |xs| * fs.csize * fs.ss
    {
    }

    lemma Parts()
      requires Base()
      ensures fs.Valid() && fs.Geometry() && fs.Sized(fs.view) && Volume(G(), fs.view) && GeoOk(G())
      ensures buf.Length == fs.ss && buf != fs.win && Clusters(G(), xs) && ChainOf(Tables(), obj.Info(), xs) && Sound()
      ensures obj.objsize <= |xs| * fs.csize * fs.ss && (fs.kind == ExFat || obj.objsize < 0x1_0000_0000)
      ensures (dirty ==> Owns(G(), xs, sect)) && (sect == 0 || Owns(G(), xs, sect))
      ensures !dirty && Owns(G(), xs, sect) ==> sect < |fs.view| && buf[..] == fs.view[sect]
      ensures !Owns(G(), xs, fs.winsect)
      ensures G() == Geo(fs.ss, fs.csize, fs.database, fs.nent) && fs.ss > 0 && fs.csize > 0 && Core()
    {
    }

    lemma CoreParts()
      requires Core()
      ensures fs.Valid() && fs.Geometry() && fs.Sized(fs.view) && Volume(G(), fs.view) && GeoOk(G())
      ensures buf.Length == fs.ss && buf != fs.win && Clusters(G(), xs) && ChainOf(Tables(), obj.Info(), xs) && Sound()
      ensures obj.objsize <= |xs| * fs.csize * fs.ss && (fs.kind == ExFat || obj.objsize < 0x1_0000_0000)
      ensures !Owns(G(), xs, fs.winsect)
      ensures G() == Geo(fs.ss, fs.csize, fs.database, fs.nent) && fs.ss > 0 && fs.csize > 0
    {
    }

    lemma CoreWhole()
      requires fs.Valid() && fs.Geometry() && fs.Sized(fs.view) && Volume(G(), fs.view)
      requires buf.Length == fs.ss && buf != fs.win && Clusters(G(), xs) && ChainOf(Tables(), obj.Info(), xs) && Sound()
      requires obj.objsize <= |xs| * fs.csize * fs.ss && (fs.kind == ExFat || obj.objsize < 0x1_0000_0000)
      requires !Owns(G(), xs, fs.winsect)
      ensures Core()
    {
    }

    lemma Whole()
      requires fs.Valid() && fs.Geometry() && fs.Sized(fs.view) && Volume(G(), fs.view)
      requires buf.Length == fs.ss && buf != fs.win && Clusters(G(), xs) && ChainOf(Tables(), obj.Info(), xs) && Sound()
      requires obj.objsize <= |xs| * fs.csize * fs.ss && (fs.kind == ExFat || obj.objsize < 0x1_0000_0000)
      requires (dirty ==> Owns(G(), xs, sect)) && (sect == 0 || Owns(G(), xs, sect))
      requires !dirty && Owns(G(), xs, sect) ==> sect < |fs.view| && buf[..] == fs.view[sect]
      requires !Owns(G(), xs, fs.winsect)
      ensures Base()
    {
    }

    /** Changing a sector of the file changes neither the tables nor the shape of the volume. */
    lemma DataOnly(sector: nat, data: seq<byte>)
      requires Core() && Owns(G(), xs, sector) && |data| == fs.ss
      ensures sector < |fs.view| && fs.database <= sector
      ensures var now := fs.view[sector := data];
              fs.Sized(now) && Volume(G(), now) && AllocOf(fs, now) == AllocOf(fs, fs.view)
    {
      OwnedInside(G(), fs.view, xs, sector);
      OwnedBehind(fs.view, sector);
      hide AllocOf;
      DataChange(fs, fs.view, sector, data);
    }

    /** The sectors of the file lie behind the bitmap. */
    lemma OwnedBehind(view: seq<seq<byte>>, s: nat)
      requires Volume(G(), view) && Clusters(G(), xs) && NoneInMap(fs, xs) && Owns(G(), xs, s)
      ensures MetaEnd(fs) <= s < |view|
    {
      OwnedInside(G(), view, xs, s);
      var k: nat :| OwnsAt(G(), xs, s, k);
      SectorBehind(xs, k);
    }

    lemma SectorBehind(ys: seq<nat>, k: nat)
      requires GeoOk(G()) && Clusters(G(), ys) && NoneInMap(fs, ys) && 0 <= k / fs.csize < |ys|
      ensures MetaEnd(fs) <= SectorAt(G(), ys, k)
    {
      var q := k / fs.csize;
      assert !InMap(fs, ys[q]);
      Position(k, fs.csize);
      assert SectorAt(G(), ys, k) == fs.database + fs.csize * (ys[q] - 2) + k % fs.csize;
      assert fs.csize * (ys[q] - 2) == (ys[q] - 2) * fs.csize;
      hide *;
    }

    lemma TablesAre()
      requires fs.Geometry() && fs.Sized(fs.view)
      ensures Tables() == AllocOf(fs, fs.view) && Tables().kind == fs.kind && Tables().v == Shape(fs.ss, fs.csize)
        && |Tables().fat| == fs.nent
      ensures Tables().fat == fs.Fat() && (fs.kind == ExFat ==> Tables().used == Bitmap(fs))
    {
    }

    lemma EffIs()
      ensures Eff() == if dirty && sect < |fs.view| then fs.view[sect := buf[..]] else fs.view
    {
    }

    /** Writes a sector of the file to the medium. */
    method WriteOwn(sector: nat, data: seq<byte>)
      requires Core() && GeoOk(G()) && Clusters(G(), xs) && Owns(G(), xs, sector) && |data| == fs.ss
      modifies fs`disk, fs`view
      ensures fs.Valid() && fs.Geometry() && fs.Sized(fs.view) && Volume(G(), fs.view) && Tables() == old(Tables())
      ensures sector < |old(fs.view)| && fs.view == old(fs.view)[sector := data] && Core()
    {
      hide *;
      CoreParts();
      TablesAre();
      DataOnly(sector, data);
      DifferentSectors(sector, fs.winsect);
      fs.DiskWrite(sector, data);
      TablesAre();
      SoundIs();
      CoreWhole();
    }

    lemma SoundIs()
      requires fs.Geometry() && fs.Sized(fs.view)
      ensures Sound() <==> MapOk(fs, Tables()) && NoneInMap(fs, xs)
    {
    }

    lemma DifferentSectors(a: nat, b: nat)
      requires GeoOk(G()) && Clusters(G(), xs) && Owns(G(), xs, a) && !Owns(G(), xs, b)
      ensures a != b
    {
    }

    /** Writes the buffer back. */
    method Flush()
      requires Base() && dirty
      modifies this`dirty, fs`disk, fs`view
      ensures Base() && !dirty && Eff() == old(Eff()) && Tables() == old(Tables())
      ensures OwnOnly(G(), xs, old(fs.view), fs.view)
    {
      hide *;
      Parts();
      EffIs();
      ghost var was := fs.view;
      WriteOwn(sect, buf[..]);
      dirty := false;
      EffIs();
      Whole();
      ChangedOwn(was, sect, buf[..]);
    }

    lemma ChangedOwn(was: seq<seq<byte>>, sector: nat, data: seq<byte>)
      requires GeoOk(G()) && Clusters(G(), xs) && Owns(G(), xs, sector) && sector < |was|
      ensures OwnOnly(G(), xs, was, was[sector := data])
    {
    }

    /** Reads a sector of the file into the clean buffer. */
    method Load(sector: nat)
      requires Base() && !dirty && Owns(G(), xs, sector)
      modifies this`sect, buf
      ensures Base() && sect == sector && Eff() == old(Eff()) == fs.view
    {
      hide *;
      Parts();
      EffIs();
      OwnedInside(G(), fs.view, xs, sector);
      DifferentSectors(sector, fs.winsect);
      var data := fs.DiskRead(sector);
      Sizes(sector);
      forall i | 0 <= i < fs.ss {
        buf[i] := data[i];
      }
      assert buf[..] == data;
      sect := sector;
      EffIs();
      Whole();
    }

    lemma Sizes(s: nat)
      requires Volume(G(), fs.view) && s < |fs.view|
      ensures |fs.view[s]| == fs.ss
    {
    }

    lemma AtHere()
      requires At()
      ensures GeoOk(G()) && Clusters(G(), xs) && fptr <= obj.objsize && Fit(1) && InCluster() && InSector(sect)
    {
    }

    lemma ClusterHere()
      requires GeoOk(G()) && Clusters(G(), xs) && InCluster()
      ensures fptr > 0 ==> 0 <= (fptr - 1) / fs.ss / fs.csize < |xs| && clust == xs[(fptr - 1) / fs.ss / fs.csize]
    {
    }

    lemma SectorHere(s: nat)
      requires GeoOk(G()) && Clusters(G(), xs) && InSector(s)
      ensures fptr % fs.ss != 0 ==> 0 <= fptr / fs.ss / fs.csize < |xs| && s == SectorAt(G(), xs, fptr / fs.ss)
    {
    }

    /** Following the object by get_fat: at cluster q while the file goes on behind it. */
    lemma NextOnFat(q: nat)
      requires Core() && q < |xs| && fs.ss > 0 && fs.csize > 0
      ensures q + 1 < |xs| && (q + 1) * (fs.csize * fs.ss) < obj.objsize ==>
                NextCluster(fs.kind, fs.Fat(), obj.Info(), fs.ss, fs.csize, xs[q]) == xs[q + 1]
      ensures q == 0 ==> xs[q] == obj.sclust
    {
      hide *;
      CoreParts();
      TablesAre();
      InfoSame();
      FirstCluster(Tables(), obj.Info(), xs);
      if fs.kind != ExFat || obj.objsize > 0 { NextHere(q, fs.csize * fs.ss); }
    }

    lemma NextHere(i: nat, bcs: nat)
      requires Core() && i < |xs| && fs.ss > 0 && fs.csize > 0 && bcs == fs.csize * fs.ss
        && (fs.kind == ExFat ==> obj.objsize > 0)
      ensures i + 1 < |xs| && (i + 1) * bcs < obj.objsize ==>
                NextCluster(fs.kind, fs.Fat(), obj.Info(), fs.ss, fs.csize, xs[i]) == xs[i + 1]
      ensures i + 1 == |xs| && (fs.kind == ExFat && obj.stat == 2 ==> i * bcs < obj.objsize) ==>
                NextCluster(fs.kind, fs.Fat(), obj.Info(), fs.ss, fs.csize, xs[i]) >= fs.nent
    {
      hide *;
      CoreParts();
      TablesAre();
      InfoSame();
      SoundIs();
      MapParts(fs, Tables());
      Associate(|xs|, fs.csize, fs.ss);
      FollowsNext(Tables(), obj.Info(), xs, i, bcs);
    }

    /** Turns clust to the cluster to be read at a sector boundary before the end of the file. */
    method ClusterForRead()
      requires Ready() && fs.ss > 0 && fptr % fs.ss == 0 && fptr < obj.objsize
      modifies this`clust, fs`disk, fs`wflag, fs`winsect, fs.win
      ensures Base() && GeoOk(G()) && Clusters(G(), xs) && fs.csize > 0
      ensures 0 <= fptr / fs.ss / fs.csize < |xs| && clust == xs[fptr / fs.ss / fs.csize]
        && fptr / fs.ss < |xs| * fs.csize
    {
      hide *;
      ReadyIs();
      Parts();
      AtHere();
      ClusterHere();
      SectorHere(sect);
      InfoSame();
      EffOverlay();
      ghost var q, w0 := fptr / fs.ss / fs.csize, fs.winsect;
      WithinFile(fptr, |xs|, fs.csize, fs.ss);
      FatsBelow(fs);
      if fptr > 0 { BeforeBoundary(fptr, fs.ss, fs.csize); }
      var csect := fptr / fs.ss % fs.csize;
      if csect == 0 {
        AtClusterStart(fptr, fs.ss, fs.csize);
        var clst;
        if fptr == 0 {
          ZeroPosition(fs.ss, fs.csize);
          NextOnFat(0);
          clst := obj.sclust;
        } else {
          NextOnFat(q - 1);
          clst := fs.GetFat(obj, clust);
        }
        clust := clst;
      }
      if fptr == 0 { ZeroPosition(fs.ss, fs.csize); }
      Unmoved(w0);
    }

    /** Finds the sector to read at a sector boundary before the end of the file. */
    method FollowForRead() returns (sector: nat)
      requires Ready() && fs.ss > 0 && fptr % fs.ss == 0 && fptr < obj.objsize
      modifies this`clust, fs`disk, fs`wflag, fs`winsect, fs.win
      ensures Base() && GeoOk(G()) && Clusters(G(), xs) && fs.csize > 0
      ensures 0 <= fptr / fs.ss / fs.csize < |xs| && clust == xs[fptr / fs.ss / fs.csize]
        && fptr / fs.ss < |xs| * fs.csize
      ensures sector == SectorAt(G(), xs, fptr / fs.ss) && Owns(G(), xs, sector)
    {
      hide *;
      ClusterForRead();
      Parts();
      AtLeastThree(G());
      SectorIs(G(), fs.view, xs, fptr / fs.ss);
      sector := Clust2Sect(G(), clust) + fptr / fs.ss % fs.csize;
    }

    lemma ReadyIs()
      requires Ready()
      ensures Base() && At()
    {
    }

    lemma InfoSame()
      ensures obj.Info() == ObjInfo(obj.stat, obj.sclust, obj.objsize, obj.nCont)
    {
    }

    lemma WindowMoved(was: nat)
      requires Volume(G(), fs.view) && Clusters(G(), xs) && !Owns(G(), xs, was)
      requires NoneInMap(fs, xs) && (fs.winsect == was || fs.winsect < MetaEnd(fs))
      ensures !Owns(G(), xs, fs.winsect)
    {
      if Owns(G(), xs, fs.winsect) { OwnedBehind(fs.view, fs.winsect); }
    }

    /** disk_read of cc sectors of the file. */
    method MediumRun(sector: nat, cc: nat) returns (chunk: seq<byte>)
      requires Base() && OwnsRun(G(), xs, sector, cc) && sector + cc <= |fs.view|
      ensures Volume(G(), fs.view) && fs.ss > 0 && chunk == Bytes(fs.view, sector, cc, fs.ss)
    {
      hide *;
      Parts();
      VolumeSizes(G(), fs.view);
      chunk := [];
      NoBytes(fs.view, sector, fs.ss);
      var i := 0;
      while i < cc
        invariant 0 <= i <= cc && chunk == Bytes(fs.view, sector, i, fs.ss)
      {
        RunMember(G(), xs, sector, cc, sector + i);
        OwnedInside(G(), fs.view, xs, sector + i);
        DifferentSectors(sector + i, fs.winsect);
        var data := fs.DiskRead(sector + i);
        OneMoreSector(fs.view, sector, i, fs.ss);
        chunk := chunk + data;
        i := i + 1;
      }
    }

    /** Reads sectors of the file directly and replaces the one the dirty buffer holds. */
    method ReadRun(sector: nat, cc: nat) returns (chunk: seq<byte>)
      requires Base() && OwnsRun(G(), xs, sector, cc) && sector + cc <= |fs.view|
      ensures Volume(G(), Eff()) && |Eff()| == |fs.view| && fs.ss > 0 && chunk == Bytes(Eff(), sector, cc, fs.ss)
    {
      hide *;
      chunk := MediumRun(sector, cc);
      Parts();
      EffIs();
      EffVolume();
      if dirty && sector <= sect < sector + cc {
        Product(sect - sector, fs.ss);
        var o: nat := (sect - sector) * fs.ss;
        OverlaidRun(G(), fs.view, sector, cc, sect - sector, buf[..]);
        chunk := chunk[..o] + buf[..] + chunk[o + fs.ss..];
      } else {
        UntouchedRun(G(), fs.view, sector, cc, dirty, sect, buf[..]);
      }
    }

    /** The bytes in the clusters of the file, those after its end included. */
    ghost function Cells(): (r: seq<byte>)
      requires Volume(G(), Eff()) && Clusters(G(), xs)
      reads this`dirty, this`sect, this`xs, buf, fs`view
    {
      Space(G(), Eff(), xs)
    }

    lemma CellsIs()
      requires Base()
      ensures Volume(G(), Eff()) && Clusters(G(), xs) && |Cells()| == |xs| * fs.csize * fs.ss
      ensures Cells() == Space(G(), Eff(), xs) && Content() == Cells()[..obj.objsize]
    {
    }

    lemma ContentSize()
      requires Base()
      ensures |Content()| == obj.objsize
    {
    }

    lemma BufIs()
      requires Base() && Owns(G(), xs, sect)
      ensures sect < |Eff()| && Eff()[sect] == buf[..] && buf.Length == fs.ss
    {
      OwnedInside(G(), fs.view, xs, sect);
    }

    lemma Standing()
      requires GeoOk(G()) && Clusters(G(), xs) && fptr <= obj.objsize && Fit(1)
      requires fptr > 0 ==> 0 <= (fptr - 1) / fs.ss / fs.csize < |xs| && clust == xs[(fptr - 1) / fs.ss / fs.csize]
      requires fptr % fs.ss != 0 ==> 0 <= fptr / fs.ss / fs.csize < |xs| && sect == SectorAt(G(), xs, fptr / fs.ss)
      ensures At()
    {
    }

    lemma NowReady()
      requires Base() && At()
      ensures Ready()
    {
    }

    /** How many whole sectors can be moved directly: those wanted, up to the end of the cluster. */
    method RunLength(n: nat) returns (cc: nat)
      requires 0 < fs.ss <= n && fs.csize > 0 && fptr % fs.ss == 0
      ensures cc > 0 && 0 < cc * fs.ss <= n && fptr / fs.ss % fs.csize + cc <= fs.csize
      ensures (fptr + cc * fs.ss) % fs.ss == 0 && (fptr + cc * fs.ss - 1) / fs.ss / fs.csize == fptr / fs.ss / fs.csize
      ensures fptr == fptr / fs.ss * fs.ss
    {
      hide *;
      var csect := fptr / fs.ss % fs.csize;
      cc := n / fs.ss;
      WholeSectors(n, fs.ss);
      Remainder(fptr / fs.ss, fs.csize);
      if csect + cc > fs.csize {
        cc := fs.csize - csect;
      }
      SomeSectors(cc, n / fs.ss, n, fs.ss);
      AfterRun(fptr, cc, fs.ss, fs.csize);
    }

    /** The direct transfer of f_read: whole sectors of the current cluster. */
    method ReadDirect(sector: nat, btr: nat) returns (chunk: seq<byte>)
      requires Base() && fs.ss > 0 && fs.csize > 0 && fptr % fs.ss == 0 && GeoOk(G()) && Clusters(G(), xs)
      requires fs.ss <= btr && fptr + btr <= obj.objsize
      requires 0 <= fptr / fs.ss / fs.csize < |xs| && clust == xs[fptr / fs.ss / fs.csize]
        && fptr / fs.ss < |xs| * fs.csize
      requires sector == SectorAt(G(), xs, fptr / fs.ss)
      requires Fit(1)
      modifies this`fptr
      ensures Ready() && 0 < |chunk| <= btr && fptr == old(fptr) + |chunk|
      ensures fptr <= |Cells()| && chunk == Cells()[old(fptr)..fptr]
    {
      hide *;
      Parts();
      CellsIs();
      var cc := RunLength(btr);
      RunOwned(G(), fs.view, xs, fptr / fs.ss, cc);
      EffIs();
      chunk := ReadRun(sector, cc);
      RunCells(fptr / fs.ss, cc);
      fptr := fptr + fs.ss * cc;
      Standing();
      NowReady();
    }

    /** A run of sectors holds consecutive bytes of the file. */
    lemma RunCells(k: nat, cc: nat)
      requires Volume(G(), Eff()) && Clusters(G(), xs) && |Eff()| == |fs.view| && fs.ss > 0 && fs.csize > 0
      requires k < |xs| * fs.csize && 0 <= k / fs.csize < |xs| && k % fs.csize + cc <= fs.csize
      requires SectorAt(G(), xs, k) + cc <= |fs.view|
      ensures k * fs.ss + cc * fs.ss <= |Cells()| && fs.ss * cc == cc * fs.ss
      ensures Bytes(Eff(), SectorAt(G(), xs, k), cc, fs.ss) == Cells()[k * fs.ss..k * fs.ss + cc * fs.ss]
      ensures |Bytes(Eff(), SectorAt(G(), xs, k), cc, fs.ss)| == cc * fs.ss
    {
      hide Eff, SectorAt, Clusters, Space, Bytes;
      RunInSpace(G(), Eff(), xs, k, cc);
    }

    /** The last part of f_read: bytes of the buffered sector. */
    method ReadPart(btr: nat) returns (chunk: seq<byte>)
      requires Base() && fs.ss > 0 && fs.csize > 0 && GeoOk(G()) && Clusters(G(), xs)
      requires 0 < btr && fptr + btr <= obj.objsize
      requires 0 <= fptr / fs.ss / fs.csize < |xs| && clust == xs[fptr / fs.ss / fs.csize]
        && fptr / fs.ss < |xs| * fs.csize
      requires sect == SectorAt(G(), xs, fptr / fs.ss) && Owns(G(), xs, sect)
      requires Fit(1)
      modifies this`fptr
      ensures Ready() && 0 < |chunk| <= btr && fptr == old(fptr) + |chunk|
      ensures fptr <= |Cells()| && chunk == Cells()[old(fptr)..fptr]
    {
      hide *;
      Parts();
      CellsIs();
      BufIs();
      Remainder(fptr, fs.ss);
      var rcnt := PartLength(btr);
      PartInside(fptr, rcnt, fs.ss, |xs| * fs.csize);
      chunk := buf[fptr % fs.ss..fptr % fs.ss + rcnt];
      SpaceInSector(G(), Eff(), xs, fptr, rcnt);
      AfterPart(fptr, rcnt, fs.ss);
      fptr := fptr + rcnt;
      Standing();
      NowReady();
    }

    /** The round of f_read at a sector boundary. */
    method ReadBoundary(btr: nat) returns (chunk: seq<byte>)
      requires Ready() && 0 < btr && fptr + btr <= obj.objsize && fs.ss > 0 && fptr % fs.ss == 0
      modifies this`fptr, this`clust, this`sect, this`dirty, buf, fs`disk, fs`view, fs`wflag, fs`winsect, fs.win
      ensures Ready() && Eff() == old(Eff()) && Tables() == old(Tables()) && GeoOk(G()) && Clusters(G(), xs)
      ensures OwnOnly(G(), xs, old(fs.view), fs.view)
      ensures 0 < |chunk| <= btr && fptr == old(fptr) + |chunk|
      ensures fptr <= |Cells()| && chunk == Cells()[old(fptr)..fptr]
    {
      hide *;
      ReadyIs();
      AtHere();
      ClusterHere();
      SectorHere(sect);
      var sector := FollowForRead();
      Parts();
      EffIs();
      OwnOnlySame(G(), xs, fs.view);
      SectorsWanted(btr, fs.ss);
      if btr / fs.ss > 0 {
        chunk := ReadDirect(sector, btr);
        return;
      }
      if sect != sector {
        if dirty {
          Flush();
        }
        Load(sector);
      }
      Parts();
      chunk := ReadPart(btr);
    }

    /** One round of the loop of f_read. */
    method ReadChunk(btr: nat) returns (chunk: seq<byte>)
      requires Ready() && 0 < btr && fptr + btr <= obj.objsize
      modifies this`fptr, this`clust, this`sect, this`dirty, buf, fs`disk, fs`view, fs`wflag, fs`winsect, fs.win
      ensures Ready() && Eff() == old(Eff()) && Tables() == old(Tables()) && GeoOk(G()) && Clusters(G(), xs)
      ensures OwnOnly(G(), xs, old(fs.view), fs.view)
      ensures 0 < |chunk| <= btr && fptr == old(fptr) + |chunk|
      ensures fptr <= |Cells()| && chunk == Cells()[old(fptr)..fptr]
    {
      hide *;
      ReadyIs();
      Parts();
      if fptr % fs.ss == 0 {
        chunk := ReadBoundary(btr);
      } else {
        AtHere();
        ClusterHere();
        SectorHere(sect);
        OwnOnlySame(G(), xs, fs.view);
        WithinFile(fptr, |xs|, fs.csize, fs.ss);
        InsideSector(fptr, fs.ss);
        SectorIs(G(), fs.view, xs, fptr / fs.ss);
        chunk := ReadPart(btr);
        ReadyIs();
      }
    }

    /** The loop of f_read. */
    method ReadBytes(n: nat) returns (data: seq<byte>)
      requires Ready() && fptr + n <= obj.objsize
      modifies this`fptr, this`clust, this`sect, this`dirty, buf, fs`disk, fs`view, fs`wflag, fs`winsect, fs.win
      ensures Ready() && Eff() == old(Eff()) && Tables() == old(Tables()) && GeoOk(G()) && Clusters(G(), xs)
      ensures OwnOnly(G(), xs, old(fs.view), fs.view)
      ensures |data| == n && fptr == old(fptr) + n <= |Cells()| && data == Cells()[old(fptr)..fptr]
    {
      hide *;
      ReadyIs();
      Parts();
      CellsIs();
      ghost var was, eff, cells, p0, fat := fs.view, Eff(), Cells(), fptr, Tables();
      OwnOnlySame(G(), xs, was);
      data := [];
      var left: nat := n;
      while left != 0
        invariant Ready() && fs.Geometry() && fs.Sized(fs.view) && Volume(G(), Eff())
        invariant Eff() == eff && Cells() == cells && Tables() == fat && OwnOnly(G(), xs, was, fs.view)
        invariant fptr == p0 + |data| && |data| + left == n && fptr <= |cells| && data == cells[p0..fptr]
        decreases left
      {
        ghost var mid := fs.view;
        var chunk := ReadChunk(left);
        ReadyIs();
        Parts();
        CellsIs();
        OwnOnlyTrans(G(), xs, was, mid, fs.view);
        data := data + chunk;
        left := left - |chunk|;
      }
    }

    static lemma PrefixSlice(s: seq<byte>, n: nat, a: nat, b: nat)
      requires a <= b <= n <= |s|
      ensures s[..n][a..b] == s[a..b]
    {
    }

    /** f_read: the bytes at the file pointer, as many as asked for and as the file has. */
    method Read(btr: nat) returns (ok: bool, data: seq<byte>)
      requires Valid()
      modifies this`fptr, this`clust, this`sect, this`dirty, buf, fs`disk, fs`view, fs`wflag, fs`winsect, fs.win
      ensures Valid() && Base() && Content() == old(Content()) && GeoOk(G()) && Clusters(G(), xs)
      ensures Tables() == old(Tables()) && OwnOnly(G(), xs, old(fs.view), fs.view)
      ensures ok == (readable && !err)
      ensures !ok ==> data == [] && fptr == old(fptr)
      ensures ok ==> fptr == old(fptr) + |data| <= |Content()| && data == Content()[old(fptr)..fptr]
      ensures ok ==> |data| == if btr > |Content()| - old(fptr) then |Content()| - old(fptr) else btr
    {
      hide *;
      ValidParts();
      Parts();
      CellsIs();
      OwnOnlySame(G(), xs, fs.view);
      RecordedIs();
      data := [];
      ok := readable && !err;
      if !ok {
        return;
      }
      NowReady();
      AtHere();
      ClusterHere();
      SectorHere(sect);
      var n: nat := obj.objsize - fptr;
      if btr <= n {
        n := btr;
      }
      ghost var p := fptr;
      data := ReadBytes(n);
      ReadyIs();
      Parts();
      CellsIs();
      PrefixSlice(Cells(), obj.objsize, p, fptr);
      RecordedIs();
      StillValid();
    }

    lemma ValidParts()
      requires Valid()
      ensures Base() && (!err ==> At() && Recorded())
    {
    }

    lemma StillValid()
      requires Base() && (!err ==> At() && Recorded())
      ensures Valid()
    {
    }

    lemma RecordedIs()
      ensures Recorded() <==> (!modified ==> obj.objsize == size0 && obj.sclust == start0)
    {
    }

    /** A file gets its first cluster only together with its first byte. */
    static lemma StartKept(xs0: seq<nat>, xs1: seq<nat>, s0: nat, s1: nat, n0: nat, n1: nat, p: nat)
      requires xs0 <= xs1 && (xs1 != xs0 ==> p > 0) && p <= n1
      requires if xs0 == [] then n0 == 0 && s0 == 0 else s0 == xs0[0]
      requires if xs1 == [] then s1 == 0 else s1 == xs1[0]
      ensures s1 != s0 ==> n1 != n0
    {
    }

    static lemma GrownOnce(n0: nat, n1: nat, n2: nat, p: nat)
      requires n0 <= n1 && n2 == Larger(n1, p)
      ensures n2 != n0 <==> n1 != n0 || n2 != n1
    {
    }

    lemma EmptyChain()
      requires Base()
      ensures xs == [] ==> obj.objsize == 0 && obj.sclust == 0
      ensures xs != [] ==> obj.sclust == xs[0]
    {
      if xs == [] {
        assert |xs| * fs.csize * fs.ss == 0;
      } else {
        FirstCluster(Tables(), obj.Info(), xs);
      }
    }

    // ----- writing -----

    /** disk_write of cc sectors of the file. */
    method WriteRun(sector: nat, cc: nat, d: seq<byte>)
      requires Core() && GeoOk(G()) && Clusters(G(), xs) && OwnsRun(G(), xs, sector, cc) && sector + cc <= |fs.view|
      requires |d| == cc * fs.ss
      modifies fs`disk, fs`view
      ensures Core() && Volume(G(), fs.view) && fs.Geometry() && fs.Sized(fs.view) && Tables() == old(Tables())
      ensures |fs.view| == |old(fs.view)| && OwnOnly(G(), xs, old(fs.view), fs.view)
      ensures RunHolds(G(), old(fs.view), fs.view, sector, cc, d)
    {
      hide *;
      CoreParts();
      ghost var was, fat := fs.view, Tables();
      OwnOnlySame(G(), xs, was);
      NothingWritten(G(), was, sector, d);
      var i := 0;
      while i < cc
        invariant 0 <= i <= cc && Core() && Volume(G(), fs.view) && fs.Geometry() && fs.Sized(fs.view)
          && Tables() == fat
        invariant |fs.view| == |was| && OwnOnly(G(), xs, was, fs.view)
        invariant i * fs.ss <= |d| && RunHolds(G(), was, fs.view, sector, i, d[..i * fs.ss])
      {
        ghost var mid := fs.view;
        RunMember(G(), xs, sector, cc, sector + i);
        MoreSectors(i, 1, cc, fs.ss);
        WriteOwn(sector + i, d[i * fs.ss..i * fs.ss + fs.ss]);
        ChangedOwn(mid, sector + i, d[i * fs.ss..i * fs.ss + fs.ss]);
        OwnOnlyTrans(G(), xs, was, mid, fs.view);
        NextWritten(G(), was, mid, sector, i, d);
        CoreParts();
        i := i + 1;
      }
      WholeSlice(d, cc * fs.ss);
    }

    method CopyToBuf(d: seq<byte>)
      requires |d| == buf.Length
      modifies buf
      ensures buf[..] == d
    {
      forall i | 0 <= i < buf.Length {
        buf[i] := d[i];
      }
    }

    /** The file pointer moves behind bytes that were written, and the size grows with it. */
    method Advance(n: nat)
      requires Base() && (fs.kind == ExFat || fptr + n < 0x1_0000_0000) && fptr + n <= |xs| * fs.csize * fs.ss
      requires Fit(Larger(fptr + n, 1))
      modifies this`fptr, obj`objsize
      ensures Base() && fptr == old(fptr) + n && obj.objsize == Larger(old(obj.objsize), fptr) && Fit(1)
      ensures Volume(G(), Eff()) && Clusters(G(), xs) && Content() == Cells()[..obj.objsize] && obj.objsize <= |Cells()|
    {
      hide *;
      Parts();
      FitSize(Larger(fptr + n, 1), fptr + n);
      ghost var o := obj.Info();
      InfoSame();
      fptr := fptr + n;
      LargerIs(obj.objsize, fptr);
      if fptr > obj.objsize {
        obj.objsize := fptr;
      }
      InfoSame();
      SizeIsFree(Tables(), o, xs, obj.objsize);
      FitIs(1);
      LargerIs(obj.objsize, 1);
      Whole();
      CellsIs();
    }

    lemma FitIs(n: nat)
      ensures Fit(n) <==> (fs.kind == ExFat && obj.stat == 2 && xs != [] ==>
        (|xs| - 1) * (fs.csize * fs.ss) < Larger(obj.objsize, n))
    {
    }

    /** What fits a size of at least p fits once the size has grown to p. */
    lemma FitSize(n: nat, p: nat)
      requires Fit(n) && n == Larger(p, 1)
      ensures fs.kind == ExFat && obj.stat == 2 && xs != [] ==>
                (|xs| - 1) * (fs.csize * fs.ss) < Larger(Larger(obj.objsize, p), 1)
    {
    }

    /** Whole sectors of f_write: they go directly to the medium, and refresh the buffer. */
    method WriteDirect(sector: nat, wbuff: seq<byte>) returns (n: nat)
      requires Base() && !dirty && fs.ss > 0 && fs.csize > 0 && fptr % fs.ss == 0 && GeoOk(G()) && Clusters(G(), xs)
      requires fs.ss <= |wbuff| && fptr <= obj.objsize && (fs.kind == ExFat || fptr + |wbuff| < 0x1_0000_0000)
      requires 0 <= fptr / fs.ss / fs.csize < |xs| && clust == xs[fptr / fs.ss / fs.csize]
        && fptr / fs.ss < |xs| * fs.csize
      requires sector == SectorAt(G(), xs, fptr / fs.ss) && Fit(fptr + 1)
      modifies this`fptr, this`dirty, buf, obj`objsize, fs`disk, fs`view
      ensures Ready() && Base() && GeoOk(G()) && Clusters(G(), xs) && 0 < n <= |wbuff| && fptr == old(fptr) + n
      ensures obj.objsize == Larger(old(obj.objsize), fptr)
      ensures old(fptr) <= |old(Content())| && Content() == Overwrite(old(Content()), old(fptr), wbuff[..n])
      ensures fs.Geometry() && fs.Sized(fs.view) && Tables() == old(Tables()) && OwnOnly(G(), xs, old(fs.view), fs.view)
    {
      hide *;
      Parts();
      CellsIs();
      ghost var cells, size, p := Cells(), obj.objsize, fptr;
      var cc := RunLength(|wbuff|);
      n := cc * fs.ss;
      StoreDirect(sector, cc, wbuff[..n]);
      Parts();
      LargerIs(fptr + n, 1);
      FitMore(fptr + 1, Larger(fptr + n, 1));
      Advance(n);
      Overwritten(cells, Cells(), size, p, wbuff[..n]);
      LargerIs(size, fptr);
      Parts();
      Standing();
      NowReady();
    }

    /** The transfer itself. */
    method StoreDirect(sector: nat, cc: nat, d: seq<byte>)
      requires Base() && !dirty && fs.ss > 0 && fs.csize > 0 && GeoOk(G()) && Clusters(G(), xs) && |d| == cc * fs.ss
      requires fptr == fptr / fs.ss * fs.ss && fptr / fs.ss % fs.csize + cc <= fs.csize
      requires 0 <= fptr / fs.ss / fs.csize < |xs| && fptr / fs.ss < |xs| * fs.csize
        && sector == SectorAt(G(), xs, fptr / fs.ss)
      modifies this`dirty, buf, fs`disk, fs`view
      ensures Base() && Volume(G(), Eff()) && old(Volume(G(), Eff())) && fptr + |d| <= |old(Cells())|
      ensures Cells() == Store(old(Cells()), fptr, d)
      ensures fs.Geometry() && fs.Sized(fs.view) && Tables() == old(Tables()) && OwnOnly(G(), xs, old(fs.view), fs.view)
    {
      hide *;
      Parts();
      CellsIs();
      EffIs();
      ghost var was := fs.view;
      RunOwned(G(), fs.view, xs, fptr / fs.ss, cc);
      WriteRun(sector, cc, d);
      CoreParts();
      StoredRun(G(), was, fs.view, xs, fptr / fs.ss, cc, fptr, d);
      RefreshBuffer(was, sector, cc, d);
      EffIs();
      CellsIs();
    }

    /** Refills the buffer if the direct write went over its sector. */
    method RefreshBuffer(ghost was: seq<seq<byte>>, sector: nat, cc: nat, d: seq<byte>)
      requires Core() && !dirty && GeoOk(G()) && Clusters(G(), xs) && (sect == 0 || Owns(G(), xs, sect))
      requires Volume(G(), fs.view) && RunHolds(G(), was, fs.view, sector, cc, d) && |d| == cc * fs.ss
      requires Owns(G(), xs, sect) ==> sect < |was| && buf[..] == was[sect]
      modifies this`dirty, buf
      ensures Base() && !dirty
    {
      hide *;
      CoreParts();
      if sector <= sect < sector + cc {
        Product(sect - sector, fs.ss);
        var o: nat := (sect - sector) * fs.ss;
        SectorOfRun(G(), was, fs.view, sector, cc, d, sect - sector);
        CopyToBuf(d[o..o + fs.ss]);
        dirty := false;
      } else {
        OutsideSame(G(), was, fs.view, sector, cc, d);
      }
      Whole();
    }

    /** The last part of f_write: bytes put into the buffer, which shows the current sector. */
    method WritePart(d: seq<byte>, ghost c0: seq<byte>)
      requires Core() && fs.ss > 0 && fs.csize > 0 && GeoOk(G()) && Clusters(G(), xs) && Volume(G(), fs.view)
        && Fit(fptr + 1)
      requires d != [] && fptr % fs.ss + |d| <= fs.ss && fptr <= obj.objsize
        && (fs.kind == ExFat || fptr + |d| < 0x1_0000_0000)
      requires 0 <= fptr / fs.ss / fs.csize < |xs| && clust == xs[fptr / fs.ss / fs.csize]
        && fptr / fs.ss < |xs| * fs.csize
      requires sect == SectorAt(G(), xs, fptr / fs.ss) && Owns(G(), xs, sect) && sect < |fs.view|
      requires buf.Length == fs.ss && fptr <= |c0| && fptr + |d| <= |xs| * fs.csize * fs.ss
        && obj.objsize <= |xs| * fs.csize * fs.ss
      requires Volume(G(), fs.view[sect := buf[..]]) && c0 == Space(G(), fs.view[sect := buf[..]], xs)[..obj.objsize]
      modifies this`fptr, this`dirty, buf, obj`objsize
      ensures Ready() && Base() && fptr == old(fptr) + |d| && obj.objsize == Larger(old(obj.objsize), fptr)
      ensures Content() == Overwrite(c0, old(fptr), d)
    {
      hide *;
      CoreParts();
      ghost var e1, size, p := fs.view[sect := buf[..]], obj.objsize, fptr;
      var off := fptr % fs.ss;
      StoreBuf(off, d);
      dirty := true;
      EffIs();
      PutInFile(G(), fs.view, xs, p, sect, old(buf[..]), d);
      Whole();
      CellsIs();
      ghost var cells := Space(G(), e1, xs);
      assert Cells() == Store(cells, p, d);
      AfterPart(p, |d|, fs.ss);
      LargerIs(fptr + |d|, 1);
      FitMore(fptr + 1, Larger(fptr + |d|, 1));
      Advance(|d|);
      Overwritten(cells, Cells(), size, p, d);
      LargerIs(size, fptr);
      Parts();
      Standing();
      NowReady();
    }

    method StoreBuf(off: nat, d: seq<byte>)
      requires off + |d| <= buf.Length
      modifies buf
      ensures buf[..] == Store(old(buf[..]), off, d)
    {
      ghost var was := buf[..];
      forall i | 0 <= i < |d| {
        buf[off + i] := d[i];
      }
      assert buf[..] == Store(was, off, d);
    }

    /** The bytes of the file as the buffered sector and the medium give them. */
    lemma BufferedCells()
      requires Base() && Owns(G(), xs, sect)
      ensures sect < |fs.view| && Volume(G(), fs.view[sect := buf[..]]) && Clusters(G(), xs)
      ensures obj.objsize <= |Space(G(), fs.view[sect := buf[..]], xs)|
      ensures Space(G(), fs.view[sect := buf[..]], xs)[..obj.objsize] == Content()
    {
      hide FatFs.Valid, FatFs.Geometry, FatFs.Sized, Space, SectorAt, ChainOf;
      OwnedInside(G(), fs.view, xs, sect);
      assert Eff() == fs.view[sect := buf[..]];
    }

    /** The buffer is turned to the sector to be written; at the end of the file it need not be read. */
    method Prepare(sector: nat)
      requires Base() && !dirty && fs.ss > 0 && fs.csize > 0 && fptr % fs.ss == 0 && fptr <= obj.objsize
      requires GeoOk(G()) && Clusters(G(), xs) && Owns(G(), xs, sector)
      requires 0 <= fptr / fs.ss / fs.csize < |xs| && fptr / fs.ss < |xs| * fs.csize
        && sector == SectorAt(G(), xs, fptr / fs.ss)
      modifies this`sect, buf
      ensures Core() && sect == sector < |fs.view| && buf.Length == fs.ss
      ensures Volume(G(), fs.view[sect := buf[..]]) && obj.objsize <= |Space(G(), fs.view[sect := buf[..]], xs)|
      ensures Space(G(), fs.view[sect := buf[..]], xs)[..obj.objsize] == old(Content())
    {
      hide *;
      Parts();
      CellsIs();
      EffIs();
      OwnedInside(G(), fs.view, xs, sector);
      if sect != sector {
        if fptr < obj.objsize {
          Load(sector);
          Parts();
          CellsIs();
          BufferedCells();
        } else {
          sect := sector;
          EdgeCells(G(), fs.view, xs, fptr, sector, buf[..]);
        }
      } else {
        BufferedCells();
      }
    }

    /** The sectors of the clusters ys are not touched by changes in the FATs and the bitmap. */
    lemma OwnedKept(ys: seq<nat>, was: seq<seq<byte>>, now: seq<seq<byte>>)
      requires fs.Geometry() && fs.Sized(was) && MetaKept(fs, was, now) && Volume(G(), was) && Clusters(G(), ys)
        && NoneInMap(fs, ys)
      ensures |now| == |was| && forall s: nat :: Owns(G(), ys, s) ==> s < |was| && now[s] == was[s]
    {
      fs.Layout(was);
      FatsBelow(fs);
      forall s: nat | Owns(G(), ys, s) ensures s < |was| && now[s] == was[s] {
        var k: nat :| OwnsAt(G(), ys, s, k);
        SectorAtInside(G(), was, ys, k);
        SectorBehind(ys, k);
      }
    }

    /** Takes the cluster r, which create_chain appended, into the file. */
    ghost method Adopt(c: nat, r: nat, a: Alloc, o: ObjInfo, o': ObjInfo, was: seq<seq<byte>>, scl: nat)
      requires fs.Valid() && fs.Geometry() && fs.Sized(fs.view) && fs.Sized(was) && Volume(G(), was)
      requires MetaKept(fs, was, fs.view) && fs.winsect < MetaEnd(fs) && a == AllocOf(fs, was)
      requires buf.Length == fs.ss && buf != fs.win && Clusters(G(), xs) && ChainOf(a, o, xs) && MapOk(fs, a)
        && NoneInMap(fs, xs)
      requires obj.Info() == if xs == [] then o'.(sclust := r) else o'
      requires obj.objsize <= |xs| * fs.csize * fs.ss && (fs.kind == ExFat || obj.objsize < 0x1_0000_0000)
      requires (dirty ==> Owns(G(), xs, sect)) && (sect == 0 || Owns(G(), xs, sect))
      requires !dirty && Owns(G(), xs, sect) ==> sect < |was| && buf[..] == was[sect]
      requires fs.nent > 2 && 1 <= scl < fs.nent && c == (if xs == [] then 0 else xs[|xs| - 1]) && c < fs.nent
      requires a.kind == fs.kind && |a.fat| == fs.nent && |a.used| == (if fs.kind == ExFat then fs.nent - 2 else 0)
      requires r >= 2 && Growth(a, Tables(), o, o', c, scl, r)
      modifies this`xs
      ensures Base() && xs == old(xs) + [r] && ChainsKept(a, old(xs), Tables(), xs) && obj.objsize == old(obj.objsize)
      ensures Volume(G(), Overlay(was, dirty, sect, buf[..]))
      ensures obj.objsize <= |Space(G(), Overlay(was, dirty, sect, buf[..]), old(xs))|
      ensures Content() == Space(G(), Overlay(was, dirty, sect, buf[..]), old(xs))[..obj.objsize]
    {
      hide *;
      GIs();
      TablesAre();
      VolumeSizes(G(), was);
      EndMarkHigh(fs);
      SizedSectors(fs, fs.view);
      MetaSize(fs, was, fs.view);
      SameVolume(G(), was, fs.view);
      MapParts(fs, a);
      ghost var xs0 := xs;
      GrownChain(a, Tables(), xs, o, o', c, scl, r);
      ClustersAnd(G(), xs, r);
      GrownMap(fs, a, Tables(), xs, r);
      OwnedKept(xs, was, fs.view);
      OwnedKept(xs + [r], was, fs.view);
      GrownSpace(G(), was, fs.view, xs, r, dirty, sect, buf[..], obj.objsize);
      OwnsMore(G(), xs, r, sect);
      ZeroNotOwned(xs + [r]);
      xs := xs + [r];
      if !dirty { StillAgrees(G(), was, fs.view, xs0, xs, sect, buf[..]); }
      SoundIs();
      WindowMoved2();
      Whole();
      EffOverlay();
      CellsIs();
    }

    lemma ZeroNotOwned(ys: seq<nat>)
      requires fs.Geometry() && Volume(G(), fs.view) && Clusters(G(), ys)
      ensures !Owns(G(), ys, 0)
    {
      NoSectorZero(G(), fs.view, ys);
    }

    lemma WindowMoved2()
      requires Volume(G(), fs.view) && Clusters(G(), xs) && NoneInMap(fs, xs) && fs.winsect < MetaEnd(fs)
      ensures !Owns(G(), xs, fs.winsect)
    {
      if Owns(G(), xs, fs.winsect) { OwnedBehind(fs.view, fs.winsect); }
    }

    lemma GIs()
      ensures G() == Geo(fs.ss, fs.csize, fs.database, fs.nent)
    {
    }

    lemma EffOverlay()
      ensures Eff() == Overlay(fs.view, dirty, sect, buf[..])
    {
    }

    /** What create_chain meets at a cluster of the file. */
    lemma AtCluster(q: nat, c: nat)
      requires Core() && Fit(1) && fs.ss > 0 && fs.csize > 0 && fs.nent > 2
      requires if c == 0 then q == 0 && xs == [] else 0 < q <= |xs| && c == xs[q - 1] && obj.objsize > 0
      ensures c < fs.nent && 1 <= SearchStart(c, fs.lastClst, fs.nent) < fs.nent
        && (q == |xs| ==> c == if xs == [] then 0 else xs[|xs| - 1])
      ensures q < |xs| ==> 2 <= xs[q] < fs.nent && Followed(fs.kind, fs.Fat(), obj.Info(), fs.ss, fs.csize, c) == xs[q]
      ensures q == |xs| ==> Followed(fs.kind, fs.Fat(), obj.Info(), fs.ss, fs.csize, c) >= fs.nent
    {
      hide *;
      CoreParts();
      TablesAre();
      StartIs(c, fs.lastClst, fs.nent);
      FollowedIs(fs.kind, fs.Fat(), obj.Info(), fs.ss, fs.csize, c);
      if c != 0 {
        ClusterRange(G(), xs, q - 1);
        GIs();
        AtMember(q, fs.csize * fs.ss);
      }
    }

    lemma AtMember(q: nat, bcs: nat)
      requires Core() && Fit(1) && fs.ss > 0 && fs.csize > 0 && bcs == fs.csize * fs.ss && 0 < q <= |xs|
        && obj.objsize > 0
      ensures q < |xs| ==>
        2 <= xs[q] < fs.nent
        && NextCluster(fs.kind, fs.Fat(), obj.Info(), fs.ss, fs.csize, xs[q - 1]) == xs[q]
      ensures q == |xs| ==> NextCluster(fs.kind, fs.Fat(), obj.Info(), fs.ss, fs.csize, xs[q - 1]) >= fs.nent
    {
      hide *;
      CoreParts();
      GIs();
      FitIs(1);
      LargerIs(obj.objsize, 1);
      if q < |xs| {
        ClusterRange(G(), xs, q);
        NotMore(q, |xs| - 1, bcs);
      }
      if fs.kind == ExFat && obj.stat == 2 {
        NextHere(q - 1, bcs);
      } else {
        OtherNext(q - 1);
      }
    }

    /** On the FAT the next cluster does not depend on the size. */
    lemma OtherNext(i: nat)
      requires Core() && i < |xs| && fs.ss > 0 && fs.csize > 0
        && (fs.kind == ExFat ==> obj.objsize > 0 && obj.stat != 2)
      ensures i + 1 < |xs| ==> NextCluster(fs.kind, fs.Fat(), obj.Info(), fs.ss, fs.csize, xs[i]) == xs[i + 1]
      ensures i + 1 == |xs| ==> NextCluster(fs.kind, fs.Fat(), obj.Info(), fs.ss, fs.csize, xs[i]) >= fs.nent
    {
      hide *;
      CoreParts();
      TablesAre();
      InfoSame();
      OtherFollows(Tables(), obj.Info(), xs, i);
    }

    /** create_chain before cluster number q of the file: it follows the chain, or appends a cluster to it. */
    method Extend(ghost q: nat, c: nat, ghost e: nat) returns (r: nat)
      requires Base() && fs.ss > 0 && fs.csize > 0 && fs.nent > 2 && Fit(1) && e == q * (fs.csize * fs.ss)
      requires if c == 0 then q == 0 && xs == [] else 0 < q <= |xs| && c == xs[q - 1] && obj.objsize > 0
      modifies this`xs, obj`sclust, obj`stat, obj`nCont
      modifies fs`disk, fs`wflag, fs`winsect, fs`view, fs.win, fs`lastClst, fs`freeClst, fs`fsiFlag
      ensures Base() && old(xs) <= xs && GeoOk(G()) && Clusters(G(), xs)
      ensures fs.Geometry() && fs.Sized(fs.view) && MetaKept(fs, old(fs.view), fs.view)
      ensures ChainsKept(old(Tables()), old(xs), Tables(), xs)
      ensures Content() == old(Content()) && obj.objsize == old(obj.objsize) && Fit(e + 1)
      ensures r >= 2 ==> q < |xs| && r == xs[q]
      ensures r < 2 ==> xs == old(xs) && q == |xs| && fs.view == old(fs.view) && Fit(1)
      ensures q < |old(xs)| ==> xs == old(xs)
      ensures r == 0 ==> NoneFree(Tables())
      ensures r == 1 ==> SomeInvalid(Tables())
    {
      hide *;
      Parts();
      CellsIs();
      EffOverlay();
      InfoSame();
      TablesAre();
      SoundIs();
      ghost var a, o, was, w0, scl := Tables(), obj.Info(), fs.view, fs.winsect, SearchStart(c, fs.lastClst, fs.nent);
      ChainsKeptSame(a, xs);
      MetaSame(fs, was);
      FitMore(1, e + 1);
      FitIs(1);
      FitIs(e + 1);
      AtCluster(q, c);
      SclustZero(a, o, xs);
      r := CreateChain(fs, obj, c);
      InfoSame();
      fs.ValidParts();
      TablesAre();
      ghost var o' := obj.Info();
      if r >= 2 && obj.sclust == 0 {
        obj.sclust := r;
      }
      InfoSame();
      FitIs(1);
      FitIs(e + 1);
      if q < |xs| || r < 2 {
        if q == |xs| {
          GrowthIs(a, Tables(), o, o', c, scl, r);
          NotGrown(a, Tables(), o, o', c, scl, r);
        }
        Unmoved(w0);
      } else {
        GrowthIs(a, Tables(), o, o', c, scl, r);
        StretchedInfo(a, Tables(), o, o', c, scl, r);
        Adopt(c, r, a, o, o', was, scl);
        FitGrown(q, e);
      }
      Parts();
    }

    lemma FitGrown(q: nat, e: nat)
      requires |xs| == q + 1 && e == q * (fs.csize * fs.ss)
      ensures Fit(e + 1)
    {
    }

    lemma Unmoved(w0: nat)
      requires fs.Valid() && fs.Geometry() && fs.Sized(fs.view) && Volume(G(), fs.view)
      requires buf.Length == fs.ss && buf != fs.win && Clusters(G(), xs) && ChainOf(Tables(), obj.Info(), xs) && Sound()
      requires obj.objsize <= |xs| * fs.csize * fs.ss && (fs.kind == ExFat || obj.objsize < 0x1_0000_0000)
      requires (dirty ==> Owns(G(), xs, sect)) && (sect == 0 || Owns(G(), xs, sect))
      requires !dirty && Owns(G(), xs, sect) ==> sect < |fs.view| && buf[..] == fs.view[sect]
      requires !Owns(G(), xs, w0) && (fs.winsect == w0 || fs.winsect < MetaEnd(fs))
      ensures Base() && Volume(G(), Overlay(fs.view, dirty, sect, buf[..]))
      ensures obj.objsize <= |Space(G(), Overlay(fs.view, dirty, sect, buf[..]), xs)|
      ensures Content() == Space(G(), Overlay(fs.view, dirty, sect, buf[..]), xs)[..obj.objsize]
    {
      hide *;
      SoundIs();
      WindowMoved(w0);
      Whole();
      EffOverlay();
      CellsIs();
    }

    /** Only the FATs, the bitmap and sectors of the clusters zs differ. */
    ghost predicate Elsewhere(zs: seq<nat>, was: seq<seq<byte>>, now: seq<seq<byte>>)
      requires GeoOk(G()) && Clusters(G(), zs)
    {
      |now| == |was| && forall i: nat :: i < |was| && !Meta(fs, i) && !Owns(G(), zs, i) ==> now[i] == was[i]
    }

    lemma ElsewhereFat(zs: seq<nat>, was: seq<seq<byte>>, now: seq<seq<byte>>)
      requires GeoOk(G()) && Clusters(G(), zs) && MetaKept(fs, was, now)
      ensures Elsewhere(zs, was, now)
    {
    }

    lemma ElsewhereOwn(zs: seq<nat>, was: seq<seq<byte>>, now: seq<seq<byte>>)
      requires GeoOk(G()) && Clusters(G(), zs) && OwnOnly(G(), zs, was, now)
      ensures Elsewhere(zs, was, now)
    {
    }

    lemma ElsewhereTrans(ys: seq<nat>, zs: seq<nat>, a: seq<seq<byte>>, b: seq<seq<byte>>, c: seq<seq<byte>>)
      requires GeoOk(G()) && Clusters(G(), ys) && Clusters(G(), zs) && ys <= zs
      requires Elsewhere(ys, a, b) && Elsewhere(zs, b, c)
      ensures Elsewhere(zs, a, c)
    {
      forall s: nat ensures Owns(G(), ys, s) ==> Owns(G(), zs, s) {
        OwnsPrefix(G(), ys, zs, s);
      }
    }

    /** Turns clust to the cluster to be written at a sector boundary, stretching the chain if needed. */
    method ClusterForWrite() returns (st: Status)
      requires Ready() && fs.ss > 0 && fptr % fs.ss == 0
      modifies this`clust, this`xs, obj`sclust, obj`stat, obj`nCont
      modifies fs`disk, fs`wflag, fs`winsect, fs`view, fs.win, fs`lastClst, fs`freeClst, fs`fsiFlag
      ensures Base() && old(xs) <= xs && GeoOk(G()) && Clusters(G(), xs) && fs.Geometry() && fs.Sized(fs.view)
      ensures Elsewhere(xs, old(fs.view), fs.view) && ChainsKept(old(Tables()), old(xs), Tables(), xs)
      ensures Content() == old(Content()) && obj.objsize == old(obj.objsize)
      ensures st == Full ==> NoneFree(Tables())
      ensures st == IntErr ==> SomeInvalid(Tables())
      ensures st != Denied
      ensures st == Ok ==>
        fs.csize > 0 && 0 <= fptr / fs.ss / fs.csize < |xs| && clust == xs[fptr / fs.ss / fs.csize]
        && Fit(fptr + 1)
      ensures st != Ok ==> At()
    {
      hide *;
      ReadyIs();
      Parts();
      AtHere();
      ClusterHere();
      SectorHere(sect);
      AtLeastThree(G());
      ghost var q, was := fptr / fs.ss / fs.csize, fs.view;
      if fptr > 0 { BeforeBoundary(fptr, fs.ss, fs.csize); }
      if fptr == 0 { ZeroPosition(fs.ss, fs.csize); }
      InfoSame();
      SclustZero(Tables(), obj.Info(), xs);
      MetaSame(fs, was);
      ElsewhereFat(xs, was, was);
      ChainsKeptSame(Tables(), xs);
      FitMore(1, fptr + 1);
      st := Ok;
      var csect := fptr / fs.ss % fs.csize;
      if csect == 0 {
        AtClusterStart(fptr, fs.ss, fs.csize);
        var clst;
        if fptr == 0 {
          clst := obj.sclust;
          if xs != [] { NextOnFat(0); }
          if clst == 0 {
            clst := Extend(0, 0, 0);
            ElsewhereFat(xs, was, fs.view);
          }
        } else {
          clst := Extend(q, clust, fptr);
          ElsewhereFat(xs, was, fs.view);
        }
        if clst == 0 {
          st := Full;
        } else if clst == 1 {
          st := IntErr;
        } else {
          clust := clst;
        }
      }
      Parts();
      if st != Ok {
        SameStanding(old(clust), old(xs));
      }
    }

    lemma SameStanding(c: nat, ys: seq<nat>)
      requires GeoOk(G()) && Clusters(G(), xs) && fptr <= obj.objsize && fptr % fs.ss == 0 && clust == c && xs == ys
        && Fit(1)
      requires fptr > 0 ==> 0 <= (fptr - 1) / fs.ss / fs.csize < |ys| && c == ys[(fptr - 1) / fs.ss / fs.csize]
      ensures At()
    {
    }

    /** How many bytes go into the current sector. */
    method PartLength(len: nat) returns (n: nat)
      requires fs.ss > 0 && len > 0
      ensures 0 < n <= len && fptr % fs.ss + n <= fs.ss
    {
      Remainder(fptr, fs.ss);
      n := fs.ss - fptr % fs.ss;
      if n > len {
        n := len;
      }
    }

    /** The round of f_write at a sector boundary, once the cluster is known and the buffer is clean. */
    method WriteSector(wbuff: seq<byte>) returns (n: nat)
      requires Base() && !dirty && fs.ss > 0 && fs.csize > 0 && GeoOk(G()) && Clusters(G(), xs)
      requires wbuff != [] && (fs.kind == ExFat || fptr + |wbuff| < 0x1_0000_0000) && fptr % fs.ss == 0
        && fptr <= obj.objsize
      requires 0 <= fptr / fs.ss / fs.csize < |xs| && clust == xs[fptr / fs.ss / fs.csize] && Fit(fptr + 1)
      modifies this`fptr, this`sect, this`dirty, buf, obj`objsize, fs`disk, fs`view
      ensures Ready() && Base() && GeoOk(G()) && Clusters(G(), xs) && fs.Geometry() && fs.Sized(fs.view)
      ensures Tables() == old(Tables()) && OwnOnly(G(), xs, old(fs.view), fs.view)
      ensures 0 < n <= |wbuff| && fptr == old(fptr) + n
      ensures old(fptr) <= |old(Content())| && Content() == Overwrite(old(Content()), old(fptr), wbuff[..n])
    {
      hide *;
      Parts();
      CellsIs();
      OwnOnlySame(G(), xs, fs.view);
      ghost var c0 := Content();
      SectorCount(fptr / fs.ss, fs.csize, |xs|);
      SectorIs(G(), fs.view, xs, fptr / fs.ss);
      var sector := Clust2Sect(G(), clust) + fptr / fs.ss % fs.csize;
      SectorsWanted(|wbuff|, fs.ss);
      if |wbuff| / fs.ss > 0 {
        n := WriteDirect(sector, wbuff);
      } else {
        Prepare(sector);
        CoreParts();
        n := PartLength(|wbuff|);
        PartInside(fptr, n, fs.ss, |xs| * fs.csize);
        WritePart(wbuff[..n], c0);
        Parts();
      }
    }

    /** The buffer is written back first. */
    method WriteBoundary(wbuff: seq<byte>) returns (n: nat)
      requires Base() && fs.ss > 0 && fs.csize > 0 && GeoOk(G()) && Clusters(G(), xs) && fs.Geometry()
        && fs.Sized(fs.view)
      requires wbuff != [] && (fs.kind == ExFat || fptr + |wbuff| < 0x1_0000_0000) && fptr % fs.ss == 0
        && fptr <= obj.objsize
      requires 0 <= fptr / fs.ss / fs.csize < |xs| && clust == xs[fptr / fs.ss / fs.csize] && Fit(fptr + 1)
      modifies this`fptr, this`sect, this`dirty, buf, obj`objsize, fs`disk, fs`view
      ensures Ready() && Base() && GeoOk(G()) && Clusters(G(), xs) && fs.Geometry() && fs.Sized(fs.view)
      ensures Tables() == old(Tables()) && OwnOnly(G(), xs, old(fs.view), fs.view)
      ensures 0 < n <= |wbuff| && fptr == old(fptr) + n
      ensures old(fptr) <= |old(Content())| && Content() == Overwrite(old(Content()), old(fptr), wbuff[..n])
    {
      hide *;
      CellsIs();
      ghost var was := fs.view;
      OwnOnlySame(G(), xs, was);
      if dirty {
        Flush();
      }
      Parts();
      CellsIs();
      ghost var mid := fs.view;
      n := WriteSector(wbuff);
      OwnOnlyTrans(G(), xs, was, mid, fs.view);
    }

    /** The round of f_write inside a sector. */
    method WriteInside(wbuff: seq<byte>) returns (n: nat)
      requires Ready() && fs.ss > 0 && fptr % fs.ss != 0 && wbuff != []
        && (fs.kind == ExFat || fptr + |wbuff| < 0x1_0000_0000)
      modifies this`fptr, this`dirty, buf, obj`objsize
      ensures Ready() && Base() && 0 < n <= |wbuff| && fptr == old(fptr) + n
      ensures old(fptr) <= |old(Content())| && Content() == Overwrite(old(Content()), old(fptr), wbuff[..n])
    {
      hide *;
      ReadyIs();
      Parts();
      AtHere();
      ClusterHere();
      SectorHere(sect);
      CellsIs();
      FitMore(1, fptr + 1);
      ghost var c0 := Content();
      InsideSector(fptr, fs.ss);
      SectorCount(fptr / fs.ss, fs.csize, |xs|);
      SectorIs(G(), fs.view, xs, fptr / fs.ss);
      BufferedCells();
      n := PartLength(|wbuff|);
      PartInside(fptr, n, fs.ss, |xs| * fs.csize);
      WritePart(wbuff[..n], c0);
    }

    /** One round of the loop of f_write. */
    method WriteChunk(wbuff: seq<byte>) returns (st: Status, n: nat)
      requires Ready() && wbuff != [] && (fs.kind == ExFat || fptr + |wbuff| < 0x1_0000_0000)
      modifies this`fptr, this`clust, this`sect, this`dirty, this`xs, buf, obj`objsize, obj`sclust, obj`stat, obj`nCont
      modifies fs`disk, fs`wflag, fs`winsect, fs`view, fs.win, fs`lastClst, fs`freeClst, fs`fsiFlag
      ensures Ready() && Base() && old(xs) <= xs && GeoOk(G()) && Clusters(G(), xs) && fs.Geometry()
        && fs.Sized(fs.view)
      ensures Elsewhere(xs, old(fs.view), fs.view) && ChainsKept(old(Tables()), old(xs), Tables(), xs)
      ensures n <= |wbuff| && (n > 0 <==> st == Ok) && st != Denied && fptr == old(fptr) + n
      ensures old(fptr) <= |old(Content())| && Content() == Overwrite(old(Content()), old(fptr), wbuff[..n])
      ensures st == Full ==> NoneFree(Tables())
      ensures st == IntErr ==> SomeInvalid(Tables())
    {
      hide *;
      ReadyIs();
      Parts();
      AtHere();
      ClusterHere();
      SectorHere(sect);
      CellsIs();
      ghost var was := fs.view;
      MetaSame(fs, was);
      ElsewhereFat(xs, was, was);
      ChainsKeptSame(Tables(), xs);
      NothingOver(Content(), fptr, wbuff);
      st, n := Ok, 0;
      if fptr % fs.ss == 0 {
        st := ClusterForWrite();
        Parts();
        if st == Ok {
          ghost var mid := fs.view;
          n := WriteBoundary(wbuff);
          ElsewhereOwn(xs, mid, fs.view);
          ElsewhereTrans(xs, xs, was, mid, fs.view);
        } else {
          NowReady();
        }
      } else {
        n := WriteInside(wbuff);
        Parts();
      }
    }

    /** The loop of f_write. */
    method WriteBytes(wbuff: seq<byte>) returns (st: Status, bw: nat)
      requires Ready() && (fs.kind == ExFat || fptr + |wbuff| < 0x1_0000_0000)
      modifies this`fptr, this`clust, this`sect, this`dirty, this`xs, buf, obj`objsize, obj`sclust, obj`stat, obj`nCont
      modifies fs`disk, fs`wflag, fs`winsect, fs`view, fs.win, fs`lastClst, fs`freeClst, fs`fsiFlag
      ensures Ready() && Base() && old(xs) <= xs && GeoOk(G()) && Clusters(G(), xs) && fs.Geometry()
        && fs.Sized(fs.view)
      ensures Elsewhere(xs, old(fs.view), fs.view) && ChainsKept(old(Tables()), old(xs), Tables(), xs)
      ensures bw <= |wbuff| && fptr == old(fptr) + bw && (st == Ok <==> bw == |wbuff|) && st != Denied
      ensures old(fptr) <= |old(Content())| && Content() == Overwrite(old(Content()), old(fptr), wbuff[..bw])
      ensures st == Full ==> NoneFree(Tables())
      ensures st == IntErr ==> SomeInvalid(Tables())
    {
      hide *;
      ReadyIs();
      Parts();
      AtHere();
      ClusterHere();
      SectorHere(sect);
      CellsIs();
      ghost var was, xs0, f0, c0, p := fs.view, xs, Tables(), Content(), fptr;
      MetaSame(fs, was);
      ElsewhereFat(xs, was, was);
      ChainsKeptSame(f0, xs0);
      NothingOver(c0, p, wbuff);
      st, bw := Ok, 0;
      while bw < |wbuff|
        invariant Ready() && Base() && fs.Geometry() && fs.Sized(fs.view) && GeoOk(G()) && Clusters(G(), xs)
        invariant xs0 <= xs && Elsewhere(xs, was, fs.view) && ChainsKept(f0, xs0, Tables(), xs)
        invariant 0 <= bw <= |wbuff| && fptr == p + bw && st == Ok
        invariant Content() == Overwrite(c0, p, wbuff[..bw])
      {
        ghost var mid, xs1, f1, c1 := fs.view, xs, Tables(), Content();
        var n;
        st, n := WriteChunk(wbuff[bw..]);
        ElsewhereTrans(xs1, xs, was, mid, fs.view);
        ChainsKeptTrans(f0, xs0, f1, xs1, Tables(), xs);
        OverwriteTwice(c0, p, wbuff, bw, n);
        bw := bw + n;
        if st != Ok {
          return;
        }
      }
    }

    /**
     * f_write: replaces the bytes at the file pointer, or appends to them, and nothing else; Full stands for a
     * short count because no cluster is free. A size of 4 GiB cannot be reached but on exFAT.
     */
    method Write(wbuff: seq<byte>) returns (st: Status, bw: nat)
      requires Valid() && |wbuff| < 0x1_0000_0000
      modifies this`fptr, this`clust, this`sect, this`dirty, this`xs, this`modified, this`err
      modifies buf, obj`objsize, obj`sclust, obj`stat, obj`nCont
      modifies fs`disk, fs`wflag, fs`winsect, fs`view, fs.win, fs`lastClst, fs`freeClst, fs`fsiFlag
      ensures Valid() && Base() && old(xs) <= xs && GeoOk(G()) && Clusters(G(), xs) && fs.Geometry()
        && fs.Sized(fs.view)
      ensures Elsewhere(xs, old(fs.view), fs.view) && ChainsKept(old(Tables()), old(xs), Tables(), xs)
      ensures bw <= |wbuff| && fptr == old(fptr) + bw
      ensures modified == (old(modified) || (writable && !err))
      ensures old(err) ==> st == IntErr && bw == 0 && Content() == old(Content())
      ensures !old(err) && !writable ==> st == Denied && bw == 0 && Content() == old(Content())
      ensures !old(err) && writable ==>
                && old(fptr) <= |old(Content())| && Content() == Overwrite(old(Content()), old(fptr), wbuff[..bw])
                && (st == Ok <==> bw == if fs.kind == ExFat || old(fptr) + |wbuff| < 0x1_0000_0000 then |wbuff|
                else 0xFFFF_FFFF - old(fptr))
                && (st == Full ==> NoneFree(Tables())) && (st == IntErr <==> err) && (err ==> SomeInvalid(Tables()))
                  && st != Denied
    {
      hide *;
      ValidParts();
      Parts();
      CellsIs();
      MetaSame(fs, fs.view);
      ElsewhereFat(xs, fs.view, fs.view);
      ChainsKeptSame(Tables(), xs);
      if err {
        return IntErr, 0;
      }
      if !writable {
        return Denied, 0;
      }
      NowReady();
      AtHere();
      ClusterHere();
      SectorHere(sect);
      var btw := |wbuff|;
      if fs.kind != ExFat && fptr + btw >= 0x1_0000_0000 {
        btw := 0xFFFF_FFFF - fptr;
      }
      st, bw := WriteBytes(wbuff[..btw]);
      Prefix2(wbuff, btw, bw);
      ReadyIs();
      if st == IntErr {
        err := true;
      } else {
        modified := true;
        RecordedIs();
      }
      StillValid();
    }

    // ----- seeking -----

    /** clst is cluster number c of the file, and the pointer stands at its start. */
    ghost predicate Seeking(clst: nat, c: nat)
      reads this`fptr, this`clust, this`xs
    {
      c < |xs| && clst == clust == xs[c] && fptr == c * (fs.csize * fs.ss)
    }

    /** Where f_lseek starts to follow the chain: the current cluster if it can, else the first one. */
    method SeekStart(ofs: nat) returns (st: Status, clst: nat, rest: nat, ghost c: nat)
      requires Base() && At() && ofs > 0 && fs.ss > 0 && fs.csize > 0
      modifies this`fptr, this`clust, this`xs, obj`sclust, obj`stat, obj`nCont
      modifies fs`disk, fs`wflag, fs`winsect, fs`view, fs.win, fs`lastClst, fs`freeClst, fs`fsiFlag
      ensures Base() && old(xs) <= xs && GeoOk(G()) && Clusters(G(), xs) && fs.Geometry() && fs.Sized(fs.view)
      ensures Elsewhere(xs, old(fs.view), fs.view) && ChainsKept(old(Tables()), old(xs), Tables(), xs)
      ensures Content() == old(Content()) && obj.objsize == old(obj.objsize) && st != Denied && Fit(1)
        && fptr <= obj.objsize
      ensures st == Ok ==> Seeking(clst, c) && clst >= 2 && 0 < rest && fptr + rest == ofs
      ensures st != Ok ==> fptr == 0 && xs == [] == old(xs)
      ensures st == Full ==> NoneFree(Tables())
      ensures st == IntErr ==> SomeInvalid(Tables())
    {
      hide *;
      Parts();
      AtHere();
      ClusterHere();
      SectorHere(sect);
      AtLeastThree(G());
      InfoSame();
      MetaSame(fs, fs.view);
      ElsewhereFat(xs, fs.view, fs.view);
      ChainsKeptSame(Tables(), xs);
      ghost var was := fs.view;
      st := Ok;
      var bcs := fs.csize * fs.ss;
      ClusterStart(ofs - 1, fs.ss, fs.csize);
      var ifptr := fptr;
      if ifptr > 0 { ClusterStart(ifptr - 1, fs.ss, fs.csize); }
      if ifptr > 0 && (ofs - 1) / bcs >= (ifptr - 1) / bcs {
        c := (ifptr - 1) / bcs;
        StartBefore(ofs, (ifptr - 1) / bcs, bcs);
        StartBefore(ifptr, (ifptr - 1) / bcs, bcs);
        fptr := (ifptr - 1) / bcs * bcs;
        rest := ofs - fptr;
        clst := clust;
        ClusterRange(G(), xs, c);
      } else {
        c := 0;
        clst := obj.sclust;
        fptr := 0;
        rest := ofs;
        SclustZero(Tables(), obj.Info(), xs);
        if xs != [] { NextOnFat(0); ClusterRange(G(), xs, 0); }
        if clst == 0 {
          clst := Extend(0, 0, 0);
          ElsewhereFat(xs, was, fs.view);
          if clst == 1 {
            return IntErr, clst, rest, c;
          }
        }
        clust := clst;
        if clst == 0 {
          st := Full;
        }
      }
      if st == Ok { SeekingNow(clst, c); }
    }

    lemma SeekParts(clst: nat, c: nat)
      requires Seeking(clst, c)
      ensures c < |xs| && clst == clust == xs[c] && fptr == c * (fs.csize * fs.ss)
    {
    }

    lemma SeekingNow(clst: nat, c: nat)
      requires c < |xs| && clst == clust == xs[c] && fptr == c * (fs.csize * fs.ss)
      ensures Seeking(clst, c)
    {
    }

    /** The size of the object grows to the file pointer: on exFAT get_fat needs the correct size to tell the end. */
    method Raise()
      requires Base() && fptr <= |xs| * fs.csize * fs.ss && (fs.kind == ExFat || fptr < 0x1_0000_0000)
        && Fit(Larger(fptr, 1))
      modifies this`fptr, this`modified, obj`objsize
      ensures Base() && fptr == old(fptr) && obj.objsize == Larger(old(obj.objsize), fptr) && Fit(1)
      ensures old(Content()) <= Content() && |Content()| == obj.objsize
      ensures modified == (old(modified) || obj.objsize != old(obj.objsize))
    {
      hide *;
      Parts();
      CellsIs();
      ghost var cells, size := Cells(), obj.objsize;
      LargerIs(size, fptr);
      if fptr > obj.objsize {
        modified := true;
      }
      Advance(0);
      CellsIs();
      PrefixOf(cells, size, obj.objsize);
    }

    /** The cluster following loop of f_lseek; it stretches the chain of a writable file, and its size with it. */
    method SeekFollow(clst0: nat, rest0: nat, ghost c0: nat) returns (st: Status, clst: nat, rest: nat, ghost c: nat)
      requires Base() && fs.ss > 0 && fs.csize > 0 && Seeking(clst0, c0) && 0 < rest0 && GeoOk(G()) && Clusters(G(), xs)
      requires (!writable ==> fptr + rest0 <= obj.objsize) && (fs.kind == ExFat || fptr + rest0 < 0x1_0000_0000)
      requires Fit(fptr + 1) && fptr <= obj.objsize
      modifies this`fptr, this`clust, this`xs, this`modified, obj`objsize, obj`sclust, obj`stat, obj`nCont
      modifies fs`disk, fs`wflag, fs`winsect, fs`view, fs.win, fs`lastClst, fs`freeClst, fs`fsiFlag
      ensures Base() && old(xs) <= xs && GeoOk(G()) && Clusters(G(), xs) && fs.Geometry() && fs.Sized(fs.view)
      ensures Elsewhere(xs, old(fs.view), fs.view) && ChainsKept(old(Tables()), old(xs), Tables(), xs)
      ensures old(Content()) <= Content() && obj.objsize == Larger(old(obj.objsize), fptr) && st != Denied
      ensures st == Ok ==>
        Seeking(clst, c) && 0 < rest <= fs.csize * fs.ss && fptr + rest == old(fptr) + rest0
        && Fit(fptr + 1)
      ensures st == Full ==> NoneFree(Tables()) && writable && c + 1 == |xs| && clust == xs[c] && Fit(1)
                             && fptr == (c + 1) * (fs.csize * fs.ss) && fptr <= old(fptr) + rest0 && rest == 0
      ensures st == IntErr ==> SomeInvalid(Tables())
      ensures old(fptr) + rest0 <= |old(xs)| * (fs.csize * fs.ss) ==> st == Ok
      ensures modified == (old(modified) || obj.objsize != old(obj.objsize)) && (st != Ok ==> fptr > 0)
    {
      hide *;
      Parts();
      AtLeastThree(G());
      MetaSame(fs, fs.view);
      ElsewhereFat(xs, fs.view, fs.view);
      ChainsKeptSame(Tables(), xs);
      LargerIs(obj.objsize, fptr);
      ghost var was, xs0, f0, t, size := fs.view, xs, Tables(), fptr + rest0, obj.objsize;
      var bcs := fs.csize * fs.ss;
      st, clst, rest, c := Ok, clst0, rest0, c0;
      while rest > bcs
        invariant Base() && fs.Geometry() && fs.Sized(fs.view) && GeoOk(G()) && Clusters(G(), xs)
        invariant xs0 <= xs && Elsewhere(xs, was, fs.view) && ChainsKept(f0, xs0, Tables(), xs)
        invariant old(Content()) <= Content() && obj.objsize == Larger(size, fptr) && Fit(fptr + 1)
        invariant Seeking(clst, c) && 0 < rest && fptr + rest == t && st == Ok
        invariant modified == (old(modified) || obj.objsize != old(obj.objsize))
        decreases rest
      {
        ghost var mid, xs1, f1, p := fs.view, xs, Tables(), fptr;
        SeekParts(clst, c);
        NextStart(c, bcs);
        rest := rest - bcs;
        fptr := fptr + bcs;
        LaterStep(size, p, fptr);
        FitMore(p + 1, Larger(fptr, 1));
        LargerIs(size, p);
        InsideNow(c, |xs0|, fptr, t, bcs);
        LargerIs(size, fptr);
        LargerIs(obj.objsize, fptr);
        st, clst, c := SeekStep(clst, c);
        ElsewhereTrans(xs1, xs, was, mid, fs.view);
        ChainsKeptTrans(f0, xs0, f1, xs1, Tables(), xs);
        if st != Ok {
          rest := 0;
          return;
        }
      }
    }

    /** One step of the loop: the pointer has been moved to the next cluster. */
    method SeekStep(clst0: nat, ghost c0: nat) returns (st: Status, clst: nat, ghost c: nat)
      requires Base() && fs.ss > 0 && fs.csize > 0 && GeoOk(G()) && Clusters(G(), xs)
      requires c0 < |xs| && clst0 == clust == xs[c0] && fptr == (c0 + 1) * (fs.csize * fs.ss) && 0 < fptr
      requires (!writable ==> fptr < obj.objsize) && (fs.kind == ExFat || fptr < 0x1_0000_0000) && Fit(Larger(fptr, 1))
      modifies this`fptr, this`clust, this`xs, this`modified, obj`objsize, obj`sclust, obj`stat, obj`nCont
      modifies fs`disk, fs`wflag, fs`winsect, fs`view, fs.win, fs`lastClst, fs`freeClst, fs`fsiFlag
      ensures Base() && old(xs) <= xs && GeoOk(G()) && Clusters(G(), xs) && fs.Geometry() && fs.Sized(fs.view)
      ensures Elsewhere(xs, old(fs.view), fs.view) && ChainsKept(old(Tables()), old(xs), Tables(), xs)
      ensures fptr == old(fptr) && old(Content()) <= Content() && obj.objsize == Larger(old(obj.objsize), fptr)
        && st != Denied
      ensures st == Ok ==> Seeking(clst, c) && c == c0 + 1 && Fit(fptr + 1)
      ensures st == Full ==> NoneFree(Tables()) && writable && c == c0 && c + 1 == |xs| && clust == xs[c] && Fit(1)
      ensures st == IntErr ==> SomeInvalid(Tables())
      ensures c0 + 1 < |old(xs)| ==> st == Ok
      ensures modified == (old(modified) || obj.objsize != old(obj.objsize))
    {
      hide *;
      Parts();
      AtLeastThree(G());
      MetaSame(fs, fs.view);
      ElsewhereFat(xs, fs.view, fs.view);
      ChainsKeptSame(Tables(), xs);
      LargerIs(obj.objsize, fptr);
      ghost var was, w0 := fs.view, fs.winsect;
      st, c := Ok, c0;
      ClusterRange(G(), xs, c0);
      if writable {
        ClusterEnd(c0, |xs|, fs.csize, fs.ss);
        Raise();
        clst := Extend(c0 + 1, clst0, fptr);
        ElsewhereFat(xs, was, fs.view);
        if clst == 0 {
          return Full, clst, c;
        }
        if clst == 1 {
          return IntErr, clst, c;
        }
      } else {
        NextOnFat(c0);
        MoreClusters(fptr, c0 + 1, |xs|, fs.csize, fs.ss);
        InfoSame();
        CellsIs();
        EffOverlay();
        FatsBelow(fs);
        clst := fs.GetFat(obj, clst0);
        Unmoved(w0);
        LargerIs(fptr, 1);
        FitMore(Larger(fptr, 1), fptr + 1);
        Parts();
      }
      clust := clst;
      c := c0 + 1;
      SeekingNow(clst, c);
    }

    /** The pointer stands inside or at the end of the clusters, and nsect is its sector if it is inside one. */
    ghost predicate Landed(nsect: nat)
      reads this`fptr, this`clust, this`xs
    {
      && GeoOk(G()) && Clusters(G(), xs) && fptr <= |xs| * fs.csize * fs.ss
      && InCluster() && InSector(nsect) && (fptr % fs.ss != 0 ==> Owns(G(), xs, nsect))
    }

    lemma LandedAtStart(nsect: nat)
      requires GeoOk(G()) && Clusters(G(), xs) && fptr == 0
      ensures Landed(nsect)
    {
    }

    /** The pointer after rest bytes of cluster number c. */
    lemma LandedIn(c: nat, rest: nat, nsect: nat)
      requires GeoOk(G()) && Clusters(G(), xs) && fs.ss > 0 && fs.csize > 0 && Volume(G(), fs.view)
      requires c < |xs| && clust == xs[c] && 0 < rest <= fs.csize * fs.ss && fptr == c * (fs.csize * fs.ss) + rest
      requires rest % fs.ss != 0 ==> nsect == Clust2Sect(G(), xs[c]) + rest / fs.ss
      ensures Landed(nsect)
    {
      hide Volume, SectorAt, Clusters, Owns;
      GIs();
      SeekBefore(c, rest, fs.ss, fs.csize);
      SeekWithin(c, rest, fs.ss, fs.csize);
      LandedInside(c, rest, |xs|, fs.csize, fs.ss);
      hide *;
      if rest % fs.ss != 0 {
        SectorCount(fptr / fs.ss, fs.csize, |xs|);
        SectorIs(G(), fs.view, xs, fptr / fs.ss);
      }
      LandedWhole(nsect);
    }

    lemma LandedWhole(nsect: nat)
      requires GeoOk(G()) && Clusters(G(), xs) && fptr <= |xs| * fs.csize * fs.ss
      requires fptr > 0 ==> 0 <= (fptr - 1) / fs.ss / fs.csize < |xs| && clust == xs[(fptr - 1) / fs.ss / fs.csize]
      requires fptr % fs.ss != 0 ==>
        0 <= fptr / fs.ss / fs.csize < |xs| && nsect == SectorAt(G(), xs, fptr / fs.ss)
        && Owns(G(), xs, nsect)
      ensures Landed(nsect)
    {
    }

    /** Moves the pointer of f_lseek along the chain. */
    method SeekMove(ofs: nat) returns (st: Status, nsect: nat)
      requires Base() && At() && (!writable ==> ofs <= obj.objsize) && (fs.kind == ExFat || ofs < 0x1_0000_0000)
      modifies this`fptr, this`clust, this`xs, this`modified, obj`objsize, obj`sclust, obj`stat, obj`nCont
      modifies fs`disk, fs`wflag, fs`winsect, fs`view, fs.win, fs`lastClst, fs`freeClst, fs`fsiFlag
      ensures Base() && old(xs) <= xs && GeoOk(G()) && Clusters(G(), xs) && fs.Geometry() && fs.Sized(fs.view)
      ensures Elsewhere(xs, old(fs.view), fs.view) && ChainsKept(old(Tables()), old(xs), Tables(), xs)
      ensures old(Content()) <= Content() && Larger(obj.objsize, fptr) == Larger(old(obj.objsize), fptr) && st != Denied
      ensures st != IntErr ==> Landed(nsect) && Fit(Larger(fptr, 1)) && fptr <= ofs
      ensures st == Ok ==> fptr == ofs
      ensures st == Full ==> NoneFree(Tables())
      ensures st == IntErr ==> SomeInvalid(Tables()) && fptr <= obj.objsize
      ensures ofs <= |old(xs)| * (fs.csize * fs.ss) ==> st == Ok
      ensures modified == (old(modified) || obj.objsize != old(obj.objsize)) && (xs != old(xs) ==> fptr > 0)
    {
      hide *;
      Parts();
      AtHere();
      ClusterHere();
      SectorHere(sect);
      MetaSame(fs, fs.view);
      ElsewhereFat(xs, fs.view, fs.view);
      ChainsKeptSame(Tables(), xs);
      ghost var was, xs0, f0 := fs.view, xs, Tables();
      st, nsect := Ok, 0;
      if ofs == 0 {
        fptr := 0;
        LandedAtStart(nsect);
        LargerIs(0, 1);
        return;
      }
      var clst, rest;
      ghost var c;
      st, clst, rest, c := SeekStart(ofs);
      if st != Ok {
        LandedAtStart(nsect);
        LargerIs(0, 1);
        return;
      }
      FitMore(1, fptr + 1);
      LargerIs(obj.objsize, fptr);
      ghost var mid, xs1, f1 := fs.view, xs, Tables();
      NotMore(|xs0|, |xs|, fs.csize * fs.ss);
      SeekParts(clst, c);
      st, nsect := SeekLand(clst, rest, c);
      ElsewhereTrans(xs1, xs, was, mid, fs.view);
      ChainsKeptTrans(f0, xs0, f1, xs1, Tables(), xs);
    }

    /** Follows the chain and lands at the offset, or at the end of the chain if it cannot be stretched. */
    method SeekLand(clst0: nat, rest0: nat, ghost c0: nat) returns (st: Status, nsect: nat)
      requires Base() && fs.ss > 0 && fs.csize > 0 && Seeking(clst0, c0) && 0 < rest0 && GeoOk(G()) && Clusters(G(), xs)
      requires (!writable ==> fptr + rest0 <= obj.objsize) && (fs.kind == ExFat || fptr + rest0 < 0x1_0000_0000)
      requires Fit(fptr + 1) && fptr <= obj.objsize
      modifies this`fptr, this`clust, this`xs, this`modified, obj`objsize, obj`sclust, obj`stat, obj`nCont
      modifies fs`disk, fs`wflag, fs`winsect, fs`view, fs.win, fs`lastClst, fs`freeClst, fs`fsiFlag
      ensures Base() && old(xs) <= xs && GeoOk(G()) && Clusters(G(), xs) && fs.Geometry() && fs.Sized(fs.view)
      ensures Elsewhere(xs, old(fs.view), fs.view) && ChainsKept(old(Tables()), old(xs), Tables(), xs)
      ensures old(Content()) <= Content() && Larger(obj.objsize, fptr) == Larger(old(obj.objsize), fptr) && st != Denied
      ensures st != IntErr ==> Landed(nsect) && Fit(Larger(fptr, 1)) && fptr <= old(fptr) + rest0
      ensures st == Ok ==> fptr == old(fptr) + rest0
      ensures st == Full ==> NoneFree(Tables())
      ensures st == IntErr ==> SomeInvalid(Tables()) && fptr <= obj.objsize
      ensures old(fptr) + rest0 <= |old(xs)| * (fs.csize * fs.ss) ==> st == Ok
      ensures modified == (old(modified) || obj.objsize != old(obj.objsize)) && fptr > 0
    {
      hide *;
      nsect := 0;
      ghost var size := obj.objsize;
      var clst, rest;
      ghost var c;
      st, clst, rest, c := SeekFollow(clst0, rest0, c0);
      Parts();
      QuotientNat(rest, fs.ss);
      LargerTwice(size, fptr, fptr + rest);
      if st == IntErr {
        LargerTwice(size, fptr, fptr);
        LargerIs(size, fptr);
        return;
      }
      if st == Ok { SeekParts(clst, c); }
      ghost var p := fptr;
      fptr := fptr + rest;
      LargerIs(fptr, 1);
      if rest % fs.ss != 0 {
        nsect := Clust2Sect(G(), clst) + rest / fs.ss;
      }
      if st == Ok {
        FitMore(p + 1, Larger(fptr, 1));
        LandedIn(c, rest, nsect);
      } else {
        FitMore(1, Larger(fptr, 1));
        NextStart(c, fs.csize * fs.ss);
        WholeCluster(fs.csize, fs.ss);
        LandedIn(c, fs.csize * fs.ss, nsect);
      }
    }

    /** Fills the buffer with the sector the pointer stands in. */
    method SeekFill(nsect: nat)
      requires Base() && Landed(nsect) && fs.ss > 0
      modifies this`sect, this`dirty, buf, fs`disk, fs`view
      ensures Base() && Landed(nsect) && (fptr % fs.ss != 0 ==> sect == nsect) && GeoOk(G()) && Clusters(G(), xs)
      ensures Content() == old(Content()) && OwnOnly(G(), xs, old(fs.view), fs.view)
      ensures fs.Geometry() && fs.Sized(fs.view) && Tables() == old(Tables())
    {
      hide *;
      Parts();
      CellsIs();
      LandedHere(nsect);
      ClusterHere();
      SectorHere(nsect);
      OwnOnlySame(G(), xs, fs.view);
      if fptr % fs.ss != 0 && nsect != sect {
        if dirty {
          Flush();
        }
        Load(nsect);
      }
      Parts();
      CellsIs();
    }

    lemma LandedHere(nsect: nat)
      requires Landed(nsect)
      ensures GeoOk(G()) && Clusters(G(), xs) && fptr <= |xs| * fs.csize * fs.ss && InCluster() && InSector(nsect)
      ensures fs.ss > 0 && (fptr % fs.ss != 0 ==> Owns(G(), xs, nsect))
    {
    }

    /** f_lseek once the offset is clipped. */
    method SeekTo(ofs: nat) returns (st: Status)
      requires Base() && At() && !err && (!writable ==> ofs <= obj.objsize) && (fs.kind == ExFat || ofs < 0x1_0000_0000)
      modifies this`fptr, this`clust, this`xs, this`sect, this`dirty, this`modified, this`err, buf
      modifies obj`objsize, obj`sclust, obj`stat, obj`nCont
      modifies fs`disk, fs`wflag, fs`winsect, fs`view, fs.win, fs`lastClst, fs`freeClst, fs`fsiFlag
      ensures Base() && (!err ==> At()) && old(xs) <= xs && GeoOk(G()) && Clusters(G(), xs)
      ensures fs.Geometry() && fs.Sized(fs.view)
      ensures Elsewhere(xs, old(fs.view), fs.view) && ChainsKept(old(Tables()), old(xs), Tables(), xs)
      ensures (st == IntErr <==> err) && st != Denied && (err ==> SomeInvalid(Tables()))
      ensures old(Content()) <= Content() && |Content()| == obj.objsize == Larger(old(obj.objsize), fptr)
      ensures (st == Ok ==> fptr == ofs) && (st == Full ==> NoneFree(Tables()) && fptr <= ofs)
      ensures ofs <= old(obj.objsize) ==> st == Ok
      ensures modified == (old(modified) || obj.objsize != old(obj.objsize)) && (xs != old(xs) ==> fptr > 0)
    {
      hide *;
      Parts();
      ContentSize();
      AtHere();
      Associate(|xs|, fs.csize, fs.ss);
      ghost var was, size := fs.view, obj.objsize;
      var nsect;
      st, nsect := SeekMove(ofs);
      ContentSize();
      ghost var size1 := obj.objsize;
      if st == IntErr {
        err := true;
        LargerIs(obj.objsize, fptr);
        return;
      }
      ghost var mid := fs.view;
      SeekFill(nsect);
      ElsewhereOwn(xs, mid, fs.view);
      ElsewhereTrans(xs, xs, was, mid, fs.view);
      SeekGrow(nsect);
      GrownOnce(size, size1, obj.objsize, fptr);
      ReadyIs();
    }

    /**
     * f_lseek: moves the file pointer, in a writable file also past the end, which makes the file longer, even if the
     * call then fails; Full stands for a volume that has no more clusters. A position inside the file is always
     * reached. The change of size or first cluster is noted.
     */
    method Seek(ofs0: nat) returns (st: Status)
      requires Valid()
      modifies this`fptr, this`clust, this`xs, this`sect, this`dirty, this`modified, this`err, buf
      modifies obj`objsize, obj`sclust, obj`stat, obj`nCont
      modifies fs`disk, fs`wflag, fs`winsect, fs`view, fs.win, fs`lastClst, fs`freeClst, fs`fsiFlag
      ensures Valid() && Base() && old(xs) <= xs && GeoOk(G()) && Clusters(G(), xs) && fs.Geometry()
        && fs.Sized(fs.view)
      ensures Elsewhere(xs, old(fs.view), fs.view) && ChainsKept(old(Tables()), old(xs), Tables(), xs)
      ensures old(err) ==> st == IntErr && fptr == old(fptr) && Content() == old(Content())
      ensures (st == IntErr <==> err) && st != Denied && (err && !old(err) ==> SomeInvalid(Tables()))
      ensures !old(err) ==> old(Content()) <= Content() && |Content()| == Larger(|old(Content())|, fptr)
      ensures st == Ok ==> fptr == SeekTarget(fs.kind, ofs0, |old(Content())|, writable)
      ensures st == Full ==> NoneFree(Tables()) && fptr <= SeekTarget(fs.kind, ofs0, |old(Content())|, writable)
      ensures !old(err) && ofs0 <= |old(Content())| ==> st == Ok
      ensures modified == (old(modified) || obj.objsize != old(obj.objsize))
      ensures obj.sclust != old(obj.sclust) ==> modified
    {
      hide *;
      ValidParts();
      Parts();
      ContentSize();
      MetaSame(fs, fs.view);
      ElsewhereFat(xs, fs.view, fs.view);
      ChainsKeptSame(Tables(), xs);
      ghost var size, xs0, start := obj.objsize, xs, obj.sclust;
      if err {
        return IntErr;
      }
      RecordedIs();
      EmptyChain();
      var ofs := ofs0;
      if fs.kind != ExFat && ofs >= 0x1_0000_0000 {
        ofs := 0xFFFF_FFFF;
      }
      if ofs > obj.objsize && !writable {
        ofs := obj.objsize;
      }
      TargetIs(fs.kind, ofs0, obj.objsize, writable);
      st := SeekTo(ofs);
      LargerIs(size, fptr);
      EmptyChain();
      StartKept(xs0, xs, start, obj.sclust, size, obj.objsize, fptr);
      RecordedIs();
      StillValid();
    }

    /** The end of f_lseek: the size grows to the pointer. */
    method SeekGrow(ghost nsect: nat)
      requires Base() && Landed(nsect) && fs.ss > 0 && (fptr % fs.ss != 0 ==> sect == nsect)
      requires (fs.kind == ExFat || fptr < 0x1_0000_0000) && Fit(Larger(fptr, 1))
      modifies this`fptr, this`modified, obj`objsize
      ensures Ready() && Base() && fptr == old(fptr) && old(Content()) <= Content()
        && |Content()| == obj.objsize == Larger(old(obj.objsize), fptr)
      ensures modified == (old(modified) || obj.objsize != old(obj.objsize))
    {
      hide *;
      Parts();
      LandedHere(nsect);
      ClusterHere();
      SectorHere(nsect);
      LargerIs(obj.objsize, fptr);
      Raise();
      Parts();
      Standing();
      NowReady();
    }

    /**
     * Bytes written at the file pointer are what a later read at that position gives, whatever part of them still is in
     * the sector buffer and whatever clusters were taken for them.
     */
    method WriteReadBack(wbuff: seq<byte>) returns (st: Status, bw: nat, data: seq<byte>)
      requires Valid() && readable && writable && !err && |wbuff| < 0x1_0000_0000
      modifies this`fptr, this`clust, this`xs, this`sect, this`dirty, this`modified, this`err, buf
      modifies obj`objsize, obj`sclust, obj`stat, obj`nCont
      modifies fs`disk, fs`wflag, fs`winsect, fs`view, fs.win, fs`lastClst, fs`freeClst, fs`fsiFlag
      ensures Valid() && bw <= |wbuff| && st != Denied
      ensures st == Ok <==> bw == if fs.kind == ExFat || old(fptr) + |wbuff| < 0x1_0000_0000 then |wbuff|
      else 0xFFFF_FFFF - old(fptr)
      ensures st != IntErr ==> data == wbuff[..bw] && fptr == old(fptr) + bw
    {
      hide *;
      ValidParts();
      Parts();
      AtHere();
      ClusterHere();
      SectorHere(sect);
      ghost var c0 := Content();
      var p := fptr;
      st, bw := Write(wbuff);
      data := [];
      if st != IntErr {
        OverwriteReadBack(c0, p, wbuff[..bw]);
        OverwriteLength(c0, p, wbuff[..bw]);
        ghost var c1 := Content();
        var sought := Seek(p);
        TargetInside(fs.kind, p, |c1|, writable);
        SamePrefix(c1, Content(), p);
        var ok;
        ok, data := Read(bw);
      }
    }

    /** A file none of whose clusters belong to this one keeps its bytes. */
    lemma OtherFileKept(ys: seq<nat>, zs: seq<nat>, was: seq<seq<byte>>, now: seq<seq<byte>>)
      requires fs.Geometry() && fs.Sized(was) && fs.Sized(now) && Volume(G(), was) && Volume(G(), now)
      requires Clusters(G(), ys) && Clusters(G(), zs) && Disjoint(ys, zs) && NoneInMap(fs, ys)
        && Elsewhere(zs, was, now)
      ensures Space(G(), now, ys) == Space(G(), was, ys)
    {
      GIs();
      FatsBelow(fs);
      fs.Layout(was);
      hide FatFs.Geometry, FatFs.Sized, Space, SectorAt, Clusters, MetaEnd;
      forall k: nat | k < |ys| * fs.csize ensures SectorData(G(), now, ys, k) == SectorData(G(), was, ys, k) {
        QuotientLess(k, |ys|, fs.csize);
        SectorAtInside(G(), was, ys, k);
        SectorBehind(ys, k);
        var sec := SectorAt(G(), ys, k);
        assert !Meta(fs, sec);
        if Owns(G(), zs, sec) {
          var l: nat :| OwnsAt(G(), zs, sec, l);
          ApartSectors(G(), ys, zs, k, l);
          assert false;
        }
      }
      SameSpace(G(), was, now, ys);
    }
  }

  /** Objects that do not meet a file's clusters are still there and still do not meet them. */
  ghost predicate ChainsKept(a: Alloc, xs: seq<nat>, a': Alloc, xs': seq<nat>) {
    forall o: ObjInfo, ys: seq<nat> :: ys != [] && ChainOf(a, o, ys) && Disjoint(ys, xs) ==>
      ChainOf(a', o, ys) && Disjoint(ys, xs')
  }

  lemma SclustZero(a: Alloc, o: ObjInfo, xs: seq<nat>)
    requires ChainOf(a, o, xs)
    ensures o.sclust == 0 <==> xs == []
  {
    if xs != [] {
      if a.kind == ExFat { HoldsParts(a.fat, a.used, o, a.v, xs); } else { assert StepAt(a.fat, xs, 0); }
    }
  }

  lemma FirstCluster(a: Alloc, o: ObjInfo, xs: seq<nat>)
    requires ChainOf(a, o, xs) && xs != []
    ensures xs[0] == o.sclust
  {
  }

  lemma MapParts(fs: FatFs, a: Alloc)
    requires MapOk(fs, a)
    ensures a.kind == ExFat ==> Sectors32(a.fat, a.v) && |a.used| + 2 == |a.fat|
  {
  }

  /** The size of an object does not matter for its clusters. */
  lemma SizeIsFree(a: Alloc, o: ObjInfo, xs: seq<nat>, size: nat)
    requires ChainOf(a, o, xs)
    ensures ChainOf(a, o.(objsize := size), xs)
  {
    assert Filled(o.(objsize := size), a.v, |xs|) == Filled(o, a.v, |xs|);
  }

  /** get_fat at cluster i of an object: on exFAT it takes the size of the object to tell where it ends. */
  lemma FollowsNext(a: Alloc, o: ObjInfo, xs: seq<nat>, i: nat, bcs: nat)
    requires a.v.ss > 0 && a.v.csize > 0 && bcs == a.v.csize * a.v.ss && ChainOf(a, o, xs) && i < |xs|
    requires a.kind == ExFat ==> Sectors32(a.fat, a.v) && 0 < o.objsize <= |xs| * bcs
    ensures i + 1 < |xs| && (i + 1) * bcs < o.objsize ==>
      NextCluster(a.kind, a.fat, o, a.v.ss, a.v.csize, xs[i]) == xs[i + 1]
    ensures i + 1 == |xs| && (a.kind == ExFat && o.stat == 2 ==> i * bcs < o.objsize) ==>
              NextCluster(a.kind, a.fat, o, a.v.ss, a.v.csize, xs[i]) >= |a.fat|
  {
    if a.kind == ExFat {
      hide ObjHolds;
      FollowObject(a.fat, a.used, o, a.v, xs, i);
    } else {
      FollowsInside(a.kind, a.fat, o, a.v.ss, a.v.csize, xs, i);
      assert StepAt(a.fat, xs, i);
    }
  }

  lemma OtherFollows(a: Alloc, o: ObjInfo, xs: seq<nat>, i: nat)
    requires a.v.ss > 0 && a.v.csize > 0 && ChainOf(a, o, xs) && i < |xs|
      && (a.kind == ExFat ==> o.objsize > 0 && o.stat != 2)
    ensures i + 1 < |xs| ==> NextCluster(a.kind, a.fat, o, a.v.ss, a.v.csize, xs[i]) == xs[i + 1]
    ensures i + 1 == |xs| ==> NextCluster(a.kind, a.fat, o, a.v.ss, a.v.csize, xs[i]) >= |a.fat|
  {
    if a.kind == ExFat {
      hide ObjHolds;
      FollowOther(a.fat, a.used, o, a.v, xs, i);
    } else {
      FollowsInside(a.kind, a.fat, o, a.v.ss, a.v.csize, xs, i);
      assert StepAt(a.fat, xs, i);
    }
  }

  lemma OwnsMore(g: Geo, xs: seq<nat>, r: nat, s: nat)
    requires GeoOk(g) && Clusters(g, xs) && Clusters(g, xs + [r])
    ensures Owns(g, xs, s) ==> Owns(g, xs + [r], s)
  {
    if Owns(g, xs, s) {
      var k: nat :| OwnsAt(g, xs, s, k);
      MoreSectors(|xs|, 1, |xs + [r]|, g.csize);
      assert OwnsAt(g, xs + [r], s, k);
    }
  }

  lemma StillAgrees(g: Geo, was: seq<seq<byte>>, now: seq<seq<byte>>, xs: seq<nat>, ys: seq<nat>, s: nat, b: seq<byte>)
    requires Volume(g, was) && Volume(g, now) && |now| == |was| && Clusters(g, xs) && Clusters(g, ys)
    requires forall i: nat :: Owns(g, xs, i) ==> i < |was| && now[i] == was[i]
    requires !Owns(g, ys, 0) && (s == 0 || Owns(g, xs, s)) && (Owns(g, xs, s) ==> s < |was| && b == was[s])
    ensures Owns(g, ys, s) ==> s < |now| && b == now[s]
  {
    if Owns(g, xs, s) { OwnedInside(g, was, xs, s); }
  }

  /** A file with one more cluster, after changes outside its sectors, begins with the same bytes. */
  lemma GrownSpace(g: Geo, was: seq<seq<byte>>, now: seq<seq<byte>>, xs: seq<nat>, r: nat,
                   dirty: bool, sect: nat, b: seq<byte>, n: nat)
    requires Volume(g, was) && Volume(g, now) && |now| == |was| && Clusters(g, xs) && Clusters(g, xs + [r])
      && |b| == g.ss
    requires forall i: nat :: Owns(g, xs + [r], i) ==> i < |was| && now[i] == was[i]
    requires n <= |xs| * g.csize * g.ss
    ensures Volume(g, Overlay(was, dirty, sect, b)) && Volume(g, Overlay(now, dirty, sect, b))
    ensures n <= |Space(g, Overlay(was, dirty, sect, b), xs)| <= |Space(g, Overlay(now, dirty, sect, b), xs + [r])|
    ensures |Space(g, Overlay(now, dirty, sect, b), xs + [r])| == |xs + [r]| * g.csize * g.ss
    ensures Space(g, Overlay(now, dirty, sect, b), xs + [r])[..n] == Space(g, Overlay(was, dirty, sect, b), xs)[..n]
  {
    var a, c := Overlay(was, dirty, sect, b), Overlay(now, dirty, sect, b);
    hide Space, Clusters, SectorAt;
    SpaceSame(g, a, c, xs + [r], xs);
    SpaceGrows(g, c, xs, r);
  }

  /** A part of a file whose sectors are the same holds the same bytes. */
  lemma SpaceSame(g: Geo, was: seq<seq<byte>>, now: seq<seq<byte>>, zs: seq<nat>, ys: seq<nat>)
    requires Volume(g, was) && Volume(g, now) && |now| == |was| && Clusters(g, zs) && Clusters(g, ys) && ys <= zs
    requires forall i: nat :: Owns(g, zs, i) ==> i < |was| && now[i] == was[i]
    ensures Space(g, now, ys) == Space(g, was, ys)
  {
    hide Space, Volume, Clusters, SectorAt, Owns;
    VolumeSizes(g, was);
    forall k: nat | k < |ys| * g.csize ensures SectorData(g, now, ys, k) == SectorData(g, was, ys, k) {
      QuotientLess(k, |ys|, g.csize);
      SectorIs(g, was, ys, k);
      OwnsPrefix(g, ys, zs, SectorAt(g, ys, k));
    }
    SameSpace(g, was, now, ys);
  }

  /** How a call ends: done, volume full, internal error, or no access. */
  datatype Status = Ok | Full | IntErr | Denied

  lemma OwnsPrefix(g: Geo, ys: seq<nat>, zs: seq<nat>, s: nat)
    requires GeoOk(g) && Clusters(g, ys) && Clusters(g, zs) && ys <= zs
    ensures Owns(g, ys, s) ==> Owns(g, zs, s)
  {
    if Owns(g, ys, s) {
      var k: nat :| OwnsAt(g, ys, s, k);
      MoreSectors(|ys|, |zs| - |ys|, |zs|, g.csize);
      SectorPrefix(g, ys, zs, k);
      hide SectorAt;
      assert OwnsAt(g, zs, s, k);
    }
  }

  lemma SectorPrefix(g: Geo, ys: seq<nat>, zs: seq<nat>, k: nat)
    requires GeoOk(g) && Clusters(g, ys) && Clusters(g, zs) && ys <= zs && 0 <= k / g.csize < |ys|
    ensures SectorAt(g, zs, k) == SectorAt(g, ys, k)
  {
    var q := k / g.csize;
    assert zs[q] == ys[q];
  }

  lemma SectorCount(k: nat, c: nat, n: nat)
    requires c > 0 && k / c < n
    ensures k < n * c
  {
    Position(k, c);
    LaterSector(k / c, n, c);
  }

  lemma AtLeastThree(g: Geo)
    requires GeoOk(g)
    ensures g.nent >= 3 && g.ss > 0 && g.csize > 0
  {
  }

  lemma ZeroPosition(ss: nat, c: nat)
    requires ss > 0 && c > 0
    ensures 0 / ss == 0 && 0 / ss / c == 0 && 0 / ss % c == 0
  {
    SectorOf(0, 0, ss);
    SectorOf(0, 0, c);
  }

  /** No cluster is free. */
  ghost predicate NoneFree(a: Alloc) {
    if a.kind == ExFat then forall i :: 0 <= i < |a.used| ==> a.used[i] == 1
    else forall c: nat :: 2 <= c < |a.fat| ==> a.fat[c] != 0
  }

  /** Some entry of the FAT is invalid; on exFAT that is not looked at. */
  ghost predicate SomeInvalid(a: Alloc) {
    a.kind != ExFat && exists c: nat :: 2 <= c < |a.fat| && a.fat[c] == 1
  }

  /** What create_chain does to the tables and the object once a new cluster is needed. */
  ghost predicate Growth(a: Alloc, a': Alloc, o: ObjInfo, o': ObjInfo, clst: nat, scl: nat, r: nat)
    requires |a.fat| >= 3 && 1 <= scl < |a.fat| && clst < |a.fat| && (a.kind == ExFat ==> |a.used| == |a.fat| - 2)
  {
    && a'.kind == a.kind && a'.v == a.v && (a.kind != ExFat ==> a'.used == a.used)
    && if a.kind == ExFat then ExFatGrown(a.fat, a'.fat, a.used, a'.used, o, o', clst, EndMark(a.kind), r)
       else o' == o && FatGrown(a.fat, a'.fat, clst, scl, EndMark(a.kind), r)
  }

  lemma GrowthIs(a: Alloc, a': Alloc, o: ObjInfo, o': ObjInfo, clst: nat, scl: nat, r: nat)
    requires |a.fat| >= 3 && 1 <= scl < |a.fat| && clst < |a.fat|
      && |a.used| == (if a.kind == ExFat then |a.fat| - 2 else 0)
    requires a'.kind == a.kind && a'.v == a.v && |a'.used| == |a.used|
    requires a.kind == ExFat ==> ExFatGrown(a.fat, a'.fat, a.used, a'.used, o, o', clst, EndMark(a.kind), r)
    requires a.kind != ExFat ==> o' == o && FatGrown(a.fat, a'.fat, clst, scl, EndMark(a.kind), r)
    ensures Growth(a, a', o, o', clst, scl, r)
  {
  }

  lemma NotGrown(a: Alloc, a': Alloc, o: ObjInfo, o': ObjInfo, clst: nat, scl: nat, r: nat)
    requires |a.fat| >= 3 && 1 <= scl < |a.fat| && clst < |a.fat| && (a.kind == ExFat ==> |a.used| == |a.fat| - 2)
    requires Growth(a, a', o, o', clst, scl, r) && r < 2
    ensures a' == a && o' == o && (r == 0 ==> NoneFree(a)) && (r == 1 ==> SomeInvalid(a))
  {
  }

  lemma StretchedInfo(a: Alloc, a': Alloc, o: ObjInfo, o': ObjInfo, clst: nat, scl: nat, r: nat)
    requires |a.fat| >= 3 && 1 <= scl < |a.fat| && clst < |a.fat| && (a.kind == ExFat ==> |a.used| == |a.fat| - 2)
    requires Growth(a, a', o, o', clst, scl, r)
    ensures o'.sclust == o.sclust && o'.objsize == o.objsize
  {
  }

  lemma StartIs(c: nat, last: nat, n: nat)
    requires n > 2
    ensures c != 0 ==> SearchStart(c, last, n) == c
    ensures c == 0 ==> 1 <= SearchStart(c, last, n) < n
  {
  }

  lemma FollowedIs(kind: Kind, f: seq<nat>, o: ObjInfo, ss: nat, csize: nat, c: nat)
    requires ss > 0 && csize > 0
    ensures Followed(kind, f, o, ss, csize, c) == if c == 0 then |f| else NextCluster(kind, f, o, ss, csize, c)
  {
  }

  lemma SameVolume(g: Geo, was: seq<seq<byte>>, now: seq<seq<byte>>)
    requires Volume(g, was) && |now| == |was| && forall i :: 0 <= i < |now| ==> |now[i]| == g.ss
    ensures Volume(g, now)
  {
  }

  lemma EndMarkHigh(fs: FatFs)
    requires fs.Geometry()
    ensures fs.nent <= EndMark(fs.kind)
  {
  }

  lemma ChainsKeptTrans(a: Alloc, xs: seq<nat>, a': Alloc, xs': seq<nat>, a'': Alloc, xs'': seq<nat>)
    requires ChainsKept(a, xs, a', xs') && ChainsKept(a', xs', a'', xs'')
    ensures ChainsKept(a, xs, a'', xs'')
  {
    hide ChainOf, Disjoint;
  }

  lemma ChainsKeptSame(a: Alloc, xs: seq<nat>)
    ensures ChainsKept(a, xs, a, xs)
  {
  }

  lemma FoundFree(f: seq<nat>, scl: nat, r: nat)
    requires 1 <= scl < |f| && Found(f, scl, r) && r >= 2
    ensures 2 <= r < |f| && f[r] == 0
  {
  }

  /** After create_chain took a cluster the object consists of its clusters and the new one; no other object changes. */
  lemma GrownChain(a: Alloc, a': Alloc, xs: seq<nat>, o: ObjInfo, o': ObjInfo, clst: nat, scl: nat, r: nat)
    requires |a.fat| >= 3 && 1 <= scl < |a.fat| && clst < |a.fat| && (a.kind == ExFat ==> |a.used| == |a.fat| - 2)
    requires ChainOf(a, o, xs) && (a.kind == ExFat ==> Sectors32(a.fat, a.v)) && |a.fat| <= EndMark(a.kind)
    requires clst == (if xs == [] then 0 else xs[|xs| - 1]) && r >= 2 && Growth(a, a', o, o', clst, scl, r)
    ensures 2 <= r < |a.fat| && r !in xs && |a'.fat| == |a.fat|
    ensures a.kind == ExFat ==> a.used[r - 2] == 0 && a'.used == a.used[r - 2 := 1]
    ensures ChainOf(a', if xs == [] then o'.(sclust := r) else o', xs + [r]) && ChainsKept(a, xs, a', xs + [r])
  {
    if a.kind == ExFat {
      GrownExFat(a, a', xs, o, o', clst, r);
    } else {
      GrownFat(a.fat, a'.fat, xs, o.sclust, clst, scl, EndMark(a.kind), r);
      forall q: ObjInfo, ys: seq<nat> | ys != [] && ChainOf(a, q, ys) && Disjoint(ys, xs)
        ensures ChainOf(a', q, ys) && Disjoint(ys, xs + [r])
      {
        OtherOnFat(a.fat, a'.fat, xs, clst, scl, EndMark(a.kind), r, ys);
      }
    }
  }

  lemma GrownExFat(a: Alloc, a': Alloc, xs: seq<nat>, o: ObjInfo, o': ObjInfo, clst: nat, r: nat)
    requires a.kind == ExFat == a'.kind && a'.v == a.v && |a.fat| >= 3 && clst < |a.fat| && |a.used| == |a.fat| - 2
    requires ChainOf(a, o, xs) && Sectors32(a.fat, a.v) && |a.fat| <= EndMark(a.kind)
    requires clst == (if xs == [] then 0 else xs[|xs| - 1]) && r >= 2
    requires ExFatGrown(a.fat, a'.fat, a.used, a'.used, o, o', clst, EndMark(a.kind), r)
    ensures 2 <= r < |a.fat| && r !in xs && |a'.fat| == |a.fat|
    ensures a.used[r - 2] == 0 && a'.used == a.used[r - 2 := 1]
    ensures ChainOf(a', if xs == [] then o'.(sclust := r) else o', xs + [r]) && ChainsKept(a, xs, a', xs + [r])
  {
    GrownSizes(a.fat, a'.fat, a.used, a'.used, o, o', clst, EndMark(a.kind), r);
    if xs == [] {
      NewObject(a.fat, a'.fat, a.used, a'.used, o, o', a.v, EndMark(a.kind), r);
      assert xs + [r] == [r];
    } else {
      GrownObject(a.fat, a'.fat, a.used, a'.used, o, o', a.v, xs, EndMark(a.kind), r);
    }
    hide ObjHolds, ExFatGrown;
    forall q: ObjInfo, ys: seq<nat> | ys != [] && ChainOf(a, q, ys) && Disjoint(ys, xs)
      ensures ChainOf(a', q, ys) && Disjoint(ys, xs + [r])
    {
      HoldsParts(a.fat, a.used, q, a.v, ys);
      if clst in ys { assert xs == []; }
      OtherObject(a.fat, a'.fat, a.used, a'.used, o, o', a.v, clst, EndMark(a.kind), r, q, ys);
    }
  }

  lemma GrownFat(f: seq<nat>, f': seq<nat>, xs: seq<nat>, sclust: nat, clst: nat, scl: nat, e: nat, r: nat)
    requires xs != [] ==> IsChain(f, xs) && xs[0] == sclust
    requires |f| > 2 && 1 <= scl < |f| && e >= |f| && clst == (if xs == [] then 0 else xs[|xs| - 1]) && clst < |f|
    requires r >= 2 && FatGrown(f, f', clst, scl, e, r)
    ensures 2 <= r < |f| == |f'| && r !in xs && IsChain(f', xs + [r])
  {
    hide Found;
    FoundFree(f, scl, r);
    if xs == [] {
      assert StepAt(f', [r], 0);
      assert xs + [r] == [r];
    } else {
      if r in xs { MembersUsed(f, xs, r); }
      assert StepAt(f, xs, |xs| - 1);
      AppendedChain(f, xs, r, e);
    }
  }

  lemma OtherOnFat(f: seq<nat>, f': seq<nat>, xs: seq<nat>, clst: nat, scl: nat, e: nat, r: nat, ys: seq<nat>)
    requires |f| > 2 && 1 <= scl < |f| && clst == (if xs == [] then 0 else xs[|xs| - 1]) && clst < |f|
    requires r >= 2 && FatGrown(f, f', clst, scl, e, r) && IsChain(f, ys) && Disjoint(ys, xs)
    ensures IsChain(f', ys) && Disjoint(ys, xs + [r])
  {
    hide Found;
    FoundFree(f, scl, r);
    assert xs != [] ==> clst in xs;
    if r in ys { MembersUsed(f, ys, r); }
    if clst in ys { MembersUsed(f, ys, clst); }
    OthersUntouched(f, f', ys, r, clst);
    ChainKept(f, f', ys);
  }

  lemma ClustersAnd(g: Geo, xs: seq<nat>, r: nat)
    requires Clusters(g, xs) && 2 <= r < g.nent && r !in xs
    ensures Clusters(g, xs + [r])
  {
  }

  /** The new cluster is none of the bitmap's. */
  lemma GrownMap(fs: FatFs, a: Alloc, a': Alloc, xs: seq<nat>, r: nat)
    requires MapOk(fs, a) && NoneInMap(fs, xs) && a'.kind == a.kind == fs.kind && a'.v == a.v && |a'.fat| == |a.fat|
      && 2 <= r < |a.fat|
    requires a.kind == ExFat ==> |a.used| + 2 == |a.fat| && a.used[r - 2] == 0 && a'.used == a.used[r - 2 := 1]
    ensures MapOk(fs, a') && NoneInMap(fs, xs + [r])
  {
    if a.kind != ExFat {
      NoMap(fs, r);
    }
  }

  lemma NoMap(fs: FatFs, c: nat)
    requires fs.kind != ExFat
    ensures !InMap(fs, c)
  {
    if c >= 2 { Product(c - 2, fs.csize); }
  }

  lemma SizedSectors(fs: FatFs, view: seq<seq<byte>>)
    requires fs.Sized(view)
    ensures forall i :: 0 <= i < |view| ==> |view[i]| == fs.ss
  {
  }

  lemma MetaSize(fs: FatFs, was: seq<seq<byte>>, now: seq<seq<byte>>)
    requires MetaKept(fs, was, now)
    ensures |now| == |was|
  {
  }

  lemma Associate(n: nat, c: nat, ss: nat)
    ensures n * c * ss == n * (c * ss)
  {
  }

  /** A position at the start of a cluster. */
  lemma AtClusterStart(p: nat, ss: nat, c: nat)
    requires ss > 0 && c > 0 && p % ss == 0 && p / ss % c == 0
    ensures 0 <= p / ss / c && p == p / ss / c * (c * ss)
  {
    Position(p, ss);
    Position(p / ss, c);
    assert ss * (c * (p / ss / c)) == p / ss / c * (c * ss);
  }

  /** All sectors of a run belong to the file. */
  ghost predicate OwnsRun(g: Geo, xs: seq<nat>, sector: nat, cc: nat)
    requires GeoOk(g) && Clusters(g, xs)
  {
    forall s: nat :: sector <= s < sector + cc ==> Owns(g, xs, s)
  }

  /** The run of cc sectors holds d, and nothing else differs. */
  ghost predicate RunHolds(g: Geo, was: seq<seq<byte>>, now: seq<seq<byte>>, sector: nat, cc: nat, d: seq<byte>)
    requires Volume(g, now)
  {
    && |now| == |was| && sector + cc <= |was| && Bytes(now, sector, cc, g.ss) == d
    && forall i :: 0 <= i < |was| && !(sector <= i < sector + cc) ==> now[i] == was[i]
  }

  lemma SectorOfRun(g: Geo, was: seq<seq<byte>>, now: seq<seq<byte>>, sector: nat, cc: nat, d: seq<byte>, i: nat)
    requires Volume(g, now) && RunHolds(g, was, now, sector, cc, d) && i < cc
    ensures i * g.ss + g.ss <= |d| && sector + i < |now| && d[i * g.ss..i * g.ss + g.ss] == now[sector + i]
  {
    hide Bytes;
    MoreSectors(i, 1, cc, g.ss);
    Multiple(i, 0, g.ss);
    SectorOf(0, 0, g.ss);
    BytesInSector(now, sector, cc, g.ss, i * g.ss, g.ss);
  }

  lemma OutsideSame(g: Geo, was: seq<seq<byte>>, now: seq<seq<byte>>, sector: nat, cc: nat, d: seq<byte>)
    requires Volume(g, now) && RunHolds(g, was, now, sector, cc, d)
    ensures |now| == |was| && forall i :: 0 <= i < |was| && !(sector <= i < sector + cc) ==> now[i] == was[i]
  {
  }

  lemma StoredRun(g: Geo, was: seq<seq<byte>>, now: seq<seq<byte>>, xs: seq<nat>, k: nat, cc: nat, from: nat,
      d: seq<byte>)
    requires Volume(g, was) && Volume(g, now) && Clusters(g, xs) && from == k * g.ss
    requires k < |xs| * g.csize && 0 <= k / g.csize < |xs| && k % g.csize + cc <= g.csize
    requires RunHolds(g, was, now, SectorAt(g, xs, k), cc, d)
    ensures from + |d| <= |Space(g, was, xs)| && Space(g, now, xs) == Store(Space(g, was, xs), from, d)
  {
    hide Bytes, Space, SectorAt, Clusters, Volume;
    VolumeSizes(g, now);
    StoreRun(g, was, now, xs, k, cc, from, d);
  }

  function Larger(a: nat, b: nat): nat {
    if b > a then b else a
  }

  lemma LargerIs(a: nat, b: nat)
    ensures Larger(a, b) == if b > a then b else a
  {
  }

  /** A byte sequence with d written at p, longer than before if d reaches past its end. */
  function Overwrite(c: seq<byte>, p: nat, d: seq<byte>): (r: seq<byte>)
    requires p <= |c|
    ensures |r| == Larger(|c|, p + |d|)
    ensures forall i :: 0 <= i < |r| ==> r[i] == if p <= i < p + |d| then d[i - p] else c[i]
  {
    c[..p] + d + if p + |d| < |c| then c[p + |d|..] else []
  }

  /** Bytes in one sector of a file lie in its clusters. */
  lemma PartInside(p: nat, n: nat, ss: nat, sectors: nat)
    requires ss > 0 && p / ss < sectors && p % ss + n <= ss
    ensures p + n <= sectors * ss
  {
    Position(p, ss);
    LaterSector(p / ss, sectors, ss);
  }

  /** Two pieces written one after the other are one piece. */
  lemma OverwriteTwice(c: seq<byte>, p: nat, d: seq<byte>, n: nat, m: nat)
    requires p <= |c| && n <= |d| && n + m <= |d|
    ensures p + n <= |Overwrite(c, p, d[..n])|
    ensures Overwrite(Overwrite(c, p, d[..n]), p + n, d[n..][..m]) == Overwrite(c, p, d[..n + m])
  {
  }

  lemma OverwriteLength(c: seq<byte>, p: nat, d: seq<byte>)
    requires p <= |c|
    ensures p + |d| <= |Overwrite(c, p, d)|
  {
  }

  /** Reading back what was written. */
  lemma OverwriteReadBack(c: seq<byte>, p: nat, d: seq<byte>)
    requires p <= |c|
    ensures Overwrite(c, p, d)[p..p + |d|] == d
    ensures Overwrite(c, p, d)[..p] == c[..p] && (p + |d| <= |c| ==> Overwrite(c, p, d)[p + |d|..] == c[p + |d|..])
  {
  }

  lemma Prefix2(d: seq<byte>, n: nat, m: nat)
    requires m <= n <= |d|
    ensures d[..n][..m] == d[..m]
  {
  }

  lemma SameSpace(g: Geo, was: seq<seq<byte>>, now: seq<seq<byte>>, ys: seq<nat>)
    requires Volume(g, was) && Volume(g, now) && Clusters(g, ys)
    requires forall k: nat :: k < |ys| * g.csize ==> SectorData(g, now, ys, k) == SectorData(g, was, ys, k)
    ensures Space(g, now, ys) == Space(g, was, ys)
  {
    assert Sectors(g, now, ys) == Sectors(g, was, ys);
  }

  lemma Product(a: nat, b: nat)
    ensures a * b >= 0
  {
  }

  lemma StartBefore(ofs: nat, q: nat, b: nat)
    requires ofs > 0 && b > 0 && q <= (ofs - 1) / b
    ensures q * b < ofs
  {
    Position(ofs - 1, b);
    MoreSectors(0, q, (ofs - 1) / b, b);
  }

  lemma ClusterRange(g: Geo, xs: seq<nat>, c: nat)
    requires Clusters(g, xs) && c < |xs|
    ensures 2 <= xs[c] < g.nent
  {
  }

  lemma LandedInside(c: nat, rest: nat, n: nat, csize: nat, ss: nat)
    requires c < n && rest <= csize * ss
    ensures c * (csize * ss) + rest <= n * csize * ss
  {
    ClusterEnds(c, n, csize * ss);
    assert n * csize * ss == n * (csize * ss);
  }

  /** Where f_lseek aims: never at 4 GiB but on exFAT, and past the end only in a writable file. */
  function SeekTarget(kind: Kind, ofs: nat, size: nat, writable: bool): nat {
    var t := if kind != ExFat && ofs >= 0x1_0000_0000 then 0xFFFF_FFFF else ofs;
    if t > size && !writable then size else t
  }

  lemma TargetIs(kind: Kind, ofs: nat, size: nat, writable: bool)
    ensures SeekTarget(kind, ofs, size, writable) ==
              var t := if kind != ExFat && ofs >= 0x1_0000_0000 then 0xFFFF_FFFF else ofs;
              if t > size && !writable then size else t
  {
  }

  lemma TargetInside(kind: Kind, ofs: nat, size: nat, writable: bool)
    requires ofs <= size && (kind == ExFat || ofs < 0x1_0000_0000)
    ensures SeekTarget(kind, ofs, size, writable) == ofs
  {
  }

  lemma LaterStep(size: nat, p: nat, q: nat)
    requires p < q
    ensures Larger(Larger(size, p), q) == Larger(size, q) && p + 1 <= Larger(q, 1)
  {
  }

  lemma LargerTwice(a: nat, b: nat, c: nat)
    requires b <= c
    ensures Larger(Larger(a, b), c) == Larger(a, c) && Larger(a, b) >= b
  {
  }

  /** A pointer before the end of n clusters at the start of cluster c + 1. */
  lemma InsideNow(c: nat, n: nat, p: nat, t: nat, bcs: nat)
    requires p == (c + 1) * bcs && p < t
    ensures t <= n * bcs ==> c + 1 < n
  {
    if n <= c + 1 { NotMore(n, c + 1, bcs); }
  }

  lemma ClusterEnd(c: nat, n: nat, csize: nat, ss: nat)
    requires c < n
    ensures (c + 1) * (csize * ss) <= n * csize * ss
  {
    Associate(n, csize, ss);
    NotMore(c + 1, n, csize * ss);
  }

  lemma SamePrefix(a: seq<byte>, b: seq<byte>, p: nat)
    requires a <= b && |b| == Larger(|a|, p) && p <= |a|
    ensures a == b
  {
  }

  lemma WholeCluster(csize: nat, ss: nat)
    requires csize > 0 && ss > 0
    ensures csize * ss > 0 && (csize * ss) % ss == 0 && 0 % ss == 0
  {
    Multiple(csize, 0, ss);
    SectorOf(0, 0, ss);
    MoreSectors(0, 1, csize, ss);
  }

  lemma PrefixOf(a: seq<byte>, n: nat, m: nat)
    requires n <= m <= |a|
    ensures a[..n] <= a[..m]
  {
  }

  lemma NextStart(c: nat, b: nat)
    ensures c * b + b == (c + 1) * b
  {
  }

  lemma MoreClusters(p: nat, q: nat, n: nat, csize: nat, ss: nat)
    requires p == q * (csize * ss) && p < n * csize * ss
    ensures q < n
  {
    assert n * csize * ss == n * (csize * ss);
    if n <= q { MoreSectors(0, n, q, csize * ss); }
  }

  lemma NothingOver(c: seq<byte>, p: nat, d: seq<byte>)
    requires p <= |c|
    ensures Overwrite(c, p, d[..0]) == c
  {
  }

  lemma Overwritten(cells: seq<byte>, cells': seq<byte>, size: nat, p: nat, d: seq<byte>)
    requires p <= size <= |cells| && p + |d| <= |cells| && cells' == Store(cells, p, d)
    ensures Larger(size, p + |d|) <= |cells'|
    ensures cells'[..Larger(size, p + |d|)] == Overwrite(cells[..size], p, d)
  {
    var a, b := cells'[..Larger(size, p + |d|)], Overwrite(cells[..size], p, d);
    forall i: nat | i < |a| ensures a[i] == b[i] {}
  }

  /** Bytes put into the buffered copy of a sector are bytes put into the file. */
  lemma PutInFile(g: Geo, view: seq<seq<byte>>, xs: seq<nat>, p: nat, sect: nat, b: seq<byte>, d: seq<byte>)
    requires Volume(g, view) && Clusters(g, xs) && sect < |view| && |b| == g.ss && Volume(g, view[sect := b])
    requires p + |d| <= |xs| * g.csize * g.ss && p % g.ss + |d| <= g.ss && 0 < |d|
    requires p / g.ss < |xs| * g.csize && 0 <= p / g.ss / g.csize < |xs| && SectorAt(g, xs, p / g.ss) == sect
    ensures var now := view[sect := Store(b, p % g.ss, d)];
            && Volume(g, now) && p + |d| <= |Space(g, view[sect := b], xs)|
            && Space(g, now, xs) == Store(Space(g, view[sect := b], xs), p, d)
  {
    hide Store, Space, Clusters, SectorAt;
    var e := view[sect := b];
    StoreInFile(g, e, xs, p, d);
    assert view[sect := Store(b, p % g.ss, d)] == e[sect := Store(e[sect], p % g.ss, d)];
  }

  /** What a sector at the end of a file holds does not matter. */
  lemma EdgeCells(g: Geo, view: seq<seq<byte>>, xs: seq<nat>, p: nat, sect: nat, b: seq<byte>)
    requires Volume(g, view) && Clusters(g, xs) && sect < |view| && |b| == g.ss && p % g.ss == 0
    requires p / g.ss < |xs| * g.csize && 0 <= p / g.ss / g.csize < |xs| && SectorAt(g, xs, p / g.ss) == sect
    ensures Volume(g, view[sect := b]) && p <= |Space(g, view, xs)| == |Space(g, view[sect := b], xs)|
    ensures Space(g, view[sect := b], xs)[..p] == Space(g, view, xs)[..p]
  {
    Position(p, g.ss);
    LaterSector(p / g.ss, |xs| * g.csize, g.ss);
    hide Store, Space, Clusters, SectorAt;
    StoreInFile(g, view, xs, p, b);
    WholeSector(view[sect], b);
  }

  lemma NothingWritten(g: Geo, view: seq<seq<byte>>, sector: nat, d: seq<byte>)
    requires Volume(g, view) && sector <= |view|
    ensures 0 * g.ss <= |d| && RunHolds(g, view, view, sector, 0, d[..0 * g.ss])
  {
    VolumeSizes(g, view);
    NoBytes(view, sector, g.ss);
  }

  lemma NextWritten(g: Geo, was: seq<seq<byte>>, mid: seq<seq<byte>>, sector: nat, i: nat, d: seq<byte>)
    requires Volume(g, mid) && sector + i < |mid| && i * g.ss + g.ss <= |d|
      && RunHolds(g, was, mid, sector, i, d[..i * g.ss])
    ensures var now := mid[sector + i := d[i * g.ss..i * g.ss + g.ss]];
            Volume(g, now) && (i + 1) * g.ss <= |d| && RunHolds(g, was, now, sector, i + 1, d[..(i + 1) * g.ss])
  {
    var now := mid[sector + i := d[i * g.ss..i * g.ss + g.ss]];
    hide Bytes;
    OneMoreSector(now, sector, i, g.ss);
    SameSectors(mid, now, sector, i, g.ss);
    assert (i + 1) * g.ss == i * g.ss + g.ss;
    assert d[..i * g.ss + g.ss] == d[..i * g.ss] + d[i * g.ss..i * g.ss + g.ss];
  }

  lemma WholeSlice(d: seq<byte>, n: nat)
    requires n == |d|
    ensures d[..n] == d
  {
  }

  lemma RunMember(g: Geo, xs: seq<nat>, sector: nat, cc: nat, s: nat)
    requires GeoOk(g) && Clusters(g, xs) && OwnsRun(g, xs, sector, cc) && sector <= s < sector + cc
    ensures Owns(g, xs, s)
  {
  }

  lemma RunOwned(g: Geo, view: seq<seq<byte>>, xs: seq<nat>, k: nat, cc: nat)
    requires Volume(g, view) && Clusters(g, xs) && k < |xs| * g.csize && 0 <= k / g.csize < |xs|
      && k % g.csize + cc <= g.csize
    ensures SectorAt(g, xs, k) + cc <= |view| && OwnsRun(g, xs, SectorAt(g, xs, k), cc)
  {
    RunRoom(g, view, xs, k, cc);
    var sec := SectorAt(g, xs, k);
    hide Volume, Clusters, SectorAt;
    VolumeSizes(g, view);
    forall s: nat | sec <= s < sec + cc ensures Owns(g, xs, s) {
      SameCluster(g, xs, k, s - sec);
      assert OwnsAt(g, xs, s, k + (s - sec));
    }
  }

  lemma WholeSectors(n: nat, ss: nat)
    requires 0 < ss <= n
    ensures n / ss > 0
  {
    Position(n, ss);
  }

  lemma SectorsWanted(n: nat, ss: nat)
    requires ss > 0
    ensures n / ss > 0 <==> n >= ss
  {
    Position(n, ss);
  }

  lemma Remainder(k: nat, c: nat)
    requires c > 0
    ensures 0 <= k % c < c
  {
  }

  lemma SomeSectors(cc: nat, m: nat, n: nat, ss: nat)
    requires ss > 0 && cc <= m == n / ss
    ensures cc * ss <= n && (cc > 0 ==> cc * ss > 0) && ss * cc == cc * ss
  {
    Position(n, ss);
    MoreSectors(0, cc, m, ss);
    if cc > 0 { MoreSectors(0, 1, cc, ss); }
  }

  lemma OverlaidRun(g: Geo, view: seq<seq<byte>>, sector: nat, cc: nat, i: nat, data: seq<byte>)
    requires Volume(g, view) && sector + cc <= |view| && i < cc && |data| == g.ss
    ensures Volume(g, view[sector + i := data]) && i * g.ss + g.ss <= |Bytes(view, sector, cc, g.ss)|
    ensures var chunk, o := Bytes(view, sector, cc, g.ss), i * g.ss;
            Bytes(view[sector + i := data], sector, cc, g.ss) == chunk[..o] + data + chunk[o + g.ss..]
  {
    hide Bytes;
    OneSectorReplaced(view, sector, cc, g.ss, i, data);
  }

  lemma UntouchedRun(g: Geo, view: seq<seq<byte>>, sector: nat, cc: nat, dirty: bool, sect: nat, data: seq<byte>)
    requires Volume(g, view) && sector + cc <= |view| && |data| == g.ss && !(dirty && sector <= sect < sector + cc)
    ensures var v := if dirty && sect < |view| then view[sect := data] else view;
            Volume(g, v) && Bytes(v, sector, cc, g.ss) == Bytes(view, sector, cc, g.ss)
  {
    hide Bytes;
    var v := if dirty && sect < |view| then view[sect := data] else view;
    SameSectors(view, v, sector, cc, g.ss);
  }

  lemma VolumeSizes(g: Geo, view: seq<seq<byte>>)
    requires Volume(g, view)
    ensures GeoOk(g) && forall i :: 0 <= i < |view| ==> |view[i]| == g.ss
  {
  }

  lemma NoBytes(view: seq<seq<byte>>, base: nat, ss: nat)
    requires ss > 0 && base <= |view| && forall i :: 0 <= i < |view| ==> |view[i]| == ss
    ensures Bytes(view, base, 0, ss) == []
  {
  }

}
