/** Stretching and removing cluster chains. */
module FatAlloc {
  import opened Machine
  import opened BitStream
  import opened FatTable
  import opened Window
  import opened Chains
  import opened ExFatAlloc

  // ----- searching a free cluster on FAT12, FAT16 and FAT32 -----

  /** Steps from cluster scl to cluster c, going up and starting over at 2. */
  function Round(scl: nat, c: nat, n: nat): nat
    requires scl < n && 2 <= c < n
  {
    if c > scl then c - scl else c + n - 2 - scl
  }

  /** Result of a search through the table f from scl on: a cluster, 0 when none is free, 1 at an invalid entry. */
  ghost predicate Found(f: seq<nat>, scl: nat, r: nat)
    requires 1 <= scl < |f|
  {
    match r
    case 0 => forall c: nat :: 2 <= c < |f| ==> f[c] != 0
    case 1 => exists c: nat :: 2 <= c < |f| && f[c] == 1
    case _ =>
      2 <= r < |f| && f[r] == 0
      && forall c: nat :: 2 <= c < |f| && Round(scl, c, |f|) < Round(scl, r, |f|) ==> f[c] != 0
  }

  /** The search loop of create_chain. */
  method SearchFree(fs: FatFs, obj: Obj, scl: nat) returns (ncl: nat)
    requires fs.Valid() && fs.kind != ExFat && 1 <= scl < fs.nent
    modifies fs`disk, fs`wflag, fs`winsect, fs.win
    ensures fs.Valid() && fs.Geometry() && fs.Sized(fs.view) && Found(fs.Fat(), scl, ncl)
    ensures fs.winsect == old(fs.winsect) || fs.winsect < fs.database
  {
    hide FatFs.Valid, FatFs.Geometry, FatFs.Sized, FatFs.Fat;
    fs.ValidParts();
    ghost var f, n := fs.Fat(), fs.nent;
    ncl := scl;
    while true
      invariant scl <= ncl < n || 2 <= ncl < scl
      invariant fs.Valid() && fs.Geometry() && fs.Sized(fs.view) && fs.Fat() == f
      invariant fs.winsect == old(fs.winsect) || fs.winsect < fs.database
      invariant ncl >= scl ==> forall c: nat :: scl < c <= ncl ==> f[c] != 0
      invariant ncl < scl ==> forall c: nat :: 2 <= c < n && (c > scl || c <= ncl) ==> f[c] != 0
      decreases if ncl >= scl then n + n - ncl else scl - ncl
    {
      ncl := ncl + 1;
      if ncl >= fs.nent {
        ncl := 2;
        if ncl > scl {
          return 0;
        }
      }
      var cs := fs.GetFat(obj, ncl);
      fs.ValidParts();
      if cs == 0 {
        return;
      }
      if cs == 1 {
        return 1;
      }
      if ncl == scl {
        return 0;
      }
    }
  }

  // ----- create_chain -----

  /** An end mark as put_fat stores it. */
  function EndMark(kind: Kind): nat {
    Limit(kind) - 1
  }

  /** The table after cluster r was taken, and linked from clst unless that is 0. */
  function Linked(f: seq<nat>, clst: nat, r: nat, e: nat): (g: seq<nat>)
    requires r < |f| && clst < |f|
    ensures |g| == |f|
  {
    if clst == 0 then f[r := e] else f[r := e][clst := r]
  }

  /** Where the search for a free cluster starts. */
  function SearchStart(clst: nat, lastClst: nat, n: nat): nat {
    if clst != 0 then clst else if lastClst == 0 || lastClst >= n then 1 else lastClst
  }

  /** What create_chain finds before it looks for a free cluster; n stands for the end of the chain. */
  function Followed(kind: Kind, f: seq<nat>, o: ObjInfo, ss: nat, csize: nat, clst: nat): nat
    requires ss > 0 && csize > 0
  {
    if clst == 0 then |f| else NextCluster(kind, f, o, ss, csize, clst)
  }

  /** The object after a cluster r was taken for it on exFAT: an object stays contiguous while r follows its end. */
  function StretchedObj(o: ObjInfo, clst: nat, r: nat): ObjInfo {
    if clst == 0 then o.(stat := 2)
    else if o.stat == 2 && r != clst + 1 then o.(stat := 3, nCont := (clst - o.sclust) % TWO32)
    else o
  }

  lemma EndMarkStored(kind: Kind)
    ensures 0xFFFF_FFFF % Limit(kind) == EndMark(kind) > 0
  {
  }

  /** The two put_fat calls of create_chain. */
  method Link(fs: FatFs, clst: nat, ncl: nat)
    requires fs.Valid() && fs.Geometry() && 2 <= ncl < fs.nent && (clst == 0 || 2 <= clst < fs.nent)
    modifies fs`disk, fs`wflag, fs`winsect, fs`view, fs.win
    ensures fs.Valid() && fs.Fat() == Linked(old(fs.Fat()), clst, ncl, EndMark(fs.kind))
    ensures fs.OthersKept(old(fs.view), fs.view) && fs.winsect < fs.database
  {
    hide *;
    fs.ValidParts();
    EndMarkStored(fs.kind);
    FitsEntry(fs, ncl);
    LinkedIs(fs.Fat(), clst, ncl, EndMark(fs.kind));
    ghost var w0 := fs.view;
    var ok := fs.PutFat(ncl, 0xFFFF_FFFF);
    fs.ValidParts();
    if clst != 0 {
      ghost var w1 := fs.view;
      ok := fs.PutFat(clst, ncl);
      fs.ValidParts();
      fs.KeptTrans(w0, w1, fs.view);
    }
  }

  lemma FitsEntry(fs: FatFs, c: nat)
    requires fs.Geometry() && c < fs.nent
    ensures c % Limit(fs.kind) == c
  {
  }

  lemma LinkedIs(f: seq<nat>, clst: nat, r: nat, e: nat)
    requires r < |f| && clst < |f|
    ensures Linked(f, clst, r, e) == if clst == 0 then f[r := e] else f[r := e][clst := r]
  {
  }

  /** The exFAT part of create_chain: a free cluster is marked in the bitmap and the object's state follows. */
  method TakeFromBitmap(fs: FatFs, obj: Obj, clst: nat, scl: nat) returns (ncl: nat)
    requires fs.Valid() && fs.kind == ExFat && (clst != 0 ==> scl == clst)
    modifies fs`disk, fs`wflag, fs`winsect, fs`view, fs.win, obj`stat, obj`nCont
    ensures fs.Valid() && fs.Geometry() && fs.Sized(fs.view) && fs.Fat() == old(fs.Fat()) && fs.nent >= 3
    ensures Taken(fs.nent, old(Bitmap(fs)), Bitmap(fs), ncl)
    ensures NearestFree(fs.nent, old(Bitmap(fs)), scl, ncl)
    ensures obj.Info() == if ncl == 0 then old(obj.Info()) else StretchedObj(old(obj.Info()), clst, ncl)
    ensures MetaKept(fs, old(fs.view), fs.view) && fs.winsect < MetaEnd(fs) && (ncl == 0 ==> fs.view == old(fs.view))
  {
    hide *;
    fs.ValidParts();
    BitmapIs(fs);
    ghost var b0, o := Bitmap(fs), obj.Info();
    MetaSame(fs, fs.view);
    ncl := FindBitmap(fs, scl);
    fs.ValidParts();
    BitmapIs(fs);
    TakenNone(fs.nent, b0, ncl);
    NearestIs(fs.nent, b0, scl, ncl);
    InfoIs(obj);
    if ncl == 0 {
      return;
    }
    var ok, done := ChangeBitmap(fs, ncl, 1, 1);
    fs.ValidParts();
    assert ok;
    SetOne(b0, ncl - 2);
    if clst == 0 {
      obj.stat := 2;
    } else {
      if obj.stat == 2 && ncl != scl + 1 {
        obj.nCont := (scl - obj.sclust) % 0x1_0000_0000;
        obj.stat := 3;
      }
    }
    StretchedIs(o, clst, ncl);
    InfoIs(obj);
  }

  /** Taking a cluster sets its bit; nothing changes when every bit is set. */
  ghost predicate Taken(n: nat, b: seq<bit>, b': seq<bit>, r: nat)
    requires n >= 3 && |b| == n - 2
  {
    if r == 0 then b' == b && forall i :: 0 <= i < n - 2 ==> b[i] == 1
    else 2 <= r < n && b[r - 2] == 0 && b' == b[r - 2 := 1]
  }

  /**
   * No free cluster lies between the start of the search and r, going round; r is 0 when none is free at all. Bit i
   * belongs to cluster i + 2.
   */
  ghost predicate NearestFree(n: nat, b: seq<bit>, scl: nat, r: nat)
    requires n >= 3 && |b| == n - 2
  {
    if r == 0 then forall i :: 0 <= i < n - 2 ==> b[i] == 1
    else
      && 2 <= r < n && b[r - 2] == 0
      && if scl < 2 || scl >= n then forall i :: 0 <= i < r - 2 ==> b[i] == 1
         else if r >= scl then forall i :: scl - 2 <= i < r - 2 ==> b[i] == 1
         else forall i :: 0 <= i < r - 2 || scl - 2 <= i < n - 2 ==> b[i] == 1
  }

  lemma NearestIs(n: nat, b: seq<bit>, scl: nat, r: nat)
    requires n >= 3 && |b| == n - 2
    requires r == 0 ==> forall i :: 0 <= i < n - 2 ==> b[i] == 1
    requires r != 0 ==> 2 <= r < n && b[r - 2] == 0
    requires var start := if 2 <= scl < n then scl - 2 else 0;
             r != 0 ==>
               forall i :: 0 <= i < n - 2 && Ahead(start, i, n - 2) < Ahead(start, r - 2, n - 2) ==> b[i] == 1
    ensures NearestFree(n, b, scl, r)
  {
  }

  lemma TakenNone(n: nat, b: seq<bit>, r: nat)
    requires n >= 3 && |b| == n - 2
    requires r == 0 ==> forall i :: 0 <= i < n - 2 ==> b[i] == 1
    ensures r == 0 ==> Taken(n, b, b, r)
    ensures 2 <= r < n && b[r - 2] == 0 ==> Taken(n, b, b[r - 2 := 1], r)
  {
  }

  lemma SetOne(b: seq<bit>, v: nat)
    requires v < |b|
    ensures SetBits(b, v, 1, 1) == b[v := 1]
  {
  }

  lemma InfoIs(obj: Obj)
    ensures obj.Info() == ObjInfo(obj.stat, obj.sclust, obj.objsize, obj.nCont)
  {
  }

  lemma StretchedIs(o: ObjInfo, clst: nat, r: nat)
    ensures StretchedObj(o, clst, r) == if clst == 0 then o.(stat := 2)
                                        else if o.stat == 2 && r != clst + 1 then
                                          o.(stat := 3, nCont := (clst - o.sclust) % 0x1_0000_0000)
                                        else o
  {
  }

  /** create_chain on FAT12, FAT16 and FAT32 once a new cluster is needed. */
  ghost predicate FatGrown(f: seq<nat>, f': seq<nat>, clst: nat, scl: nat, e: nat, r: nat)
    requires 1 <= scl < |f| && clst < |f|
  {
    Found(f, scl, r) && if r < 2 then f' == f else r < |f| && f' == Linked(f, clst, r, e)
  }

  /** create_chain on exFAT once a new cluster is needed: the FAT is written unless the object stays contiguous. */
  ghost predicate ExFatGrown(f: seq<nat>, f': seq<nat>, b: seq<bit>, b': seq<bit>, o: ObjInfo, o': ObjInfo, clst: nat,
      e: nat, r: nat)
    requires |f| >= 3 && clst < |f| && |b| == |f| - 2
  {
    && Taken(|f|, b, b', r)
    && o' == (if r == 0 then o else StretchedObj(o, clst, r))
    && if r == 0 || o'.stat == 2 then f' == f else f' == Linked(f, clst, r, e)
  }

  /** The bitmap is not affected by changes in the FATs. */
  lemma BitmapKept(fs: FatFs, was: seq<seq<byte>>)
    requires fs.Geometry() && fs.Sized(was) && fs.Sized(fs.view) && fs.OthersKept(was, fs.view)
    ensures fs.nent >= 3 && fs.ss > 0 && fs.database + BitmapSectors(fs.nent, fs.ss) <= |was|
    ensures fs.nent - 2 <= 8 * (BitmapSectors(fs.nent, fs.ss) * fs.ss)
    ensures Bitmap(fs) == BitsOf(fs.Area(was, fs.database, BitmapSectors(fs.nent, fs.ss)))[..fs.nent - 2]
  {
    hide BitsOf, BitmapSectors, Bitmap, FatFs.Area;
    BitmapIs(fs);
    assert |was| == |fs.view|;
    fs.Layout(was);
    fs.Layout(fs.view);
    hide *;
    DataKept(fs, was, fs.database, BitmapSectors(fs.nent, fs.ss));
  }

  lemma DataKept(fs: FatFs, was: seq<seq<byte>>, base: nat, n: nat)
    requires fs.Geometry() && fs.Sized(was) && fs.Sized(fs.view) && fs.OthersKept(was, fs.view)
    requires fs.database <= base && base + n <= |was|
    ensures fs.Area(fs.view, base, n) == fs.Area(was, base, n)
  {
    fs.Layout(was);
    fs.Layout(fs.view);
    hide FatFs.Geometry, FatFs.Sized, Bytes;
    SameSectors(was, fs.view, base, n, fs.ss);
  }

  /**
   * create_chain: the next cluster, a new one linked to the chain, 0 when the volume is full, 1 on an internal error.
   */
  method CreateChain(fs: FatFs, obj: Obj, clst: nat) returns (r: nat)
    requires fs.Valid() && fs.Geometry() && fs.Sized(fs.view) && fs.ss > 0 && fs.csize > 0
    modifies fs`disk, fs`wflag, fs`winsect, fs`view, fs.win, fs`lastClst, fs`freeClst, fs`fsiFlag, obj`stat, obj`nCont
    ensures fs.Valid() && fs.Geometry() && fs.Sized(fs.view) && fs.nent >= 3
    ensures var f, o, b := old(fs.Fat()), old(obj.Info()), old(Bitmap(fs));
            var cs := Followed(fs.kind, f, o, fs.ss, fs.csize, clst);
            if cs < fs.nent then
              r == (if cs < 2 then 1 else cs) && fs.view == old(fs.view) && obj.Info() == o
              && fs.lastClst == old(fs.lastClst) && fs.freeClst == old(fs.freeClst) && fs.fsiFlag == old(fs.fsiFlag)
            else
              && clst < fs.nent
              && (fs.kind != ExFat ==>
                    obj.Info() == o && FatGrown(f, fs.Fat(), clst, SearchStart(clst, old(fs.lastClst), fs.nent),
                      EndMark(fs.kind), r))
              && (fs.kind == ExFat ==> ExFatGrown(f, fs.Fat(), b, Bitmap(fs), o, obj.Info(), clst, EndMark(fs.kind), r))
              && (fs.kind == ExFat ==> NearestFree(fs.nent, b, if clst != 0 then clst else old(fs.lastClst), r))
              && Noted(fs.nent, r, old(fs.lastClst), old(fs.freeClst), old(fs.fsiFlag), fs.lastClst, fs.freeClst,
                       fs.fsiFlag)
              && (r >= 2 ==> fs.winsect < MetaEnd(fs))
    ensures MetaKept(fs, old(fs.view), fs.view) && (r < 2 ==> fs.view == old(fs.view))
    ensures fs.winsect < MetaEnd(fs) || (fs.winsect == old(fs.winsect) && fs.view == old(fs.view))
  {
    hide FatFs.Valid, FatFs.Geometry, FatFs.Sized, FatFs.Fat, Bitmap, BitmapSectors, NextCluster, Found, Linked, Taken,
         EndMark, FatFs.OthersKept, FatFs.Area, BitsOf, Limit, MetaKept, MetaEnd, ExFatGrown, FatGrown, CountTaken;
    fs.ValidParts();
    MetaSame(fs, fs.view);
    FatsBelow(fs);
    BitmapIs(fs);
    var scl: nat;
    if clst == 0 {
      scl := fs.lastClst;
      if scl == 0 || scl >= fs.nent {
        scl := 1;
      }
    } else {
      var cs := fs.GetFat(obj, clst);
      FollowedInside(fs.kind, fs.Fat(), obj.Info(), fs.ss, fs.csize, clst);
      fs.ValidParts();
      if cs < 2 {
        return 1;
      }
      if cs < fs.nent {
        return cs;
      }
      scl := clst;
    }
    if fs.kind == ExFat {
      r := GrowExFat(fs, obj, clst, scl);
    } else {
      ghost var was := fs.view;
      r := GrowFat(fs, obj, clst, scl);
      MetaOfFats(fs, was, fs.view);
    }
  }

  lemma FollowedInside(kind: Kind, f: seq<nat>, o: ObjInfo, ss: nat, csize: nat, clst: nat)
    requires ss > 0 && csize > 0
    ensures NextCluster(kind, f, o, ss, csize, clst) >= 2 ==> 2 <= clst < |f|
  {
  }

  /** A cluster that follows the end of a chain and is free is taken, so that a contiguous object stays contiguous. */
  lemma NextIsTaken(f: seq<nat>, f': seq<nat>, b: seq<bit>, b': seq<bit>, o: ObjInfo, o': ObjInfo, clst: nat, e: nat,
      r: nat)
    requires 2 <= clst && clst + 1 < |f| && |b| == |f| - 2 && b[clst - 2] == 1 && b[clst - 1] == 0
    requires ExFatGrown(f, f', b, b', o, o', clst, e, r) && NearestFree(|f|, b, clst, r)
    ensures r == clst + 1 && o' == o && (o.stat == 2 ==> f' == f)
  {
  }

  /** The recorded number of free clusters after cluster r, if any, was taken. */
  function CountTaken(free: nat, n: nat, r: nat): nat
    requires n >= 3
  {
    if r >= 2 && free < n - 2 then (free - 1) % 0x1_0000_0000 else free
  }

  /**
   * What create_chain records: a taken cluster is where the next search starts, counts as no longer free, and marks
   * the record as changed. Without one the record stays.
   */
  ghost predicate Noted(n: nat, r: nat, last: nat, free: nat, flag: bool, last': nat, free': nat, flag': bool)
    requires n >= 3
  {
    if r < 2 then last' == last && free' == free && flag' == flag
    else last' == r && free' == CountTaken(free, n, r) && flag'
  }

  /** FSINFO bookkeeping after a cluster was taken. */
  method NoteTaken(fs: FatFs, ncl: nat)
    requires fs.nent >= 3 && ncl >= 2
    modifies fs`lastClst, fs`freeClst, fs`fsiFlag
    ensures Noted(fs.nent, ncl, old(fs.lastClst), old(fs.freeClst), old(fs.fsiFlag), fs.lastClst, fs.freeClst,
      fs.fsiFlag)
  {
    fs.lastClst := ncl;
    if fs.freeClst < fs.nent - 2 {
      fs.freeClst := (fs.freeClst - 1) % 0x1_0000_0000;
    }
    fs.fsiFlag := true;
  }

  /** The rest of create_chain on FAT12, FAT16 and FAT32. */
  method GrowFat(fs: FatFs, obj: Obj, clst: nat, scl: nat) returns (ncl: nat)
    requires fs.Valid() && fs.Geometry() && fs.kind != ExFat && 1 <= scl < fs.nent && (clst == 0 || 2 <= clst < fs.nent)
    modifies fs`disk, fs`wflag, fs`winsect, fs`view, fs.win, fs`lastClst, fs`freeClst, fs`fsiFlag
    ensures fs.Valid() && fs.Geometry() && fs.Sized(fs.view)
    ensures FatGrown(old(fs.Fat()), fs.Fat(), clst, scl, EndMark(fs.kind), ncl)
    ensures ncl < 2 ==> fs.view == old(fs.view)
    ensures fs.nent >= 3
    ensures Noted(fs.nent, ncl, old(fs.lastClst), old(fs.freeClst), old(fs.fsiFlag), fs.lastClst, fs.freeClst,
      fs.fsiFlag)
    ensures fs.OthersKept(old(fs.view), fs.view)
    ensures fs.winsect < fs.database || (ncl < 2 && fs.winsect == old(fs.winsect))
  {
    hide *;
    fs.ValidParts();
    ghost var f := fs.Fat();
    ncl := SearchFree(fs, obj, scl);
    fs.ValidParts();
    BitmapIs(fs);
    FatGrownIs(f, clst, scl, EndMark(fs.kind), ncl);
    NothingNoted(fs);
    fs.KeptSame(fs.view);
    if ncl < 2 {
      return;
    }
    Link(fs, clst, ncl);
    fs.ValidParts();
    NoteTaken(fs, ncl);
    fs.ValidParts();
  }

  lemma NothingNoted(fs: FatFs)
    requires fs.nent >= 3
    ensures Noted(fs.nent, 0, fs.lastClst, fs.freeClst, fs.fsiFlag, fs.lastClst, fs.freeClst, fs.fsiFlag)
    ensures Noted(fs.nent, 1, fs.lastClst, fs.freeClst, fs.fsiFlag, fs.lastClst, fs.freeClst, fs.fsiFlag)
  {
  }

  lemma FatGrownIs(f: seq<nat>, clst: nat, scl: nat, e: nat, r: nat)
    requires 1 <= scl < |f| && clst < |f| && Found(f, scl, r)
    ensures r < 2 ==> FatGrown(f, f, clst, scl, e, r)
    ensures r >= 2 ==> 2 <= r < |f| && FatGrown(f, Linked(f, clst, r, e), clst, scl, e, r)
  {
  }

  /** The rest of create_chain on exFAT. */
  method GrowExFat(fs: FatFs, obj: Obj, clst: nat, scl: nat) returns (ncl: nat)
    requires fs.Valid() && fs.Geometry() && fs.Sized(fs.view) && fs.kind == ExFat
    requires (clst == 0 || 2 <= clst < fs.nent) && (clst != 0 ==> scl == clst)
    modifies fs`disk, fs`wflag, fs`winsect, fs`view, fs.win, fs`lastClst, fs`freeClst, fs`fsiFlag, obj`stat, obj`nCont
    ensures fs.Valid() && fs.Geometry() && fs.Sized(fs.view) && fs.nent >= 3 && |old(Bitmap(fs))| == fs.nent - 2
    ensures ExFatGrown(old(fs.Fat()), fs.Fat(), old(Bitmap(fs)), Bitmap(fs), old(obj.Info()), obj.Info(), clst,
      EndMark(fs.kind), ncl)
    ensures NearestFree(fs.nent, old(Bitmap(fs)), scl, ncl)
    ensures ncl != 0 ==> ncl >= 2
    ensures Noted(fs.nent, ncl, old(fs.lastClst), old(fs.freeClst), old(fs.fsiFlag), fs.lastClst, fs.freeClst,
      fs.fsiFlag)
    ensures MetaKept(fs, old(fs.view), fs.view) && fs.winsect < MetaEnd(fs) && (ncl == 0 ==> fs.view == old(fs.view))
  {
    hide *;
    fs.ValidParts();
    BitmapIs(fs);
    ghost var f, b, o, w := fs.Fat(), Bitmap(fs), obj.Info(), fs.view;
    ncl := TakeFromBitmap(fs, obj, clst, scl);
    fs.ValidParts();
    BitmapIs(fs);
    ghost var b', o', was := Bitmap(fs), obj.Info(), fs.view;
    TakenRange(fs.nent, b, b', ncl);
    InfoIs(obj);
    ExFatGrownIs(f, b, b', o, o', clst, EndMark(fs.kind), ncl);
    NothingNoted(fs);
    if ncl == 0 {
      return;
    }
    if obj.stat != 2 {
      Link(fs, clst, ncl);
      fs.ValidParts();
      BitmapKept(fs, was);
      MetaOfFats(fs, was, fs.view);
      MetaTrans(fs, w, was, fs.view);
      FatsBelow(fs);
    }
    NoteTaken(fs, ncl);
    InfoIs(obj);
    BitmapIs(fs);
    fs.ValidParts();
  }

  lemma FatsBelow(fs: FatFs)
    ensures fs.database <= MetaEnd(fs) && (fs.kind != ExFat ==> MetaEnd(fs) == fs.database)
  {
  }

  lemma TakenRange(n: nat, b: seq<bit>, b': seq<bit>, r: nat)
    requires n >= 3 && |b| == n - 2 && Taken(n, b, b', r)
    ensures r == 0 || 2 <= r < n
  {
  }

  lemma ExFatGrownIs(f: seq<nat>, b: seq<bit>, b': seq<bit>, o: ObjInfo, o': ObjInfo, clst: nat, e: nat, r: nat)
    requires |f| >= 3 && clst < |f| && |b| == |f| - 2 && Taken(|f|, b, b', r)
    requires o' == if r == 0 then o else StretchedObj(o, clst, r)
    ensures r == 0 || o'.stat == 2 ==> ExFatGrown(f, f, b, b', o, o', clst, e, r)
    ensures r != 0 && o'.stat != 2 ==> r < |f| && ExFatGrown(f, Linked(f, clst, r, e), b, b', o, o', clst, e, r)
  {
  }

  // ----- create_chain and the chains of a volume -----

  /**
   * On a sound volume create_chain never meets an invalid entry, fails only when no cluster is free, and
   * otherwise appends one previously free cluster to the chain that ends in clst, or starts a new chain.
   */
  lemma CreateKeeps(f: seq<nat>, f': seq<nat>, cs: seq<seq<nat>>, k: nat, clst: nat, scl: nat, e: nat, r: nat)
    requires |f| > 2 && 1 <= scl < |f| && clst < |f| && e >= |f|
    requires Holds(f, cs) && FatGrown(f, f', clst, scl, e, r)
    requires clst != 0 ==> k < |cs| && cs[k] != [] && cs[k][|cs[k]| - 1] == clst
    ensures r != 1
    ensures r == 0 <==> forall c: nat :: 2 <= c < |f| ==> f[c] != 0
    ensures r == 0 ==> f' == f
    ensures r != 0 ==> 2 <= r < |f| && f[r] == 0
                       && Holds(f', if clst == 0 then cs + [[r]] else cs[k := cs[k] + [r]])
  {
    hide Holds;
    if r == 1 {
      var c: nat :| 2 <= c < |f| && f[c] == 1;
      NoInvalidEntry(f, cs, c);
    }
    if r >= 2 {
      if clst == 0 {
        NewChainKeeps(f, cs, r, e);
      } else {
        StretchKeeps(f, cs, k, r, e);
      }
    }
  }

  lemma NoInvalidEntry(f: seq<nat>, cs: seq<seq<nat>>, c: nat)
    requires Holds(f, cs) && 2 <= c < |f|
    ensures f[c] != 1
  {
    if f[c] != 0 {
      assert Owned(cs, c);
      var k: nat :| k < |cs| && c in cs[k];
      MembersUsed(f, cs[k], c);
    }
  }

  /** On a cluster inside a chain create_chain just follows the chain. */
  lemma FollowsInside(kind: Kind, f: seq<nat>, o: ObjInfo, ss: nat, csize: nat, xs: seq<nat>, i: nat)
    requires ss > 0 && csize > 0 && kind != ExFat && IsChain(f, xs) && i < |xs|
    ensures i + 1 < |xs| ==> Followed(kind, f, o, ss, csize, xs[i]) == xs[i + 1] && 2 <= xs[i + 1] < |f|
    ensures i + 1 == |xs| ==> Followed(kind, f, o, ss, csize, xs[i]) >= |f|
  {
    assert StepAt(f, xs, i);
    assert i + 1 < |xs| ==> StepAt(f, xs, i + 1);
  }

  // ----- the recorded number of free clusters -----

  /** Free clusters among the first n entries. */
  function FreeBelow(f: seq<nat>, n: nat): (r: nat)
    requires n <= |f|
    ensures n >= 2 ==> r <= n - 2
  {
    if n <= 2 then 0 else FreeBelow(f, n - 1) + if f[n - 1] == 0 then 1 else 0
  }

  function FreeCount(f: seq<nat>): nat {
    FreeBelow(f, |f|)
  }

  lemma {:induction false} CountChange(f: seq<nat>, c: nat, v: nat, n: nat)
    requires 2 <= c < |f| && n <= |f|
    ensures FreeBelow(f[c := v], n) + (if c < n && f[c] == 0 then 1 else 0)
            == FreeBelow(f, n) + (if c < n && v == 0 then 1 else 0)
  {
    if n > 2 { CountChange(f, c, v, n - 1); }
  }

  lemma CountFreed(f: seq<nat>, c: nat)
    requires 2 <= c < |f|
    ensures f[c] != 0 ==> FreeCount(f[c := 0]) == FreeCount(f) + 1 && FreeCount(f) < |f| - 2
  {
    CountChange(f, c, 0, |f|);
  }

  lemma CountOther(f: seq<nat>, c: nat, v: nat)
    requires 2 <= c < |f| && f[c] != 0 && v != 0
    ensures FreeCount(f[c := v]) == FreeCount(f)
  {
    CountChange(f, c, v, |f|);
  }

  /**
   * An exact record of the free clusters stays exact when create_chain takes one if and only if some cluster
   * was in use before: on an empty volume the guard keeps the record from being lowered.
   */
  lemma RecordStaysExactIff(f: seq<nat>, f': seq<nat>, clst: nat, scl: nat, e: nat, r: nat)
    requires 2 < |f| < TWO32 && 1 <= scl < |f| && clst < |f| && e >= |f| && r >= 2
    requires FatGrown(f, f', clst, scl, e, r) && (clst != 0 ==> clst >= 2 && f[clst] != 0)
    ensures CountTaken(FreeCount(f), |f|, r) == FreeCount(f') <==> FreeCount(f) < |f| - 2
  {
    CountChange(f, r, e, |f|);
    if clst != 0 { CountChange(f[r := e], clst, r, |f|); }
  }

  lemma {:induction false} EmptyCount(f: seq<nat>, n: nat)
    requires 2 <= n <= |f| && forall k :: 2 <= k < |f| ==> f[k] == 0
    ensures FreeBelow(f, n) == n - 2
  {
    if n > 2 { EmptyCount(f, n - 1); }
  }

  /** The first cluster of an empty FAT12 or FAT16 volume: the exact record keeps one cluster too many. */
  lemma EmptyVolumeExample(f: seq<nat>, e: nat)
    requires 2 < |f| < TWO32 && e >= |f| && forall k :: 2 <= k < |f| ==> f[k] == 0
    ensures FatGrown(f, f[2 := e], 0, 1, e, 2)
    ensures CountTaken(FreeCount(f), |f|, 2) == FreeCount(f) == |f| - 2 == FreeCount(f[2 := e]) + 1
  {
    EmptyCount(f, |f|);
    CountChange(f, 2, e, |f|);
  }

  // ----- remove_chain on FAT12, FAT16 and FAT32 -----

  /** The table with an end mark in the entry before the removed part, if there is one. */
  function Ended(f: seq<nat>, pclst: nat, e: nat): (g: seq<nat>)
    requires pclst < |f|
    ensures |g| == |f|
  {
    if pclst != 0 then f[pclst := e] else f
  }

  /**
   * What remove_chain records for k clusters: that many more are free, as far as the volume has clusters, and the
   * record is marked as changed if it did change.
   */
  ghost predicate Returned(n: nat, k: int, free: nat, flag: bool, free': nat, flag': bool)
    requires n >= 3
  {
    && k >= 0
    && free' == (if free >= n - 2 then free else if free + k <= n - 2 then free + k else n - 2)
    && flag' == (flag || free' != free)
  }

  lemma ReturnedNone(n: nat, free: nat, flag: bool)
    requires n >= 3
    ensures Returned(n, 0, free, flag, free, flag)
  {
  }

  lemma ReturnedOne(n: nat, k: int, free: nat, flag: bool, free': nat, flag': bool)
    requires n >= 3 && Returned(n, k, free, flag, free', flag')
    ensures free' < n - 2 ==> Returned(n, k + 1, free, flag, free' + 1, true)
    ensures free' >= n - 2 ==> Returned(n, k + 1, free, flag, free', flag')
  {
  }

  /** FSINFO bookkeeping after a cluster was freed. */
  method NoteFreed(fs: FatFs, ghost k: int, ghost free: nat, ghost flag: bool)
    requires fs.nent >= 3 && Returned(fs.nent, k, free, flag, fs.freeClst, fs.fsiFlag)
    modifies fs`freeClst, fs`fsiFlag
    ensures Returned(fs.nent, k + 1, free, flag, fs.freeClst, fs.fsiFlag)
  {
    hide *;
    ReturnedOne(fs.nent, k, free, flag, fs.freeClst, fs.fsiFlag);
    if fs.freeClst < fs.nent - 2 {
      fs.freeClst := fs.freeClst + 1;
      fs.fsiFlag := true;
    }
  }

  /** An exact record stays exact when clusters are freed. */
  lemma ReturnedExact(n: nat, k: int, free: nat, flag: bool, free': nat, flag': bool)
    requires n >= 3 && Returned(n, k, free, flag, free', flag') && free + k <= n - 2
    ensures free' == free + k
  {
  }

  /** remove_chain: frees the clusters from clst on and ends the chain at pclst; false stands for FR_INT_ERR. */
  method RemoveChain(fs: FatFs, obj: Obj, clst: nat, pclst: nat) returns (ok: bool)
    requires fs.Valid() && fs.kind != ExFat
    modifies fs`disk, fs`wflag, fs`winsect, fs`view, fs.win, fs`freeClst, fs`fsiFlag
    ensures fs.Valid() && fs.Geometry() && fs.Sized(fs.view)
    ensures var f := old(fs.Fat());
            if clst < 2 || clst >= fs.nent || pclst == 1 || pclst >= fs.nent then !ok && fs.Fat() == f
            else (fs.Fat(), ok) == Freed(Ended(f, pclst, EndMark(fs.kind)), clst)
    ensures fs.OthersKept(old(fs.view), fs.view)
    ensures fs.nent >= 3
    ensures if clst < 2 || clst >= fs.nent || pclst == 1 || pclst >= fs.nent then
              fs.freeClst == old(fs.freeClst) && fs.fsiFlag == old(fs.fsiFlag)
            else
              Returned(fs.nent, FreeCount(fs.Fat()) - FreeCount(Ended(old(fs.Fat()), pclst, EndMark(fs.kind))),
                old(fs.freeClst), old(fs.fsiFlag), fs.freeClst, fs.fsiFlag)
    ensures ok && old(fs.freeClst) == FreeCount(old(fs.Fat())) && (pclst == 0 || old(fs.Fat())[pclst] != 0) ==>
              fs.freeClst == FreeCount(fs.Fat())
  {
    hide *;
    fs.ValidParts();
    fs.KeptSame(fs.view);
    BitmapIs(fs);
    ghost var f, w := fs.Fat(), fs.view;
    if clst < 2 || clst >= fs.nent {
      return false;
    }
    EndMarkStored(fs.kind);
    if pclst != 0 {
      ok := fs.PutFat(pclst, 0xFFFF_FFFF);
      fs.ValidParts();
      if !ok {
        return;
      }
    }
    EndedIs(f, pclst, EndMark(fs.kind));
    if pclst != 0 && f[pclst] != 0 { CountOther(f, pclst, EndMark(fs.kind)); }
    ghost var free, flag, had := fs.freeClst, fs.fsiFlag, FreeCount(fs.Fat());
    ReturnedNone(fs.nent, free, flag);
    ghost var goal := Freed(Ended(f, pclst, EndMark(fs.kind)), clst);
    var cl := clst;
    while true
      invariant fs.Valid() && fs.Geometry() && fs.Sized(fs.view) && fs.OthersKept(w, fs.view)
      invariant 2 <= cl < fs.nent && goal == Freed(fs.Fat(), cl)
      invariant Returned(fs.nent, FreeCount(fs.Fat()) - had, free, flag, fs.freeClst, fs.fsiFlag)
      decreases Used(fs.Fat())
    {
      FreedStep(fs.Fat(), cl);
      ghost var w1, f1 := fs.view, fs.Fat();
      var nxt := fs.GetFat(obj, cl);
      PlainNext(fs.kind, fs.Fat(), obj.Info(), fs.ss, fs.csize, cl);
      fs.ValidParts();
      if nxt == 0 {
        break;
      }
      if nxt == 1 {
        return false;
      }
      CountFreed(fs.Fat(), cl);
      ok := fs.PutFat(cl, 0);
      ZeroStored(fs.kind);
      fs.ValidParts();
      fs.KeptTrans(w, w1, fs.view);
      NoteFreed(fs, FreeCount(f1) - had, free, flag);
      fs.ValidParts();
      cl := nxt;
      if cl >= fs.nent {
        break;
      }
    }
    CountsAll(fs.Fat());
    if free == had { ReturnedExact(fs.nent, FreeCount(fs.Fat()) - had, free, flag, fs.freeClst, fs.fsiFlag); }
    ok := true;
  }

  lemma CountsAll(f: seq<nat>)
    requires |f| > 2
    ensures FreeCount(f) <= |f| - 2
  {
  }

  lemma ZeroStored(kind: Kind)
    ensures 0 % Limit(kind) == 0
  {
  }

  lemma EndedIs(f: seq<nat>, pclst: nat, e: nat)
    requires pclst < |f|
    ensures Ended(f, pclst, e) == if pclst != 0 then f[pclst := e] else f
  {
  }

  lemma PlainNext(kind: Kind, f: seq<nat>, o: ObjInfo, ss: nat, csize: nat, c: nat)
    requires ss > 0 && csize > 0 && kind != ExFat && 2 <= c < |f|
    ensures NextCluster(kind, f, o, ss, csize, c) == f[c]
  {
  }

  lemma FreedStep(f: seq<nat>, c: nat)
    requires 2 <= c < |f|
    ensures f[c] == 0 ==> Freed(f, c) == (f, true)
    ensures f[c] == 1 ==> Freed(f, c) == (f, false)
    ensures f[c] > 1 && f[c] >= |f| ==> Freed(f, c) == (f[c := 0], true)
    ensures 1 < f[c] < |f| ==> Freed(f, c) == Freed(f[c := 0], f[c])
    ensures f[c] != 0 ==> Used(f[c := 0]) < Used(f)
  {
    if f[c] != 0 { FreeShrinks(f, c); }
  }

  /**
   * On a sound volume remove_chain with a cluster of a chain, and the one before it if there is one, frees
   * exactly that cluster and those after it.
   */
  lemma RemoveCuts(f: seq<nat>, cs: seq<seq<nat>>, k: nat, j: nat, e: nat)
    requires |f| > 2 && Holds(f, cs) && k < |cs| && j < |cs[k]| && e >= |f|
    ensures 2 <= cs[k][j] < |f| && (j > 0 ==> 2 <= cs[k][j - 1] < |f|)
    ensures var r := Freed(Ended(f, if j > 0 then cs[k][j - 1] else 0, e), cs[k][j]);
            && r.1 && r.0 == Cut(f, cs[k], j, e) && Holds(r.0, CutList(cs, k, j))
            && forall c: nat :: c < |f| ==> r.0[c] == if c in cs[k][j..] then 0 else if j > 0
              && c == cs[k][j - 1] then e else f[c]
  {
    HoldsChain(f, cs, k);
    hide Holds, IsChain, Freed;
    MembersUsed(f, cs[k], cs[k][j]);
    if j > 0 { MembersUsed(f, cs[k], cs[k][j - 1]); }
    CutByFreeing(f, cs[k], j, e);
    RemoveKeeps(f, cs, k, j, e);
  }
}
