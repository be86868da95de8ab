/** The one-sector window of a mounted volume, and the file allocation table seen through it. */
module Window {
  import opened Machine
  import opened FatTable

  // ----- sectors and byte positions -----

  lemma Position(k: nat, ss: nat)
    requires ss > 0
    ensures k == ss * (k / ss) + k % ss && k % ss < ss
  {
  }

  lemma LaterSector(q: nat, q': nat, ss: nat)
    requires q < q'
    ensures ss * q + ss <= ss * q'
  {
    if q + 1 == q' {
    } else {
      LaterSector(q, q' - 1, ss);
    }
  }

  lemma SectorOf(q: nat, r: nat, ss: nat)
    requires r < ss
    ensures (ss * q + r) / ss == q && (ss * q + r) % ss == r
  {
    var k := ss * q + r;
    Position(k, ss);
    if k / ss < q { LaterSector(k / ss, q, ss); }
    if q < k / ss { LaterSector(q, k / ss, ss); }
  }

  lemma SectorInside(k: nat, n: nat, ss: nat)
    requires ss > 0 && k < n * ss
    ensures k / ss < n
  {
    Position(k, ss);
    if n <= k / ss {
      if n < k / ss { LaterSector(n, k / ss, ss); }
    }
  }

  /** The bytes of n sectors from base on. */
  ghost function Bytes(view: seq<seq<byte>>, base: nat, n: nat, ss: nat): (r: seq<byte>)
    requires ss > 0 && base + n <= |view| && forall i :: 0 <= i < |view| ==> |view[i]| == ss
    ensures |r| == n * ss
  {
    seq(n * ss, k requires 0 <= k < n * ss => ByteAt(view, base, n, ss, k))
  }

  ghost function ByteAt(view: seq<seq<byte>>, base: nat, n: nat, ss: nat, k: nat): byte
    requires ss > 0 && base + n <= |view| && k < n * ss && forall i :: 0 <= i < |view| ==> |view[i]| == ss
  {
    SectorInside(k, n, ss);
    view[base + k / ss][k % ss]
  }

  /** Where a byte lies relative to a range inside the sector of byte k. */
  lemma InSector(j: nat, k: nat, ss: nat, len: nat)
    requires ss > 0 && k % ss + len <= ss
    ensures 0 <= j / ss && 0 <= j % ss && 0 <= k / ss && 0 <= k % ss
    ensures j / ss == k / ss ==> j - k == j % ss - k % ss
    ensures j / ss != k / ss ==> j < k || k + len <= j
  {
    Position(j, ss);
    Position(k, ss);
    if j / ss < k / ss {
      LaterSector(j / ss, k / ss, ss);
    } else if k / ss < j / ss {
      LaterSector(k / ss, j / ss, ss);
    }
  }

  lemma StoredByte(view: seq<seq<byte>>, view': seq<seq<byte>>, base: nat, n: nat, ss: nat, k: nat, s: seq<byte>,
      j: nat)
    requires ss > 0 && base + n <= |view| == |view'|
    requires forall i :: 0 <= i < |view| ==> |view[i]| == ss && |view'[i]| == ss
    requires k < n * ss && k % ss + |s| <= ss && k / ss < n && j < n * ss
    requires view'[base + k / ss] == Store(view[base + k / ss], k % ss, s)
    requires forall i :: base <= i < base + n && i != base + k / ss ==> view'[i] == view[i]
    ensures ByteAt(view', base, n, ss, j) == if k <= j < k + |s| then s[j - k] else ByteAt(view, base, n, ss, j)
  {
    SectorInside(j, n, ss);
    InSector(j, k, ss, |s|);
    StoredCell(view, view', base, n, ss, k / ss, k % ss, s, j / ss, j % ss);
    hide *;
    Cell(view, base, n, ss, j);
    Cell(view', base, n, ss, j);
  }

  lemma Cell(view: seq<seq<byte>>, base: nat, n: nat, ss: nat, k: nat)
    requires ss > 0 && base + n <= |view| && k < n * ss && forall i :: 0 <= i < |view| ==> |view[i]| == ss
    ensures 0 <= k / ss < n && k % ss < ss && ByteAt(view, base, n, ss, k) == view[base + k / ss][k % ss]
    ensures Bytes(view, base, n, ss)[k] == view[base + k / ss][k % ss]
  {
    SectorInside(k, n, ss);
  }

  lemma StoredCell(view: seq<seq<byte>>, view': seq<seq<byte>>, base: nat, n: nat, ss: nat,
                   q: nat, a: nat, s: seq<byte>, q': nat, a': nat)
    requires base + n <= |view| == |view'| && q < n && q' < n && a + |s| <= ss && a' < ss
    requires forall i :: 0 <= i < |view| ==> |view[i]| == ss && |view'[i]| == ss
    requires view'[base + q] == Store(view[base + q], a, s)
    requires forall i :: base <= i < base + n && i != base + q ==> view'[i] == view[i]
    ensures view'[base + q'][a'] == if q' == q && a <= a' < a + |s| then s[a' - a] else view[base + q'][a']
  {
    if q != q' { assert view'[base + q'] == view[base + q']; }
  }

  lemma StoreFits(k: nat, len: nat, n: nat, ss: nat)
    requires ss > 0 && k % ss + len <= ss && k / ss < n
    ensures k + len <= n * ss
  {
    Position(k, ss);
    LaterSector(k / ss, n, ss);
  }

  /** Writing into one sector writes into the bytes of the area. */
  lemma StoreInSector(view: seq<seq<byte>>, view': seq<seq<byte>>, base: nat, n: nat, ss: nat, k: nat, s: seq<byte>)
    requires ss > 0 && base + n <= |view| == |view'|
    requires forall i :: 0 <= i < |view| ==> |view[i]| == ss && |view'[i]| == ss
    requires k < n * ss && k % ss + |s| <= ss && k / ss < n
    requires view'[base + k / ss] == Store(view[base + k / ss], k % ss, s)
    requires forall i :: base <= i < base + n && i != base + k / ss ==> view'[i] == view[i]
    ensures k + |s| <= n * ss && Bytes(view', base, n, ss) == Store(Bytes(view, base, n, ss), k, s)
  {
    hide Store, ByteAt;
    StoreFits(k, |s|, n, ss);
    var F, G := Bytes(view, base, n, ss), Bytes(view', base, n, ss);
    forall j: nat | j < n * ss ensures G[j] == Store(F, k, s)[j] {
      StoredByte(view, view', base, n, ss, k, s, j);
    }
  }

  /** Bytes of an area whose sectors stay the same. */
  lemma SameSectors(view: seq<seq<byte>>, view': seq<seq<byte>>, base: nat, n: nat, ss: nat)
    requires ss > 0 && base + n <= |view| == |view'|
    requires forall i :: 0 <= i < |view| ==> |view[i]| == ss && |view'[i]| == ss
    requires forall i :: base <= i < base + n ==> view'[i] == view[i]
    ensures Bytes(view', base, n, ss) == Bytes(view, base, n, ss)
  {
    var F, G := Bytes(view, base, n, ss), Bytes(view', base, n, ss);
    forall j: nat | j < n * ss ensures G[j] == F[j] {
      SectorInside(j, n, ss);
    }
  }

  /** Entries of w bytes never cross a sector boundary. */
  lemma SubSector(c: nat, w: nat, ss: nat)
    requires w > 0 && ss > 0 && ss % w == 0
    ensures ss / w > 0 && (w * c) / ss == c / (ss / w) && (w * c) % ss + w <= ss
  {
    var h := ss / w;
    Position(ss, w);
    assert ss == w * h && h > 0;
    var q, r := c / h, c % h;
    Position(c, h);
    assert w * c == ss * q + w * r by { assert w * (h * q + r) == (w * h) * q + w * r; }
    LaterSector(r, h, w);
    SectorOf(q, w * r, ss);
  }

  /** A range inside one sector. */
  lemma BytesInSector(view: seq<seq<byte>>, base: nat, n: nat, ss: nat, k: nat, len: nat)
    requires ss > 0 && base + n <= |view| && forall i :: 0 <= i < |view| ==> |view[i]| == ss
    requires k + len <= n * ss && k < n * ss && k % ss + len <= ss
    ensures 0 <= k / ss < n && 0 <= k % ss
    ensures Bytes(view, base, n, ss)[k..k + len] == view[base + k / ss][k % ss..k % ss + len]
  {
    hide *;
    SectorInside(k, n, ss);
    Position(k, ss);
    BytesSlice(view, base, n, ss, n * ss, k, k / ss, k % ss, len);
  }

  lemma BytesSlice(view: seq<seq<byte>>, base: nat, n: nat, ss: nat, m: nat, k: nat, q: nat, r: nat, len: nat)
    requires ss > 0 && base + n <= |view| && forall i :: 0 <= i < |view| ==> |view[i]| == ss
    requires m == n * ss && k + len <= m && k < m && r + len <= ss && q < n && k == ss * q + r
    ensures Bytes(view, base, n, ss)[k..k + len] == view[base + q][r..r + len]
  {
    hide *;
    var F := Bytes(view, base, n, ss);
    assert |F| == m;
    var a, b := F[k..k + len], view[base + q][r..r + len];
    forall j: nat | j < len ensures a[j] == b[j] {
      CellInSector(view, base, n, ss, k, q, r, j);
    }
  }

  lemma CellInSector(view: seq<seq<byte>>, base: nat, n: nat, ss: nat, k: nat, q: nat, r: nat, j: nat)
    requires ss > 0 && base + n <= |view| && forall i :: 0 <= i < |view| ==> |view[i]| == ss
    requires k == ss * q + r && k + j < n * ss && r + j < ss && q < n
    ensures Bytes(view, base, n, ss)[k + j] == view[base + q][r + j]
  {
    SectorOf(q, r + j, ss);
  }

  lemma HalfMonotonic(c: nat, d: nat)
    requires c <= d
    ensures c + c / 2 <= d + d / 2
  {
  }

  /** What is recorded about an object's cluster chain (_FDID). */
  class Obj {
    var stat: nat      // 0: chain on the FAT, 2: contiguous, 3: just fragmented
    var sclust: nat
    var objsize: nat
    var nCont: nat     // links of the contiguous part when stat is 3

    ghost function Info(): ObjInfo
      reads this
    {
      ObjInfo(stat, sclust, objsize, nCont)
    }
  }

  datatype ObjInfo = ObjInfo(stat: nat, sclust: nat, objsize: nat, nCont: nat)

  /** Number of clusters of an object of the given size, less one, in 32-bit arithmetic. */
  function LastIndex(objsize: nat, ss: nat, csize: nat): nat
    requires ss > 0 && csize > 0 && objsize > 0
  {
    (objsize - 1) / ss % TWO32 / csize
  }

  /** The status of cluster c as an object sees it; 1 stands for an error. */
  function NextCluster(kind: Kind, f: seq<nat>, o: ObjInfo, ss: nat, csize: nat, c: nat): nat
    requires ss > 0 && csize > 0
  {
    if c < 2 || c >= |f| then 1
    else if !kind.ExFat? then f[c]
    else if o.objsize == 0 then 1
    else
      var cofs, clen := (c - o.sclust) % TWO32, LastIndex(o.objsize, ss, csize);
      if o.stat == 2 then
        if cofs > clen then 1 else if cofs == clen then 0x7FFF_FFFF else c + 1
      else if o.stat == 3 && cofs < o.nCont then c + 1
      else f[c]
  }

  class FatFs {
    const kind: Kind       // fs_type
    const ss: nat          // sector size
    const csize: nat       // sectors in a cluster
    const nfats: nat
    const fatbase: nat
    const fsize: nat       // sectors in one FAT
    const database: nat
    const nent: nat        // number of clusters + 2
    var disk: seq<seq<byte>>   // the volume's sectors on the medium
    var winsect: nat
    const win: array<byte>
    var wflag: bool
    var lastClst: nat
    var freeClst: nat
    var fsiFlag: bool
    ghost var view: seq<seq<byte>>  // what the sectors hold once the window is written back

    /** What mounting has checked. */
    ghost predicate Geometry() {
      && 512 <= ss <= 4096 && ss % 512 == 0 && win.Length == ss && csize > 0
      && (nfats == 1 || nfats == 2) && 0 < fatbase && fatbase + nfats * fsize <= database
      && 3 <= nent < Limit(kind) && First(kind, nent - 1) + Width(kind) <= fsize * ss
    }

    /** Sectors of the second FAT, which follow the first one. */
    ghost predicate Mirror(i: int) {
      nfats == 2 && fatbase + fsize <= i < fatbase + 2 * fsize
    }

    ghost function Origin(i: nat): nat {
      if Mirror(i) then i - fsize else i
    }

    ghost predicate Sized(d: seq<seq<byte>>) {
      database + (nent - 2) * csize <= |d| && forall i :: 0 <= i < |d| ==> |d[i]| == ss
    }

    /** Every sector but the dirty window, and its copy, is on the medium; the copies agree. */
    ghost predicate Coherent()
      reads this`disk, this`view, this`winsect, this`wflag, win
    {
      && |disk| == |view|
      && (winsect < |view| ==> win[..] == view[winsect])
      && (wflag ==> winsect < |view| && !Mirror(winsect))
      && (forall i :: 0 <= i < |view| ==> (wflag && Origin(i) == winsect) || disk[i] == view[i])
      && (forall i :: 0 <= i < |view| ==> view[i] == view[Origin(i)])
    }

    ghost predicate Valid()
      reads this`disk, this`view, this`winsect, this`wflag, win
    {
      && Geometry() && Sized(view) && Sized(disk) && Coherent()
    }

    /** The view is the medium with the dirty window laid over its sector and the copy of that sector. */
    lemma ViewIs(i: nat)
      requires Valid() && i < |view|
      ensures |disk| == |view| && view[i] == if wflag && Origin(i) == winsect then win[..] else disk[i]
    {
      if wflag && Origin(i) == winsect { assert view[i] == view[Origin(i)]; }
    }

    /** While the window is clean both copies of the FAT are equal on the medium. */
    lemma CopiesEqual(i: nat)
      requires Valid() && !wflag && nfats == 2 && i < fsize
      ensures fatbase + fsize + i < |disk| && disk[fatbase + i] == disk[fatbase + fsize + i]
    {
      Layout(view);
      assert Origin(fatbase + fsize + i) == fatbase + i;
      assert view[fatbase + fsize + i] == view[Origin(fatbase + fsize + i)];
    }

    static lemma NotNegative(x: nat, y: nat)
      ensures x * y >= 0
    {
    }

    lemma Layout(d: seq<seq<byte>>)
      requires Geometry() && Sized(d)
      ensures fatbase + fsize <= database <= |d| && ss > 0
      ensures nfats == 2 ==> fatbase + 2 * fsize <= database
      ensures forall i :: 0 <= i < |d| ==> |d[i]| == ss
    {
      NotNegative(nent - 2, csize);
    }

    /** All sectors but the copy of the window's are on the medium. */
    ghost predicate CopyMissing()
      reads this`disk, this`view, this`winsect, win
    {
      && Sized(disk) && |disk| == |view| && winsect < |view| && win[..] == view[winsect]
      && (forall i :: 0 <= i < |view| ==> (Mirror(i) && Origin(i) == winsect) || disk[i] == view[i])
      && (forall i :: 0 <= i < |view| ==> view[i] == view[Origin(i)])
    }

    /** Writes the window to the other copies of the FAT. */
    method WriteCopies()
      requires Geometry() && CopyMissing() && fatbase <= winsect < fatbase + fsize && win.Length == ss
      requires nfats == 2 ==> fatbase + 2 * fsize <= |view|
      modifies this`disk
      ensures Sized(disk) && disk == view
    {
      var wsect, nf := winsect, nfats;
      while nf >= 2
        invariant 1 <= nf <= nfats && CopyMissing()
        invariant wsect == if nf == nfats then winsect else winsect + fsize
        invariant nf == 1 ==> disk == view
        modifies this`disk
      {
        wsect := wsect + fsize;
        assert Mirror(wsect) && Origin(wsect) == winsect && view[wsect] == view[Origin(wsect)] == win[..];
        disk := disk[wsect := win[..]];
        nf := nf - 1;
      }
    }

    /** Writes the window back, to both copies of the FAT if it shows a FAT sector. */
    method SyncWindow()
      requires Valid()
      modifies this`disk, this`wflag
      ensures Valid() && !wflag && disk == view
    {
      if wflag {
        Layout(view);
        disk := disk[winsect := win[..]];
        wflag := false;
        if fatbase <= winsect < fatbase + fsize {
          WriteCopies();
        }
      }
    }

    method MoveWindow(sector: nat)
      requires Valid() && sector < |view|
      modifies this`disk, this`wflag, this`winsect, win
      ensures Valid() && winsect == sector && win[..] == view[sector]
    {
      if sector != winsect {
        SyncWindow();
        forall i | 0 <= i < ss {
          win[i] := disk[sector][i];
        }
        winsect := sector;
        assert win[..] == disk[sector];
      }
    }

    /** Writes bytes into the window and marks it dirty. */
    method StoreWindow(off: nat, s: seq<byte>)
      requires Valid() && off + |s| <= ss && winsect < |view| && !Mirror(winsect)
      modifies this`wflag, this`view, win
      ensures Valid() && |view| == old(|view|)
      ensures forall i :: 0 <= i < |view| ==>
                view[i] == if Origin(i) == winsect then Store(old(view[winsect]), off, s) else old(view[i])
    {
      ghost var was := win[..];
      var k := 0;
      while k < |s|
        invariant 0 <= k <= |s| && win[..] == Store(was, off, s[..k])
        modifies win
      {
        win[off + k] := s[k];
        k := k + 1;
      }
      wflag := true;
      ghost var now := win[..];
      view := seq(|view|, i requires 0 <= i < |view| reads this => if Origin(i) == winsect then now else view[i]);
      assert s[..k] == s;
    }

    // ----- the file allocation table -----

    /** The bytes of the first FAT. */
    ghost function Table(): (r: seq<byte>)
      requires Geometry() && Sized(view)
      reads this`view
      ensures |r| == fsize * ss
    {
      TableOf(view)
    }

    lemma EntryInTable(c: nat)
      requires Geometry() && c < nent
      ensures First(kind, c) + Width(kind) <= fsize * ss
      ensures !kind.Fat12? ==> First(kind, c) == Width(kind) * c
    {
      if kind.Fat12? {
        HalfMonotonic(c, nent - 1);
      }
    }

    /** The entries of the FAT. */
    ghost function Fat(): (f: seq<nat>)
      requires Geometry() && Sized(view)
      reads this`view
      ensures |f| == nent && forall c :: 0 <= c < nent ==> f[c] < Limit(kind)
    {
      FatOf(view)
    }

    lemma AllInTable()
      requires Geometry() && Sized(view)
      ensures forall c :: 0 <= c < nent ==> InTable(kind, Table(), c)
    {
      forall c: nat | c < nent ensures InTable(kind, Table(), c) {
        EntryInTable(c);
      }
    }

    lemma FatIs()
      requires Geometry() && Sized(view)
      ensures forall c :: 0 <= c < nent ==> InTable(kind, Table(), c)
      ensures Fat() == Entries(kind, Table(), nent)
    {
      AllInTable();
    }

    lemma TableRange(k: nat, len: nat)
      requires Geometry() && Sized(view) && k + len <= fsize * ss && 0 < len && k % ss + len <= ss
      ensures 0 <= k / ss < fsize && fatbase + k / ss < |view| && !Mirror(fatbase + k / ss)
      ensures Table()[k..k + len] == view[fatbase + k / ss][k % ss..k % ss + len]
    {
      Layout(view);
      BytesInSector(view, fatbase, fsize, ss, k, len);
    }

    lemma SectorMultiple(w: nat)
      requires Geometry() && (w == 2 || w == 4)
      ensures ss % w == 0
    {
      assert ss == 512 * (ss / 512);
    }

    /** Where the entry of a cluster lies unless entries are twelve bits wide. */
    lemma EntryAligned(clst: nat)
      requires Geometry() && kind != Fat12 && clst < nent
      ensures First(kind, clst) == Width(kind) * clst && First(kind, clst) + Width(kind) <= fsize * ss
      ensures ss / Width(kind) > 0 && clst / (ss / Width(kind)) == First(kind, clst) / ss
      ensures First(kind, clst) % ss + Width(kind) <= ss
    {
      EntryInTable(clst);
      SectorMultiple(Width(kind));
      SubSector(clst, Width(kind), ss);
    }

    /** get_fat for entries that lie in one sector. */
    method LoadEntry(clst: nat) returns (raw: seq<byte>)
      requires Valid() && clst < nent && !kind.Fat12?
      modifies this`disk, this`wflag, this`winsect, win
      ensures Valid() && |raw| == Width(kind)
      ensures First(kind, clst) + Width(kind) <= fsize * ss
      ensures raw == Table()[First(kind, clst)..First(kind, clst) + Width(kind)]
      ensures winsect == fatbase + First(kind, clst) / ss < database
    {
      hide Coherent, Sized, Table;
      Layout(view);
      var w := Width(kind);
      EntryAligned(clst);
      var k := w * clst;
      TableRange(k, w);
      MoveWindow(fatbase + clst / (ss / w));
      TableRange(k, w);
      raw := win[k % ss..k % ss + w];
      assert raw == view[winsect][k % ss..k % ss + w];
    }

    lemma ByteRange(k: nat)
      requires Geometry() && Sized(view) && k < fsize * ss
      ensures 0 <= k / ss < fsize && fatbase + k / ss < |view| && !Mirror(fatbase + k / ss)
      ensures Table()[k] == view[fatbase + k / ss][k % ss]
    {
      Position(k, ss);
      TableRange(k, 1);
      assert Table()[k] == Table()[k..k + 1][0];
    }

    /** One byte of the FAT. */
    method LoadByte(k: nat) returns (b: byte)
      requires Valid() && k < fsize * ss
      modifies this`disk, this`wflag, this`winsect, win
      ensures Valid() && b == Table()[k] && winsect == fatbase + k / ss < database
    {
      hide Coherent, Sized, Table, Mirror;
      Layout(view);
      ByteRange(k);
      MoveWindow(fatbase + k / ss);
      ByteRange(k);
      b := win[k % ss];
      assert b == win[..][k % ss];
    }

    /** get_fat on FAT12, FAT16 and FAT32. */
    method FatEntry(clst: nat) returns (val: nat)
      requires Valid() && 2 <= clst < nent
      modifies this`disk, this`wflag, this`winsect, win
      ensures Valid() && val == Fat()[clst] && winsect < database
    {
      hide Coherent, Sized, Table, Mirror, Ld32, Fat;
      EntryInTable(clst);
      match kind {
        case Fat12 =>
          var bc := clst + clst / 2;
          var lo := LoadByte(bc);
          var hi := LoadByte(bc + 1);
          var wc: nat := lo as int + 0x100 * hi as int;
          val := if clst % 2 == 1 then wc / 0x10 else wc % 0x1000;
        case Fat16 =>
          var raw := LoadEntry(clst);
          val := raw[0] as int + 0x100 * raw[1] as int;
        case Fat32 =>
          var raw := LoadEntry(clst);
          val := Ld32(raw) % 0x1000_0000;
        case ExFat =>
          var raw := LoadEntry(clst);
          val := Ld32(raw) % 0x8000_0000;
      }
      FatIs();
    }

    /** get_fat: the status of a cluster, 1 on an internal error. */
    method GetFat(obj: Obj, clst: nat) returns (val: nat)
      requires Valid()
      modifies this`disk, this`wflag, this`winsect, win
      ensures Valid() && val == NextCluster(kind, Fat(), obj.Info(), ss, csize, clst)
      ensures winsect == old(winsect) || winsect < database
    {
      hide Coherent, Sized, Table, Mirror;
      if clst < 2 || clst >= nent {
        return 1;
      }
      if kind != ExFat {
        val := FatEntry(clst);
        return;
      }
      if obj.objsize == 0 {
        return 1;
      }
      var cofs, clen := (clst - obj.sclust) % TWO32, (obj.objsize - 1) / ss % TWO32 / csize;
      if obj.stat == 2 {
        if cofs <= clen {
          return if cofs == clen then 0x7FFF_FFFF else clst + 1;
        }
        return 1;
      }
      if obj.stat == 3 && cofs < obj.nCont {
        return clst + 1;
      }
      val := FatEntry(clst);
    }

    /** Sectors of either FAT. */
    ghost predicate InFats(i: int) {
      fatbase <= i < fatbase + fsize || Mirror(i)
    }

    /** Nothing but the FATs differs. */
    ghost predicate OthersKept(was: seq<seq<byte>>, now: seq<seq<byte>>) {
      |now| == |was| && forall i :: 0 <= i < |was| && !InFats(i) ==> now[i] == was[i]
    }

    lemma OnlyFatSector(was: seq<seq<byte>>, now: seq<seq<byte>>, sector: nat, data: seq<byte>)
      requires |now| == |was| && fatbase <= sector < fatbase + fsize
      requires forall i :: 0 <= i < |was| ==> now[i] == if Origin(i) == sector then data else was[i]
      ensures OthersKept(was, now)
      ensures sector < |was| ==> now[sector] == data
      ensures forall i :: fatbase <= i < fatbase + fsize && i < |was| && i != sector ==> now[i] == was[i]
    {
      assert forall i :: fatbase <= i < fatbase + fsize ==> !Mirror(i) && Origin(i) == i;
    }

    ghost function TableOf(v: seq<seq<byte>>): (r: seq<byte>)
      requires Geometry() && Sized(v)
      ensures |r| == fsize * ss
    {
      Layout(v);
      Bytes(v, fatbase, fsize, ss)
    }

    lemma StoredTable(was: seq<seq<byte>>, now: seq<seq<byte>>, k: nat, s: seq<byte>)
      requires Geometry() && Sized(was) && Sized(now) && |now| == |was|
      requires k < fsize * ss && k % ss + |s| <= ss && fatbase + k / ss < |was|
      requires forall i :: 0 <= i < |was| ==>
                 now[i] == if Origin(i) == fatbase + k / ss then Store(was[fatbase + k / ss], k % ss, s) else was[i]
      ensures k + |s| <= fsize * ss && TableOf(now) == Store(TableOf(was), k, s)
      ensures OthersKept(was, now)
    {
      hide Geometry, Sized, Store, OthersKept, Origin, Mirror, Bytes;
      Layout(was);
      Layout(now);
      SectorInside(k, fsize, ss);
      ghost var q, o := k / ss, k % ss;
      OnlyFatSector(was, now, fatbase + q, Store(was[fatbase + q], o, s));
      StoreInSector(was, now, fatbase, fsize, ss, k, s);
    }

    lemma ValidParts()
      requires Valid()
      ensures Geometry() && Sized(view) && |disk| == |view| && win.Length == ss > 0
    {
    }

    lemma FatSector(k: nat)
      requires Geometry() && Sized(view) && k < fsize * ss
      ensures 0 <= k / ss && fatbase + k / ss < |view| && !Mirror(fatbase + k / ss)
    {
      Layout(view);
      hide Geometry, Sized;
      SectorInside(k, fsize, ss);
    }

    /** Bytes of the FAT stored through the window. */
    method StoreFat(k: nat, s: seq<byte>)
      requires Valid() && k < fsize * ss && k % ss + |s| <= ss && winsect == fatbase + k / ss
      modifies this`wflag, this`view, win
      ensures Valid() && k + |s| <= fsize * ss && Table() == Store(old(Table()), k, s)
      ensures OthersKept(old(view), view)
    {
      hide *;
      ValidParts();
      FatSector(k);
      ghost var was := view;
      TableIs();
      StoreWindow(k % ss, s);
      ValidParts();
      StoredTable(was, view, k, s);
      TableIs();
    }

    lemma TableIs()
      requires Geometry() && Sized(view)
      ensures Table() == TableOf(view)
    {
    }

    lemma KeptTrans(a: seq<seq<byte>>, b: seq<seq<byte>>, c: seq<seq<byte>>)
      requires OthersKept(a, b) && OthersKept(b, c)
      ensures OthersKept(a, c)
    {
    }

    /** The two bytes of a FAT12 entry, stored one after the other. */
    lemma TwoStores(F: seq<byte>, c: nat, val: nat, lo: byte, hi: byte)
      requires InTable(Fat12, F, c)
      requires lo == LowByte(c, F[First(Fat12, c)], val) && hi == HighByte(c, F[First(Fat12, c) + 1], val)
      ensures var b := First(Fat12, c);
              Store(Store(F, b, [lo]), b + 1, [hi]) == Put(Fat12, F, c, val)
    {
    }

    lemma EntryBound(clst: nat)
      requires Geometry() && clst < nent
      ensures ss > 0 && First(kind, clst) + Width(kind) <= fsize * ss
    {
      EntryInTable(clst);
    }

    /** put_fat on FAT12, byte by byte. */
    method StoreTwelve(clst: nat, val: nat)
      requires Valid() && kind == Fat12 && 2 <= clst < nent && InTable(Fat12, Table(), clst)
      modifies this`disk, this`wflag, this`winsect, this`view, win
      ensures Valid() && OthersKept(old(view), view) && Table() == Put(Fat12, old(Table()), clst, val)
      ensures winsect < database
    {
      hide Geometry, Coherent, Sized, Mirror, Table, OthersKept, Put, Store, LowByte, HighByte;
      EntryBound(clst);
      ghost var F, w0 := Table(), view;
      var bc := clst + clst / 2;
      var p := LoadByte(bc);
      var lo := LowByte(clst, p, val);
      InOneSector(bc);
      StoreFat(bc, [lo]);
      ghost var w1 := view;
      p := LoadByte(bc + 1);
      var hi := HighByte(clst, p, val);
      InOneSector(bc + 1);
      StoreFat(bc + 1, [hi]);
      TwoStores(F, clst, val, lo, hi);
      KeptTrans(w0, w1, view);
    }

    lemma InOneSector(k: nat)
      requires Geometry()
      ensures 0 <= k % ss && k % ss + 1 <= ss
    {
    }

    /** put_fat on the other types: the entry lies in one sector. */
    method StoreAligned(clst: nat, val: nat)
      requires Valid() && kind != Fat12 && 2 <= clst < nent && InTable(kind, Table(), clst)
      modifies this`disk, this`wflag, this`winsect, this`view, win
      ensures Valid() && OthersKept(old(view), view) && Table() == Put(kind, old(Table()), clst, val)
      ensures winsect < database
    {
      hide Coherent, Sized, Mirror, Table, OthersKept, Store, Le32, Ld32;
      var w := Width(kind);
      EntryAligned(clst);
      var raw := LoadEntry(clst);
      var s: seq<byte>;
      if kind == Fat16 {
        s := [val % 0x100, val / 0x100 % 0x100];
      } else if kind == Fat32 {
        s := Le32(val % 0x1000_0000 + Ld32(raw) as int / 0x1000_0000 * 0x1000_0000);
      } else {
        s := Le32(val % TWO32);
      }
      StoreFat(w * clst, s);
    }

    /** put_fat: FR_OK, or FR_INT_ERR for a cluster number out of range. */
    method PutFat(clst: nat, val: nat) returns (ok: bool)
      requires Valid()
      modifies this`disk, this`wflag, this`winsect, this`view, win
      ensures Valid() && OthersKept(old(view), view)
      ensures ok <==> 2 <= clst < nent
      ensures Fat() == if ok then old(Fat())[clst := val % Limit(kind)] else old(Fat())
      ensures !ok ==> view == old(view)
      ensures if ok then winsect < database else winsect == old(winsect)
    {
      hide Coherent, Sized, Store, Mirror, Table, Fat, Bytes, OthersKept, Put, NewBytes, Entries, Le32, Ld32;
      if clst < 2 || clst >= nent {
        KeptSame(view);
        return false;
      }
      EntryInTable(clst);
      FatIs();
      PutEntries(kind, Table(), nent, clst, val);
      ghost var F := Table();
      if kind == Fat12 {
        StoreTwelve(clst, val);
      } else {
        StoreAligned(clst, val);
      }
      FatIs();
      ok := true;
    }

    lemma KeptSame(a: seq<seq<byte>>)
      ensures OthersKept(a, a)
    {
    }

    // ----- other areas -----

    /** Nothing but the sectors of an area differs. */
    ghost predicate AreaKept(was: seq<seq<byte>>, now: seq<seq<byte>>, base: nat, n: nat) {
      |now| == |was| && forall i :: 0 <= i < |was| && !(base <= i < base + n) ==> now[i] == was[i]
    }

    /** Bytes of n sectors from base on. */
    ghost function Area(v: seq<seq<byte>>, base: nat, n: nat): (r: seq<byte>)
      requires Geometry() && Sized(v) && base + n <= |v|
      ensures |r| == n * ss
    {
      Bytes(v, base, n, ss)
    }

    lemma OnlySector(was: seq<seq<byte>>, now: seq<seq<byte>>, base: nat, n: nat, sector: nat, data: seq<byte>)
      requires |now| == |was| && !Mirror(sector) && base <= sector < base + n <= |was|
      requires fatbase + fsize <= database && (nfats == 2 ==> fatbase + 2 * fsize <= database) && database <= base
      requires forall i :: 0 <= i < |was| ==> now[i] == if Origin(i) == sector then data else was[i]
      ensures AreaKept(was, now, base, n) && now[sector] == data
      ensures forall i :: base <= i < base + n && i != sector ==> now[i] == was[i]
    {
      assert forall i :: 0 <= i < |was| && i != sector ==> Origin(i) != sector;
    }

    lemma StoredArea(was: seq<seq<byte>>, now: seq<seq<byte>>, base: nat, n: nat, k: nat, s: seq<byte>)
      requires Geometry() && Sized(was) && Sized(now) && |now| == |was| && database <= base && base + n <= |was|
      requires k < n * ss && k % ss + |s| <= ss && 0 <= k / ss < n
      requires forall i :: 0 <= i < |was| ==>
                 now[i] == if Origin(i) == base + k / ss then Store(was[base + k / ss], k % ss, s) else was[i]
      ensures k + |s| <= n * ss && Area(now, base, n) == Store(Area(was, base, n), k, s)
      ensures AreaKept(was, now, base, n)
    {
      hide *;
      Layout(was);
      Layout(now);
      NoMirror(base + k / ss);
      AreaOf(was, base, n);
      AreaOf(now, base, n);
      OnlySector(was, now, base, n, base + k / ss, Store(was[base + k / ss], k % ss, s));
      StoreInSector(was, now, base, n, ss, k, s);
    }

    lemma AreaOf(v: seq<seq<byte>>, base: nat, n: nat)
      requires ss > 0 && Geometry() && Sized(v) && base + n <= |v| && forall i :: 0 <= i < |v| ==> |v[i]| == ss
      ensures Area(v, base, n) == Bytes(v, base, n, ss)
    {
    }

    lemma AreaSector(base: nat, n: nat, k: nat)
      requires ss > 0 && Geometry() && Sized(view) && database <= base && base + n <= |view| && k < n * ss
      ensures 0 <= k / ss < n && k % ss < ss && !Mirror(base + k / ss)
      ensures Area(view, base, n)[k] == view[base + k / ss][k % ss]
    {
      hide *;
      Layout(view);
      AreaIs(base, n);
      Cell(view, base, n, ss, k);
      NoMirror(base + k / ss);
    }

    lemma AreaIs(base: nat, n: nat)
      requires ss > 0 && Geometry() && Sized(view) && base + n <= |view|
      requires forall i :: 0 <= i < |view| ==> |view[i]| == ss
      ensures Area(view, base, n) == Bytes(view, base, n, ss)
    {
    }

    lemma NoMirror(i: int)
      requires i >= database && (nfats == 2 ==> fatbase + 2 * fsize <= database)
      ensures !Mirror(i)
    {
    }

    /** One byte of an area. */
    method LoadArea(base: nat, n: nat, k: nat) returns (b: byte)
      requires Valid() && database <= base && base + n <= |view| && k < n * ss
      modifies this`disk, this`wflag, this`winsect, win
      ensures Valid() && b == Area(view, base, n)[k] && winsect == base + k / ss
    {
      hide *;
      ValidParts();
      AreaSector(base, n, k);
      MoveWindow(base + k / ss);
      ValidParts();
      AreaSector(base, n, k);
      b := win[k % ss];
      assert b == win[..][k % ss];
    }

    /** Bytes of an area outside the FATs stored through the window. */
    method StoreArea(base: nat, n: nat, k: nat, s: seq<byte>)
      requires Valid() && database <= base && base + n <= |view| && k < n * ss && k % ss + |s| <= ss
        && winsect == base + k / ss
      modifies this`wflag, this`view, win
      ensures Valid() && |view| == |old(view)| && k + |s| <= n * ss
      ensures Area(view, base, n) == Store(old(Area(view, base, n)), k, s)
      ensures AreaKept(old(view), view, base, n)
    {
      hide *;
      ValidParts();
      AreaSector(base, n, k);
      ghost var was := view;
      StoreWindow(k % ss, s);
      ValidParts();
      StoredArea(was, view, base, n, k, s);
    }

    /** The FAT is not affected by changes in the data area. */
    lemma TableKept(was: seq<seq<byte>>, now: seq<seq<byte>>, base: nat, n: nat)
      requires Geometry() && Sized(was) && Sized(now) && database <= base && base + n <= |was|
        && AreaKept(was, now, base, n)
      ensures TableOf(now) == TableOf(was) && FatOf(now) == FatOf(was)
    {
      Layout(was);
      Layout(now);
      SameSectors(was, now, fatbase, fsize, ss);
    }

    /** The FAT entries as a function of the sectors. */
    ghost function FatOf(v: seq<seq<byte>>): (f: seq<nat>)
      requires Geometry() && Sized(v)
      ensures |f| == nent && forall c :: 0 <= c < nent ==> f[c] < Limit(kind)
    {
      EntriesInTable(v);
      Entries(kind, TableOf(v), nent)
    }

    lemma EntriesInTable(v: seq<seq<byte>>)
      requires Geometry() && Sized(v)
      ensures forall c :: 0 <= c < nent ==> InTable(kind, TableOf(v), c)
    {
      forall c: nat | c < nent ensures InTable(kind, TableOf(v), c) {
        EntryInTable(c);
      }
    }

    // ----- file data, which does not go through the window -----

    lemma OnMedium(sector: nat)
      requires Valid() && database <= sector < |view| && sector != winsect
      ensures |disk| == |view| && disk[sector] == view[sector] && !Mirror(sector)
    {
      Layout(view);
      NoMirror(sector);
    }

    /** disk_read of one sector. */
    method DiskRead(sector: nat) returns (data: seq<byte>)
      requires Valid() && database <= sector < |view| && sector != winsect
      ensures data == view[sector]
    {
      OnMedium(sector);
      data := disk[sector];
    }

    /** disk_write of one sector. */
    method DiskWrite(sector: nat, data: seq<byte>)
      requires Valid() && database <= sector < |view| && sector != winsect && |data| == ss
      modifies this`disk, this`view
      ensures Valid() && view == old(view)[sector := data]
    {
      OnMedium(sector);
      Layout(view);
      disk := disk[sector := data];
      view := view[sector := data];
    }
  }
}
