/** exFAT allocation: the bitmap of clusters in use and chains that are contiguous without the FAT. */
module ExFatAlloc {
  import opened Machine
  import opened BitStream
  import opened FatTable
  import opened Window

  // ----- bits of bytes -----

  lemma OneByte(b: byte)
    ensures BitsOf([b]) == LowBits(b, 8)
  {
    assert [b][1..] == [];
  }

  lemma SplitByte(F: seq<byte>, k: nat)
    requires k < |F|
    ensures F == F[..k] + ([F[k]] + F[k + 1..])
  {
  }

  lemma BitsAround(F: seq<byte>, k: nat)
    requires k < |F|
    ensures BitsOf(F) == BitsOf(F[..k]) + (LowBits(F[k], 8) + BitsOf(F[k + 1..]))
  {
    hide *;
    SplitByte(F, k);
    BitsConcat(F[..k], [F[k]] + F[k + 1..]);
    BitsConcat([F[k]], F[k + 1..]);
    OneByte(F[k]);
  }

  lemma MiddleBit(a: seq<bit>, m: seq<bit>, z: seq<bit>, j: nat, x: bit)
    requires j < |m|
    ensures (a + (m + z))[|a| + j] == m[j]
    ensures a + (m[j := x] + z) == (a + (m + z))[|a| + j := x]
  {
  }

  /** Bit 8 * k + j of a byte sequence is bit j of byte k. */
  lemma BitOfByte(F: seq<byte>, k: nat, j: nat)
    requires k < |F| && j < 8
    ensures 8 * k + j < |BitsOf(F)| && BitsOf(F)[8 * k + j] == LowBits(F[k], 8)[j]
  {
    hide *;
    BitsAround(F, k);
    MiddleBit(BitsOf(F[..k]), LowBits(F[k], 8), BitsOf(F[k + 1..]), j, 0);
  }

  lemma ChangeBit(F: seq<byte>, k: nat, j: nat, x: bit)
    requires k < |F| && j < 8
    ensures 8 * k + j < |BitsOf(F)|
    ensures BitsOf(Store(F, k, [WithBit(F[k], j, x)])) == BitsOf(F)[8 * k + j := x]
  {
    hide BitsOf, LowBits, Value, WithBit;
    var G := Store(F, k, [WithBit(F[k], j, x)]);
    assert G[..k] == F[..k] && G[k + 1..] == F[k + 1..] && G[k] == WithBit(F[k], j, x);
    BitsAround(F, k);
    BitsAround(G, k);
    MiddleBit(BitsOf(F[..k]), LowBits(F[k], 8), BitsOf(F[k + 1..]), j, x);
  }

  // ----- the allocation bitmap -----

  /** Sectors of the bitmap, which starts the data area; bit v belongs to cluster v + 2. */
  function BitmapSectors(nent: nat, ss: nat): nat
    requires nent >= 3 && ss > 0
  {
    (nent - 3) / 8 / ss + 1
  }

  lemma ByteInBitmap(nent: nat, ss: nat, v: nat)
    requires nent >= 3 && ss > 0 && v < nent - 2
    ensures v / 8 < BitmapSectors(nent, ss) * ss && 8 * (v / 8) + v % 8 == v
  {
    var k, last := v / 8, (nent - 3) / 8;
    Position(last, ss);
    assert BitmapSectors(nent, ss) * ss == ss * (last / ss) + ss;
  }

  lemma BitmapFits(fs: FatFs)
    requires fs.Geometry() && fs.Sized(fs.view)
    ensures fs.ss > 0 && fs.nent >= 3 && fs.database + BitmapSectors(fs.nent, fs.ss) <= |fs.view|
    ensures fs.nent - 2 <= 8 * (BitmapSectors(fs.nent, fs.ss) * fs.ss)
  {
    BitmapRoom(fs, fs.view);
  }

  lemma BitmapRoom(fs: FatFs, view: seq<seq<byte>>)
    requires fs.Geometry() && fs.Sized(view)
    ensures fs.ss > 0 && fs.nent >= 3 && fs.database + BitmapSectors(fs.nent, fs.ss) <= |view|
    ensures fs.nent - 2 <= 8 * (BitmapSectors(fs.nent, fs.ss) * fs.ss)
  {
    var n, ss := fs.nent, fs.ss;
    assert n - 2 <= (n - 2) * fs.csize by { LaterSector(0, fs.csize, n - 2); }
    ByteInBitmap(n, ss, n - 3);
    Quotient((n - 3) / 8, ss);
    Quotient(n - 3, 8);
  }

  lemma Quotient(a: nat, b: nat)
    requires b > 0
    ensures 0 <= a / b <= a
  {
    Position(a, b);
    if a / b > a { LaterSector(a, a / b, b); TimesAtLeast(a, b); }
  }

  lemma TimesAtLeast(a: nat, b: nat)
    requires b > 0
    ensures b * a >= a
  {
  }

  /** The bits of the bitmap, one for each cluster. */
  ghost function Bitmap(fs: FatFs): (r: seq<bit>)
    requires fs.Geometry() && fs.Sized(fs.view)
    reads fs`view
    ensures |r| == fs.nent - 2
  {
    BitmapFits(fs);
    BitsOf(fs.Area(fs.view, fs.database, BitmapSectors(fs.nent, fs.ss)))[..fs.nent - 2]
  }

  lemma BitmapBit(fs: FatFs, v: nat)
    requires fs.Geometry() && fs.Sized(fs.view) && v < fs.nent - 2
    ensures fs.database + BitmapSectors(fs.nent, fs.ss) <= |fs.view| && v / 8 < BitmapSectors(fs.nent, fs.ss) * fs.ss
    ensures Bitmap(fs)[v] == LowBits(fs.Area(fs.view, fs.database, BitmapSectors(fs.nent, fs.ss))[v / 8], 8)[v % 8]
  {
    BitmapFits(fs);
    ByteInBitmap(fs.nent, fs.ss, v);
    hide FatFs.Geometry, FatFs.Sized, FatFs.Area, BitmapSectors, BitsOf, LowBits;
    BitOfByte(fs.Area(fs.view, fs.database, BitmapSectors(fs.nent, fs.ss)), v / 8, v % 8);
  }

  /** The bitmap as a function of the sectors. */
  ghost function BitmapOf(fs: FatFs, v: seq<seq<byte>>): (r: seq<bit>)
    requires fs.Geometry() && fs.Sized(v)
    ensures |r| == fs.nent - 2
  {
    BitmapRoom(fs, v);
    BitsOf(fs.Area(v, fs.database, BitmapSectors(fs.nent, fs.ss)))[..fs.nent - 2]
  }

  // ----- the sectors that describe the clusters -----

  /** End of the FATs, and on exFAT of the bitmap behind them. */
  function MetaEnd(fs: FatFs): nat {
    if fs.kind == ExFat && fs.nent >= 3 && fs.ss > 0 then fs.database + BitmapSectors(fs.nent, fs.ss) else fs.database
  }

  ghost predicate Meta(fs: FatFs, i: int) {
    fs.InFats(i) || fs.database <= i < MetaEnd(fs)
  }

  /** Nothing but the FATs and the bitmap differs. */
  ghost predicate MetaKept(fs: FatFs, was: seq<seq<byte>>, now: seq<seq<byte>>) {
    |now| == |was| && forall i :: 0 <= i < |was| && !Meta(fs, i) ==> now[i] == was[i]
  }

  lemma MetaSame(fs: FatFs, a: seq<seq<byte>>)
    ensures MetaKept(fs, a, a)
  {
  }

  lemma MetaTrans(fs: FatFs, a: seq<seq<byte>>, b: seq<seq<byte>>, c: seq<seq<byte>>)
    requires MetaKept(fs, a, b) && MetaKept(fs, b, c)
    ensures MetaKept(fs, a, c)
  {
  }

  lemma MetaOfFats(fs: FatFs, a: seq<seq<byte>>, b: seq<seq<byte>>)
    requires fs.OthersKept(a, b)
    ensures MetaKept(fs, a, b)
  {
  }

  lemma MetaOfBitmap(fs: FatFs, a: seq<seq<byte>>, b: seq<seq<byte>>)
    requires fs.kind == ExFat && fs.nent >= 3 && fs.ss > 0
    requires fs.AreaKept(a, b, fs.database, BitmapSectors(fs.nent, fs.ss))
    ensures MetaKept(fs, a, b)
  {
  }

  lemma InMeta(fs: FatFs, k: nat)
    requires fs.kind == ExFat && fs.nent >= 3 && fs.ss > 0 && k < BitmapSectors(fs.nent, fs.ss) * fs.ss
    ensures fs.database + k / fs.ss < MetaEnd(fs)
  {
    SectorInside(k, BitmapSectors(fs.nent, fs.ss), fs.ss);
  }

  /** Reads one bit of the bitmap through the window. */
  method LoadBit(fs: FatFs, v: nat) returns (b: byte)
    requires fs.Valid() && v < fs.nent - 2
    modifies fs`disk, fs`wflag, fs`winsect, fs.win
    ensures fs.Valid() && fs.winsect == fs.database + v / 8 / fs.ss && LowBits(b, 8)[v % 8] == Bitmap(fs)[v]
    ensures fs.kind == ExFat ==> fs.winsect < MetaEnd(fs)
    ensures fs.database + BitmapSectors(fs.nent, fs.ss) <= |fs.view| && v / 8 < BitmapSectors(fs.nent, fs.ss) * fs.ss
    ensures b == fs.Area(fs.view, fs.database, BitmapSectors(fs.nent, fs.ss))[v / 8]
  {
    hide *;
    fs.ValidParts();
    BitmapBit(fs, v);
    b := fs.LoadArea(fs.database, BitmapSectors(fs.nent, fs.ss), v / 8);
    fs.ValidParts();
    BitmapBit(fs, v);
    BitmapFits(fs);
    if fs.kind == ExFat { InMeta(fs, v / 8); }
  }

  lemma ChangedBitmap(fs: FatFs, was: seq<seq<byte>>, v: nat, x: bit)
    requires fs.Geometry() && fs.Sized(was) && fs.Sized(fs.view) && v < fs.nent - 2 && |was| == |fs.view|
    requires fs.database + BitmapSectors(fs.nent, fs.ss) <= |was| && v / 8 < BitmapSectors(fs.nent, fs.ss) * fs.ss
    requires var n, k := BitmapSectors(fs.nent, fs.ss), v / 8;
             var F := fs.Area(was, fs.database, n);
             fs.Area(fs.view, fs.database, n) == Store(F, k, [WithBit(F[k], v % 8, x)])
    ensures fs.nent - 2 <= 8 * (BitmapSectors(fs.nent, fs.ss) * fs.ss)
    ensures Bitmap(fs) == BitsOf(fs.Area(was, fs.database, BitmapSectors(fs.nent, fs.ss)))[..fs.nent - 2][v := x]
  {
    BitmapFits(fs);
    ByteInBitmap(fs.nent, fs.ss, v);
    hide FatFs.Geometry, FatFs.Sized, FatFs.Area, BitmapSectors, BitsOf, WithBit, Store;
    ChangeBit(fs.Area(was, fs.database, BitmapSectors(fs.nent, fs.ss)), v / 8, v % 8, x);
  }

  lemma SameTable(fs: FatFs, was: seq<seq<byte>>)
    requires fs.ss > 0 && fs.nent >= 3
    requires fs.Geometry() && fs.Sized(was) && fs.Sized(fs.view) && fs.database + BitmapSectors(fs.nent, fs.ss) <= |was|
    requires fs.AreaKept(was, fs.view, fs.database, BitmapSectors(fs.nent, fs.ss))
    ensures fs.Fat() == fs.FatOf(was)
  {
    hide FatFs.Geometry, FatFs.Sized, BitmapSectors;
    fs.TableKept(was, fs.view, fs.database, BitmapSectors(fs.nent, fs.ss));
  }

  /** Changes one bit of the bitmap through the window, which shows its byte b. */
  method StoreBit(fs: FatFs, v: nat, b: byte, x: bit)
    requires fs.Valid() && v < fs.nent - 2 && fs.winsect == fs.database + v / 8 / fs.ss
    requires fs.database + BitmapSectors(fs.nent, fs.ss) <= |fs.view| && v / 8 < BitmapSectors(fs.nent, fs.ss) * fs.ss
    requires b == fs.Area(fs.view, fs.database, BitmapSectors(fs.nent, fs.ss))[v / 8]
    modifies fs`wflag, fs`view, fs.win
    ensures fs.Valid() && Bitmap(fs) == old(Bitmap(fs))[v := x] && fs.Fat() == old(fs.Fat())
    ensures fs.kind == ExFat ==> MetaKept(fs, old(fs.view), fs.view)
  {
    hide *;
    fs.ValidParts();
    ghost var was := fs.view;
    BitmapIs(fs);
    OneByteFits(v / 8, fs.ss);
    fs.StoreArea(fs.database, BitmapSectors(fs.nent, fs.ss), v / 8, [WithBit(b, v % 8, x)]);
    fs.ValidParts();
    ChangedBitmap(fs, was, v, x);
    SameTable(fs, was);
    if fs.kind == ExFat { MetaOfBitmap(fs, was, fs.view); }
  }

  lemma OneByteFits(k: nat, ss: nat)
    requires ss > 0
    ensures k % ss + 1 <= ss
  {
  }

  lemma BitmapIs(fs: FatFs)
    requires fs.Geometry() && fs.Sized(fs.view)
    ensures fs.ss > 0 && fs.nent >= 3 && fs.database + BitmapSectors(fs.nent, fs.ss) <= |fs.view|
    ensures fs.nent - 2 <= 8 * (BitmapSectors(fs.nent, fs.ss) * fs.ss)
    ensures Bitmap(fs) == BitsOf(fs.Area(fs.view, fs.database, BitmapSectors(fs.nent, fs.ss)))[..fs.nent - 2]
    ensures fs.Fat() == fs.FatOf(fs.view)
  {
    BitmapFits(fs);
  }

  /** n bits from position v on set to x. */
  function SetBits(b: seq<bit>, v: nat, n: nat, x: bit): (r: seq<bit>)
    requires v + n <= |b|
    ensures |r| == |b|
    ensures forall i :: 0 <= i < |b| ==> r[i] == if v <= i < v + n then x else b[i]
  {
    b[..v] + seq(n, i => x) + b[v + n..]
  }

  lemma SetOneMore(b: seq<bit>, v: nat, n: nat, x: bit)
    requires v + n < |b|
    ensures SetBits(b, v, n, x)[v + n := x] == SetBits(b, v, n + 1, x)
  {
  }

  /**
   * change_bitmap: marks ncl clusters from clst on; it stops with an error at the first one that is
   * already marked that way.
   */
  method ChangeBitmap(fs: FatFs, clst: nat, ncl: nat, bv: bit) returns (ok: bool, ghost done: nat)
    requires fs.Valid() && 2 <= clst && 1 <= ncl && clst + ncl <= fs.nent
    modifies fs`disk, fs`wflag, fs`winsect, fs`view, fs.win
    ensures fs.Valid() && fs.Fat() == old(fs.Fat()) && clst - 2 + ncl <= |old(Bitmap(fs))|
    ensures done <= ncl && Bitmap(fs) == SetBits(old(Bitmap(fs)), clst - 2, done, bv)
    ensures forall i :: clst - 2 <= i < clst - 2 + done ==> old(Bitmap(fs))[i] != bv
    ensures if ok then done == ncl else done < ncl && old(Bitmap(fs))[clst - 2 + done] == bv
    ensures fs.kind == ExFat ==> MetaKept(fs, old(fs.view), fs.view) && fs.winsect < MetaEnd(fs)
  {
    hide *;
    fs.ValidParts();
    BitmapIs(fs);
    ghost var b0, f0, was := Bitmap(fs), fs.Fat(), fs.view;
    MetaSame(fs, was);
    var v := clst - 2;
    var left := ncl;
    done := 0;
    while true
      invariant fs.Valid() && fs.Geometry() && fs.Sized(fs.view) && fs.Fat() == f0
      invariant 1 <= left <= ncl && done == ncl - left && v == clst - 2 + done
      invariant Bitmap(fs) == SetBits(b0, clst - 2, done, bv)
      invariant forall i :: clst - 2 <= i < clst - 2 + done ==> b0[i] != bv
      invariant fs.kind == ExFat ==> MetaKept(fs, was, fs.view)
      decreases left
    {
      ghost var mid := fs.view;
      var b := LoadBit(fs, v);
      fs.ValidParts();
      if bv == LowBits(b, 8)[v % 8] {
        return false, done;
      }
      SetOneMore(b0, clst - 2, done, bv);
      StoreBit(fs, v, b, bv);
      fs.ValidParts();
      if fs.kind == ExFat { MetaTrans(fs, was, mid, fs.view); }
      v := v + 1;
      left := left - 1;
      done := done + 1;
      if left == 0 {
        return true, done;
      }
    }
  }

  /** Steps from one bit to another, going up and starting over at the end. */
  function Ahead(from: nat, v: nat, n: nat): nat
    requires from < n && v < n
  {
    if v >= from then v - from else v + n - from
  }

  /** The first so many bits, going round from start, are set. */
  ghost predicate UsedAhead(b: seq<bit>, start: nat, n: nat, steps: nat)
    requires start < n == |b|
  {
    forall i: nat :: i < n && Ahead(start, i, n) < steps ==> b[i] == 1
  }

  lemma OneAhead(b: seq<bit>, start: nat, n: nat, v: nat, steps: nat)
    requires start < n == |b| && v < n && Ahead(start, v, n) == steps && UsedAhead(b, start, n, steps) && b[v] == 1
    ensures UsedAhead(b, start, n, steps + 1)
    ensures v + 1 < n && v + 1 != start ==> Ahead(start, v + 1, n) == steps + 1
    ensures v + 1 == n && start != 0 ==> Ahead(start, 0, n) == steps + 1
    ensures v + 1 == start || (v + 1 == n && start == 0) ==> forall i: nat :: i < n ==> b[i] == 1
  {
    assert forall i: nat :: i < n && Ahead(start, i, n) == steps ==> i == v;
    if v + 1 == start || (v + 1 == n && start == 0) {
      assert steps == n - 1;
    }
  }

  /** find_bitmap for one cluster: the first free one, searching round from clst. */
  method FindBitmap(fs: FatFs, clst: nat) returns (ncl: nat)
    requires fs.Valid()
    modifies fs`disk, fs`wflag, fs`winsect, fs.win
    ensures fs.Valid() && fs.Geometry() && fs.Sized(fs.view) && fs.nent >= 3
    ensures fs.kind == ExFat ==> fs.winsect < MetaEnd(fs)
    ensures ncl == 0 ==> forall i :: 0 <= i < fs.nent - 2 ==> Bitmap(fs)[i] == 1
    ensures ncl != 0 ==> 2 <= ncl < fs.nent && Bitmap(fs)[ncl - 2] == 0
    ensures var start := if 2 <= clst < fs.nent then clst - 2 else 0;
            ncl != 0 ==>
              forall i ::
                0 <= i < fs.nent - 2 && Ahead(start, i, fs.nent - 2) < Ahead(start, ncl - 2, fs.nent - 2) ==>
                  Bitmap(fs)[i] == 1
  {
    hide FatFs.Valid, FatFs.Geometry, FatFs.Sized, Bitmap, BitmapSectors, LowBits, FatFs.Area, MetaEnd;
    fs.ValidParts();
    BitmapIs(fs);
    var n: nat := fs.nent - 2;
    var start: nat := if 2 <= clst < fs.nent then clst - 2 else 0;
    var val: nat := start;
    ghost var steps := 0;
    ghost var bits := Bitmap(fs);
    while true
      invariant fs.Valid() && fs.Geometry() && fs.Sized(fs.view) && Bitmap(fs) == bits
      invariant val < n && Ahead(start, val, n) == steps < n && UsedAhead(bits, start, n, steps)
      decreases n - steps
    {
      var scl := val;
      var b := LoadBit(fs, val);
      fs.ValidParts();
      val := val + 1;
      if val >= n {
        val := 0;
      }
      if LowBits(b, 8)[scl % 8] == 0 {
        return scl + 2;
      }
      OneAhead(bits, start, n, scl, steps);
      steps := steps + 1;
      if val == start {
        return 0;
      }
    }
  }
}
