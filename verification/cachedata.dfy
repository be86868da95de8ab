/** Cached data against the disks. */
module CacheData {
  import opened Machine
  import opened CacheLists
  import opened CacheState

  /** Contents of one sector. */
  type Sector = nat

  type Disks = seq<seq<Sector>>

  ghost predicate FitsDisks(geo: Geometry, v: Disks) {
    |v| == |geo.disks| && forall d | 0 <= d < |v| :: |v[d]| == geo.disks[d].sectors
  }

  /** First sector of a 32 KB location. */
  function Off(geo: Geometry, d: nat, loc: nat): nat
    requires d < |geo.disks|
  {
    loc * geo.disks[d].s32
  }

  /** Sectors of a location; fewer at the end of the disk. */
  function BlockLen(geo: Geometry, d: nat, loc: nat): (r: nat)
    requires OnDisk(geo, d, loc)
    ensures r <= geo.disks[d].s32 && Off(geo, d, loc) + r <= geo.disks[d].sectors
  {
    if Off(geo, d, loc) + geo.disks[d].s32 > geo.disks[d].sectors then geo.disks[d].sectors - Off(geo, d, loc)
    else geo.disks[d].s32
  }

  function Stretch(geo: Geometry, v: Disks, d: nat, loc: nat): (r: seq<Sector>)
    requires FitsDisks(geo, v) && OnDisk(geo, d, loc)
    ensures |r| == BlockLen(geo, d, loc)
  {
    v[d][Off(geo, d, loc)..Off(geo, d, loc) + BlockLen(geo, d, loc)]
  }

  /** Every cached block holds exactly its location's sectors. */
  ghost predicate Coherent(geo: Geometry, t: Table, c: seq<seq<Sector>>, v: Disks)
    requires FitsDisks(geo, v) && Placed(geo, t)
  {
    |c| == |t| && forall b: nat | Used(t, b) :: c[b] == Stretch(geo, v, t[b].disk.value, t[b].loc)
  }

  /** The disks after a write. */
  function Put(v: Disks, d: nat, pos: nat, buf: seq<Sector>): (w: Disks)
    requires d < |v| && pos + |buf| <= |v[d]|
    ensures |w| == |v| && forall e | 0 <= e < |v| :: |w[e]| == |v[e]|
  {
    v[d := v[d][..pos] + buf + v[d][pos + |buf|..]]
  }

  /** The disks after a write that lies on a disk. */
  ghost function Overwritten(v: Disks, d: nat, pos: nat, buf: seq<Sector>): Disks {
    if d < |v| && pos + |buf| <= |v[d]| then Put(v, d, pos, buf) else v
  }

  lemma PutAt(v: Disks, d: nat, pos: nat, buf: seq<Sector>, e: nat, k: nat)
    requires d < |v| && pos + |buf| <= |v[d]| && e < |v| && k < |v[e]|
    ensures Put(v, d, pos, buf)[e][k] == if e == d && pos <= k < pos + |buf| then buf[k - pos] else v[e][k]
  {
  }

  lemma OffApart(geo: Geometry, d: nat, a: nat, b: nat)
    requires d < |geo.disks| && a < b
    ensures Off(geo, d, a) + geo.disks[d].s32 <= Off(geo, d, b)
  {
    MulMono(a + 1, b, geo.disks[d].s32);
  }

  /** A write inside one location leaves all others alone. */
  lemma OtherStretch(geo: Geometry, v: Disks, d: nat, loc: nat, cpos: nat, buf: seq<Sector>, e: nat, other: nat)
    requires FitsDisks(geo, v) && OnDisk(geo, d, loc) && OnDisk(geo, e, other) && cpos + |buf| <= BlockLen(geo, d, loc)
    requires e != d || other != loc
    ensures Off(geo, d, loc) + cpos + |buf| <= |v[d]| && FitsDisks(geo, Put(v, d, Off(geo, d, loc) + cpos, buf))
    ensures Stretch(geo, Put(v, d, Off(geo, d, loc) + cpos, buf), e, other) == Stretch(geo, v, e, other)
  {
    if e == d && other < loc { OffApart(geo, d, other, loc); }
    if e == d && loc < other { OffApart(geo, d, loc, other); }
    hide Off, OnDisk;
    var w := Put(v, d, Off(geo, d, loc) + cpos, buf);
    forall k | 0 <= k < BlockLen(geo, e, other)
      ensures Stretch(geo, w, e, other)[k] == Stretch(geo, v, e, other)[k]
    {
      PutAt(v, d, Off(geo, d, loc) + cpos, buf, e, Off(geo, e, other) + k);
    }
  }

  /** The location itself takes the new sectors. */
  lemma OwnStretch(geo: Geometry, v: Disks, d: nat, loc: nat, cpos: nat, buf: seq<Sector>)
    requires FitsDisks(geo, v) && OnDisk(geo, d, loc) && cpos + |buf| <= BlockLen(geo, d, loc)
    ensures Off(geo, d, loc) + cpos + |buf| <= |v[d]| && FitsDisks(geo, Put(v, d, Off(geo, d, loc) + cpos, buf))
    ensures var s := Stretch(geo, v, d, loc);
            Stretch(geo, Put(v, d, Off(geo, d, loc) + cpos, buf), d, loc) == s[..cpos] + buf + s[cpos + |buf|..]
  {
    assert d < |geo.disks|;
    hide Off, OnDisk, BlockLen;
    var o := Off(geo, d, loc);
    var s := Stretch(geo, v, d, loc);
    var w := Put(v, d, o + cpos, buf);
    OwnPieces(v[d], o, |s|, cpos, buf);
    assert Stretch(geo, w, d, loc) == w[d][o..o + |s|];
  }

  /** The three pieces of a stretch that is partly replaced: before, inside and behind the new sectors. */
  lemma OwnPieces(s: seq<Sector>, o: nat, n: nat, cpos: nat, buf: seq<Sector>)
    requires o + n <= |s| && cpos + |buf| <= n
    ensures var r, a := s[..o + cpos] + buf + s[o + cpos + |buf|..], s[o..o + n];
            o + n <= |r| && r[o..o + n] == a[..cpos] + buf + a[cpos + |buf|..]
  {
    var r, a := s[..o + cpos] + buf + s[o + cpos + |buf|..], s[o..o + n];
    var x, y := r[o..o + n], a[..cpos] + buf + a[cpos + |buf|..];
    forall k: nat | k < n
      ensures x[k] == y[k]
    {
      if k < cpos {
        assert x[k] == s[o + k] == a[k];
      } else if k < cpos + |buf| {
        assert x[k] == buf[k - cpos];
      } else {
        assert x[k] == s[o + k] == a[k];
      }
    }
  }

  /** A write leaves the locations it does not reach alone. */
  lemma StretchOutside(geo: Geometry, v: Disks, d: nat, pos: nat, buf: seq<Sector>, e: nat, loc: nat)
    requires FitsDisks(geo, v) && d < |v| && pos + |buf| <= |v[d]| && OnDisk(geo, e, loc)
    requires e != d || Off(geo, e, loc) + BlockLen(geo, e, loc) <= pos || pos + |buf| <= Off(geo, e, loc)
    ensures FitsDisks(geo, Put(v, d, pos, buf)) && Stretch(geo, Put(v, d, pos, buf), e, loc) == Stretch(geo, v, e, loc)
  {
    assert e < |geo.disks|;
    hide Off, OnDisk, BlockLen;
    var w := Put(v, d, pos, buf);
    forall k | 0 <= k < BlockLen(geo, e, loc)
      ensures Stretch(geo, w, e, loc)[k] == Stretch(geo, v, e, loc)[k]
    {
      PutAt(v, d, pos, buf, e, Off(geo, e, loc) + k);
    }
  }

  /** Cached blocks that hold sectors the disks do not hold any more. */
  ghost predicate Outdated(geo: Geometry, t: Table, v: Disks, w: Disks)
    requires FitsDisks(geo, v) && FitsDisks(geo, w) && Placed(geo, t)
  {
    exists b: nat :: Used(t, b)
      && Stretch(geo, w, t[b].disk.value, t[b].loc) != Stretch(geo, v, t[b].disk.value, t[b].loc)
  }

  /** Disks that change behind the back of the cache leave it coherent exactly if no cached block is outdated. */
  lemma CoherentIff(geo: Geometry, t: Table, c: seq<seq<Sector>>, v: Disks, w: Disks)
    requires FitsDisks(geo, v) && FitsDisks(geo, w) && Placed(geo, t) && Coherent(geo, t, c, v)
    ensures Coherent(geo, t, c, w) <==> !Outdated(geo, t, v, w)
  {
    hide Stretch, OnDisk;
  }

  // ----- coherence through the operations -----

  /** Fewer blocks with the same tags. */
  ghost predicate Subset(t: Table, u: Table) {
    |t| == |u| && forall b: nat | Used(u, b) :: Used(t, b) && u[b].disk == t[b].disk && u[b].loc == t[b].loc
  }

  lemma CoherentSubset(geo: Geometry, t: Table, u: Table, c: seq<seq<Sector>>, v: Disks)
    requires FitsDisks(geo, v) && Placed(geo, t) && Placed(geo, u) && Coherent(geo, t, c, v) && Subset(t, u)
    ensures Coherent(geo, u, c, v)
  {
    hide Stretch, OnDisk;
  }

  lemma CoherentAdd(geo: Geometry, t: Table, u: Table, c: seq<seq<Sector>>, v: Disks, b: nat, d: nat, loc: nat,
      data: seq<Sector>)
    requires FitsDisks(geo, v) && Placed(geo, t) && Placed(geo, u) && Coherent(geo, t, c, v)
    requires Tagged(t, u, b, d, loc) && OnDisk(geo, d, loc) && data == Stretch(geo, v, d, loc)
    ensures b < |c| && Coherent(geo, u, c[b := data], v)
  {
    hide Stretch, OnDisk;
  }

  lemma CoherentWrite(geo: Geometry, t: Table, c: seq<seq<Sector>>, v: Disks, b: nat, d: nat, loc: nat, cpos: nat,
      buf: seq<Sector>)
    requires FitsDisks(geo, v) && Placed(geo, t) && Coherent(geo, t, c, v) && At(t, b, d, loc) && OnDisk(geo, d, loc)
    requires cpos + |buf| <= BlockLen(geo, d, loc)
    ensures b < |c| && |c[b]| == BlockLen(geo, d, loc) && Off(geo, d, loc) + cpos + |buf| <= |v[d]|
    ensures FitsDisks(geo, Put(v, d, Off(geo, d, loc) + cpos, buf))
    ensures Coherent(geo, t, c[b := c[b][..cpos] + buf + c[b][cpos + |buf|..]], Put(v, d, Off(geo, d, loc) + cpos, buf))
  {
    OwnStretch(geo, v, d, loc, cpos, buf);
    CoherentOthers(geo, t, c, v, b, d, loc, cpos, buf);
    hide Stretch, OnDisk, Off, BlockLen, Put;
  }

  lemma CoherentOthers(geo: Geometry, t: Table, c: seq<seq<Sector>>, v: Disks, b: nat, d: nat, loc: nat, cpos: nat,
      buf: seq<Sector>)
    requires FitsDisks(geo, v) && Placed(geo, t) && Coherent(geo, t, c, v) && (Used(t, b) ==> At(t, b, d, loc))
      && OnDisk(geo, d, loc)
    requires cpos + |buf| <= BlockLen(geo, d, loc) && forall x: nat :: At(t, x, d, loc) ==> x == b
    ensures Off(geo, d, loc) + cpos + |buf| <= |v[d]| && FitsDisks(geo, Put(v, d, Off(geo, d, loc) + cpos, buf))
    ensures forall x: nat | Used(t, x) && x != b ::
      c[x] == Stretch(geo, Put(v, d, Off(geo, d, loc) + cpos, buf), t[x].disk.value, t[x].loc)
  {
    OwnStretch(geo, v, d, loc, cpos, buf);
    hide Stretch, OnDisk, Off, BlockLen, Put;
    forall x: nat | Used(t, x) && x != b
      ensures c[x] == Stretch(geo, Put(v, d, Off(geo, d, loc) + cpos, buf), t[x].disk.value, t[x].loc)
    {
      assert !At(t, x, d, loc);
      OtherStretch(geo, v, d, loc, cpos, buf, t[x].disk.value, t[x].loc);
    }
  }

  /** A write to a location that is not cached needs no update. */
  lemma CoherentMiss(geo: Geometry, t: Table, c: seq<seq<Sector>>, v: Disks, d: nat, loc: nat, cpos: nat,
      buf: seq<Sector>)
    requires FitsDisks(geo, v) && Placed(geo, t) && Coherent(geo, t, c, v) && OnDisk(geo, d, loc)
    requires cpos + |buf| <= BlockLen(geo, d, loc) && forall x: nat :: !At(t, x, d, loc)
    ensures Off(geo, d, loc) + cpos + |buf| <= |v[d]| && FitsDisks(geo, Put(v, d, Off(geo, d, loc) + cpos, buf))
    ensures Coherent(geo, t, c, Put(v, d, Off(geo, d, loc) + cpos, buf))
  {
    OwnStretch(geo, v, d, loc, cpos, buf);
    hide Stretch, OnDisk, Off, BlockLen, Put;
    CoherentOthers(geo, t, c, v, |t|, d, loc, cpos, buf);
  }
}
