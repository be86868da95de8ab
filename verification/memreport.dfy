/** The ranges of memory the firmware reports, as hlp_basemem takes them over. */
module MemoryReport {
  import opened Machine

  const PAGE: nat := 0x1000
  const KB256: nat := 0x4_0000
  const MB: nat := 0x10_0000
  const MB16: nat := 0x100_0000

  /** A reported range, both ends included. */
  datatype Range = Range(start: u32, end: u32)

  /** An entry of usable memory from int 15h, function E820h. */
  datatype AcpiInfo = AcpiInfo(base: u32, baseHigh: u32, len: u32, lenHigh: u32)

  ghost predicate In(x: int, r: Range) {
    r.start <= x <= r.end
  }

  ghost predicate InUnion(ma: seq<Range>, x: int) {
    exists i :: 0 <= i < |ma| && In(x, ma[i])
  }

  ghost predicate Proper(ma: seq<Range>) {
    ma != [] && forall i | 0 <= i < |ma| :: ma[i].start < ma[i].end
  }

  // ----- the filter -----

  function Sum32(a: u32, b: u32): u32 {
    (a + b) % 0x1_0000_0000
  }

  /** Entries of at least 256 KB from 1 MB on, before anything is cut off at 4 GB. */
  ghost predicate Taken(e: AcpiInfo) {
    e.baseHigh == 0 && e.base >= MB && (e.lenHigh != 0 || e.len >= KB256)
  }

  /** Entries that reach 4 GB. */
  ghost predicate Overflows(e: AcpiInfo) {
    e.lenHigh != 0 || e.base + e.len >= 0x1_0000_0000
  }

  /** The entry as it is left in the buffer; 4 GB is 0 in 32 bits. */
  ghost function Cut(e: AcpiInfo): AcpiInfo {
    if e.baseHigh != 0 || e.base < MB then e
    else
      var f := if e.lenHigh != 0 then e.(len := 0xFFFF_F000, lenHigh := 0) else e;
      if f.len < KB256 then f
      else if Sum32(f.base, f.len) < f.base then f.(len := (0xFFFF_F000 - f.base) % 0x1_0000_0000)
      else f
  }

  ghost function RangeOf(e: AcpiInfo): Range {
    Range(e.base, (e.base + Cut(e).len - 1) % 0x1_0000_0000)
  }

  ghost function AcpiRanges(es: seq<AcpiInfo>): (r: seq<Range>)
    ensures |r| <= |es|
  {
    if es == [] then []
    else AcpiRanges(es[..|es| - 1]) + if Taken(es[|es| - 1]) then [RangeOf(es[|es| - 1])] else []
  }

  /** Memory between 1 MB and 64 MB as the older calls report it. */
  ghost function Range88(m88: u16): Range {
    Range(0x10_0000, m88 * 0x400 + 0xF_FFFF)
  }

  ghost function RangeE8(e8: u16): Range {
    Range(0x100_0000, (e8 * 0x1_0000 + 0xFF_FFFF) % 0x1_0000_0000)
  }

  ghost function OldRanges(m88: u16, e8: u16): (r: seq<Range>)
    ensures |r| <= 2
  {
    (if m88 != 0 then [Range88(m88)] else []) + if e8 != 0 then [RangeE8(e8)] else []
  }

  ghost function LowRange(int12: u16): Range {
    Range(0, (int12 * 0x400 - 1) % 0x1_0000_0000)
  }

  /** Lower memory and what was found above it. */
  ghost function Reports(int12: u16, es: seq<AcpiInfo>, m88: u16, e8: u16): (ma: seq<Range>)
    ensures 0 < |ma| <= 1 + if es == [] then 2 else |es|
  {
    [LowRange(int12)] + if es != [] then AcpiRanges(es) else OldRanges(m88, e8)
  }

  ghost function CutAll(es: seq<AcpiInfo>): (r: seq<AcpiInfo>)
    ensures |r| == |es| && forall i :: 0 <= i < |es| ==> r[i] == Cut(es[i])
  {
    seq(|es|, i requires 0 <= i < |es| => Cut(es[i]))
  }

  /** One E820 entry: cuts it in the buffer and appends its range. */
  method TakeEntry(acpi: array<AcpiInfo>, ii: nat, ma: array<Range>, fcount: nat) returns (n: nat)
    requires ii < acpi.Length && fcount + 1 < ma.Length
    modifies acpi, ma
    ensures acpi[..] == old(acpi[..])[ii := Cut(old(acpi[ii]))]
    ensures var e := old(acpi[ii]);
            && n == fcount + (if Taken(e) then 1 else 0)
            && (Taken(e) ==> ma[n] == RangeOf(e))
            && forall k | 0 <= k <= fcount :: ma[k] == old(ma[k])
  {
    n := fcount;
    var e := acpi[ii];
    if e.baseHigh != 0 || e.base < MB {
      return;
    }
    if acpi[ii].lenHigh != 0 {
      acpi[ii] := acpi[ii].(len := 0xFFFF_F000, lenHigh := 0);
    }
    if acpi[ii].len < KB256 {
      return;
    }
    if Sum32(acpi[ii].base, acpi[ii].len) < acpi[ii].base {
      acpi[ii] := acpi[ii].(len := (0xFFFF_F000 - acpi[ii].base) % 0x1_0000_0000);
    }
    n := n + 1;
    ma[n] := Range(acpi[ii].base, (acpi[ii].base + acpi[ii].len - 1) % 0x1_0000_0000);
  }

  /** The first part of hlp_basemem; fcount is the index of the last range. */
  method FindRanges(int12: u16, acpi: array<AcpiInfo>, count: nat, m88: u16, e8: u16, ma: array<Range>)
    returns (fcount: nat)
    requires count <= acpi.Length && count < ma.Length && 2 < ma.Length
    modifies acpi, ma
    ensures fcount < ma.Length && ma[..fcount + 1] == Reports(int12, old(acpi[..count]), m88, e8)
    ensures acpi[..count] == CutAll(old(acpi[..count]))
  {
    hide Cut, RangeOf, Taken, AcpiRanges;
    fcount := 0;
    ma[0] := Range(0, (int12 * 0x400 - 1) % 0x1_0000_0000);
    ghost var es := acpi[..count];
    if count != 0 {
      NoEntries();
      for ii := 0 to count
        invariant fcount <= ii && ma[..fcount + 1] == [LowRange(int12)] + AcpiRanges(es[..ii])
        invariant forall k | 0 <= k < ii :: acpi[k] == Cut(es[k])
        invariant forall k | ii <= k < count :: acpi[k] == es[k]
      {
        NextEntry(es, ii);
        ghost var got := ma[..fcount + 1];
        var n := TakeEntry(acpi, ii, ma, fcount);
        assert ma[..fcount + 1] == got;
        assert ma[..n + 1] == got + if Taken(es[ii]) then [RangeOf(es[ii])] else [];
        fcount := n;
      }
      assert es[..count] == es;
    } else {
      if m88 != 0 {
        fcount := fcount + 1;
        ma[fcount] := Range(MB, m88 * 0x400 + MB - 1);
      }
      if e8 != 0 {
        fcount := fcount + 1;
        ma[fcount] := Range(MB16, (e8 * 0x1_0000 + MB16 - 1) % 0x1_0000_0000);
      }
    }
  }

  /** The sizes the older calls report: kilobytes from 0 and from 1 MB on, units of 64 KB from 16 MB on. */
  lemma ReportedSizes(int12: u16, m88: u16, e8: u16)
    ensures int12 > 0 ==> LowRange(int12).start == 0 && LowRange(int12).end + 1 == 1024 * int12
    ensures Range88(m88).start == 1024 * 1024 && Range88(m88).end + 1 - Range88(m88).start == 1024 * m88
    ensures e8 <= 0xFF00 ==>
      RangeE8(e8).start == 16 * 1024 * 1024 && RangeE8(e8).end + 1 - RangeE8(e8).start == 64 * 1024 * e8
  {
  }

  lemma NoEntries()
    ensures AcpiRanges([]) == []
  {
  }

  lemma NextEntry(es: seq<AcpiInfo>, ii: nat)
    requires ii < |es|
    ensures AcpiRanges(es[..ii + 1]) == AcpiRanges(es[..ii]) + if Taken(es[ii]) then [RangeOf(es[ii])] else []
  {
    assert es[..ii + 1][..ii] == es[..ii];
  }

  // ----- which reports are well formed -----

  /**
   * An entry that reaches 4 GB ends one page below, since the size is looked at before it is cut: it is in order
   * exactly if it starts below 0xFFFFEFFF, and keeps two pages exactly if it starts at 0xFFFFD000 at the latest.
   */
  lemma OverflowRange(e: AcpiInfo)
    requires Taken(e) && Overflows(e)
    ensures RangeOf(e) == Range(e.base, 0xFFFF_EFFF)
    ensures RangeOf(e).start < RangeOf(e).end <==> e.base < 0xFFFF_EFFF
    ensures RangeOf(e).start + 2 * PAGE <= RangeOf(e).end + 1 <==> e.base <= 0xFFFF_D000
  {
    var b: int := e.base;
    assert (b + (0xFFFF_F000 - b) % 0x1_0000_0000 - 1) % 0x1_0000_0000 == 0xFFFF_EFFF;
  }

  lemma PlainRange(e: AcpiInfo)
    requires Taken(e) && !Overflows(e)
    ensures RangeOf(e).start == e.base && RangeOf(e).start + KB256 <= RangeOf(e).end + 1 && RangeOf(e).end < 0xFFFF_FFFF
  {
  }

  /** No entry that reaches 4 GB starts at top or above, and without entries the E801h value does not wrap around. */
  ghost predicate StartsBelow(es: seq<AcpiInfo>, e8: u16, top: u32) {
    if es == [] then e8 <= 0xFF00 else forall e | e in es && Taken(e) && Overflows(e) :: e.base < top
  }

  lemma {:induction false} TakenRanges(es: seq<AcpiInfo>)
    ensures forall r | r in AcpiRanges(es) :: exists e :: e in es && Taken(e) && r == RangeOf(e)
    ensures forall e | e in es && Taken(e) :: RangeOf(e) in AcpiRanges(es)
  {
    if es != [] {
      var front, last := es[..|es| - 1], es[|es| - 1];
      TakenRanges(front);
      assert es == front + [last];
      hide Taken, RangeOf;
      forall r | r in AcpiRanges(es)
        ensures exists e :: e in es && Taken(e) && r == RangeOf(e)
      {
        if r in AcpiRanges(front) {
          var e :| e in front && Taken(e) && r == RangeOf(e);
          assert e in es;
        } else {
          assert last in es;
        }
      }
    }
  }

  lemma RangeInOrder(e: AcpiInfo)
    requires Taken(e)
    ensures RangeOf(e).start < RangeOf(e).end <==> (Overflows(e) ==> e.base < 0xFFFF_EFFF)
  {
    if Overflows(e) { OverflowRange(e); } else { PlainRange(e); }
  }

  lemma OldInOrder(m88: u16, e8: u16)
    ensures m88 != 0 ==> Range88(m88).start < Range88(m88).end
    ensures e8 != 0 ==> (RangeE8(e8).start < RangeE8(e8).end <==> e8 <= 0xFF00)
    ensures LowRange(m88).start < LowRange(m88).end
  {
  }

  lemma ProperAll(ma: seq<Range>)
    ensures Proper(ma) <==> ma != [] && forall r | r in ma :: r.start < r.end
  {
    if ma != [] && Proper(ma) {
      forall r | r in ma
        ensures r.start < r.end
      {
        var i :| 0 <= i < |ma| && ma[i] == r;
      }
    }
    if ma != [] && forall r | r in ma :: r.start < r.end {
      forall i | 0 <= i < |ma|
        ensures ma[i].start < ma[i].end
      {
        assert ma[i] in ma;
      }
    }
  }

  /** All reported ranges are in order exactly if no entry is cut to less than two bytes. */
  lemma ProperIff(int12: u16, es: seq<AcpiInfo>, m88: u16, e8: u16)
    ensures Proper(Reports(int12, es, m88, e8)) <==> StartsBelow(es, e8, 0xFFFF_EFFF)
  {
    var ma := Reports(int12, es, m88, e8);
    ProperAll(ma);
    OldInOrder(int12, 0);
    OldInOrder(m88, e8);
    assert LowRange(int12) in ma;
    if es == [] {
      assert e8 != 0 ==> RangeE8(e8) in ma;
      hide LowRange, Range88, RangeE8;
    } else {
      TakenRanges(es);
      hide LowRange, RangeOf, Taken, Overflows, AcpiRanges;
      if StartsBelow(es, e8, 0xFFFF_EFFF) {
        forall r | r in AcpiRanges(es)
          ensures r.start < r.end
        {
          var e :| e in es && Taken(e) && r == RangeOf(e);
          RangeInOrder(e);
        }
      } else {
        var e :| e in es && Taken(e) && Overflows(e) && e.base >= 0xFFFF_EFFF;
        RangeInOrder(e);
        assert RangeOf(e) in ma;
      }
    }
  }

  /** The borders above 1 MB: everything but the low range lies there, and nothing ends at address 0. */
  lemma HighBorders(int12: u16, es: seq<AcpiInfo>, m88: u16, e8: u16, i: nat)
    requires i < |Reports(int12, es, m88, e8)|
    ensures var ma := Reports(int12, es, m88, e8);
            && ma[0] == LowRange(int12) && ma[0].start == 0 < ma[0].end
            && (i > 0 ==> ma[i].start >= MB && ma[i].end > 0)
  {
    var ma := Reports(int12, es, m88, e8);
    if i > 0 && es != [] {
      TakenRanges(es);
      assert ma[i] in AcpiRanges(es);
      var e :| e in es && Taken(e) && ma[i] == RangeOf(e);
      if Overflows(e) { OverflowRange(e); } else { PlainRange(e); }
    }
  }

  /** Ranges in order start no later than in the last page but one. */
  lemma ProperStarts(int12: u16, es: seq<AcpiInfo>, m88: u16, e8: u16, i: nat)
    requires i < |Reports(int12, es, m88, e8)| && StartsBelow(es, e8, 0xFFFF_EFFF)
    ensures Reports(int12, es, m88, e8)[i].start <= 0xFFFF_F000
  {
    var ma := Reports(int12, es, m88, e8);
    if i > 0 && es != [] {
      TakenRanges(es);
      assert ma[i] in AcpiRanges(es);
      var e :| e in es && Taken(e) && ma[i] == RangeOf(e);
      if Overflows(e) { OverflowRange(e); } else { PlainRange(e); }
    }
  }

  /** Ranges above 1 MB have two pages if the entries start early enough and the older call gives 8 KB. */
  lemma LongRanges(int12: u16, es: seq<AcpiInfo>, m88: u16, e8: u16, i: nat)
    requires 0 < i < |Reports(int12, es, m88, e8)| && StartsBelow(es, e8, 0xFFFF_D001)
    requires es == [] ==> m88 == 0 || m88 >= 8
    ensures Reports(int12, es, m88, e8)[i].start + 2 * PAGE <= Reports(int12, es, m88, e8)[i].end + 1
  {
    var ma := Reports(int12, es, m88, e8);
    if es != [] {
      TakenRanges(es);
      assert ma[i] in AcpiRanges(es);
      var e :| e in es && Taken(e) && ma[i] == RangeOf(e);
      if Overflows(e) { OverflowRange(e); } else { PlainRange(e); }
    }
  }
}
