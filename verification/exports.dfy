/** Lookup of module exports by ordinal, with forwarders resolved in place. */
module Exports {
  import opened Machine

  datatype Entry = Entry(address: u32, direct: u32, is16: bool, sel: u16, forward: u16)

  class Export {
    const ordinal: u16
    const home: Module
    var entry: Entry

    constructor (m: Module, ord: u16, e: Entry)
      ensures home == m && ordinal == ord && entry == e
    {
      home, ordinal, entry := m, ord, e;
    }
  }

  class Module {
    var exps: seq<Export>
    var impmod: seq<Module?>

    constructor ()
      ensures exps == [] && impmod == []
    {
      exps, impmod := [], [];
    }
  }

  // ----- the export graph as a value -----

  datatype Links = Links(exps: seq<Export>, impmod: seq<Module?>)
  type Graph = map<Module, Links>
  type State = map<Export, Entry>

  ghost predicate Known(g: Graph, m: Module?) {
    m == null || m in g
  }

  /** Every export belongs to one module of the graph, and every forwarder names one of its imports. */
  ghost predicate Linked(g: Graph, st: State) {
    && (forall m | m in g :: (forall i | 0 <= i < |g[m].exps| :: g[m].exps[i] in st && g[m].exps[i].home == m)
                          && (forall i | 0 <= i < |g[m].impmod| :: Known(g, g[m].impmod[i])))
    && (forall e | e in st :: e.home in g && st[e].forward as int <= |g[e.home].impmod|)
  }

  /** The first export with this ordinal. */
  ghost function First(exps: seq<Export>, ordinal: u16): Export? {
    if exps == [] then null else if exps[0].ordinal == ordinal then exps[0] else First(exps[1..], ordinal)
  }

  /** The result has the ordinal asked for and no export before it has; without one there is none. */
  lemma {:induction false} FirstIs(exps: seq<Export>, ordinal: u16)
    ensures First(exps, ordinal) == null <==> forall i :: 0 <= i < |exps| ==> exps[i].ordinal != ordinal
    ensures First(exps, ordinal) != null ==>
      exists i :: 0 <= i < |exps| && exps[i] == First(exps, ordinal) && exps[i].ordinal == ordinal
                  && forall j :: 0 <= j < i ==> exps[j].ordinal != ordinal
  {
    if exps != [] {
      FirstIs(exps[1..], ordinal);
      if exps[0].ordinal != ordinal {
        assert forall i :: 1 <= i < |exps| ==> exps[i] == exps[1..][i - 1];
        if First(exps[1..], ordinal) != null {
          var i :| 0 <= i < |exps[1..]| && exps[1..][i] == First(exps[1..], ordinal) && exps[1..][i].ordinal == ordinal
            && forall j :: 0 <= j < i ==> exps[1..][j].ordinal != ordinal;
          assert exps[i + 1] == First(exps, ordinal);
          forall j | 0 <= j < i + 1
            ensures exps[j].ordinal != ordinal
          {
            if j > 0 { assert exps[j] == exps[1..][j - 1]; }
          }
        }
      }
    }
  }

  ghost function Find(g: Graph, m: Module?, ordinal: u16): Export?
    requires Known(g, m)
  {
    if m == null then null else First(g[m].exps, ordinal)
  }

  ghost predicate Forwards(st: State, e: Export) {
    e in st && st[e].forward != 0
  }

  /** The export a forwarder stands for. */
  ghost function Next(g: Graph, st: State, e: Export): Export?
    requires Linked(g, st) && Forwards(st, e)
  {
    Find(g, g[e.home].impmod[st[e].forward - 1], st[e].address % 0x1_0000)
  }

  ghost predicate Step(g: Graph, st: State, e: Export, f: Export)
    requires Linked(g, st)
  {
    Forwards(st, e) && Next(g, st, e) == f
  }

  /** The path of forwarders from its first export to an actual one. */
  ghost predicate Path(g: Graph, st: State, older p: seq<Export>)
    requires Linked(g, st)
  {
    && p != []
    && (forall i | 0 <= i < |p| :: p[i] in st)
    && (forall i | 0 <= i < |p| - 1 :: Step(g, st, p[i], p[i + 1]))
    && !Forwards(st, p[|p| - 1])
  }

  ghost function Last(p: seq<Export>): Export
    requires p != []
  {
    p[|p| - 1]
  }

  /** What a resolved export tells its user. */
  ghost predicate SameValue(a: Entry, b: Entry) {
    a.is16 == b.is16 && a.address == b.address && a.sel == b.sel
  }

  function Resolved(e: Entry, final: Entry): Entry {
    Entry(final.address, e.direct, final.is16, final.sel, 0)
  }

  /** All forwarders on the path now hold the values at its end. */
  ghost function Compress(st: State, p: seq<Export>): State
    requires p != [] && forall i | 0 <= i < |p| :: p[i] in st
  {
    map e | e in st :: if e in p[..|p| - 1] then Resolved(st[e], st[Last(p)]) else st[e]
  }

  // ----- paths -----

  lemma TailIsPath(g: Graph, st: State, p: seq<Export>, i: nat)
    requires Linked(g, st) && Path(g, st, p) && i < |p|
    ensures Path(g, st, p[i..]) && Last(p[i..]) == Last(p)
  {
    hide Step, Forwards;
    forall k | 0 <= k < |p[i..]| - 1
      ensures Step(g, st, p[i..][k], p[i..][k + 1])
    {
      assert Step(g, st, p[i + k], p[i + k + 1]);
    }
  }

  lemma OneStop(g: Graph, st: State, p: seq<Export>)
    requires Linked(g, st) && Path(g, st, p)
    ensures |p| == 1 <==> !Forwards(st, p[0])
  {
    assert |p| > 1 ==> Step(g, st, p[0], p[1]);
  }

  /** An export has at most one path. */
  lemma {:induction false} PathUnique(g: Graph, st: State, p: seq<Export>, q: seq<Export>)
    requires Linked(g, st) && Path(g, st, p) && Path(g, st, q) && p[0] == q[0]
    ensures p == q
    decreases |p|
  {
    if |p| == 1 || |q| == 1 {
      OneStop(g, st, p);
      OneStop(g, st, q);
    } else {
      assert Step(g, st, p[0], p[1]) && Step(g, st, q[0], q[1]);
      TailIsPath(g, st, p, 1);
      TailIsPath(g, st, q, 1);
      PathUnique(g, st, p[1..], q[1..]);
      assert p == [p[0]] + p[1..] && q == [q[0]] + q[1..];
    }
  }

  /** A path never comes back to an export. */
  lemma PathDistinct(g: Graph, st: State, p: seq<Export>, i: nat, j: nat)
    requires Linked(g, st) && Path(g, st, p) && i < j < |p|
    ensures p[i] != p[j]
  {
    if p[i] == p[j] {
      TailIsPath(g, st, p, i);
      TailIsPath(g, st, p, j);
      PathUnique(g, st, p[i..], p[j..]);
    }
  }

  lemma Extend(g: Graph, st: State, e: Export, p: seq<Export>)
    requires Linked(g, st) && Path(g, st, p) && e in st && Step(g, st, e, p[0])
    ensures Path(g, st, [e] + p) && Last([e] + p) == Last(p)
  {
    hide Step, Forwards;
    var q := [e] + p;
    forall i | 0 <= i < |q| - 1
      ensures Step(g, st, q[i], q[i + 1])
    {
      if i > 0 { assert Step(g, st, p[i - 1], p[i]); }
    }
  }

  /** A run of forwarders, not necessarily ending anywhere. */
  ghost predicate Run(g: Graph, st: State, c: seq<Export>)
    requires Linked(g, st)
  {
    c != [] && (forall i | 0 <= i < |c| - 1 :: Step(g, st, c[i], c[i + 1])) && Forwards(st, Last(c))
  }

  lemma {:induction false} PathFollows(g: Graph, st: State, p: seq<Export>, c: seq<Export>, i: nat)
    requires Linked(g, st) && Path(g, st, p) && Run(g, st, c) && p[0] == c[0] && i < |c|
    ensures i < |p| && p[i] == c[i]
  {
    if i > 0 {
      PathFollows(g, st, p, c, i - 1);
      assert Step(g, st, c[i - 1], c[i]);
      assert i < |p| ==> Step(g, st, p[i - 1], p[i]);
    }
  }

  /** A forwarder that leads back to an earlier one, or to an export that does not exist, has no path. */
  lemma NoWayOut(g: Graph, st: State, p: seq<Export>, c: seq<Export>, back: nat)
    requires Linked(g, st) && Run(g, st, c) && back < |c|
    requires Next(g, st, Last(c)) == c[back] || Next(g, st, Last(c)) == null
    requires Path(g, st, p)
    ensures p[0] != c[0]
  {
    if p[0] == c[0] {
      var n := |c| - 1;
      PathFollows(g, st, p, c, n);
      PathFollows(g, st, p, c, back);
      assert n < |p| - 1 ==> Step(g, st, p[n], p[n + 1]);
      PathDistinct(g, st, p, back, n + 1);
    }
  }

  // ----- path compression keeps every answer -----

  lemma CompressedAt(st: State, p: seq<Export>, e: Export)
    requires p != [] && (forall i | 0 <= i < |p| :: p[i] in st) && e in st
    ensures Compress(st, p).Keys == st.Keys
    ensures Compress(st, p)[e] == if e in p[..|p| - 1] then Resolved(st[e], st[Last(p)]) else st[e]
  {
  }

  lemma CompressLinked(g: Graph, st: State, p: seq<Export>)
    requires Linked(g, st) && Path(g, st, p)
    ensures Linked(g, Compress(st, p))
  {
    assert Compress(st, p).Keys == st.Keys;
    forall e | e in st
      ensures Compress(st, p)[e].forward <= st[e].forward
    {
      CompressedAt(st, p, e);
    }
  }

  lemma CompressStep(g: Graph, st: State, p: seq<Export>, e: Export, f: Export)
    requires Linked(g, st) && Path(g, st, p) && Linked(g, Compress(st, p)) && e in st
    ensures Step(g, Compress(st, p), e, f) <==> e !in p[..|p| - 1] && Step(g, st, e, f)
  {
    CompressedAt(st, p, e);
  }

  lemma CompressFinal(g: Graph, st: State, p: seq<Export>, e: Export)
    requires Linked(g, st) && Path(g, st, p) && e in st
    ensures !Forwards(Compress(st, p), e) <==> e in p || !Forwards(st, e)
    ensures e in p ==> SameValue(Compress(st, p)[e], st[Last(p)])
  {
    CompressedAt(st, p, e);
    if e in p && e !in p[..|p| - 1] {
      assert forall k | 0 <= k < |p| - 1 :: p[..|p| - 1][k] == p[k];
    }
    if e in p[..|p| - 1] { assert e in p; }
  }

  /** Every answer before is the answer afterwards. */
  lemma {:induction false} AnswerKept(g: Graph, st: State, p: seq<Export>, q: seq<Export>) returns (r: seq<Export>)
    requires Linked(g, st) && Path(g, st, p) && Path(g, st, q)
    ensures Linked(g, Compress(st, p)) && Path(g, Compress(st, p), r)
    ensures r[0] == q[0] && SameValue(Compress(st, p)[Last(r)], st[Last(q)])
    decreases |q|
  {
    CompressLinked(g, st, p);
    CompressFinal(g, st, p, q[0]);
    if q[0] in p {
      var i :| 0 <= i < |p| && p[i] == q[0];
      TailIsPath(g, st, p, i);
      PathUnique(g, st, p[i..], q);
      r := [q[0]];
    } else if |q| == 1 {
      CompressedAt(st, p, q[0]);
      r := q;
    } else {
      TailIsPath(g, st, q, 1);
      r := AnswerKept(g, st, p, q[1..]);
      assert Step(g, st, q[0], q[1]);
      CompressStep(g, st, p, q[0], q[1]);
      Extend(g, Compress(st, p), q[0], r);
      r := [q[0]] + r;
    }
  }

  /** And there are no new answers. */
  lemma {:induction false} AnswerWas(g: Graph, st: State, p: seq<Export>, r: seq<Export>) returns (q: seq<Export>)
    requires Linked(g, st) && Path(g, st, p) && Linked(g, Compress(st, p)) && Path(g, Compress(st, p), r)
    ensures Path(g, st, q) && q[0] == r[0] && SameValue(Compress(st, p)[Last(r)], st[Last(q)])
    decreases |r|
  {
    assert Compress(st, p).Keys == st.Keys;
    CompressFinal(g, st, p, r[0]);
    if |r| == 1 {
      if r[0] in p {
        var i :| 0 <= i < |p| && p[i] == r[0];
        TailIsPath(g, st, p, i);
        q := p[i..];
      } else {
        CompressedAt(st, p, r[0]);
        q := r;
        assert r[0] in st;
      }
    } else {
      assert Step(g, Compress(st, p), r[0], r[1]);
      CompressStep(g, st, p, r[0], r[1]);
      TailIsPath(g, Compress(st, p), r, 1);
      q := AnswerWas(g, st, p, r[1..]);
      Extend(g, st, r[0], q);
      q := [r[0]] + q;
    }
  }

  // ----- marks on the way -----

  ghost predicate Marked(st: State, e: Export) {
    Forwards(st, e) && st[e].sel == 0xFFFF
  }

  /** Selectors of forwarders are used for marks only. */
  ghost predicate MarksOnly(st: State) {
    forall e | e in st && Forwards(st, e) :: st[e].sel == 0 || st[e].sel == 0xFFFF
  }

  ghost predicate Avoids(st: State, p: seq<Export>) {
    forall i | 0 <= i < |p| :: !Marked(st, p[i])
  }

  ghost predicate NoPath(g: Graph, st: State, e: Export?)
    requires Linked(g, st)
  {
    forall p: seq<Export> | Path(g, st, p) && p[0] == e :: !Avoids(st, p)
  }

  ghost function Unmarked(st: State): set<Export> {
    set e | e in st && Forwards(st, e) && !Marked(st, e)
  }

  ghost function Mark(st: State, e: Export): State
    requires e in st
  {
    st[e := st[e].(sel := 0xFFFF)]
  }

  lemma MarkStep(g: Graph, st: State, e: Export, x: Export, y: Export)
    requires Linked(g, st) && e in st && Linked(g, Mark(st, e))
    ensures Step(g, Mark(st, e), x, y) <==> Step(g, st, x, y)
    ensures Forwards(Mark(st, e), x) <==> Forwards(st, x)
  {
  }

  lemma MarkLinked(g: Graph, st: State, e: Export)
    requires Linked(g, st) && e in st
    ensures Linked(g, Mark(st, e))
  {
    assert forall x | x in st :: Mark(st, e)[x].forward == st[x].forward;
  }

  lemma MarkMeasure(st: State, e: Export)
    requires MarksOnly(st) && Forwards(st, e) && !Marked(st, e)
    ensures MarksOnly(Mark(st, e)) && |Unmarked(Mark(st, e))| < |Unmarked(st)|
  {
    assert forall x :: Forwards(Mark(st, e), x) <==> Forwards(st, x);
    assert e in Unmarked(st);
    assert Unmarked(Mark(st, e)) == Unmarked(st) - {e};
  }

  lemma MarkPath(g: Graph, st: State, e: Export, p: seq<Export>)
    requires Linked(g, st) && e in st && Linked(g, Mark(st, e))
    ensures Path(g, Mark(st, e), p) <==> Path(g, st, p)
  {
    hide Step, Forwards;
    if p != [] {
      MarkStep(g, st, e, p[|p| - 1], p[|p| - 1]);
      forall i | 0 <= i < |p| - 1
        ensures Step(g, Mark(st, e), p[i], p[i + 1]) <==> Step(g, st, p[i], p[i + 1])
      {
        MarkStep(g, st, e, p[i], p[i + 1]);
      }
    }
  }

  /** If nothing can be reached past a marked forwarder, it had no path to begin with. */
  lemma MarkFails(g: Graph, st: State, e: Export, f: Export?)
    requires Linked(g, st) && Forwards(st, e) && !Marked(st, e) && Next(g, st, e) == f
    requires Linked(g, Mark(st, e)) && NoPath(g, Mark(st, e), f)
    ensures NoPath(g, st, e)
  {
    forall p: seq<Export> | Path(g, st, p) && p[0] == e && Avoids(st, p)
      ensures false
    {
      MarkedRest(g, st, e, f, p);
    }
  }

  /** A path that avoids the marks leaves e for good, so the rest of it avoids the new mark as well. */
  lemma MarkedRest(g: Graph, st: State, e: Export, f: Export?, p: seq<Export>)
    requires Linked(g, st) && Forwards(st, e) && Next(g, st, e) == f && Linked(g, Mark(st, e))
    requires Path(g, st, p) && p[0] == e && Avoids(st, p)
    ensures !NoPath(g, Mark(st, e), f)
  {
    OneStop(g, st, p);
    assert Step(g, st, p[0], p[1]);
    var q := p[1..];
    TailIsPath(g, st, p, 1);
    MarkPath(g, st, e, q);
    RestAvoids(g, st, e, p);
    hide Avoids, Path, Linked, Mark;
  }

  lemma RestAvoids(g: Graph, st: State, e: Export, p: seq<Export>)
    requires Linked(g, st) && e in st && Path(g, st, p) && p[0] == e && Avoids(st, p)
    ensures Avoids(Mark(st, e), p[1..])
  {
    hide Linked;
    forall i | 0 <= i < |p[1..]|
      ensures !Marked(Mark(st, e), p[1..][i])
    {
      PathDistinct(g, st, p, 0, i + 1);
      assert !Marked(st, p[i + 1]);
    }
  }

  /** If the rest resolves, the forwarder in front of it takes the same values. */
  lemma MarkSucceeds(g: Graph, st: State, e: Export, q: seq<Export>)
    requires Linked(g, st) && Forwards(st, e) && !Marked(st, e) && Linked(g, Mark(st, e))
    requires Path(g, Mark(st, e), q) && Avoids(Mark(st, e), q) && Next(g, st, e) == q[0]
    ensures Path(g, st, [e] + q) && Avoids(st, [e] + q) && q[0] in Compress(Mark(st, e), q)
    ensures Compress(Mark(st, e), q)[e := Resolved(st[e], Compress(Mark(st, e), q)[q[0]])] == Compress(st, [e] + q)
  {
    MarkPath(g, st, e, q);
    MarkedOutside(st, e, q);
    Extend(g, st, e, q);
    AvoidsMore(st, e, q);
    CompressFinal(g, Mark(st, e), q, q[0]);
    MarkedLast(g, st, e, q);
    hide *;
    CompressExtends(st, e, q);
  }

  lemma MarkedOutside(st: State, e: Export, q: seq<Export>)
    requires Forwards(st, e) && Avoids(Mark(st, e), q)
    ensures e !in q
  {
    assert Marked(Mark(st, e), e);
  }

  lemma MarkedLast(g: Graph, st: State, e: Export, q: seq<Export>)
    requires Linked(g, st) && e in st && Path(g, st, q) && e !in q && Linked(g, Mark(st, e))
    ensures (forall i | 0 <= i < |q| :: q[i] in st) && q[0] in Mark(st, e) && Last(q) in st
    ensures Mark(st, e)[Last(q)] == st[Last(q)]
    ensures Mark(st, e).Keys == st.Keys && (forall i | 0 <= i < |q| :: q[i] in Mark(st, e))
    ensures Compress(Mark(st, e), q).Keys == st.Keys
  {
    assert Last(q) in q;
  }

  lemma CompressExtends(st: State, e: Export, q: seq<Export>)
    requires e in st && q != [] && e !in q && forall i | 0 <= i < |q| :: q[i] in st
    requires forall i | 0 <= i < |q| :: q[i] in Mark(st, e)
    requires Last(q) in st && Last(q) in Mark(st, e) && Mark(st, e)[Last(q)] == st[Last(q)]
    requires q[0] in Compress(Mark(st, e), q) && SameValue(Compress(Mark(st, e), q)[q[0]], st[Last(q)])
    requires forall i | 0 <= i < |q| + 1 :: ([e] + q)[i] in st
    ensures Compress(Mark(st, e), q)[e := Resolved(st[e], Compress(Mark(st, e), q)[q[0]])] == Compress(st, [e] + q)
  {
    var p := [e] + q;
    assert p[..|p| - 1] == [e] + q[..|q| - 1];
    forall x | x in st
      ensures Compress(st, p)[x] == if x == e then Resolved(st[e], st[Last(q)]) else Compress(Mark(st, e), q)[x]
    {
      CompressedAt(st, p, x);
      CompressedAt(Mark(st, e), q, x);
    }
  }

  lemma AvoidsMore(st: State, e: Export, q: seq<Export>)
    requires e in st && !Marked(st, e) && Avoids(Mark(st, e), q)
    ensures Avoids(st, [e] + q)
  {
    forall i | 0 <= i < |q| + 1
      ensures !Marked(st, ([e] + q)[i])
    {
      if i > 0 { assert !Marked(Mark(st, e), q[i - 1]); }
    }
  }

  // ----- mod_findexport -----

  ghost function Now(world: set<Export>): State
    reads world
  {
    map e | e in world :: e.entry
  }

  ghost predicate Mirrors(g: Graph)
    reads g.Keys
  {
    forall m | m in g :: m.exps == g[m].exps && m.impmod == g[m].impmod
  }

  /** The first export of a module with the given ordinal. */
  method Search(mh: Module?, ordinal: u16, ghost g: Graph) returns (r: Export?)
    requires Known(g, mh) && Mirrors(g)
    ensures r == Find(g, mh, ordinal)
  {
    if mh == null { return null; }
    var i := 0;
    while i < |mh.exps|
      invariant i <= |mh.exps| && First(mh.exps, ordinal) == First(mh.exps[i..], ordinal)
    {
      if mh.exps[i].ordinal == ordinal { return mh.exps[i]; }
      i := i + 1;
    }
    r := null;
  }

  lemma FindIn(g: Graph, st: State, m: Module?, ordinal: u16)
    requires Known(g, m) && Linked(g, st)
    ensures Find(g, m, ordinal) != null ==> Find(g, m, ordinal) in st && Find(g, m, ordinal).home == m
  {
    if m != null { FirstIn(g[m].exps, ordinal); }
  }

  lemma {:induction false} FirstIn(exps: seq<Export>, ordinal: u16)
    ensures First(exps, ordinal) != null ==> First(exps, ordinal) in exps
  {
    if exps != [] { FirstIn(exps[1..], ordinal); }
  }

  /** mod_findexport by ordinal. Without a path to an actual export that avoids marked forwarders it fails and leaves
      every entry as it was; otherwise it rewrites exactly the forwarders on the path. */
  method FindExport(mh: Module?, ordinal: u16, ghost g: Graph, ghost world: set<Export>)
      returns (r: Export?, ghost p: seq<Export>)
    requires Known(g, mh) && Mirrors(g) && Linked(g, Now(world)) && MarksOnly(Now(world))
    modifies world
    ensures r == null ==> Now(world) == old(Now(world)) && NoPath(g, old(Now(world)), Find(g, mh, ordinal))
    ensures r != null ==>
      Path(g, old(Now(world)), p) && Avoids(old(Now(world)), p)
      && Now(world) == Compress(old(Now(world)), p)
    ensures r != null ==> r == p[0] == Find(g, mh, ordinal)
    decreases |Unmarked(Now(world))|, 1
  {
    hide Linked, MarksOnly, Path, Avoids, NoPath, Find, Compress, Unmarked;
    p := [];
    ghost var st := Now(world);
    r := Search(mh, ordinal, g);
    FindIn(g, st, mh, ordinal);
    if r == null {
      NullFails(g, st);
      return;
    }
    assert r in world;
    if r.entry.forward == 0 {
      FinalFound(g, st, r);
      p := [r];
      return;
    }
    if r.entry.sel == 0xFFFF {
      MarkedFails(g, st, r);
      return null, p;
    }
    r, p := ResolveForward(r, g, world);
  }

  /** An unmarked forwarder is marked while the rest of its path is looked up. */
  method ResolveForward(e: Export, ghost g: Graph, ghost world: set<Export>) returns (r: Export?, ghost p: seq<Export>)
    requires Mirrors(g) && Linked(g, Now(world)) && MarksOnly(Now(world))
    requires Forwards(Now(world), e) && !Marked(Now(world), e)
    modifies world
    ensures r == null ==> Now(world) == old(Now(world)) && NoPath(g, old(Now(world)), e)
    ensures r != null ==>
      Path(g, old(Now(world)), p) && Avoids(old(Now(world)), p)
      && Now(world) == Compress(old(Now(world)), p)
    ensures r != null ==> r == p[0] == e
    decreases |Unmarked(Now(world))|, 0
  {
    hide Linked, MarksOnly, Path, Avoids, NoPath, Find, Compress, Unmarked;
    p := [];
    ghost var st := Now(world);
    assert e in world;
    MarkLinked(g, st, e);
    MarkMeasure(st, e);
    NextIs(g, st, e);
    e.entry := e.entry.(sel := 0xFFFF);
    assert Now(world) == Mark(st, e);
    var mf, q := FindExport(e.home.impmod[e.entry.forward - 1], e.entry.address % 0x1_0000, g, world);
    if mf == null {
      MarkFails(g, st, e, Next(g, st, e));
      e.entry := e.entry.(sel := 0);
      Unmark(st, e);
      assert Now(world) == st;
      return null, p;
    }
    MarkSucceeds(g, st, e, q);
    ghost var st2 := Now(world);
    assert mf in world;
    OtherEntry(g, st, e, q);
    e.entry := Entry(mf.entry.address, e.entry.direct, mf.entry.is16, mf.entry.sel, 0);
    assert Now(world) == st2[e := Resolved(st[e], st2[q[0]])];
    p := [e] + q;
    r := e;
  }

  lemma Unmark(st: State, e: Export)
    requires MarksOnly(st) && Forwards(st, e) && !Marked(st, e)
    ensures st[e].sel == 0
  {
  }

  lemma OtherEntry(g: Graph, st: State, e: Export, q: seq<Export>)
    requires Forwards(st, e) && Linked(g, Mark(st, e)) && Path(g, Mark(st, e), q) && Avoids(Mark(st, e), q)
    ensures q != [] && e in Compress(Mark(st, e), q) && Compress(Mark(st, e), q)[e] == Mark(st, e)[e] && q[0] != e
  {
    MarkedOutside(st, e, q);
  }

  lemma NullFails(g: Graph, st: State)
    requires Linked(g, st)
    ensures NoPath(g, st, null)
  {
  }

  lemma MarkedFails(g: Graph, st: State, e: Export)
    requires Linked(g, st) && Marked(st, e)
    ensures NoPath(g, st, e)
  {
  }

  lemma FinalFound(g: Graph, st: State, e: Export)
    requires Linked(g, st) && e in st && !Forwards(st, e)
    ensures Path(g, st, [e]) && Avoids(st, [e]) && Compress(st, [e]) == st
  {
  }

  lemma NextIs(g: Graph, st: State, e: Export)
    requires Linked(g, st) && Forwards(st, e)
    ensures e.home in g && st[e].forward as int <= |g[e.home].impmod|
    ensures Known(g, g[e.home].impmod[st[e].forward - 1])
    ensures Next(g, st, e) == Find(g, g[e.home].impmod[st[e].forward - 1], st[e].address % 0x1_0000)
  {
    hide Find;
  }

  /** A lookup while no other is under way: it succeeds exactly when the forwarders lead to an actual export, gives
      its values, and changes nothing but the forwarders on the path. */
  method Lookup(mh: Module?, ordinal: u16, ghost g: Graph, ghost world: set<Export>)
      returns (r: Export?, ghost p: seq<Export>)
    requires Known(g, mh) && Mirrors(g) && Linked(g, Now(world))
    requires forall e | e in world && Forwards(Now(world), e) :: Now(world)[e].sel == 0
    modifies world
    ensures r == null ==> Now(world) == old(Now(world))
    ensures r == null ==> forall q: seq<Export> | Path(g, old(Now(world)), q) :: q[0] != Find(g, mh, ordinal)
    ensures r != null ==> Path(g, old(Now(world)), p) && r == p[0] == Find(g, mh, ordinal)
    ensures r != null ==> Now(world) == Compress(old(Now(world)), p) && r in Now(world)
    ensures r != null ==> SameValue(Now(world)[r], old(Now(world))[Last(p)]) && Now(world)[r].forward == 0
  {
    hide Linked, Path, Find, Compress;
    ghost var st := Now(world);
    r, p := FindExport(mh, ordinal, g, world);
    if r != null {
      PathHead(g, st, p);
      CompressedAll(g, st, p);
    }
  }

  lemma CompressedAll(g: Graph, st: State, p: seq<Export>)
    requires Linked(g, st) && Path(g, st, p)
    ensures p[0] in Compress(st, p) && SameValue(Compress(st, p)[p[0]], st[Last(p)])
      && Compress(st, p)[p[0]].forward == 0
  {
    CompressFinal(g, st, p, p[0]);
  }

  lemma PathHead(g: Graph, st: State, p: seq<Export>)
    requires Linked(g, st) && Path(g, st, p)
    ensures p != [] && p[0] in st
  {
  }
}
