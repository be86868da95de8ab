/** Cluster chains in the entries of a file allocation table. */
module Chains {
  import opened Machine
  import opened FatTable
  import opened Window

  // ----- chains -----

  /** Entry i of the chain xs points to the next one; the last one holds an end mark. */
  ghost predicate StepAt(f: seq<nat>, xs: seq<nat>, i: nat)
    requires i < |xs|
  {
    2 <= xs[i] < |f| && if i + 1 < |xs| then f[xs[i]] == xs[i + 1] else f[xs[i]] >= |f|
  }

  ghost predicate IsChain(f: seq<nat>, xs: seq<nat>) {
    xs != [] && |f| > 2 && forall i: nat :: i < |xs| ==> StepAt(f, xs, i)
  }

  /** Following the table from the first cluster never comes back to a cluster. */
  lemma {:induction false} ChainDistinct(f: seq<nat>, xs: seq<nat>, i: nat, j: nat)
    requires IsChain(f, xs) && i < j < |xs|
    ensures xs[i] != xs[j]
    decreases |xs| - j
  {
    assert StepAt(f, xs, i) && StepAt(f, xs, i + 1) && StepAt(f, xs, j);
    if j + 1 < |xs| {
      ChainDistinct(f, xs, i + 1, j + 1);
    }
  }

  /** A table has at most one chain from a given cluster. */
  lemma {:induction false} ChainUnique(f: seq<nat>, xs: seq<nat>, ys: seq<nat>)
    requires IsChain(f, xs) && IsChain(f, ys) && xs[0] == ys[0]
    ensures xs == ys
    decreases |xs|
  {
    assert StepAt(f, xs, 0) && StepAt(f, ys, 0);
    assert |xs| > 1 ==> StepAt(f, xs, 1);
    assert |ys| > 1 ==> StepAt(f, ys, 1);
    if |xs| > 1 && |ys| > 1 {
      ChainTail(f, xs);
      ChainTail(f, ys);
      ChainUnique(f, xs[1..], ys[1..]);
      assert xs == [xs[0]] + xs[1..] && ys == [ys[0]] + ys[1..];
    }
  }

  lemma ChainTail(f: seq<nat>, xs: seq<nat>)
    requires IsChain(f, xs) && |xs| > 1
    ensures IsChain(f, xs[1..])
  {
    forall i: nat | i < |xs[1..]| ensures StepAt(f, xs[1..], i) {
      assert StepAt(f, xs, i + 1);
    }
  }

  ghost predicate Disjoint(a: seq<nat>, b: seq<nat>) {
    forall x :: x in a ==> x !in b
  }

  /** The allocated clusters of a table are exactly the members of the chains cs, which do not meet. */
  ghost predicate Holds(f: seq<nat>, cs: seq<seq<nat>>) {
    && (forall k: nat :: k < |cs| ==> IsChain(f, cs[k]))
    && (forall c: nat :: 2 <= c < |f| && f[c] != 0 ==> Owned(cs, c))
    && (forall k: nat, l: nat :: k < l < |cs| ==> Disjoint(cs[k], cs[l]))
  }

  ghost predicate Owned(cs: seq<seq<nat>>, c: nat) {
    exists k: nat :: k < |cs| && c in cs[k]
  }

  /** Members of chains are allocated. */
  lemma MembersUsed(f: seq<nat>, xs: seq<nat>, c: nat)
    requires IsChain(f, xs) && c in xs
    ensures 2 <= c < |f| && f[c] >= 2
  {
    var i: nat :| i < |xs| && xs[i] == c;
    assert StepAt(f, xs, i);
    if i + 1 < |xs| { assert StepAt(f, xs, i + 1); }
  }

  /** A chain is not affected by changes elsewhere. */
  lemma ChainKept(f: seq<nat>, g: seq<nat>, xs: seq<nat>)
    requires IsChain(f, xs) && |g| == |f| && forall x :: x in xs ==> x < |f| && g[x] == f[x]
    ensures IsChain(g, xs)
  {
    forall i: nat | i < |xs| ensures StepAt(g, xs, i) {
      assert StepAt(f, xs, i) && xs[i] in xs;
    }
  }

  // ----- appending a cluster -----

  lemma AppendedChain(f: seq<nat>, xs: seq<nat>, n: nat, e: nat)
    requires IsChain(f, xs) && xs != [] && xs[|xs| - 1] < |f| && 2 <= n < |f| && f[n] == 0 && e >= |f|
    ensures IsChain(f[n := e][xs[|xs| - 1] := n], xs + [n])
  {
    var g, ys, last := f[n := e][xs[|xs| - 1] := n], xs + [n], |xs| - 1;
    assert StepAt(f, xs, last);
    forall i: nat | i < |ys| ensures StepAt(g, ys, i) {
      if i <= last {
        assert StepAt(f, xs, i);
        assert xs[i] in xs;
        MembersUsed(f, xs, xs[i]);
        if i < last { ChainDistinct(f, xs, i, last); }
      }
    }
  }

  /** A free cluster belongs to no chain. */
  lemma FreeUnowned(f: seq<nat>, cs: seq<seq<nat>>, n: nat)
    requires Holds(f, cs) && 2 <= n < |f| && f[n] == 0
    ensures forall k: nat :: k < |cs| ==> n !in cs[k]
  {
    forall k: nat | k < |cs| ensures n !in cs[k] {
      if n in cs[k] { MembersUsed(f, cs[k], n); }
    }
  }

  lemma DisjointSymmetric(a: seq<nat>, b: seq<nat>)
    requires Disjoint(a, b)
    ensures Disjoint(b, a)
  {
  }

  lemma ChainsApart(f: seq<nat>, cs: seq<seq<nat>>, k: nat, l: nat)
    requires Holds(f, cs) && k < |cs| && l < |cs| && k != l
    ensures Disjoint(cs[k], cs[l])
  {
    if l < k {
      assert Disjoint(cs[l], cs[k]);
      DisjointSymmetric(cs[l], cs[k]);
    }
  }

  /** Stretching one chain by a free cluster keeps all the others. */
  lemma StretchKeeps(f: seq<nat>, cs: seq<seq<nat>>, k: nat, n: nat, e: nat)
    requires Holds(f, cs) && k < |cs| && cs[k] != [] && 2 <= n < |f| && f[n] == 0 && e >= |f|
    requires cs[k][|cs[k]| - 1] < |f|
    ensures Holds(f[n := e][cs[k][|cs[k]| - 1] := n], cs[k := cs[k] + [n]])
  {
    var last := cs[k][|cs[k]| - 1];
    var g, ds := f[n := e][last := n], cs[k := cs[k] + [n]];
    FreeUnowned(f, cs, n);
    AppendedChain(f, cs[k], n, e);
    forall l: nat | l < |ds| ensures IsChain(g, ds[l]) {
      if l != k {
        ChainsApart(f, cs, k, l);
        assert last in cs[k];
        OthersUntouched(f, g, cs[l], n, last);
        ChainKept(f, g, cs[l]);
      }
    }
    forall c: nat | 2 <= c < |g| && g[c] != 0 ensures Owned(ds, c) {
      OwnedAfterStretch(f, cs, k, n, c);
    }
    forall l: nat, m: nat | l < m < |ds| ensures Disjoint(ds[l], ds[m]) {
      ChainsApart(f, cs, l, m);
    }
  }

  lemma OthersUntouched(f: seq<nat>, g: seq<nat>, xs: seq<nat>, n: nat, last: nat)
    requires |g| == |f| && n !in xs && last !in xs && IsChain(f, xs)
    requires forall c: nat :: c < |f| && c != n && c != last ==> g[c] == f[c]
    ensures forall x :: x in xs ==> x < |f| && g[x] == f[x]
  {
    forall x | x in xs ensures x < |f| && g[x] == f[x] {
      MembersUsed(f, xs, x);
    }
  }

  lemma OwnedAfterStretch(f: seq<nat>, cs: seq<seq<nat>>, k: nat, n: nat, c: nat)
    requires k < |cs| && 2 <= c < |f| && (c == n || f[c] != 0 || c in cs[k])
    requires forall d: nat :: 2 <= d < |f| && f[d] != 0 ==> Owned(cs, d)
    ensures Owned(cs[k := cs[k] + [n]], c)
  {
    var ds := cs[k := cs[k] + [n]];
    if c == n || c in cs[k] {
      assert c in ds[k];
    } else {
      var l: nat :| l < |cs| && c in cs[l];
      assert c in ds[l];
    }
  }

  /** Starting a chain at a free cluster keeps all the others. */
  lemma NewChainKeeps(f: seq<nat>, cs: seq<seq<nat>>, n: nat, e: nat)
    requires Holds(f, cs) && 2 <= n < |f| && f[n] == 0 && e >= |f|
    ensures Holds(f[n := e], cs + [[n]])
  {
    var g, ds := f[n := e], cs + [[n]];
    FreeUnowned(f, cs, n);
    forall l: nat | l < |ds| ensures IsChain(g, ds[l]) {
      if l < |cs| {
        OthersUntouched(f, g, cs[l], n, n);
        ChainKept(f, g, cs[l]);
      } else {
        assert StepAt(g, [n], 0);
      }
    }
    forall c: nat | 2 <= c < |g| && g[c] != 0 ensures Owned(ds, c) {
      if c == n {
        assert c in ds[|cs|];
      } else {
        var l: nat :| l < |cs| && c in cs[l];
        assert c in ds[l];
      }
    }
    forall l: nat, m: nat | l < m < |ds| ensures Disjoint(ds[l], ds[m]) {
      if m < |cs| { ChainsApart(f, cs, l, m); }
    }
  }

  // ----- removing clusters -----

  ghost function Used(f: seq<nat>): set<nat> {
    set c: nat | c < |f| && f[c] != 0
  }

  lemma FreeShrinks(f: seq<nat>, c: nat)
    requires c < |f| && f[c] != 0
    ensures Used(f[c := 0]) < Used(f)
  {
    assert c in Used(f) && c !in Used(f[c := 0]);
  }

  /**
   * Freeing entries along the table from cluster c until an end mark or a free entry; false when an
   * entry holds 1. Whatever the table holds, this ends, because every step frees an entry.
   */
  ghost function Freed(f: seq<nat>, c: nat): (r: (seq<nat>, bool))
    requires c < |f|
    ensures |r.0| == |f|
    decreases Used(f)
  {
    var nxt := f[c];
    if nxt == 0 then (f, true)
    else if nxt == 1 then (f, false)
    else
      FreeShrinks(f, c);
      var g := f[c := 0];
      if nxt >= |f| then (g, true) else Freed(g, nxt)
  }

  function Zeroed(f: seq<nat>, xs: seq<nat>): (r: seq<nat>)
    ensures |r| == |f|
  {
    seq(|f|, c requires 0 <= c < |f| => if c in xs then 0 else f[c])
  }

  /** On a chain, exactly its clusters are freed. */
  lemma {:induction false} FreedChain(f: seq<nat>, xs: seq<nat>)
    requires IsChain(f, xs)
    ensures xs[0] < |f| && Freed(f, xs[0]) == (Zeroed(f, xs), true)
    decreases |xs|
  {
    assert StepAt(f, xs, 0);
    var g := f[xs[0] := 0];
    if |xs| == 1 {
      assert g == Zeroed(f, xs);
    } else {
      assert StepAt(f, xs, 1);
      ChainTail(f, xs);
      forall x | x in xs[1..] ensures x < |f| && g[x] == f[x] {
        MembersUsed(f, xs, x);
        var j: nat :| j < |xs[1..]| && xs[1..][j] == x;
        ChainDistinct(f, xs, 0, j + 1);
      }
      ChainKept(f, g, xs[1..]);
      FreedChain(g, xs[1..]);
      assert xs == [xs[0]] + xs[1..];
      assert Zeroed(g, xs[1..]) == Zeroed(f, xs);
    }
  }

  /** The table after a chain is cut before position j: an end mark on what stays, the rest freed. */
  ghost function Cut(f: seq<nat>, xs: seq<nat>, j: nat, e: nat): seq<nat>
    requires j < |xs| && (j > 0 ==> xs[j - 1] < |f|)
  {
    Zeroed(if j > 0 then f[xs[j - 1] := e] else f, xs[j..])
  }

  lemma ChainFrom(f: seq<nat>, xs: seq<nat>, j: nat)
    requires IsChain(f, xs) && j < |xs|
    ensures IsChain(f, xs[j..])
  {
    forall i: nat | i < |xs[j..]| ensures StepAt(f, xs[j..], i) {
      assert StepAt(f, xs, j + i);
    }
  }

  lemma PrefixApart(f: seq<nat>, xs: seq<nat>, j: nat, i: nat)
    requires IsChain(f, xs) && i < j < |xs|
    ensures xs[i] !in xs[j..]
  {
    if xs[i] in xs[j..] {
      var m: nat :| m < |xs[j..]| && xs[j..][m] == xs[i];
      ChainDistinct(f, xs, i, j + m);
    }
  }

  /** What remove_chain does to a chain when it gets one of its clusters and the one before it. */
  lemma CutByFreeing(f: seq<nat>, xs: seq<nat>, j: nat, e: nat)
    requires IsChain(f, xs) && j < |xs| && e >= |f|
    ensures xs[j] < |f| && (j > 0 ==> xs[j - 1] < |f|)
    ensures Freed(if j > 0 then f[xs[j - 1] := e] else f, xs[j]) == (Cut(f, xs, j, e), true)
  {
    ChainFrom(f, xs, j);
    assert StepAt(f, xs, j);
    if j > 0 {
      assert StepAt(f, xs, j - 1);
      PrefixApart(f, xs, j, j - 1);
      forall x | x in xs[j..] ensures x < |f| { MembersUsed(f, xs[j..], x); }
      ChainKept(f, f[xs[j - 1] := e], xs[j..]);
      FreedChain(f[xs[j - 1] := e], xs[j..]);
    } else {
      FreedChain(f, xs[j..]);
    }
  }

  lemma PrefixChain(f: seq<nat>, xs: seq<nat>, j: nat, e: nat)
    requires IsChain(f, xs) && 0 < j < |xs| && e >= |f| && xs[j - 1] < |f|
    ensures IsChain(Cut(f, xs, j, e), xs[..j])
  {
    var g := Cut(f, xs, j, e);
    forall i: nat | i < j ensures StepAt(g, xs[..j], i) {
      assert StepAt(f, xs, i);
      PrefixApart(f, xs, j, i);
      if i + 1 < j {
        ChainDistinct(f, xs, i, j - 1);
      }
    }
  }

  /** The list of chains with chain k cut before position j. */
  function CutList(cs: seq<seq<nat>>, k: nat, j: nat): seq<seq<nat>>
    requires k < |cs| && j < |cs[k]|
  {
    if j > 0 then cs[k := cs[k][..j]] else cs[..k] + cs[k + 1..]
  }

  lemma CutListMember(cs: seq<seq<nat>>, k: nat, j: nat, l: nat)
    requires k < |cs| && j < |cs[k]| && l < |CutList(cs, k, j)|
    ensures CutList(cs, k, j)[l] == if j > 0 && l == k then cs[k][..j] else cs[CutIndex(k, j, l)]
    ensures CutIndex(k, j, l) < |cs| && (CutIndex(k, j, l) == k ==> j > 0 && l == k)
    ensures forall x :: x in CutList(cs, k, j)[l] ==> x in cs[CutIndex(k, j, l)]
  {
  }

  lemma DisjointParts(a: seq<nat>, b: seq<nat>, a': seq<nat>, b': seq<nat>)
    requires Disjoint(a, b) && (forall x :: x in a' ==> x in a) && (forall x :: x in b' ==> x in b)
    ensures Disjoint(a', b')
  {
  }

  /** Where a chain of the cut list stood before. */
  function CutIndex(k: nat, j: nat, l: nat): nat {
    if j > 0 || l < k then l else l + 1
  }

  /** Removing a suffix of one chain frees exactly its clusters and leaves every other chain alone. */
  lemma RemoveKeeps(f: seq<nat>, cs: seq<seq<nat>>, k: nat, j: nat, e: nat)
    requires Holds(f, cs) && k < |cs| && j < |cs[k]| && e >= |f| && (j > 0 ==> cs[k][j - 1] < |f|)
    ensures Holds(Cut(f, cs[k], j, e), CutList(cs, k, j))
  {
    hide Holds, Cut, CutList, CutIndex;
    HoldsChain(f, cs, k);
    var g, ds := Cut(f, cs[k], j, e), CutList(cs, k, j);
    CutLength(f, cs[k], j, e);
    forall l: nat | l < |ds| ensures IsChain(g, ds[l]) {
      CutListMember(cs, k, j, l);
      if j > 0 && l == k {
        PrefixChain(f, cs[k], j, e);
      } else {
        var m := CutIndex(k, j, l);
        HoldsChain(f, cs, m);
        ChainsApart(f, cs, m, k);
        CutElsewhere(f, cs[k], j, e, cs[m]);
        ChainKept(f, g, cs[m]);
      }
    }
    forall c: nat | 2 <= c < |g| && g[c] != 0 ensures Owned(ds, c) {
      CutOwned(f, cs, k, j, e, c);
    }
    forall l: nat, m: nat | l < m < |ds| ensures Disjoint(ds[l], ds[m]) {
      CutListMember(cs, k, j, l);
      CutListMember(cs, k, j, m);
      CutOrder(k, j, l, m);
      ChainsApart(f, cs, CutIndex(k, j, l), CutIndex(k, j, m));
      DisjointParts(cs[CutIndex(k, j, l)], cs[CutIndex(k, j, m)], ds[l], ds[m]);
    }
    HoldsFrom(g, ds);
  }

  lemma CutOrder(k: nat, j: nat, l: nat, m: nat)
    requires l < m
    ensures CutIndex(k, j, l) != CutIndex(k, j, m)
  {
  }

  lemma HoldsChain(f: seq<nat>, cs: seq<seq<nat>>, k: nat)
    requires Holds(f, cs) && k < |cs|
    ensures IsChain(f, cs[k])
  {
  }

  lemma HoldsFrom(f: seq<nat>, cs: seq<seq<nat>>)
    requires forall k: nat :: k < |cs| ==> IsChain(f, cs[k])
    requires forall c: nat :: 2 <= c < |f| && f[c] != 0 ==> Owned(cs, c)
    requires forall k: nat, l: nat :: k < l < |cs| ==> Disjoint(cs[k], cs[l])
    ensures Holds(f, cs)
  {
  }

  lemma CutLength(f: seq<nat>, xs: seq<nat>, j: nat, e: nat)
    requires j < |xs| && (j > 0 ==> xs[j - 1] < |f|)
    ensures |Cut(f, xs, j, e)| == |f|
  {
  }

  lemma CutElsewhere(f: seq<nat>, xs: seq<nat>, j: nat, e: nat, ys: seq<nat>)
    requires j < |xs| && (j > 0 ==> xs[j - 1] < |f|) && IsChain(f, ys) && Disjoint(ys, xs)
    ensures |Cut(f, xs, j, e)| == |f|
    ensures forall y :: y in ys ==> y < |f| && Cut(f, xs, j, e)[y] == f[y]
  {
    forall y | y in ys ensures y < |f| && Cut(f, xs, j, e)[y] == f[y] {
      MembersUsed(f, ys, y);
      assert y in xs[j..] ==> y in xs;
      if j > 0 { assert xs[j - 1] in xs; }
    }
  }

  lemma CutOwned(f: seq<nat>, cs: seq<seq<nat>>, k: nat, j: nat, e: nat, c: nat)
    requires Holds(f, cs) && k < |cs| && j < |cs[k]| && (j > 0 ==> cs[k][j - 1] < |f|)
    requires 2 <= c < |f| && |Cut(f, cs[k], j, e)| == |f| && Cut(f, cs[k], j, e)[c] != 0
    ensures Owned(CutList(cs, k, j), c)
  {
    var xs, ds := cs[k], CutList(cs, k, j);
    if j > 0 && c == xs[j - 1] {
      assert ds[k][j - 1] == c;
      assert c in ds[k];
    } else {
      assert f[c] != 0;
      var m: nat :| m < |cs| && c in cs[m];
      if m == k {
        assert xs == xs[..j] + xs[j..];
        assert c in ds[k];
      } else {
        assert c in ds[if j > 0 || m < k then m else m - 1];
      }
    }
  }
}
