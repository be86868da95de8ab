/** Free-block headers and the doubly linked lists they form. */
module FreeList {
  import opened Machine

  const FREE_SIGN: u32 := 0x45455246
  const HDR: nat := 16

  /** Header kept in the first bytes of a free block. Links are unit numbers, 0 is the null link. */
  datatype FreeBlock = FreeBlock(sign: u32, prev: u32, next: u32, size: u32)

  function Pack(h: FreeBlock): (s: seq<byte>)
    ensures |s| == HDR
  {
    Le32(h.sign) + Le32(h.prev) + Le32(h.next) + Le32(h.size)
  }

  function Unpack(s: seq<byte>): FreeBlock
    requires |s| == HDR
  {
    FreeBlock(Ld32(s[..4]), Ld32(s[4..8]), Ld32(s[8..12]), Ld32(s[12..]))
  }

  lemma UnpackPack(h: FreeBlock)
    ensures Unpack(Pack(h)) == h
  {
    var s := Pack(h);
    assert s[..4] == Le32(h.sign) && s[4..8] == Le32(h.prev) && s[8..12] == Le32(h.next) && s[12..] == Le32(h.size);
    LoadStore32(h.sign);
    LoadStore32(h.prev);
    LoadStore32(h.next);
    LoadStore32(h.size);
  }

  /** Element i of a list, or the null link outside of it. */
  function At(l: seq<u32>, i: int): u32 {
    if 0 <= i < |l| then l[i] else 0
  }

  lemma PrefixGrows(l: seq<u32>, j: nat)
    requires j < |l|
    ensures l[..j + 1] == l[..j] + [l[j]]
  {
  }

  ghost predicate NoDup(l: seq<u32>) {
    forall i, j :: 0 <= i < j < |l| ==> l[i] != l[j]
  }

  /** The header of element i of l is intact and points to both neighbours. */
  ghost predicate Node(l: seq<u32>, i: int, k: u32, H: map<u32, FreeBlock>)
    requires 0 <= i < |l|
  {
    l[i] in H && H[l[i]] == FreeBlock(0x45455246, At(l, i - 1), At(l, i + 1), k)
  }

  /** The headers in H of the blocks in l link them, in this order, as the list of blocks of k units. */
  ghost predicate Chain(l: seq<u32>, head: u32, k: u32, H: map<u32, FreeBlock>) {
    && head == At(l, 0)
    && NoDup(l)
    && (forall i :: 0 <= i < |l| ==> Node(l, i, k, H))
  }

  /** Pushing u in front. */
  lemma ChainPush(l: seq<u32>, head: u32, k: u32, H: map<u32, FreeBlock>, u: u32, H': map<u32, FreeBlock>)
    requires Chain(l, head, k, H) && u !in l && u != 0 && (forall v :: v in l ==> v != 0 && v in H)
    requires u in H' && H'[u] == FreeBlock(FREE_SIGN, 0, head, k)
    requires head != 0 ==> head in H' && head in H && H'[head] == H[head].(prev := u)
    requires forall v :: v in l && v != head ==> v in H' && H'[v] == H[v]
    ensures Chain([u] + l, u, k, H')
  {
    var r := [u] + l;
    forall i | 0 <= i < |r|
      ensures Node(r, i, k, H')
    {
      if i > 0 {
        var v := l[i - 1];
        assert v in l && r[i] == v;
        assert Node(l, i - 1, k, H);
        if i > 1 { assert l[0] != v; }
      }
    }
  }

  /** r is l with element i taken out. */
  ghost predicate Unlinked(l: seq<u32>, i: nat, r: seq<u32>) {
    && i < |l| && |r| == |l| - 1
    && (forall j {:trigger r[j]} :: 0 <= j < |r| ==> r[j] == if j < i then l[j] else l[j + 1])
  }

  lemma UnlinkedNeighbours(l: seq<u32>, i: nat, r: seq<u32>, j: nat)
    requires Unlinked(l, i, r) && j < |r|
    ensures At(r, j - 1) == if j < i then At(l, j - 1) else if j == i then At(l, i - 1) else At(l, j)
    ensures At(r, j + 1) == if j + 1 < i then At(l, j + 1) else At(l, j + 2)
  {
  }

  /** Relinking the neighbours of element i takes it out of the list. */
  lemma ChainUnlink(l: seq<u32>, head: u32, k: u32, H: map<u32, FreeBlock>, i: nat, r: seq<u32>, head': u32,
                    H': map<u32, FreeBlock>)
    requires Chain(l, head, k, H) && Unlinked(l, i, r) && (forall v :: v in l ==> v in H)
    requires head' == (if i == 0 then At(l, 1) else head)
    requires i > 0 ==> l[i - 1] in H' && H'[l[i - 1]] == H[l[i - 1]].(next := At(l, i + 1))
    requires i + 1 < |l| ==> l[i + 1] in H' && H'[l[i + 1]] == H[l[i + 1]].(prev := At(l, i - 1))
    requires forall j :: 0 <= j < |l| && j != i - 1 && j != i && j != i + 1 ==> l[j] in H' && H'[l[j]] == H[l[j]]
    ensures Chain(r, head', k, H')
  {
    forall j | 0 <= j < |r|
      ensures Node(r, j, k, H')
    {
      UnlinkedNeighbours(l, i, r, j);
      var o := if j < i then j else j + 1;
      assert r[j] == l[o] && Node(l, o, k, H);
    }
  }

  /** A list whose headers did not change is still a list. */
  lemma ChainFrame(l: seq<u32>, head: u32, k: u32, H: map<u32, FreeBlock>, H': map<u32, FreeBlock>)
    requires Chain(l, head, k, H)
    requires forall v :: v in l ==> v in H && v in H' && H'[v] == H[v]
    ensures Chain(l, head, k, H')
  {
    forall i | 0 <= i < |l| ensures Node(l, i, k, H') {
      assert Node(l, i, k, H) && l[i] in l;
    }
  }

  /** All free lists together: one list for every size, each free block in exactly one. */
  ghost predicate Lists(lists: seq<seq<u32>>, heads: seq<u32>, H: map<u32, FreeBlock>) {
    && |lists| == |heads| < TWO32
    && (forall k: u32 :: k < |lists| ==> Chain(lists[k], heads[k], k, H))
    && (forall k: u32, v :: k < |lists| && v in lists[k] ==> v in H && H[v].size == k)
    && (forall u :: u in H ==> 0 < u < |lists| && 0 < H[u].size < |lists| && u in lists[H[u].size])
  }

  lemma HeadNode(lists: seq<seq<u32>>, heads: seq<u32>, H: map<u32, FreeBlock>, k: u32)
    requires Lists(lists, heads, H) && k < |lists| && heads[k] != 0
    ensures heads[k] in H && H[heads[k]].sign == FREE_SIGN && heads[k] < |lists|
  {
    assert Chain(lists[k], heads[k], k, H) && Node(lists[k], 0, k, H);
  }

  /** Element j of list k, as a walk over the list meets it. */
  lemma WalkNode(lists: seq<seq<u32>>, heads: seq<u32>, H: map<u32, FreeBlock>, k: u32, j: nat)
    requires Lists(lists, heads, H) && k < |lists| && j <= |lists[k]|
    ensures heads[k] == At(lists[k], 0)
    ensures At(lists[k], j) == 0 <==> j == |lists[k]|
    ensures j < |lists[k]| ==> var fb := lists[k][j];
              && fb in H && 0 < fb < |lists|
              && H[fb] == FreeBlock(FREE_SIGN, At(lists[k], j - 1), At(lists[k], j + 1), k)
              && (fb == heads[k] ==> H[fb].prev == 0)
              && fb !in lists[k][..j]
              && At(lists[k], j + 1) < |lists|
  {
    var l := lists[k];
    assert Chain(l, heads[k], k, H);
    if j < |l| {
      assert Node(l, j, k, H) && l[j] in l && l[j] in H;
      if j + 1 < |l| { assert l[j + 1] in l && l[j + 1] in H; }
    }
  }

  lemma ListMembers(lists: seq<seq<u32>>, heads: seq<u32>, H: map<u32, FreeBlock>, k: u32)
    requires Lists(lists, heads, H) && k < |lists|
    ensures forall u :: u in lists[k] <==> u in H && H[u].size == k
    ensures heads[k] == 0 <==> lists[k] == []
  {
    WalkNode(lists, heads, H, k, 0);
  }

  lemma HeaderBounds(lists: seq<seq<u32>>, heads: seq<u32>, H: map<u32, FreeBlock>)
    requires Lists(lists, heads, H)
    ensures forall u :: u in H ==> 0 < u < |lists| && 0 < H[u].size < |lists|
  {
  }

  ghost function SizesOf(H: map<u32, FreeBlock>): map<u32, u32> {
    map u | u in H :: H[u].size
  }

  /** What happens to the headers when u is pushed in front of list k. */
  ghost predicate Pushed(u: u32, k: u32, head: u32, H: map<u32, FreeBlock>, H': map<u32, FreeBlock>) {
    && (forall v :: v in H' <==> v in H || v == u)
    && H'[u] == FreeBlock(FREE_SIGN, 0, head, k)
    && (forall v :: v in H && v != u && v != head ==> H'[v] == H[v])
    && (head != 0 && head != u && head in H ==> H'[head] == H[head].(prev := u))
  }

  lemma PushedHeaders(u: u32, k: u32, head: u32, H: map<u32, FreeBlock>, H': map<u32, FreeBlock>)
    requires u !in H && (head != 0 ==> head in H)
    requires H' == (if head == 0 then H else H[head := H[head].(prev := u)])[u := FreeBlock(FREE_SIGN, 0, head, k)]
    ensures Pushed(u, k, head, H, H')
    ensures SizesOf(H') == SizesOf(H)[u := k]
  {
  }

  lemma ListsPush(lists: seq<seq<u32>>, heads: seq<u32>, H: map<u32, FreeBlock>, u: u32, k: u32,
                  H': map<u32, FreeBlock>)
    requires Lists(lists, heads, H) && u !in H && 0 < u < |lists| && 0 < k < |lists|
    requires Pushed(u, k, heads[k], H, H')
    ensures Lists(lists[k := [u] + lists[k]], heads[k := u], H')
  {
    var l := lists[k];
    assert Chain(l, heads[k], k, H);
    forall v | v in l ensures v in H && v != 0 { }
    ChainPush(l, heads[k], k, H, u, H');
    forall j: u32 | j < |lists| && j != k
      ensures Chain(lists[j], heads[j], j, H')
    {
      ChainFrame(lists[j], heads[j], j, H, H');
    }
    assert forall v :: v in H ==> H'[v].size == H[v].size;
    assert forall v :: v in [u] + l <==> v == u || v in l;
  }

  /** The header of u points to its neighbours in the list of its size. */
  lemma FindNode(lists: seq<seq<u32>>, heads: seq<u32>, H: map<u32, FreeBlock>, u: u32) returns (i: nat)
    requires Lists(lists, heads, H) && u in H
    ensures H[u].sign == FREE_SIGN && 0 < u < |lists| && 0 < H[u].size < |lists|
    ensures i < |lists[H[u].size]| && lists[H[u].size][i] == u
    ensures H[u].prev == At(lists[H[u].size], i - 1) && H[u].next == At(lists[H[u].size], i + 1)
    ensures H[u].prev == 0 <==> i == 0
    ensures H[u].prev != 0 ==> H[u].prev in H && H[u].prev != u && H[u].prev < |lists|
    ensures H[u].next != 0 ==> H[u].next in H && H[u].next != u && H[u].next < |lists|
    ensures H[u].next != 0 ==> H[u].next != H[u].prev
  {
    var k := H[u].size;
    var l := lists[k];
    i :| 0 <= i < |l| && l[i] == u;
    assert Chain(l, heads[k], k, H) && Node(l, i, k, H);
    if i > 0 { assert l[i - 1] in l && l[i - 1] in H; }
    if i + 1 < |l| { assert l[i + 1] in l && l[i + 1] in H; }
  }

  /** What happens to the headers and list heads when element i of list k is unlinked. */
  ghost predicate Relinked(l: seq<u32>, i: nat, k: u32, heads: seq<u32>, H: map<u32, FreeBlock>,
                           heads': seq<u32>, H': map<u32, FreeBlock>)
    requires i < |l| && k < |heads|
  {
    var p := At(l, i - 1);
    var n := At(l, i + 1);
    && heads' == (if i == 0 then heads[k := n] else heads)
    && (forall v :: v in H' <==> v in H && v != l[i])
    && (forall v :: v in H' && (v == 0 || (v != p && v != n)) ==> H'[v] == H[v])
    && (p != 0 ==> p in H' && H'[p] == H[p].(next := n))
    && (n != 0 ==> n in H' && H'[n] == H[n].(prev := p))
  }

  lemma RelinkedHeaders(l: seq<u32>, i: nat, k: u32, heads: seq<u32>, H: map<u32, FreeBlock>,
                        heads': seq<u32>, H': map<u32, FreeBlock>)
    requires i < |l| && k < |heads| && heads' == (if i == 0 then heads[k := At(l, i + 1)] else heads)
    requires l[i] in H
    requires var p := At(l, i - 1); var n := At(l, i + 1);
             && (p != 0 ==> p in H && p != l[i])
             && (n != 0 ==> n in H && n != l[i] && n != p)
             && var H1 := H - {l[i]};
                var H2 := if p == 0 then H1 else H1[p := H1[p].(next := n)];
                H' == if n == 0 then H2 else H2[n := H2[n].(prev := p)]
    ensures Relinked(l, i, k, heads, H, heads', H')
    ensures SizesOf(H') == SizesOf(H) - {l[i]}
  {
  }

  lemma RelinkedChain(l: seq<u32>, i: nat, k: u32, heads: seq<u32>, H: map<u32, FreeBlock>,
                      heads': seq<u32>, H': map<u32, FreeBlock>)
    requires i < |l| && k < |heads| && Chain(l, heads[k], k, H)
    requires forall v :: v in l ==> v in H && v != 0
    requires Relinked(l, i, k, heads, H, heads', H')
    ensures Chain(l[..i] + l[i + 1..], heads'[k], k, H')
  {
    forall j | 0 <= j < |l|
      ensures l[j] in H && l[j] != 0 && (j != i ==> l[j] in H' && l[j] != l[i])
    {
      assert l[j] in l;
    }
    ChainUnlink(l, heads[k], k, H, i, l[..i] + l[i + 1..], heads'[k], H');
  }

  lemma OtherChains(lists: seq<seq<u32>>, heads: seq<u32>, H: map<u32, FreeBlock>, k: u32, i: nat,
                    heads': seq<u32>, H': map<u32, FreeBlock>, j: u32)
    requires Lists(lists, heads, H) && k < |lists| && i < |lists[k]| && j < |lists| && j != k
    requires Relinked(lists[k], i, k, heads, H, heads', H')
    ensures Chain(lists[j], heads'[j], j, H')
  {
    var l := lists[k];
    assert l[i] in l;
    if i > 0 { assert l[i - 1] in l; }
    if i + 1 < |l| { assert l[i + 1] in l; }
    forall v | v in lists[j]
      ensures v in H && v in H' && H'[v] == H[v]
    {
      assert H[v].size == j;
    }
    ChainFrame(lists[j], heads[j], j, H, H');
  }

  lemma NeighboursKeepSize(l: seq<u32>, i: nat, k: u32, heads: seq<u32>, H: map<u32, FreeBlock>,
                           heads': seq<u32>, H': map<u32, FreeBlock>)
    requires i < |l| && k < |heads| && Relinked(l, i, k, heads, H, heads', H')
    ensures forall v :: v in H' ==> v in H && H'[v].size == H[v].size
  {
  }

  lemma InWithout(l: seq<u32>, i: nat)
    requires i < |l| && NoDup(l)
    ensures forall v :: v in l[..i] + l[i + 1..] <==> v in l && v != l[i]
  {
    var r := l[..i] + l[i + 1..];
    forall v
      ensures v in r <==> v in l && v != l[i]
    {
      if v in r {
        var x :| 0 <= x < |r| && r[x] == v;
        assert v == l[if x < i then x else x + 1];
      }
      if v in l && v != l[i] {
        var x :| 0 <= x < |l| && l[x] == v;
        assert v == r[if x < i then x else x - 1];
      }
    }
  }

  /** Unlinking one block keeps all the lists. */
  lemma ListsUnlink(lists: seq<seq<u32>>, heads: seq<u32>, H: map<u32, FreeBlock>, k: u32, i: nat,
                    heads': seq<u32>, H': map<u32, FreeBlock>)
    requires Lists(lists, heads, H) && k < |lists| && i < |lists[k]|
    requires Relinked(lists[k], i, k, heads, H, heads', H')
    ensures Lists(lists[k := lists[k][..i] + lists[k][i + 1..]], heads', H')
  {
    hide Chain, Relinked, Lists;
    var l := lists[k];
    var r := l[..i] + l[i + 1..];
    UnlinkedList(lists, heads, H, k);
    RelinkedHeads(l, i, k, heads, H, heads', H');
    forall j: u32 | j < |lists|
      ensures Chain(lists[k := r][j], heads'[j], j, H')
    {
      if j == k {
        RelinkedChain(l, i, k, heads, H, heads', H');
      } else {
        OtherChains(lists, heads, H, k, i, heads', H', j);
      }
    }
    MembersAfterUnlink(lists, heads, H, k, i, heads', H', r);
    ListsFold(lists[k := r], heads', H');
  }

  lemma UnlinkedList(lists: seq<seq<u32>>, heads: seq<u32>, H: map<u32, FreeBlock>, k: u32)
    requires Lists(lists, heads, H) && k < |lists|
    ensures |lists| == |heads| < TWO32 && Chain(lists[k], heads[k], k, H)
    ensures forall v :: v in lists[k] ==> v in H && v != 0
  {
    forall v | v in lists[k]
      ensures v in H && v != 0
    {
      assert v in H;
    }
  }

  lemma RelinkedHeads(l: seq<u32>, i: nat, k: u32, heads: seq<u32>, H: map<u32, FreeBlock>,
                      heads': seq<u32>, H': map<u32, FreeBlock>)
    requires i < |l| && k < |heads| && Relinked(l, i, k, heads, H, heads', H')
    ensures |heads'| == |heads|
  {
  }

  lemma ListsFold(lists: seq<seq<u32>>, heads: seq<u32>, H: map<u32, FreeBlock>)
    requires |lists| == |heads| < TWO32 && forall k: u32 :: k < |lists| ==> Chain(lists[k], heads[k], k, H)
    requires forall k: u32, v {:trigger v in lists[k]} :: k < |lists| && v in lists[k] ==> v in H && H[v].size == k
    requires forall u :: u in H ==> 0 < u < |lists| && 0 < H[u].size < |lists| && u in lists[H[u].size]
    ensures Lists(lists, heads, H)
  {
    hide Chain;
  }

  lemma MembersAfterUnlink(lists: seq<seq<u32>>, heads: seq<u32>, H: map<u32, FreeBlock>, k: u32, i: nat,
                           heads': seq<u32>, H': map<u32, FreeBlock>, r: seq<u32>)
    requires Lists(lists, heads, H) && k < |lists| && i < |lists[k]|
    requires Relinked(lists[k], i, k, heads, H, heads', H') && r == lists[k][..i] + lists[k][i + 1..]
    ensures forall j: u32, v {:trigger v in lists[k := r][j]} ::
              j < |lists| && v in lists[k := r][j] ==> v in H' && H'[v].size == j
    ensures forall u :: u in H' ==>
              0 < u < |lists| && 0 < H'[u].size < |lists| && u in lists[k := r][H'[u].size]
  {
    var l := lists[k];
    assert Chain(l, heads[k], k, H);
    NeighboursKeepSize(l, i, k, heads, H, heads', H');
    InWithout(l, i);
    assert l[i] in l;
    var lists' := lists[k := r];
    forall j: u32, v | j < |lists| && v in lists'[j]
      ensures v in H' && H'[v].size == j
    {
      if j == k { assert v in r && v in l; } else { assert v in lists[j]; }
      assert v in H && H[v].size == j;
    }
    forall u | u in H'
      ensures 0 < u < |lists| && 0 < H'[u].size < |lists| && u in lists[k := r][H'[u].size]
    {
      assert u in H && u in lists[H[u].size];
    }
  }
}
