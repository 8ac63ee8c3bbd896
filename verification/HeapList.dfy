/** The headers of the heap in memory, and the doubly linked list they form. */
module HeapList {
  import opened Common
  import opened HeapBlocks

  /** A header as it lies in memory; address 0 is the null pointer. */
  datatype Header = Header(size: nat, isFree: bool, next: nat, prev: nat)

  function NextAddr(bs: seq<Block>, i: nat): nat {
    if i + 1 < |bs| then bs[i + 1].addr else 0
  }

  function PrevAddr(bs: seq<Block>, i: nat): nat
    requires i <= |bs|
  {
    if i > 0 then bs[i - 1].addr else 0
  }

  function HeadAddr(bs: seq<Block>): nat {
    if bs == [] then 0 else bs[0].addr
  }

  /** The header of block `i`, and whether memory holds it. */
  function HeaderOf(bs: seq<Block>, i: nat): Header
    requires i < |bs|
  {
    Header(bs[i].size, bs[i].free, NextAddr(bs, i), PrevAddr(bs, i))
  }

  ghost predicate At(m: map<nat, Header>, bs: seq<Block>, i: nat)
    requires i < |bs|
  {
    bs[i].addr in m && m[bs[i].addr] == HeaderOf(bs, i)
  }

  ghost predicate Linked(m: map<nat, Header>, bs: seq<Block>) {
    forall i: nat :: i < |bs| ==> At(m, bs, i)
  }

  ghost predicate Ascending(bs: seq<Block>) {
    && (forall i :: 0 <= i < |bs| ==> bs[i].addr > 0)
    && forall i, j :: 0 <= i < j < |bs| ==> End(bs[i]) <= bs[j].addr
  }

  lemma {:induction false} TiledAscending(bs: seq<Block>, hi: nat)
    requires Tiled(bs, HEAP_START, hi)
    ensures Ascending(bs)
  {
    forall i | 0 <= i < |bs|
      ensures bs[i].addr > 0
    {
      TiledSplit(bs, i, HEAP_START, hi);
    }
    forall i, j | 0 <= i < j < |bs|
      ensures End(bs[i]) <= bs[j].addr
    {
      Ordered(bs, i, j, HEAP_START, hi);
    }
  }

  /** In the list `prev` undoes `next` and the other way round, and both stay in the list. */
  lemma {:induction false} MutualInverses(m: map<nat, Header>, bs: seq<Block>, i: nat, hi: nat)
    requires Tiled(bs, HEAP_START, hi) && Linked(m, bs) && i < |bs|
    ensures bs[i].addr in m && var h := m[bs[i].addr];
            && (h.next != 0 <==> i + 1 < |bs|)
            && (h.next != 0 ==> h.next in m && m[h.next].prev == bs[i].addr
                                && h.next == bs[i].addr + HEADER_SIZE + h.size)
            && (h.prev != 0 <==> i > 0) && (h.prev != 0 ==> h.prev in m && m[h.prev].next == bs[i].addr)
  {
    TiledAscending(bs, hi);
    assert At(m, bs, i);
    if i + 1 < |bs| {
      assert At(m, bs, i + 1);
      Ordered(bs, i, i + 1, HEAP_START, hi);
    }
    if i > 0 {
      assert At(m, bs, i - 1);
    }
  }

  /** Memory after the header at `a` was given another `prev`, unless `a` is null. */
  ghost function WithPrev(m: map<nat, Header>, a: nat, prev: nat): map<nat, Header>
    requires a == 0 || a in m
  {
    if a == 0 then m else m[a := m[a].(prev := prev)]
  }

  lemma SplitHeaders(bs: seq<Block>, i: nat, n: nat, k: nat)
    requires i < |bs| && bs[i].size >= n + HEADER_SIZE + 16 && k <= |bs|
    ensures var c := AllocAt(bs, i, n); var s: nat := bs[i].addr + HEADER_SIZE + n;
            && |c| == |bs| + 1
            && (k < i ==> c[k] == bs[k] && HeaderOf(c, k) == HeaderOf(bs, k))
            && (k == i ==> c[k] == Block(bs[i].addr, n, false)
                           && HeaderOf(c, k) == Header(n, false, s, PrevAddr(bs, i)))
            && (k == i + 1 ==> c[k].addr == s
                               && HeaderOf(c, k)
                               == Header(bs[i].size - n - HEADER_SIZE, true, NextAddr(bs, i), bs[i].addr))
            && (k > i + 1 ==> c[k] == bs[k - 1]
                              && HeaderOf(c, k) == if k == i + 2 then HeaderOf(bs, k - 1).(prev := s)
                                else HeaderOf(bs, k - 1))
  {
  }

  /** What the splitting code does to memory. */
  lemma SplitLinked(m: map<nat, Header>, bs: seq<Block>, i: nat, n: nat)
    requires Linked(m, bs) && Ascending(bs) && i < |bs| && bs[i].size >= n + HEADER_SIZE + 16
    ensures At(m, bs, i) && (m[bs[i].addr].next == 0 || m[bs[i].addr].next in m)
    ensures var a: nat := bs[i].addr; var h := m[a]; var s: nat := a + HEADER_SIZE + n;
            Linked(WithPrev(m[s := Header(h.size - n - HEADER_SIZE, true, h.next, a)], h.next,
                            s)[a := Header(n, false, s, h.prev)], AllocAt(bs, i, n))
  {
    hide AllocAt;
    var c := AllocAt(bs, i, n);
    var a: nat := bs[i].addr;
    assert At(m, bs, i);
    if i + 1 < |bs| {
      assert At(m, bs, i + 1);
    }
    var h := m[a];
    var s: nat := a + HEADER_SIZE + n;
    var after := WithPrev(m[s := Header(h.size - n - HEADER_SIZE, true, h.next, a)], h.next,
                          s)[a := Header(n, false, s, h.prev)];
    SplitHeaders(bs, i, n, i);
    forall k: nat | k < |c|
      ensures At(after, c, k)
    {
      SplitHeaders(bs, i, n, k);
      if k < i {
        assert At(m, bs, k);
      } else if k > i + 1 {
        assert At(m, bs, k - 1);
      }
    }
  }

  lemma TakeLinked(m: map<nat, Header>, bs: seq<Block>, i: nat, free: bool)
    requires Linked(m, bs) && Ascending(bs) && i < |bs|
    ensures At(m, bs, i)
    ensures Linked(m[bs[i].addr := m[bs[i].addr].(isFree := free)], bs[i := bs[i].(free := free)])
  {
    assert At(m, bs, i);
    var c := bs[i := bs[i].(free := free)];
    var after := m[bs[i].addr := m[bs[i].addr].(isFree := free)];
    forall k: nat | k < |c|
      ensures At(after, c, k)
    {
      assert At(m, bs, k);
    }
  }

  lemma JoinHeaders(bs: seq<Block>, i: nat, k: nat)
    requires i + 1 < |bs| && k + 1 < |bs|
    ensures var c := Join(bs, i);
            && |c| == |bs| - 1
            && (k < i ==> c[k] == bs[k] && HeaderOf(c, k) == HeaderOf(bs, k))
            && (k == i ==> c[k].addr == bs[i].addr
                           && HeaderOf(c, k)
                           == Header(bs[i].size + HEADER_SIZE + bs[i + 1].size, bs[i].free, NextAddr(bs, i + 1),
                                     PrevAddr(bs, i)))
            && (k > i ==> c[k] == bs[k + 1]
                          && HeaderOf(c, k) == if k == i + 1 then HeaderOf(bs, k + 1).(prev := bs[i].addr)
                            else HeaderOf(bs, k + 1))
  {
  }

  lemma AddressesDiffer(bs: seq<Block>, i: nat, j: nat)
    requires Ascending(bs) && i < |bs| && j < |bs| && i != j
    ensures bs[i].addr != bs[j].addr && bs[i].addr > 0 && bs[j].addr > 0
  {
  }

  /** What either half of the coalescing code does to memory. */
  lemma JoinLinked(m: map<nat, Header>, bs: seq<Block>, i: nat)
    requires Linked(m, bs) && Ascending(bs) && i + 1 < |bs|
    ensures At(m, bs, i) && At(m, bs, i + 1) && m[bs[i].addr].next == bs[i + 1].addr
            && m[bs[i + 1].addr].prev == bs[i].addr
    ensures m[bs[i + 1].addr].next == 0 || m[bs[i + 1].addr].next in m
    ensures var a: nat := bs[i].addr; var b := m[bs[i + 1].addr];
            Linked(WithPrev(m[a := m[a].(size := m[a].size + HEADER_SIZE + b.size, next := b.next)], b.next, a),
                   Join(bs, i))
  {
    hide Join, Ascending;
    assert At(m, bs, i) && At(m, bs, i + 1);
    AddressesDiffer(bs, i, i + 1);
    if i + 2 < |bs| {
      assert At(m, bs, i + 2);
      AddressesDiffer(bs, i, i + 2);
    }
    var a: nat := bs[i].addr;
    var b := m[bs[i + 1].addr];
    var after := WithPrev(m[a := m[a].(size := m[a].size + HEADER_SIZE + b.size, next := b.next)], b.next, a);
    var c := Join(bs, i);
    JoinHeaders(bs, i, i);
    forall k: nat | k < |c|
      ensures At(after, c, k)
    {
      JoinHeaders(bs, i, k);
      var l := if k <= i then k else k + 1;
      assert At(m, bs, l);
      if l != i {
        AddressesDiffer(bs, l, i);
      }
      if i + 2 < |bs| && l != i + 2 {
        AddressesDiffer(bs, l, i + 2);
      }
    }
  }

  lemma AppendHeaders(bs: seq<Block>, b: Block, k: nat)
    requires k <= |bs|
    ensures var c := bs + [b];
            && (k < |bs| ==> c[k] == bs[k] && HeaderOf(c, k) == if k == |bs| - 1 then HeaderOf(bs, k).(next := b.addr)
              else HeaderOf(bs, k))
            && (k == |bs| ==> HeaderOf(c, k) == Header(b.size, b.free, 0, PrevAddr(bs, |bs|)))
  {
  }

  /** What linking a new block behind the last one does to memory. */
  lemma AppendLinked(m: map<nat, Header>, bs: seq<Block>, b: Block)
    requires Linked(m, bs) && Ascending(bs + [b])
    ensures bs == [] ==> Linked(m[b.addr := Header(b.size, b.free, 0, 0)], [b])
    ensures bs != [] ==> At(m, bs, |bs| - 1) && var last: nat := bs[|bs| - 1].addr;
            Linked(m[b.addr := Header(b.size, b.free, 0, last)][last := m[last].(next := b.addr)], bs + [b])
  {
    if bs != [] {
      var c := bs + [b];
      assert At(m, bs, |bs| - 1);
      var last: nat := bs[|bs| - 1].addr;
      assert bs[|bs| - 1] == c[|bs| - 1] && b == c[|bs|];
      var after := m[b.addr := Header(b.size, b.free, 0, last)][last := m[last].(next := b.addr)];
      forall k: nat | k < |c|
        ensures At(after, c, k)
      {
        AppendHeaders(bs, b, k);
        if k < |bs| {
          assert At(m, bs, k);
        }
      }
    }
  }

  /** A header written behind the last block is in nobody's way. */
  lemma {:induction false} LinkedElsewhere(m: map<nat, Header>, bs: seq<Block>, a: nat, h: Header)
    requires Tiled(bs, HEAP_START, a) && Linked(m, bs)
    ensures Linked(m[a := h], bs)
  {
    var after := m[a := h];
    forall i: nat | i < |bs|
      ensures At(after, bs, i)
    {
      TiledSplit(bs, i, HEAP_START, a);
      assert At(m, bs, i);
    }
  }
}
