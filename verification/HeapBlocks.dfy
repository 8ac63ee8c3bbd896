/** The kernel heap as a sequence of blocks in address order, each with a header in front of its payload. */
module HeapBlocks {
  import opened Common

  const HEADER_SIZE := 16

  datatype Block = Block(addr: nat, size: nat, free: bool)

  function End(b: Block): nat {
    b.addr + HEADER_SIZE + b.size
  }

  /** The address a client gets. */
  function Payload(b: Block): nat {
    b.addr + HEADER_SIZE
  }

  ghost predicate WellSized(b: Block) {
    b.size > 0 && b.size % 16 == 0
  }

  /** Headers and payloads follow each other from `lo` to `hi` without a gap or an overlap. */
  ghost predicate Tiled(bs: seq<Block>, lo: nat, hi: nat) {
    if bs == [] then lo == hi
    else bs[0].addr == lo && WellSized(bs[0]) && Tiled(bs[1..], End(bs[0]), hi)
  }

  ghost predicate FreePair(bs: seq<Block>, i: nat)
    requires i + 1 < |bs|
  {
    bs[i].free && bs[i + 1].free
  }

  ghost predicate Coalesced(bs: seq<Block>) {
    forall i: nat :: i + 1 < |bs| ==> !FreePair(bs, i)
  }

  /** The blocks that are handed out. */
  ghost function Live(bs: seq<Block>): set<Block> {
    set b | b in bs && !b.free
  }

  predicate Fits(b: Block, n: nat) {
    b.free && b.size >= n
  }

  /** Block `i` is the first one that fits. */
  ghost predicate FirstFit(bs: seq<Block>, n: nat, i: nat) {
    i < |bs| && Fits(bs[i], n) && forall j :: 0 <= j < i ==> !Fits(bs[j], n)
  }

  ghost predicate NoFit(bs: seq<Block>, n: nat) {
    forall b :: b in bs ==> !Fits(b, n)
  }

  /** What an allocation of `n` bytes leaves of a block: a tail too small for a header and 16 bytes stays with it. */
  ghost function Carve(b: Block, n: nat): seq<Block>
    requires n <= b.size
  {
    if b.size >= n + HEADER_SIZE + 16
    then [Block(b.addr, n, false), Block(b.addr + HEADER_SIZE + n, b.size - n - HEADER_SIZE, true)]
    else [b.(free := false)]
  }

  ghost function AllocAt(bs: seq<Block>, i: nat, n: nat): seq<Block>
    requires i < |bs| && n <= bs[i].size
  {
    bs[..i] + Carve(bs[i], n) + bs[i + 1..]
  }

  ghost function Joined(a: Block, b: Block): Block {
    a.(size := a.size + HEADER_SIZE + b.size)
  }

  /** Blocks `i` and `i + 1` become one. */
  ghost function Join(bs: seq<Block>, i: nat): seq<Block>
    requires i + 1 < |bs|
  {
    bs[..i] + [Joined(bs[i], bs[i + 1])] + bs[i + 2..]
  }

  ghost function JoinNext(bs: seq<Block>, i: nat): seq<Block>
    requires i < |bs|
  {
    if i + 1 < |bs| && bs[i + 1].free then Join(bs, i) else bs
  }

  ghost function JoinPrevious(bs: seq<Block>, i: nat): seq<Block>
    requires i < |bs|
  {
    if i > 0 && bs[i - 1].free then Join(bs, i - 1) else bs
  }

  ghost function FreeAt(bs: seq<Block>, i: nat): seq<Block>
    requires i < |bs|
  {
    JoinPrevious(JoinNext(bs[i := bs[i].(free := true)], i), i)
  }

  // ---------------------------------------------------------------- tiling

  lemma {:induction false} TiledConcat(a: seq<Block>, b: seq<Block>, lo: nat, mid: nat, hi: nat)
    requires Tiled(a, lo, mid) && Tiled(b, mid, hi)
    ensures Tiled(a + b, lo, hi)
  {
    if a == [] {
      assert a + b == b;
    } else {
      assert (a + b)[1..] == a[1..] + b;
      TiledConcat(a[1..], b, End(a[0]), mid, hi);
    }
  }

  /** Where the first `i` blocks end. */
  lemma {:induction false} TiledSplit(bs: seq<Block>, i: nat, lo: nat, hi: nat)
    requires Tiled(bs, lo, hi) && i < |bs|
    ensures Tiled(bs[..i], lo, bs[i].addr) && WellSized(bs[i]) && Tiled(bs[i + 1..], End(bs[i]), hi)
    ensures lo <= bs[i].addr && End(bs[i]) <= hi
  {
    if i == 0 {
      TiledGrows(bs[1..], End(bs[0]), hi);
    } else {
      TiledSplit(bs[1..], i - 1, End(bs[0]), hi);
      assert bs[..i][1..] == bs[1..][..i - 1];
      assert bs[i + 1..] == bs[1..][i..];
    }
  }

  lemma {:induction false} TiledGrows(bs: seq<Block>, lo: nat, hi: nat)
    requires Tiled(bs, lo, hi)
    ensures lo <= hi
  {
    if bs != [] {
      TiledGrows(bs[1..], End(bs[0]), hi);
    }
  }

  /** Blocks lie in address order, one behind the other. */
  lemma {:induction false} Ordered(bs: seq<Block>, i: nat, j: nat, lo: nat, hi: nat)
    requires Tiled(bs, lo, hi) && i < j < |bs|
    ensures lo <= bs[i].addr && End(bs[i]) <= bs[j].addr && End(bs[j]) <= hi
    ensures j == i + 1 ==> End(bs[i]) == bs[j].addr
  {
    TiledSplit(bs, i, lo, hi);
    assert bs[i + 1..][j - i - 1] == bs[j];
    TiledSplit(bs[i + 1..], j - i - 1, End(bs[i]), hi);
  }

  lemma TiledOne(b: Block)
    requires WellSized(b)
    ensures Tiled([b], b.addr, End(b))
  {
    assert Tiled([b][1..], End(b), End(b));
  }

  /** Replacing block `i` by blocks that tile the same range. */
  lemma {:induction false} TiledReplace(bs: seq<Block>, i: nat, j: nat, mid: seq<Block>, lo: nat, hi: nat, from: nat,
                                        to: nat)
    requires i <= j <= |bs|
    requires Tiled(bs[..i], lo, from) && Tiled(mid, from, to) && Tiled(bs[j..], to, hi)
    ensures Tiled(bs[..i] + mid + bs[j..], lo, hi)
  {
    TiledConcat(bs[..i], mid, lo, from, to);
    TiledConcat(bs[..i] + mid, bs[j..], lo, to, hi);
  }

  lemma CarveTiled(b: Block, n: nat)
    requires WellSized(b) && n <= b.size && n > 0 && n % 16 == 0
    ensures Tiled(Carve(b, n), b.addr, End(b))
  {
    var c := Carve(b, n);
    TiledOne(c[|c| - 1]);
    if |c| == 2 {
      assert c[1..] == [c[1]];
    }
  }

  lemma {:induction false} AllocTiled(bs: seq<Block>, i: nat, n: nat, lo: nat, hi: nat)
    requires Tiled(bs, lo, hi) && i < |bs| && n <= bs[i].size && n > 0 && n % 16 == 0
    ensures Tiled(AllocAt(bs, i, n), lo, hi)
  {
    TiledSplit(bs, i, lo, hi);
    CarveTiled(bs[i], n);
    TiledReplace(bs, i, i + 1, Carve(bs[i], n), lo, hi, bs[i].addr, End(bs[i]));
  }

  lemma {:induction false} JoinTiled(bs: seq<Block>, i: nat, lo: nat, hi: nat)
    requires Tiled(bs, lo, hi) && i + 1 < |bs|
    ensures Tiled(Join(bs, i), lo, hi)
  {
    TiledSplit(bs, i, lo, hi);
    TiledSplit(bs, i + 1, lo, hi);
    Ordered(bs, i, i + 1, lo, hi);
    TiledOne(Joined(bs[i], bs[i + 1]));
    TiledReplace(bs, i, i + 2, [Joined(bs[i], bs[i + 1])], lo, hi, bs[i].addr, End(bs[i + 1]));
  }

  lemma ReleaseTiled(bs: seq<Block>, i: nat, lo: nat, hi: nat)
    requires Tiled(bs, lo, hi) && i < |bs|
    ensures Tiled(bs[i := bs[i].(free := true)], lo, hi)
  {
    var b := bs[i].(free := true);
    TiledSplit(bs, i, lo, hi);
    TiledOne(b);
    TiledReplace(bs, i, i + 1, [b], lo, hi, b.addr, End(b));
    assert bs[i := b] == bs[..i] + [b] + bs[i + 1..];
  }

  lemma {:induction false} FreeTiled(bs: seq<Block>, i: nat, lo: nat, hi: nat)
    requires Tiled(bs, lo, hi) && i < |bs|
    ensures Tiled(FreeAt(bs, i), lo, hi)
  {
    var r := bs[i := bs[i].(free := true)];
    ReleaseTiled(bs, i, lo, hi);
    if i + 1 < |r| {
      JoinTiled(r, i, lo, hi);
    }
    var s := JoinNext(r, i);
    if i > 0 {
      JoinTiled(s, i - 1, lo, hi);
    }
  }

  // ---------------------------------------------------------------- what is handed out

  lemma InReplaced(bs: seq<Block>, i: nat, j: nat, mid: seq<Block>, b: Block)
    requires i <= j <= |bs|
    ensures b in bs[..i] + mid + bs[j..] <==> b in bs[..i] || b in mid || b in bs[j..]
    ensures b in bs <==> b in bs[..i] || b in bs[i..j] || b in bs[j..]
  {
    assert bs == bs[..i] + bs[i..j] + bs[j..];
  }

  /** Swapping the blocks `i..j` for others changes what is handed out only there. */
  lemma {:induction false} LiveReplaced(bs: seq<Block>, i: nat, j: nat, mid: seq<Block>, lo: nat, hi: nat)
    requires Tiled(bs, lo, hi) && i <= j <= |bs|
    ensures Live(bs[..i] + mid + bs[j..]) == (Live(bs) - Live(bs[i..j])) + Live(mid)
  {
    var after := bs[..i] + mid + bs[j..];
    forall b
      ensures b in Live(after) <==> b in (Live(bs) - Live(bs[i..j])) + Live(mid)
    {
      InReplaced(bs, i, j, mid, b);
      if b in bs[i..j] && (b in bs[..i] || b in bs[j..]) {
        var k :| i <= k < j && bs[k] == b;
        var l :| 0 <= l < |bs| && l != k && bs[l] == b;
        Ordered(bs, if k < l then k else l, if k < l then l else k, lo, hi);
      }
    }
  }

  /**
   An allocation hands out one more block, of the size asked for or 16 bytes more, at the start of the block taken.
   */
  lemma {:induction false} AllocLive(bs: seq<Block>, i: nat, n: nat, lo: nat, hi: nat)
    requires Tiled(bs, lo, hi) && i < |bs| && Fits(bs[i], n) && n > 0 && n % 16 == 0
    ensures exists size :: (size == n || size == n + 16) && Block(bs[i].addr, size, false) !in Live(bs)
                          && Live(AllocAt(bs, i, n)) == Live(bs) + {Block(bs[i].addr, size, false)}
  {
    TiledSplit(bs, i, lo, hi);
    var c := Carve(bs[i], n);
    LiveReplaced(bs, i, i + 1, c, lo, hi);
    assert bs[i..i + 1] == [bs[i]];
    assert Live(c) == {c[0]};
    if c[0] in bs {
      var k :| 0 <= k < |bs| && bs[k] == c[0];
      assert k != i;
      Ordered(bs, if k < i then k else i, if k < i then i else k, lo, hi);
    }
    assert c[0] == Block(bs[i].addr, c[0].size, false);
  }

  /** A release takes exactly the released block out of what is handed out. */
  lemma {:induction false} FreeLive(bs: seq<Block>, i: nat, lo: nat, hi: nat)
    requires Tiled(bs, lo, hi) && i < |bs| && !bs[i].free
    ensures Live(FreeAt(bs, i)) == Live(bs) - {bs[i]}
  {
    var b := bs[i].(free := true);
    var r := bs[i := b];
    assert r == bs[..i] + [b] + bs[i + 1..] && bs[i..i + 1] == [bs[i]];
    LiveReplaced(bs, i, i + 1, [b], lo, hi);
    ReleaseTiled(bs, i, lo, hi);
    var s := JoinNext(r, i);
    if s != r {
      JoinLive(r, i, lo, hi);
      JoinTiled(r, i, lo, hi);
    }
    if i > 0 && s[i - 1].free {
      JoinLive(s, i - 1, lo, hi);
    }
  }

  lemma {:induction false} JoinLive(bs: seq<Block>, i: nat, lo: nat, hi: nat)
    requires Tiled(bs, lo, hi) && i + 1 < |bs| && bs[i].free && bs[i + 1].free
    ensures Live(Join(bs, i)) == Live(bs)
  {
    assert bs[i..i + 2] == [bs[i], bs[i + 1]];
    LiveReplaced(bs, i, i + 2, [Joined(bs[i], bs[i + 1])], lo, hi);
  }

  /** Blocks handed out lie in the heap, their payloads are aligned, and no two of them meet, headers included. */
  lemma {:induction false} LiveDisjoint(bs: seq<Block>, a: Block, b: Block, hi: nat)
    requires Tiled(bs, HEAP_START, hi) && a in Live(bs) && b in Live(bs)
    ensures HEAP_START < Payload(a) && End(a) <= hi && Payload(a) % 16 == 0
    ensures a != b ==> End(a) <= b.addr || End(b) <= a.addr
  {
    hide Tiled;
    var i :| 0 <= i < |bs| && bs[i] == a;
    var j :| 0 <= j < |bs| && bs[j] == b;
    TiledSplit(bs, i, HEAP_START, hi);
    TiledAligned(bs, i, HEAP_START, hi);
    if i != j {
      Ordered(bs, if i < j then i else j, if i < j then j else i, HEAP_START, hi);
    }
  }

  lemma {:induction false} TiledAligned(bs: seq<Block>, i: nat, lo: nat, hi: nat)
    requires Tiled(bs, lo, hi) && i < |bs| && lo % 16 == 0
    ensures bs[i].addr % 16 == 0
  {
    if i > 0 {
      TiledAligned(bs[1..], i - 1, End(bs[0]), hi);
    }
  }

  // ---------------------------------------------------------------- coalescing

  lemma AllocCoalesced(bs: seq<Block>, i: nat, n: nat)
    requires Coalesced(bs) && i < |bs| && Fits(bs[i], n)
    ensures Coalesced(AllocAt(bs, i, n))
  {
    var c := AllocAt(bs, i, n);
    var d := |Carve(bs[i], n)|;
    forall k: nat | k + 1 < |c|
      ensures !FreePair(c, k)
    {
      if k + 1 < i {
        assert !FreePair(bs, k);
      } else if k >= i + d {
        assert !FreePair(bs, k - d + 1);
      } else if k == i + d - 1 {
        assert !FreePair(bs, i);
      }
    }
  }

  /** A block put behind the last one may leave two free neighbours; taking it mends that. */
  lemma GrownCoalesced(bs: seq<Block>, b: Block, n: nat)
    requires Coalesced(bs) && Fits(b, n)
    ensures Coalesced(AllocAt(bs + [b], |bs|, n))
  {
    var c := AllocAt(bs + [b], |bs|, n);
    assert (bs + [b])[..|bs|] == bs;
    forall k: nat | k + 1 < |c|
      ensures !FreePair(c, k)
    {
      if k + 1 < |bs| {
        assert !FreePair(bs, k);
      }
    }
  }

  /** The only free neighbours after a block was released and joined with the next are it and the one in front. */
  lemma NextJoined(bs: seq<Block>, i: nat)
    requires Coalesced(bs) && i < |bs| && !bs[i].free
    ensures var s := JoinNext(bs[i := bs[i].(free := true)], i);
            i < |s| && s[i].free && forall k: nat :: k + 1 < |s| && k + 1 != i ==> !FreePair(s, k)
  {
    var r := bs[i := bs[i].(free := true)];
    var s := JoinNext(r, i);
    var d := |bs| - |s|;
    assert forall k :: 0 <= k < i ==> s[k] == bs[k];
    assert forall k :: i < k < |s| ==> s[k] == bs[k + d];
    forall k: nat | k + 1 < |s| && k + 1 != i
      ensures !FreePair(s, k)
    {
      if k + 1 < i {
        assert !FreePair(bs, k);
      } else if k > i {
        assert !FreePair(bs, k + d);
      } else if d == 1 {
        assert !FreePair(bs, i + 1);
      }
    }
  }

  lemma PreviousJoined(s: seq<Block>, i: nat)
    requires i < |s| && s[i].free && forall k: nat :: k + 1 < |s| && k + 1 != i ==> !FreePair(s, k)
    ensures Coalesced(JoinPrevious(s, i))
  {
    var t := JoinPrevious(s, i);
    forall k: nat | k + 1 < |t|
      ensures !FreePair(t, k)
    {
      if t == s {
        assert k + 1 != i ==> !FreePair(s, k);
      } else if k + 1 < i {
        assert !FreePair(s, k);
      } else {
        assert !FreePair(s, k + 1);
      }
    }
  }

  /** A release leaves no two free neighbours. */
  lemma FreeCoalesced(bs: seq<Block>, i: nat)
    requires Coalesced(bs) && i < |bs| && !bs[i].free
    ensures Coalesced(FreeAt(bs, i))
  {
    hide Coalesced, JoinNext, JoinPrevious;
    NextJoined(bs, i);
    PreviousJoined(JoinNext(bs[i := bs[i].(free := true)], i), i);
  }

  /** Once everything is released the heap is one free block from its start to its end. */
  lemma {:induction false} AllFreeIsOne(bs: seq<Block>, hi: nat)
    requires Tiled(bs, HEAP_START, hi) && Coalesced(bs)
    ensures Live(bs) == {} && hi > HEAP_START <==>
              |bs| == 1 && bs[0].free && bs[0].addr == HEAP_START && End(bs[0]) == hi
  {
    if Live(bs) == {} {
      if |bs| > 1 {
        assert bs[0] !in Live(bs) && bs[1] !in Live(bs);
        assert FreePair(bs, 0);
      }
      if |bs| == 1 {
        assert bs[0] !in Live(bs);
        assert Tiled(bs[1..], End(bs[0]), hi);
        assert bs == [bs[0]];
      }
    }
  }

  /** The first block that fits is the one with the lowest address. */
  lemma {:induction false} FirstFitIsLowest(bs: seq<Block>, n: nat, i: nat, b: Block, hi: nat)
    requires Tiled(bs, HEAP_START, hi) && FirstFit(bs, n, i) && b in bs && Fits(b, n)
    ensures bs[i].addr <= b.addr
  {
    var j :| 0 <= j < |bs| && bs[j] == b;
    if i < j {
      Ordered(bs, i, j, HEAP_START, hi);
    }
  }

  /** Releasing what was just allocated restores the heap block by block: the split is undone. */
  lemma FreeUndoesAlloc(bs: seq<Block>, i: nat, n: nat)
    requires Coalesced(bs) && i < |bs| && Fits(bs[i], n)
    ensures FreeAt(AllocAt(bs, i, n), i) == bs
  {
    var a := AllocAt(bs, i, n);
    var r := a[i := a[i].(free := true)];
    assert i > 0 ==> !FreePair(bs, i - 1);
    assert i + 1 < |bs| ==> !FreePair(bs, i);
    if bs[i].size >= n + HEADER_SIZE + 16 {
      assert r[i + 1].free && Joined(r[i], r[i + 1]) == bs[i];
      assert r[..i] == bs[..i] && r[i + 2..] == bs[i + 1..];
      assert bs == bs[..i] + [bs[i]] + bs[i + 1..];
      assert JoinNext(r, i) == bs;
    } else {
      assert r == bs;
    }
  }

  /** The pointer is new, and exactly the block behind it was added to what is handed out. */
  ghost predicate Granted(before: seq<Block>, after: seq<Block>, ptr: nat, n: nat) {
    exists b :: b !in Live(before) && Payload(b) == ptr && (b.size == n || b.size == n + 16)
                && Live(after) == Live(before) + {b}
  }

  lemma {:induction false} AllocGrants(bs: seq<Block>, i: nat, n: nat, hi: nat)
    requires Tiled(bs, HEAP_START, hi) && i < |bs| && Fits(bs[i], n) && n > 0 && n % 16 == 0
    ensures Granted(bs, AllocAt(bs, i, n), Payload(bs[i]), n)
  {
    AllocLive(bs, i, n, HEAP_START, hi);
    var size: nat :| (size == n || size == n + 16) && Block(bs[i].addr, size, false) !in Live(bs)
                     && Live(AllocAt(bs, i, n)) == Live(bs) + {Block(bs[i].addr, size, false)};
    assert Payload(Block(bs[i].addr, size, false)) == Payload(bs[i]);
  }

  /** A free block behind the others is not handed out. */
  lemma LiveAppend(bs: seq<Block>, b: Block)
    requires b.free
    ensures Live(bs + [b]) == Live(bs)
  {
  }
}
