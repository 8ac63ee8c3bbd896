/** The kernel heap: a first-fit allocator over a doubly linked list of blocks that grows by whole pages. */
module Heap {
  import opened Common
  import opened HeapBlocks
  import opened HeapList
  import opened HeapPages
  import Pmm

  /** The largest request that rounding does not wrap around to nothing. */
  const MAX_REQUEST := 0xFFFF_FFF0

  /** `(size + 15) & ~15`, in 32-bit arithmetic. */
  function RoundUp(size: nat): nat {
    Wrap32(size + 15) / 16 * 16
  }

  /** A rounded request is large enough exactly when it has not wrapped around; then rounding again changes nothing. */
  lemma RoundUpWraps(size: nat)
    requires 0 < size < 0x1_0000_0000
    ensures RoundUp(size) % 16 == 0 && RoundUp(size) < 0x1_0000_0000
    ensures size <= MAX_REQUEST <==> size <= RoundUp(size)
    ensures size <= MAX_REQUEST ==> RoundUp(size) < size + 16 && RoundUp(size) <= MAX_REQUEST
                                    && RoundUp(RoundUp(size)) == RoundUp(size)
    ensures size > MAX_REQUEST ==> RoundUp(size) == 0
  {
    assert RoundUp(size) == Wrap32(size + 15) - Wrap32(size + 15) % 16;
  }

  /** A block that passes the test for a request holds it, whatever the block, exactly when the request is no larger. */
  lemma FitIsEnough(size: nat)
    requires 0 < size < 0x1_0000_0000
    ensures size <= MAX_REQUEST <==> forall b: Block :: Fits(b, RoundUp(size)) ==> b.size >= size
  {
    RoundUpWraps(size);
    if size > MAX_REQUEST {
      assert Fits(Block(HEAP_START, 16, true), RoundUp(size));
    }
  }

  /** The block a growth for `n` bytes adds. */
  function NewBlock(end: nat, n: nat): Block
    requires PagesFor(n) > 0
  {
    Block(end, PagesFor(n) * PAGE_SIZE - HEADER_SIZE, true)
  }

  lemma NewBlockIs(end: nat, n: nat)
    requires n % 16 == 0 && n < 0x1_0000_0000 && PagesFor(n) > 0
    ensures var b := NewBlock(end, n); Fits(b, n) && WellSized(b) && End(b) == Page(end, PagesFor(n))
  {
    hide PagesFor;
    PagesForWraps(n);
  }

  /** The request was met from a new block behind the end of the heap. */
  ghost predicate TakenFromNew(bs: seq<Block>, end: nat, n: nat, bs': seq<Block>, ptr: nat) {
    && n % 16 == 0 && n < 0x1_0000_0000 && PagesFor(n) > 0 && ptr == end + HEADER_SIZE
    && var b := NewBlock(end, n); n <= b.size && bs' == AllocAt(bs + [b], |bs|, n)
  }

  /** The one case in which growth cannot be refused: there is a frame for the first page and none for its table. */
  ghost predicate Starved(present: bool, free: set<nat>) {
    !present && |free| == 1
  }

  /** Taking the first block that fits leaves no two free neighbours, also when the last block is new. */
  lemma TakenCoalesced(bs: seq<Block>, n: nat, i: nat)
    requires FirstFit(bs, n, i)
    requires Coalesced(bs) || (FirstFit(bs, n, |bs| - 1) && Coalesced(bs[..|bs| - 1]))
    ensures Coalesced(AllocAt(bs, i, n))
  {
    if Coalesced(bs) {
      AllocCoalesced(bs, i, n);
    } else {
      assert i == |bs| - 1;
      assert bs == bs[..|bs| - 1] + [bs[|bs| - 1]];
      GrownCoalesced(bs[..|bs| - 1], bs[|bs| - 1], n);
    }
  }

  lemma FirstFitFacts(bs: seq<Block>, n: nat, i: nat)
    requires FirstFit(bs, n, i)
    ensures i < |bs| && Fits(bs[i], n) && !NoFit(bs, n)
    ensures forall j: nat :: FirstFit(bs, n, j) ==> j == i
  {
  }

  /** When nothing fits, the new block is the first that fits. */
  lemma NewBlockFits(bs: seq<Block>, b: Block, n: nat)
    requires NoFit(bs, n) && Fits(b, n)
    ensures FirstFit(bs + [b], n, |bs|) && !NoFit(bs + [b], n) && (bs + [b])[..|bs|] == bs && (bs + [b])[|bs|] == b
    ensures forall i: nat :: !FirstFit(bs, n, i)
  {
    assert b in bs + [b];
  }

  lemma NothingFits(bs: seq<Block>, n: nat)
    requires NoFit(bs, n)
    ensures forall i: nat :: !FirstFit(bs, n, i)
  {
  }

  lemma GrantedGrown(bs: seq<Block>, b: Block, after: seq<Block>, ptr: nat, n: nat)
    requires b.free && Granted(bs + [b], after, ptr, n)
    ensures Granted(bs, after, ptr, n)
  {
    LiveAppend(bs, b);
  }

  lemma ExtendedCount(s: Start, taken: set<nat>, t: Start, n: nat)
    requires Extended(Tabled(s, taken), t, n) && taken <= s.free
    ensures |t.free| == |s.free| - |taken| - n
  {
    assert s.free == (s.free - taken) + taken;
  }

  /** A list with a block behind its end. */
  lemma {:induction false} Lengthened(m: map<nat, Header>, bs: seq<Block>, b: Block, hi: nat)
    requires Tiled(bs, HEAP_START, b.addr) && Linked(m, bs) && WellSized(b) && hi == End(b)
    ensures Tiled(bs + [b], HEAP_START, hi) && Ascending(bs) && (HeadAddr(bs) == 0 <==> bs == []) && b.addr != 0
    ensures bs == [] ==> Linked(m[b.addr := Header(b.size, b.free, 0, 0)], [b])
    ensures bs != [] ==> At(m, bs, |bs| - 1) && bs[|bs| - 1].addr != b.addr && var last: nat := bs[|bs| - 1].addr;
            Linked(m[b.addr := Header(b.size, b.free, 0, last)][last := m[last].(next := b.addr)], bs + [b])
  {
    hide Linked, Tiled;
    TiledOne(b);
    TiledConcat(bs, [b], HEAP_START, b.addr, hi);
    TiledAscending(bs, b.addr);
    TiledAscending(bs + [b], hi);
    AppendLinked(m, bs, b);
    assert (bs + [b])[|bs|] == b;
    assert bs != [] ==> (bs + [b])[|bs| - 1] == bs[|bs| - 1];
  }

  lemma JoinHead(bs: seq<Block>, i: nat)
    requires i + 1 < |bs|
    ensures HeadAddr(Join(bs, i)) == HeadAddr(bs) && |Join(bs, i)| == |bs| - 1 && Join(bs, i)[i].addr == bs[i].addr
  {
  }

  lemma {:induction false} NoNullPayload(bs: seq<Block>, hi: nat)
    requires Tiled(bs, HEAP_START, hi)
    ensures forall b :: b in Live(bs) ==> Payload(b) != 0
    ensures forall i: nat :: i < |bs| ==> Payload(bs[i]) != 0
  {
  }

  /** A block that is handed out is the only one with its pointer; what its release does. */
  lemma LiveReleased(bs: seq<Block>, b: Block, hi: nat) returns (i: nat)
    requires Tiled(bs, HEAP_START, hi) && Coalesced(bs) && b in Live(bs)
    ensures i < |bs| && bs[i] == b && !b.free && Payload(b) == b.addr + HEADER_SIZE
    ensures forall j: nat :: j < |bs| && Payload(bs[j]) == Payload(b) ==> j == i
    ensures forall c :: c in Live(bs) && Payload(c) == Payload(b) ==> c == b
    ensures Coalesced(FreeAt(bs, i)) && Live(FreeAt(bs, i)) == Live(bs) - {b}
  {
    hide Tiled, FreeAt, Coalesced;
    i :| 0 <= i < |bs| && bs[i] == b;
    FreeCoalesced(bs, i);
    FreeLive(bs, i, HEAP_START, hi);
    forall j: nat | j < |bs| && Payload(bs[j]) == Payload(b)
      ensures j == i
    {
      if j != i {
        Ordered(bs, if i < j then i else j, if i < j then j else i, HEAP_START, hi);
      }
    }
  }

  class KernelHeap {
    const pmm: Pmm.FramePool
    var memory: map<nat, Header>
    var mapped: map<nat, nat>
    /** The heap region has its page table. */
    var tablePresent: bool
    var freeListStart: nat
    var heapEnd: nat
    ghost var blocks: seq<Block>
    /** The frame of that table. */
    ghost var tables: set<nat>

    ghost predicate PagesValid()
      reads this, pmm, pmm.bitmap
    {
      pmm.Valid() && Sound(PageState(), tablePresent, tables)
    }

    ghost predicate ListValid()
      reads this
    {
      ListShape() && Coalesced(blocks)
    }

    ghost predicate Valid()
      reads this, pmm, pmm.bitmap
    {
      PagesValid() && ListValid()
    }

    /** The heap before its start: paging leaves the slot of its region empty. */
    constructor (pmm: Pmm.FramePool)
      requires pmm.Valid()
      ensures this.pmm == pmm && Valid() && blocks == [] && mapped == map[] && !tablePresent
    {
      this.pmm := pmm;
      tablePresent := false;
      tables := {};
      memory := map[];
      mapped := map[];
      freeListStart := 0;
      heapEnd := HEAP_START;
      blocks := [];
    }

    ghost function PageState(): Start
      requires pmm.Shape()
      reads this, pmm, pmm.bitmap
    {
      Start(mapped, heapEnd, pmm.Free(), pmm.outstanding)
    }

    /**
     `vmm_map_kernel_page` in the heap region: the page table is made when there is none, from a frame of the pool;
     with none left, nothing is mapped.
     */
    method MapKernelPage(vaddr: nat, paddr: nat) returns (ghost made: set<nat>)
      requires pmm.Valid()
      modifies this`mapped, this`tablePresent, this`tables, pmm`outstanding, pmm.bitmap
      ensures pmm.Valid() && (tablePresent <==> old(tablePresent) || old(pmm.Free()) != {})
      ensures tables == old(tables) + made
      ensures pmm.Free() == old(pmm.Free()) - made && pmm.outstanding == old(pmm.outstanding) + made
      ensures if old(tablePresent) || !tablePresent then made == {} else |made| == 1 && made <= old(pmm.Free())
      ensures mapped == if tablePresent then old(mapped)[vaddr := paddr] else old(mapped)
    {
      hide Pmm.FramePool.Used, Pmm.FramePool.Free, Pmm.FramePool.Valid;
      made := {};
      if !tablePresent {
        var newPt := pmm.AllocFrame();
        if newPt == 0 {
          return;
        }
        tablePresent := true;
        made := {newPt / PAGE_SIZE};
        tables := tables + made;
      }
      mapped := mapped[vaddr := paddr];
    }

    /** `vmm_unmap_page` in the heap region: without a page table the store faults. */
    method UnmapKernelPage(vaddr: nat) returns (fault: bool)
      modifies this`mapped
      ensures fault <==> !tablePresent
      ensures !fault ==> mapped == old(mapped) - {vaddr}
    {
      if !tablePresent {
        return true;
      }
      mapped := mapped - {vaddr};
      fault := false;
    }

    /** Takes back the pages behind the old end and their frames; the page table stays. */
    method Rollback(oldHeapEnd: nat, allocatedFrames: seq<nat>, ghost s: Start, ghost had: bool, ghost taken: set<nat>)
      returns (fault: bool)
      requires pmm.Valid() && s.end == oldHeapEnd && Settled(s)
      requires Growing(s, had, allocatedFrames, taken, tablePresent, mapped, pmm.Free(), pmm.outstanding)
      modifies this`mapped, this`heapEnd, pmm`outstanding, pmm.bitmap
      ensures fault <==> !tablePresent && allocatedFrames != []
      ensures !fault ==> pmm.Valid() && PageState() == Tabled(s, taken)
    {
      hide Grown, Growing, Settled, Pmm.FramePool.Used, Pmm.FramePool.Free, Pmm.FramePool.Valid;
      pmm.HasShape();
      UntabledStart(s);
      UntabledEnd(s, had, allocatedFrames, taken, tablePresent, mapped, pmm.Free(), pmm.outstanding);
      GrowingGrown(s, had, allocatedFrames, taken, tablePresent, mapped, pmm.Free(), pmm.outstanding);
      ghost var u := Tabled(s, taken);
      var i := 0;
      while i < |allocatedFrames|
        invariant i <= |allocatedFrames| && pmm.Valid() && pmm.Shape()
        invariant !tablePresent ==> i == 0 && PageState() == old(PageState())
        invariant tablePresent ==> Settled(u) && Grown(u, allocatedFrames, i, mapped, pmm.Free(), pmm.outstanding)
      {
        ghost var m := mapped;
        fault := UnmapKernelPage(oldHeapEnd + i * PAGE_SIZE);
        if fault {
          return;
        }
        ShrinkStep(u, allocatedFrames, i, m, pmm.Free(), pmm.outstanding);
        pmm.FreeFrame(allocatedFrames[i]);
        pmm.HasShape();
        i := i + 1;
      }
      if tablePresent {
        RolledBack(u, allocatedFrames, mapped, pmm.Free(), pmm.outstanding);
      }
      heapEnd := oldHeapEnd;
      fault := false;
    }

    /** One page more at the end of the heap, or null if the region or the pool is exhausted. */
    method MapNextPage(allocatedFrames: seq<nat>, ghost s: Start, ghost had: bool, ghost taken: set<nat>)
      returns (frame: nat, ghost made: set<nat>)
      requires pmm.Valid() && Settled(s) && heapEnd == Page(s.end, |allocatedFrames|) <= HEAP_LIMIT
               && heapEnd % PAGE_SIZE == 0
      requires Growing(s, had, allocatedFrames, taken, tablePresent, mapped, pmm.Free(), pmm.outstanding)
      modifies this`mapped, this`heapEnd, this`tablePresent, this`tables, pmm`outstanding, pmm.bitmap
      ensures pmm.Valid() && tables == old(tables) + made
      ensures frame == 0 <==> Page(s.end, |allocatedFrames| + 1) > HEAP_LIMIT
                              || |allocatedFrames| + |taken| == |s.free|
      ensures frame == 0 ==> made == {} && tablePresent == old(tablePresent)
      ensures var frames := if frame == 0 then allocatedFrames else allocatedFrames + [frame];
              && Growing(s, had, frames, taken + made, tablePresent, mapped, pmm.Free(), pmm.outstanding)
              && heapEnd == Page(s.end, |frames|)
    {
      hide Growing, Settled, Pmm.FramePool.Used, Pmm.FramePool.Free, Pmm.FramePool.Valid;
      pmm.HasShape();
      made := {};
      assert tables + {} == tables && taken + {} == taken;
      GrowingCount(s, had, allocatedFrames, taken, tablePresent, mapped, pmm.Free(), pmm.outstanding);
      if heapEnd > KERNEL_HEAP_END - PAGE_SIZE + 1 {
        return 0, made;
      }
      ghost var m, free, outstanding, present := mapped, pmm.Free(), pmm.outstanding, tablePresent;
      frame := pmm.AllocFrame();
      pmm.HasShape();
      if frame == 0 {
        return 0, made;
      }
      made := MapKernelPage(heapEnd, frame);
      pmm.HasShape();
      PageGrown(s, had, allocatedFrames, taken, present, m, free, outstanding, frame, made, tablePresent, mapped,
                pmm.Free(), pmm.outstanding);
      heapEnd := heapEnd + PAGE_SIZE;
    }

    lemma InOrder()
      requires PagesValid()
      ensures Sound(PageState(), tablePresent, tables) && Settled(PageState())
      ensures HEAP_START <= heapEnd <= HEAP_LIMIT && heapEnd % PAGE_SIZE == 0 && heapEnd !in mapped
    {
    }

    /** The loop of `expand_heap` over the pages, up to the first that cannot be had. */
    method MapSome(numPages: nat, ghost s: Start) returns (allocatedFrames: seq<nat>, ghost taken: set<nat>)
      requires pmm.Valid() && Settled(s) && s == PageState() && heapEnd % PAGE_SIZE == 0 && heapEnd <= HEAP_LIMIT
      requires Growing(s, tablePresent, [], {}, tablePresent, mapped, pmm.Free(), pmm.outstanding)
      modifies this`mapped, this`heapEnd, this`tablePresent, this`tables, pmm`outstanding, pmm.bitmap
      ensures pmm.Valid() && tables == old(tables) + taken && |allocatedFrames| <= numPages
      ensures heapEnd == Page(s.end, |allocatedFrames|) <= HEAP_LIMIT
      ensures Growing(s, old(tablePresent), allocatedFrames, taken, tablePresent, mapped, pmm.Free(), pmm.outstanding)
      ensures |allocatedFrames| < numPages ==> Page(s.end, |allocatedFrames| + 1) > HEAP_LIMIT
                                               || |allocatedFrames| + |taken| == |s.free|
    {
      hide Growing, Settled, Pmm.FramePool.Used, Pmm.FramePool.Free, Pmm.FramePool.Valid;
      pmm.HasShape();
      allocatedFrames, taken := [], {};
      while |allocatedFrames| < numPages
        invariant |allocatedFrames| <= numPages && heapEnd == Page(s.end, |allocatedFrames|) <= HEAP_LIMIT
        invariant pmm.Valid() && pmm.Shape() && tables == old(tables) + taken
        invariant Growing(s, old(tablePresent), allocatedFrames, taken, tablePresent, mapped, pmm.Free(),
                          pmm.outstanding)
      {
        ghost var taken1 := taken;
        var frame;
        ghost var made;
        frame, made := MapNextPage(allocatedFrames, s, old(tablePresent), taken);
        pmm.HasShape();
        taken := taken + made;
        assert tables == old(tables) + taken;
        if frame == 0 {
          assert taken == taken1;
          return;
        }
        allocatedFrames := allocatedFrames + [frame];
      }
    }

    /** The pages of `expand_heap`, all of them or none; a page table that is made for them stays. */
    method MapPages(numPages: nat) returns (ok: bool, fault: bool)
      requires PagesValid()
      modifies this`mapped, this`heapEnd, this`tablePresent, this`tables, pmm`outstanding, pmm.bitmap
      ensures fault ==> Starved(old(tablePresent), old(pmm.Free())) && numPages > 0
      ensures numPages == 0 ==> ok
      ensures if Starved(old(tablePresent), old(pmm.Free())) && numPages > 0 then fault || (ok && mapped == old(mapped))
              else
                && PagesValid() && (ok ==> heapEnd == Page(old(heapEnd), numPages))
                && Outcome(old(PageState()), old(tablePresent), old(tables), numPages, ok, PageState(), tablePresent,
                           tables)
    {
      hide Growing, Settled, Pmm.FramePool.Used, Pmm.FramePool.Free, Pmm.FramePool.Valid, Backed, Extended, TableOk,
           Grew, Sound, Outcome;
      StateIs();
      var oldHeapEnd := heapEnd;
      ghost var s, had, tables0 := PageState(), tablePresent, tables;
      InOrder();
      GrowingStarts(s, had);
      var allocatedFrames;
      ghost var taken;
      allocatedFrames, taken := MapSome(numPages, s);
      pmm.HasShape();
      ghost var m, free, outstanding := mapped, pmm.Free(), pmm.outstanding;
      GrowingFacts(s, had, allocatedFrames, taken, tablePresent, m, free, outstanding);
      if |allocatedFrames| < numPages {
        if !had {
          StartIs(s, had, tables0);
        }
        fault := Rollback(oldHeapEnd, allocatedFrames, s, had, taken);
        if !fault {
          UndoneOutcome(s, had, tables0, allocatedFrames, taken, tablePresent, m, free, outstanding, numPages);
          OutcomeSound(s, had, tables0, numPages, false, PageState(), tablePresent, tables);
        }
        return false, fault;
      }
      if tablePresent || allocatedFrames == [] {
        GrownOutcome(s, had, tables0, allocatedFrames, taken, tablePresent, PageState());
        OutcomeSound(s, had, tables0, numPages, true, PageState(), tablePresent, tables);
      }
      ok, fault := true, false;
    }

    lemma StateIs()
      requires PagesValid()
      ensures pmm.Valid() && pmm.Shape()
    {
    }

    lemma EndMapped(end: nat, pages: nat)
      requires PagesValid() && heapEnd == Page(end, pages) && HEAP_START <= end && end % PAGE_SIZE == 0
      ensures end in mapped <==> pages > 0
    {
    }

    /** `expand_heap`: a free block over new pages, or nothing but perhaps a page table; an unmapped page faults. */
    method ExpandHeap(size: nat) returns (chunk: nat, fault: bool)
      requires PagesValid() && size % 16 == 0 && size < 0x1_0000_0000
      modifies this`memory, this`mapped, this`heapEnd, this`tablePresent, this`tables, pmm`outstanding, pmm.bitmap
      ensures fault <==> PagesFor(size) == 0 || Starved(old(tablePresent), old(pmm.Free()))
      ensures fault ==> chunk == 0
      ensures !fault ==>
                && PagesValid()
                && Outcome(old(PageState()), old(tablePresent), old(tables), PagesFor(size), chunk != 0, PageState(),
                           tablePresent, tables)
      ensures chunk == 0 ==> memory == old(memory)
      ensures chunk != 0 ==>
                && chunk == old(heapEnd) && heapEnd == End(NewBlock(chunk, size))
                && memory == old(memory)[chunk := Header(NewBlock(chunk, size).size, true, 0, 0)]
    {
      hide Pmm.FramePool.Used, Pmm.FramePool.Free, Pmm.FramePool.Valid, Sound, Outcome;
      StateIs();
      var numPages := Wrap32(Wrap32(size + HEADER_SIZE) + PAGE_SIZE - 1) / PAGE_SIZE;
      assert numPages == PagesFor(size);
      PagesForWraps(size);
      hide PagesFor, Wrap32;
      InOrder();
      var oldHeapEnd := heapEnd;
      ghost var starved := Starved(tablePresent, pmm.Free());
      var ok;
      ok, fault := MapPages(numPages);
      if fault || !ok {
        return 0, fault;
      }
      if !starved || numPages == 0 {
        EndMapped(oldHeapEnd, numPages);
      }
      if oldHeapEnd !in mapped {
        return 0, true;  // the header is the first thing stored to the new pages
      }
      memory := memory[oldHeapEnd := Header(numPages * PAGE_SIZE - HEADER_SIZE, true, 0, 0)];
      chunk := oldHeapEnd;
    }

    /** The list without its claim about free neighbours. */
    ghost predicate ListShape()
      reads this
    {
      Tiled(blocks, HEAP_START, heapEnd) && Linked(memory, blocks) && freeListStart == HeadAddr(blocks)
    }

    /** The list as it was before an allocation, or with one new block behind it that the allocation will take. */
    ghost predicate Ready(n: nat)
      reads this
    {
      && ListShape()
      && (Coalesced(blocks) || (blocks != [] && FirstFit(blocks, n, |blocks| - 1) && Coalesced(blocks[..|blocks| - 1])))
    }

    /** The header at `curr` as block `i` of the list. */
    lemma HeaderAt(i: nat)
      requires ListShape() && i < |blocks|
      ensures Ascending(blocks) && blocks[i].addr != 0 && End(blocks[i]) <= heapEnd
      ensures blocks[i].addr in memory && memory[blocks[i].addr] == HeaderOf(blocks, i)
    {
      TiledAscending(blocks, heapEnd);
      TiledSplit(blocks, i, HEAP_START, heapEnd);
      assert At(memory, blocks, i);
    }

    /** Splits the block at `curr` if its tail can hold a header and 16 bytes, and hands it out. */
    method TakeBlock(curr: nat, size: nat, ghost i: nat)
      requires ListShape() && i < |blocks| && curr == blocks[i].addr && Fits(blocks[i], size) && size > 0
               && size % 16 == 0
      modifies this`memory, this`blocks
      ensures ListShape() && blocks == AllocAt(old(blocks), i, size)
    {
      hide Linked, Tiled, Ascending;
      HeaderAt(i);
      AllocTiled(blocks, i, size, HEAP_START, heapEnd);
      if memory[curr].size >= size + HEADER_SIZE + 16 {
        SplitLinked(memory, blocks, i, size);
        ghost var before := memory;
        var split := curr + HEADER_SIZE + size;
        memory := memory[split := Header(memory[curr].size - size - HEADER_SIZE, true, memory[curr].next, curr)];
        if memory[curr].next != 0 {
          memory := memory[memory[curr].next := memory[memory[curr].next].(prev := split)];
        }
        memory := memory[curr := memory[curr].(next := split)];
        memory := memory[curr := memory[curr].(size := size)];
        memory := memory[curr := memory[curr].(isFree := false)];
        ghost var h := before[curr];
        assert memory
               == WithPrev(before[split := Header(h.size - size - HEADER_SIZE, true, h.next, curr)], h.next,
                           split)[curr := Header(size, false, split, h.prev)];
      } else {
        TakeLinked(memory, blocks, i, false);
        memory := memory[curr := memory[curr].(isFree := false)];
        assert AllocAt(blocks, i, size) == blocks[i := blocks[i].(free := false)];
      }
      blocks := AllocAt(blocks, i, size);
      assert HeadAddr(blocks) == freeListStart;
    }

    /** The search of `kmalloc`: the first block that fits, or null. */
    method FindFit(size: nat) returns (curr: nat, ghost i: nat)
      requires ListShape()
      ensures curr == 0 ==> NoFit(blocks, size)
      ensures curr != 0 ==> FirstFit(blocks, size, i) && curr == blocks[i].addr
    {
      hide Linked, Tiled, Ascending;
      curr, i := freeListStart, 0;
      while curr != 0
        invariant i <= |blocks| && curr == if i < |blocks| then blocks[i].addr else 0
        invariant forall j :: 0 <= j < i ==> !Fits(blocks[j], size)
        decreases |blocks| - i
      {
        HeaderAt(i);
        if memory[curr].isFree && memory[curr].size >= size {
          return;
        }
        curr := memory[curr].next;
        i := i + 1;
        if i < |blocks| {
          HeaderAt(i);
        }
      }
      if i < |blocks| {
        HeaderAt(i);
      }
    }

    /** Links a new block behind the last one. */
    method LinkLast(newBlock: nat, ghost b: Block, ghost end: nat)
      requires Tiled(blocks, HEAP_START, end) && Linked(memory, blocks) && freeListStart == HeadAddr(blocks)
      requires b.addr == newBlock == end && WellSized(b) && heapEnd == End(b)
      requires newBlock in memory && memory[newBlock] == Header(b.size, b.free, 0, 0)
      modifies this`memory, this`blocks, this`freeListStart
      ensures ListShape() && blocks == old(blocks) + [b]
    {
      hide Linked, Tiled, Ascending, WellSized, End;
      Lengthened(memory, blocks, b, heapEnd);
      if freeListStart == 0 {
        assert blocks + [b] == [b];
        freeListStart := newBlock;
        assert memory == memory[newBlock := Header(b.size, b.free, 0, 0)];
      } else {
        ghost var before := memory;
        var last := FindLast();
        memory := memory[last := memory[last].(next := newBlock)];
        memory := memory[newBlock := memory[newBlock].(prev := last)];
        assert memory == before[newBlock := Header(b.size, b.free, 0, last)][last := before[last].(next := newBlock)];
      }
      blocks := blocks + [b];
    }

    /** The last header of a list that is not empty. */
    method FindLast() returns (last: nat)
      requires blocks != [] && Linked(memory, blocks) && Ascending(blocks) && freeListStart == HeadAddr(blocks)
      ensures last == blocks[|blocks| - 1].addr
    {
      last := freeListStart;
      ghost var i := 0;
      assert At(memory, blocks, 0);
      while memory[last].next != 0
        invariant i < |blocks| && last == blocks[i].addr && At(memory, blocks, i)
        decreases |blocks| - i
      {
        last := memory[last].next;
        i := i + 1;
        assert At(memory, blocks, i);
      }
    }

    /**
     * `kmalloc`: the lowest block that fits, or a block over new pages, or null when neither can be had, with nothing
     * changed but for a page table that was made for the pages. The one retry finds the new block. The call faults
     * when the page count has wrapped around, or there is a frame for the first page and none for its table.
     */
    method Kmalloc(size: nat) returns (ptr: nat, fault: bool)
      requires PagesValid() && Ready(RoundUp(size)) && size <= MAX_REQUEST
      modifies this`memory, this`blocks, this`freeListStart, this`mapped, this`heapEnd, this`tablePresent, this`tables,
               pmm`outstanding, pmm.bitmap
      ensures fault <==> size > 0 && NoFit(old(blocks), RoundUp(size))
                         && (PagesFor(RoundUp(size)) == 0 || Starved(old(tablePresent), old(pmm.Free())))
      ensures fault ==> ptr == 0
      ensures !fault && (size > 0 || Coalesced(old(blocks))) ==> Valid()
      ensures !fault && ptr == 0 ==> blocks == old(blocks) && memory == old(memory)
      ensures size == 0 ==> ptr == 0 && PageState() == old(PageState()) && tables == old(tables)
      ensures forall i: nat :: size > 0 && FirstFit(old(blocks), RoundUp(size), i) ==>
                && ptr == Payload(old(blocks)[i]) && blocks == AllocAt(old(blocks), i, RoundUp(size))
                && PageState() == old(PageState()) && tables == old(tables) && tablePresent == old(tablePresent)
      ensures !fault && size > 0 && NoFit(old(blocks), RoundUp(size)) ==>
                Outcome(old(PageState()), old(tablePresent), old(tables), PagesFor(RoundUp(size)), ptr != 0,
                        PageState(), tablePresent, tables)
      ensures ptr != 0 && NoFit(old(blocks), RoundUp(size)) ==>
                TakenFromNew(old(blocks), old(heapEnd), RoundUp(size), blocks, ptr)
      ensures ptr != 0 ==> Granted(old(blocks), blocks, ptr, RoundUp(size))
      decreases NoFit(blocks, RoundUp(size))
    {
      hide Pmm.FramePool.Valid, Pmm.FramePool.Used, Pmm.FramePool.Free, Linked, Tiled, Backed, AllocAt, Extended,
           Granted, FirstFit, NoFit, Coalesced, Live, RoundUp, PagesFor, TableOk, Starved, Outcome;
      if size == 0 {
        return 0, false;
      }
      RoundUpWraps(size);
      var n := RoundUp(size);
      var curr;
      ghost var i;
      curr, i := FindFit(n);
      if curr != 0 {
        FirstFitFacts(blocks, n, i);
        TakenCoalesced(blocks, n, i);
        AllocGrants(blocks, i, n, heapEnd);
        TakeBlock(curr, n, i);
        return curr + HEADER_SIZE, false;
      }
      StateIs();
      ghost var end0, s, had, tables0 := heapEnd, PageState(), tablePresent, tables;
      NothingFits(blocks, n);
      var newBlock;
      newBlock, fault := ExpandHeap(n);
      if newBlock == 0 {
        if !fault {
          OutcomeRefused(s, had, tables0, PagesFor(n), PageState(), tablePresent, tables);
        }
        return 0, fault;
      }
      NewBlockIs(end0, n);
      NewBlockFits(blocks, NewBlock(end0, n), n);
      LinkedElsewhere(old(memory), blocks, newBlock, memory[newBlock]);
      LinkLast(newBlock, NewBlock(newBlock, n), old(heapEnd));
      ptr, fault := Kmalloc(n);
      GrantedGrown(old(blocks), NewBlock(newBlock, n), blocks, ptr, n);
    }

    /** Merges the released block with the one behind it, if that is free. */
    method CoalesceNext(header: nat, ghost i: nat)
      requires ListShape() && i < |blocks| && header == blocks[i].addr
      modifies this`memory, this`blocks
      ensures ListShape() && blocks == JoinNext(old(blocks), i)
      ensures i < |blocks| && blocks[i].addr == header
    {
      hide Linked, Tiled, Ascending, Join;
      HeaderAt(i);
      if i + 1 < |blocks| {
        HeaderAt(i + 1);
      }
      if memory[header].next != 0 && memory[memory[header].next].isFree {
        ghost var before := memory;
        JoinLinked(memory, blocks, i);
        JoinTiled(blocks, i, HEAP_START, heapEnd);
        ghost var b := memory[memory[header].next];
        memory := memory[header := memory[header].(
          size := memory[header].size + HEADER_SIZE + memory[memory[header].next].size)];
        memory := memory[header := memory[header].(next := memory[memory[header].next].next)];
        if memory[header].next != 0 {
          memory := memory[memory[header].next := memory[memory[header].next].(prev := header)];
        }
        assert memory
               == WithPrev(before[header := before[header].(size := before[header].size + HEADER_SIZE + b.size,
                                                            next := b.next)], b.next, header);
        JoinHead(blocks, i);
        blocks := Join(blocks, i);
      }
    }

    /** Merges the released block into the one in front of it, if that is free. */
    method CoalescePrevious(header: nat, ghost i: nat)
      requires ListShape() && i < |blocks| && header == blocks[i].addr
      modifies this`memory, this`blocks
      ensures ListShape() && blocks == JoinPrevious(old(blocks), i)
    {
      hide Linked, Tiled, Ascending, Join;
      HeaderAt(i);
      if i > 0 {
        HeaderAt(i - 1);
      }
      if memory[header].prev != 0 && memory[memory[header].prev].isFree {
        ghost var before := memory;
        JoinLinked(memory, blocks, i - 1);
        JoinTiled(blocks, i - 1, HEAP_START, heapEnd);
        ghost var a, b := memory[header].prev, memory[header];
        memory := memory[memory[header].prev := memory[memory[header].prev].(
          size := memory[memory[header].prev].size + HEADER_SIZE + memory[header].size)];
        memory := memory[memory[header].prev := memory[memory[header].prev].(next := memory[header].next)];
        if memory[header].next != 0 {
          memory := memory[memory[header].next := memory[memory[header].next].(prev := memory[header].prev)];
        }
        assert memory
               == WithPrev(before[a := before[a].(size := before[a].size + HEADER_SIZE + b.size, next := b.next)],
                           b.next, a);
        JoinHead(blocks, i - 1);
        blocks := Join(blocks, i - 1);
      }
    }

    /**
     `kfree`, given null or a pointer that is handed out: exactly that block is released and merged with free
     neighbours.
     */
    method Kfree(ptr: nat)
      requires Valid() && (ptr == 0 || exists b :: b in Live(blocks) && Payload(b) == ptr)
      modifies this`memory, this`blocks
      ensures Valid()
      ensures ptr == 0 ==> blocks == old(blocks) && memory == old(memory)
      ensures forall i: nat :: i < |old(blocks)| && Payload(old(blocks)[i]) == ptr ==> blocks == FreeAt(old(blocks), i)
      ensures forall b :: b in Live(old(blocks)) && Payload(b) == ptr ==> Live(blocks) == Live(old(blocks)) - {b}
    {
      hide Linked, Tiled, Ascending, Join, Coalesced, Live, Payload, Pmm.FramePool.Valid;
      if ptr == 0 {
        NoNullPayload(blocks, heapEnd);
        return;
      }
      ghost var b :| b in Live(blocks) && Payload(b) == ptr;
      ghost var i := LiveReleased(blocks, b, heapEnd);
      var header := ptr - HEADER_SIZE;
      HeaderAt(i);
      TakeLinked(memory, blocks, i, true);
      ReleaseTiled(blocks, i, HEAP_START, heapEnd);
      memory := memory[header := memory[header].(isFree := true)];
      blocks := blocks[i := b.(free := true)];
      CoalesceNext(header, i);
      CoalescePrevious(header, i);
    }

    method Empty()
      requires pmm.Valid() && mapped == map[] && TableOk(tablePresent, tables, map[], HEAP_START, pmm.outstanding)
      modifies this`freeListStart, this`heapEnd, this`blocks
      ensures Valid() && blocks == [] && heapEnd == HEAP_START
    {
      freeListStart := 0;
      heapEnd := HEAP_START;
      blocks := [];
    }

    /** `heap_init`: one free block over one page, or an empty list when there is no frame for it and its table. */
    method Init() returns (fault: bool)
      requires pmm.Valid() && mapped == map[] && TableOk(tablePresent, tables, map[], HEAP_START, pmm.outstanding)
      modifies this, pmm`outstanding, pmm.bitmap
      ensures fault <==> Starved(old(tablePresent), old(pmm.Free()))
      ensures !fault ==> Valid()
      ensures !fault ==>
                var frames := if old(tablePresent) then 1 else 2;
                && |pmm.Free()| == |old(pmm.Free())| - (if |old(pmm.Free())| >= frames then frames else 0)
                && if |old(pmm.Free())| >= frames
                   then tablePresent && blocks == [Block(HEAP_START, PAGE_SIZE - HEADER_SIZE, true)]
                   else blocks == [] && heapEnd == HEAP_START
    {
      hide Pmm.FramePool.Used, Pmm.FramePool.Free, Pmm.FramePool.Valid, Backed, Tiled, Extended, Linked, Coalesced,
           TableOk, Outcome, Sound, NewBlock, Starved;
      Empty();
      StateIs();
      ghost var s, m, had, tables0 := PageState(), memory, tablePresent, tables;
      FirstPage();
      hide PagesFor;
      freeListStart, fault := ExpandHeap(0);
      assert !fault ==> pmm.Shape() by { if !fault { StateIs(); } }
      StarvedIs(had, s.free);
      if !fault {
        FirstOutcome(s, had, tables0, freeListStart != 0, PageState(), tablePresent, tables);
      }
      if !fault && freeListStart == 0 {
        OutcomeRefused(s, had, tables0, 1, PageState(), tablePresent, tables);
      }
      if freeListStart != 0 {
        FirstBlock();
        OneBlock(m, Block(HEAP_START, PAGE_SIZE - HEADER_SIZE, true), heapEnd);
        blocks := [Block(HEAP_START, PAGE_SIZE - HEADER_SIZE, true)];
      }
    }
  }

  lemma StarvedIs(present: bool, free: set<nat>)
    ensures Starved(present, free) <==> !present && |free| == 1
  {
  }

  lemma FirstBlock()
    ensures PagesFor(0) > 0 && NewBlock(HEAP_START, 0) == Block(HEAP_START, PAGE_SIZE - HEADER_SIZE, true)
  {
  }

  lemma FirstPage()
    ensures PagesFor(0) == 1
  {
  }

  /** The frames that the start of the heap takes: one for the page, and one for its table. */
  lemma FirstOutcome(s: Start, had: bool, tables0: set<nat>, ok: bool, t: Start, present: bool, tables: set<nat>)
    requires Outcome(s, had, tables0, 1, ok, t, present, tables) && s.end == HEAP_START
    ensures ok <==> |s.free| >= (if had then 1 else 2)
    ensures ok ==> present && |t.free| == |s.free| - (if had then 1 else 2)
    ensures !ok && (had || |s.free| != 1) ==> |t.free| == |s.free|
  {
    hide Sound;
    if ok {
      ExtendedCount(s, tables - tables0, t, 1);
    }
    if had {
      assert tables - tables0 == {};
    }
  }

  /** A list of one block. */
  lemma {:induction false} OneBlock(m: map<nat, Header>, b: Block, hi: nat)
    requires b.addr == HEAP_START && WellSized(b) && hi == End(b)
    ensures Tiled([b], HEAP_START, hi) && Coalesced([b]) && HeadAddr([b]) == HEAP_START
    ensures Linked(m[b.addr := Header(b.size, b.free, 0, 0)], [b])
  {
    TiledOne(b);
    AppendLinked(m, [], b);
  }
}
