/**
 The first page directory: identity mapping, kernel image, kernel stacks and the slot that maps the directory itself.
 */
module Paging {
  import opened Common
  import opened PageTables
  import Pmm
  import SchedulerSteps

  const IDENTITY_ENTRIES := 1024
  const HEAP_SLOT := 769
  const STACK_INDEX := 512
  const STACK_PAGES := 511

  /** The directory `d` with its two tables. */
  ghost predicate BootDirectory(row: seq<Word>, d: nat, low: nat, kernel: nat) {
    && |row| == ENTRIES_PER_TABLE
    && (forall i :: 0 <= i < ENTRIES_PER_TABLE && i != 0 && i != KERNEL_SLOT && i != SELF_SLOT ==> row[i] == 0)
    && Present(row[0]) && FrameOf(row[0]) == low
    && Present(row[KERNEL_SLOT]) && FrameOf(row[KERNEL_SLOT]) == kernel
    && Present(row[SELF_SLOT]) && FrameOf(row[SELF_SLOT]) == d
  }

  /** A table that maps its entries from `at` on to these frames. */
  ghost predicate Maps(row: seq<Word>, at: nat, frames: seq<nat>) {
    at + |frames| <= |row| && forall i :: 0 <= i < |frames| ==> Leaf(row[at + i]) == Some(frames[i])
  }

  ghost predicate Unmapped(row: seq<Word>, from: nat, to: nat)
    requires to <= |row|
  {
    forall i :: from <= i < to ==> Leaf(row[i]) == None
  }

  /** Consecutive frames. */
  ghost function Frames(from: nat, count: nat): (r: seq<nat>)
    ensures |r| == count && forall i :: 0 <= i < count ==> r[i] == from + i
  {
    seq(count, i requires 0 <= i < count => from + i)
  }

  /** What the directory maps: the first 4 MiB to themselves, the kernel image and the stacks, and nothing else. */
  ghost predicate BootView(ram: Ram, d: nat, kernelStart: nat, kernelPages: nat, stacks: seq<nat>)
    requires Sized(ram) && d < |ram|
  {
    forall q: nat :: q < RECURSIVE ==> Lookup(ram, d, q) == BootFrame(q, kernelStart, kernelPages, stacks)
  }

  /** The frame of page `q`. */
  ghost function BootFrame(q: nat, kernelStart: nat, kernelPages: nat, stacks: seq<nat>): Option<nat> {
    var k := KERNEL_SLOT * ENTRIES_PER_TABLE;
    if q < IDENTITY_ENTRIES then Some(q)
    else if k <= q < k + kernelPages then Some(kernelStart + (q - k))
    else if k + STACK_INDEX <= q < k + STACK_INDEX + |stacks| then Some(stacks[q - k - STACK_INDEX])
    else None
  }

  /**
   The same by address: the first 4 MiB are themselves, the image begins at 3 GiB, and from 0xC0200000 up to 0xC03FF000
   every page lies on its stack frame.
   */
  lemma BootAddresses(ram: Ram, d: nat, kernelStart: nat, kernelPages: nat, stacks: seq<nat>, a: nat)
    requires Sized(ram) && d < |ram| && a < 0xFFC0_0000 && kernelPages <= STACK_INDEX && |stacks| == STACK_PAGES
    requires BootView(ram, d, kernelStart, kernelPages, stacks)
    ensures a < 0x40_0000 ==> Lookup(ram, d, a / 4096) == Some(a / 4096)
    ensures 0xC000_0000 <= a < 0xC000_0000 + 4096 * kernelPages ==>
              Lookup(ram, d, a / 4096) == Some(kernelStart + (a - 0xC000_0000) / 4096)
    ensures 0xC020_0000 <= a < 0xC03F_F000 ==>
              Lookup(ram, d, a / 4096) == Some(stacks[(a - 0xC020_0000) / 4096])
    ensures Lookup(ram, d, a / 4096) != None ==>
              a < 0x40_0000 || 0xC000_0000 <= a < 0xC000_0000 + 4096 * kernelPages || 0xC020_0000 <= a < 0xC03F_F000
  {
    hide Lookup;
    assert Lookup(ram, d, a / 4096) == BootFrame(a / 4096, kernelStart, kernelPages, stacks);
  }

  /** The kernel stacks that the scheduler hands out lie on stack frames, each page of each of them on its own. */
  lemma TaskStackMapped(ram: Ram, d: nat, kernelStart: nat, kernelPages: nat, stacks: seq<nat>, slot: nat, x: nat)
    requires Sized(ram) && d < |ram| && kernelPages <= STACK_INDEX && |stacks| == STACK_PAGES
    requires BootView(ram, d, kernelStart, kernelPages, stacks)
    requires slot < SchedulerSteps.StackSlotCount() && x < SchedulerSteps.KERNEL_STACK_SIZE
    ensures Lookup(ram, d, (SchedulerSteps.StackBase(slot) + x) / 4096) == Some(stacks[4 * slot + x / 4096])
  {
    hide Lookup, BootView;
    BootAddresses(ram, d, kernelStart, kernelPages, stacks, SchedulerSteps.StackBase(slot) + x);
  }

  lemma BootViewHolds(ram: Ram, d: nat, low: nat, kernel: nat, kernelStart: nat, kernelPages: nat, stacks: seq<nat>)
    requires Sized(ram) && d < |ram| && low < |ram| && kernel < |ram| && BootDirectory(ram[d], d, low, kernel)
    requires kernelPages <= STACK_INDEX && |stacks| == STACK_PAGES
    requires Maps(ram[low], 0, Frames(0, IDENTITY_ENTRIES))
    requires Maps(ram[kernel], 0, Frames(kernelStart, kernelPages)) && Maps(ram[kernel], STACK_INDEX, stacks)
    requires Unmapped(ram[kernel], kernelPages, STACK_INDEX) && Unmapped(ram[kernel], 1023, 1024)
    ensures BootView(ram, d, kernelStart, kernelPages, stacks)
  {
    forall q: nat | q < RECURSIVE
      ensures Lookup(ram, d, q) == BootFrame(q, kernelStart, kernelPages, stacks)
    {
      BootPage(ram, d, low, kernel, kernelStart, kernelPages, stacks, q);
    }
  }

  lemma BootPage(ram: Ram, d: nat, low: nat, kernel: nat, kernelStart: nat, kernelPages: nat, stacks: seq<nat>, q: nat)
    requires Sized(ram) && d < |ram| && low < |ram| && kernel < |ram| && BootDirectory(ram[d], d, low, kernel)
    requires kernelPages <= STACK_INDEX && |stacks| == STACK_PAGES && q < RECURSIVE
    requires Maps(ram[low], 0, Frames(0, IDENTITY_ENTRIES))
    requires Maps(ram[kernel], 0, Frames(kernelStart, kernelPages)) && Maps(ram[kernel], STACK_INDEX, stacks)
    requires Unmapped(ram[kernel], kernelPages, STACK_INDEX) && Unmapped(ram[kernel], 1023, 1024)
    ensures Lookup(ram, d, q) == BootFrame(q, kernelStart, kernelPages, stacks)
  {
    var i, j := q / ENTRIES_PER_TABLE, q % ENTRIES_PER_TABLE;
    if i == 0 {
      assert Leaf(ram[low][0 + j]) == Some(Frames(0, IDENTITY_ENTRIES)[j]);
    } else if i == KERNEL_SLOT {
      if j < kernelPages {
        assert Leaf(ram[kernel][0 + j]) == Some(Frames(kernelStart, kernelPages)[j]);
      } else if STACK_INDEX <= j < 1023 {
        assert Leaf(ram[kernel][STACK_INDEX + (j - STACK_INDEX)]) == Some(stacks[j - STACK_INDEX]);
      }
    }
  }

  /** A directory on tables of its own is well formed. */
  lemma BootSpaces(ram: Ram, d: nat, low: nat, kernel: nat, free: set<nat>)
    requires Sized(ram) && d < |ram| && low < |ram| && kernel < |ram| && BootDirectory(ram[d], d, low, kernel)
    requires low != kernel && low != d && kernel != d && d !in free && low !in free && kernel !in free
    requires forall f :: f in free ==> f < |ram|
    ensures Spaces(ram, {d}, free)
  {
    forall e: nat, i: nat | e in {d} && i < SELF_SLOT
      ensures TableApart(ram, {d}, free, e, i)
    {
    }
    forall e: nat, i: nat, f: nat, j: nat | e in {d} && i < SELF_SLOT && f in {d} && j < SELF_SLOT
      ensures SlotsApart(ram, e, i, f, j)
    {
    }
  }

  /** A free frame of its own for a table, cleared. */
  method ClearedTable(pmm: Pmm.FramePool, ram: Ram) returns (addr: Word, ram': Ram)
    requires pmm.Valid() && pmm.Free() != {} && Sized(ram) && |ram| >= Pmm.MAX_FRAMES
    modifies pmm`outstanding, pmm.bitmap
    ensures pmm.Valid() && addr % PAGE_SIZE == 0 && addr / PAGE_SIZE < |ram|
    ensures addr / PAGE_SIZE in old(pmm.Free()) && pmm.Free() == old(pmm.Free()) - {addr / PAGE_SIZE}
    ensures ram' == ram[addr / PAGE_SIZE := ZeroFrame()] && Sized(ram')
  {
    var a := pmm.AllocFrame();
    addr := a;
    ram' := ram[a / PAGE_SIZE := seq(ENTRIES_PER_TABLE, _ => 0)];
    assert ram'[a / PAGE_SIZE] == ZeroFrame();
  }

  /** Entries `at..` of the table at `table` map consecutive frames. */
  method MapRun(ram: Ram, table: nat, count: nat, first: nat) returns (ram': Ram)
    requires Sized(ram) && table < |ram| && count <= ENTRIES_PER_TABLE && PAGE_SIZE * (first + count) <= 0x1_0000_0000
    ensures Sized(ram') && |ram'| == |ram| && forall f :: 0 <= f < |ram| && f != table ==> ram'[f] == ram[f]
    ensures Maps(ram'[table], 0, Frames(first, count))
    ensures forall i :: count <= i < ENTRIES_PER_TABLE ==> ram'[table][i] == ram[table][i]
  {
    hide Entry;
    ram' := ram;
    for i := 0 to count
      invariant Sized(ram') && |ram'| == |ram| && forall f :: 0 <= f < |ram| && f != table ==> ram'[f] == ram[f]
      invariant forall x :: 0 <= x < i ==> Leaf(ram'[table][x]) == Some(first + x)
      invariant forall x :: i <= x < ENTRIES_PER_TABLE ==> ram'[table][x] == ram[table][x]
    {
      ram' := Put(ram', table, i, Entry((first + i) * PAGE_SIZE, PAGE_WRITE));
    }
  }

  /** Frames taken from the pool, no two the same. */
  ghost predicate Taken(stacks: seq<nat>, before: set<nat>, free: set<nat>) {
    && (forall i :: 0 <= i < |stacks| ==> stacks[i] in before && stacks[i] !in free)
    && (forall i, j :: 0 <= i < j < |stacks| ==> stacks[i] != stacks[j])
  }

  lemma TakenStep(stacks: seq<nat>, before: set<nat>, free: set<nat>, f: nat)
    requires Taken(stacks, before, free) && f in free && free <= before
    ensures Taken(stacks + [f], before, free - {f})
  {
  }

  lemma MapsStep(row: seq<Word>, at: nat, frames: seq<nat>, w: Word)
    requires Maps(row, at, frames) && at + |frames| < |row| && Present(w)
    ensures Maps(row[at + |frames| := w], at, frames + [FrameOf(w)])
  {
  }

  /** The kernel stacks get frames of their own. */
  method MapStacks(pmm: Pmm.FramePool, ram: Ram, table: nat) returns (ram': Ram, ghost stacks: seq<nat>)
    requires pmm.Valid() && |pmm.Free()| >= STACK_PAGES && Sized(ram) && table < |ram|
    modifies pmm`outstanding, pmm.bitmap
    ensures pmm.Valid() && pmm.Free() <= old(pmm.Free()) && Taken(stacks, old(pmm.Free()), pmm.Free())
    ensures Sized(ram') && |ram'| == |ram| && forall f :: 0 <= f < |ram| && f != table ==> ram'[f] == ram[f]
    ensures |stacks| == STACK_PAGES && Maps(ram'[table], STACK_INDEX, stacks)
    ensures forall x :: 0 <= x < ENTRIES_PER_TABLE && !(STACK_INDEX <= x < STACK_INDEX + STACK_PAGES) ==>
              ram'[table][x] == ram[table][x]
  {
    hide Entry, Pmm.FramePool.Used, Pmm.FramePool.Free, Maps, Taken;
    ram' := ram;
    stacks := [];
    NoneMapped(ram[table], pmm.Free());
    for i := 0 to STACK_PAGES
      invariant pmm.Valid() && pmm.Free() <= old(pmm.Free()) && |pmm.Free()| >= STACK_PAGES - i
      invariant Sized(ram') && |ram'| == |ram| && forall f :: 0 <= f < |ram| && f != table ==> ram'[f] == ram[f]
      invariant |stacks| == i && Maps(ram'[table], STACK_INDEX, stacks) && Taken(stacks, old(pmm.Free()), pmm.Free())
      invariant forall x :: 0 <= x < ENTRIES_PER_TABLE && !(STACK_INDEX <= x < STACK_INDEX + i) ==>
                  ram'[table][x] == ram[table][x]
    {
      assert pmm.Free() != {};
      ghost var free := pmm.Free();
      var frame := pmm.AllocFrame();
      TakenStep(stacks, old(pmm.Free()), free, frame / PAGE_SIZE);
      MapsStep(ram'[table], STACK_INDEX, stacks, Entry(frame, PAGE_WRITE));
      ram' := Put(ram', table, STACK_INDEX + i, Entry(frame, PAGE_WRITE));
      stacks := stacks + [frame / PAGE_SIZE];
    }
  }

  lemma NoneMapped(row: seq<Word>, free: set<nat>)
    requires |row| == ENTRIES_PER_TABLE
    ensures Maps(row, STACK_INDEX, []) && Taken([], free, free)
  {
  }

  lemma FreeInMemory(pmm: Pmm.FramePool)
    requires pmm.Valid()
    ensures forall f :: f in pmm.Free() ==> f < Pmm.MAX_FRAMES
  {
  }

  /** Nothing but these frames differs. */
  ghost predicate OnlyRows(ram: Ram, ram': Ram, a: nat, b: nat) {
    |ram'| == |ram| && forall f :: 0 <= f < |ram| && f != a && f != b ==> ram'[f] == ram[f]
  }

  /** The directory and the first two tables: three cleared frames. */
  method BootTables(pmm: Pmm.FramePool, ram: Ram) returns (pdtPhys: Word, lowPhys: Word, kernelPhys: Word, ram': Ram)
    requires pmm.Valid() && |pmm.Free()| >= 3 && Sized(ram) && |ram| >= Pmm.MAX_FRAMES
    modifies pmm`outstanding, pmm.bitmap
    ensures pmm.Valid() && pmm.Free() <= old(pmm.Free()) && |pmm.Free()| == |old(pmm.Free())| - 3
    ensures pdtPhys % PAGE_SIZE == 0 && Sized(ram') && |ram'| == |ram|
    ensures var d, low, kernel := pdtPhys / PAGE_SIZE, lowPhys / PAGE_SIZE, kernelPhys / PAGE_SIZE;
            && d < |ram| && low < |ram| && kernel < |ram| && d != low && d != kernel && low != kernel
            && d !in pmm.Free() && low !in pmm.Free() && kernel !in pmm.Free()
            && ram'[d] == ram'[low] == ram'[kernel] == ZeroFrame()
  {
    hide Pmm.FramePool.Used, Pmm.FramePool.Free, Pmm.FramePool.Valid, ZeroFrame;
    pmm.HasShape();
    pdtPhys, ram' := ClearedTable(pmm, ram);
    pmm.HasShape();
    assert |pmm.Free()| >= 2;
    lowPhys, ram' := ClearedTable(pmm, ram');
    pmm.HasShape();
    assert |pmm.Free()| >= 1;
    kernelPhys, ram' := ClearedTable(pmm, ram');
    pmm.HasShape();
  }

  /** The identity mapping. */
  method MapLow(ram: Ram, d: nat, lowPhys: Word) returns (ram': Ram)
    requires Sized(ram) && d < |ram| && lowPhys / PAGE_SIZE < |ram| && lowPhys / PAGE_SIZE != d
    ensures Sized(ram') && OnlyRows(ram, ram', d, lowPhys / PAGE_SIZE)
    ensures ram'[d] == ram[d][0 := Entry(lowPhys, PAGE_WRITE)]
            && Maps(ram'[lowPhys / PAGE_SIZE], 0, Frames(0, IDENTITY_ENTRIES))
  {
    hide Entry, Maps;
    ram' := MapRun(ram, lowPhys / PAGE_SIZE, IDENTITY_ENTRIES, 0);
    ram' := Put(ram', d, 0, Entry(lowPhys, PAGE_WRITE));
  }

  /** The kernel image. */
  method MapKernel(ram: Ram, d: nat, kernelPhys: Word, first: nat, count: nat) returns (ram': Ram)
    requires Sized(ram) && d < |ram| && kernelPhys / PAGE_SIZE < |ram| && kernelPhys / PAGE_SIZE != d
    requires count <= STACK_INDEX && PAGE_SIZE * (first + count) <= 0x1_0000_0000
    ensures Sized(ram') && OnlyRows(ram, ram', d, kernelPhys / PAGE_SIZE)
    ensures ram'[d] == ram[d][KERNEL_SLOT := Entry(kernelPhys, PAGE_WRITE)][HEAP_SLOT := 0]
    ensures Maps(ram'[kernelPhys / PAGE_SIZE], 0, Frames(first, count))
    ensures forall i :: count <= i < ENTRIES_PER_TABLE ==>
              ram'[kernelPhys / PAGE_SIZE][i] == ram[kernelPhys / PAGE_SIZE][i]
  {
    hide Entry, Maps;
    ram' := MapRun(ram, kernelPhys / PAGE_SIZE, count, first);
    ram' := Put(ram', d, KERNEL_SLOT, Entry(kernelPhys, PAGE_WRITE));
    ram' := Put(ram', d, HEAP_SLOT, 0);
  }

  /** The directory's row after all its entries were stored. */
  lemma RowIsBoot(d: nat, pdtPhys: Word, lowPhys: Word, kernelPhys: Word, row: seq<Word>)
    requires d == pdtPhys / PAGE_SIZE
    requires row
             == ZeroFrame()[0 := Entry(lowPhys, PAGE_WRITE)]
                           [KERNEL_SLOT := Entry(kernelPhys, PAGE_WRITE)][HEAP_SLOT := 0]
                      [KERNEL_SLOT := Entry(kernelPhys, PAGE_WRITE)][SELF_SLOT := Entry(pdtPhys, PAGE_WRITE)]
    ensures BootDirectory(row, d, lowPhys / PAGE_SIZE, kernelPhys / PAGE_SIZE)
  {
    hide Entry;
  }

  /** The kernel image keeps its place when the stacks are mapped behind it. */
  lemma MapsKept(row: seq<Word>, row': seq<Word>, frames: seq<nat>)
    requires Maps(row, 0, frames) && |row'| == |row| && forall i :: 0 <= i < |frames| ==> row'[i] == row[i]
    ensures Maps(row', 0, frames)
  {
    forall i | 0 <= i < |frames|
      ensures Leaf(row'[0 + i]) == Some(frames[i])
    {
      assert Leaf(row[0 + i]) == Some(frames[i]);
    }
  }

  /**
   * `paging_init`, with frames enough and a kernel image below the stack region: a well-formed directory whose
   * pages are exactly the identity mapping, the kernel image and the kernel stacks, each stack page on its own frame.
   */
  method PagingInit(pmm: Pmm.FramePool, ram: Ram, kernelStart: nat, kernelEnd: nat)
    returns (ram': Ram, pdtPhys: Word, ghost stacks: seq<nat>)
    requires pmm.Valid() && |pmm.Free()| >= 3 + STACK_PAGES && Sized(ram) && |ram| >= Pmm.MAX_FRAMES
    requires kernelStart < kernelEnd <= 0x1_0000_0000
             && (kernelEnd - 1) / PAGE_SIZE - kernelStart / PAGE_SIZE + 1 <= STACK_INDEX
    modifies pmm`outstanding, pmm.bitmap
    ensures pmm.Valid() && pdtPhys % PAGE_SIZE == 0 && |ram'| == |ram|
    ensures Spaces(ram', {pdtPhys / PAGE_SIZE}, pmm.Free())
    ensures BootView(ram', pdtPhys / PAGE_SIZE, kernelStart / PAGE_SIZE,
                     (kernelEnd - 1) / PAGE_SIZE - kernelStart / PAGE_SIZE + 1, stacks)
    ensures |stacks| == STACK_PAGES && Taken(stacks, old(pmm.Free()), pmm.Free())
  {
    hide Entry, ZeroFrame, Maps, BootDirectory, BootView, Pmm.FramePool.Used, Pmm.FramePool.Free, Taken, Frames,
         Spaces, Unmapped;
    var lowPhys, kernelPhys;
    pdtPhys, lowPhys, kernelPhys, ram' := BootTables(pmm, ram);
    ghost var d, low, kernel := pdtPhys / PAGE_SIZE, lowPhys / PAGE_SIZE, kernelPhys / PAGE_SIZE;
    ghost var booted := pmm.Free();
    ram' := MapLow(ram', pdtPhys / PAGE_SIZE, lowPhys);
    var startPage, endPage := kernelStart / PAGE_SIZE, (kernelEnd - 1) / PAGE_SIZE;
    var pageCount := endPage - startPage + 1;
    ram' := MapKernel(ram', pdtPhys / PAGE_SIZE, kernelPhys, startPage, pageCount);
    ghost var before := ram'[kernel];
    ram', stacks := MapStacks(pmm, ram', kernelPhys / PAGE_SIZE);
    MapsKept(before, ram'[kernel], Frames(startPage, pageCount));
    ram' := Put(ram', pdtPhys / PAGE_SIZE, KERNEL_SLOT, Entry(kernelPhys, PAGE_WRITE));
    ram' := Put(ram', pdtPhys / PAGE_SIZE, SELF_SLOT, Entry(pdtPhys, PAGE_WRITE));
    RowIsBoot(d, pdtPhys, lowPhys, kernelPhys, ram'[d]);
    RestUnmapped(before, ram'[kernel], pageCount);
    BootViewHolds(ram', d, low, kernel, startPage, pageCount, stacks);
    FreeInMemory(pmm);
    BootSpaces(ram', d, low, kernel, pmm.Free());
    TakenFrom(stacks, booted, old(pmm.Free()), pmm.Free());
  }

  lemma TakenFrom(stacks: seq<nat>, before: set<nat>, more: set<nat>, free: set<nat>)
    requires Taken(stacks, before, free) && before <= more
    ensures Taken(stacks, more, free)
  {
  }

  /** What neither the image nor the stacks take up stays unmapped. */
  lemma RestUnmapped(row: seq<Word>, row': seq<Word>, count: nat)
    requires |row| == |row'| == ENTRIES_PER_TABLE && count <= STACK_INDEX
    requires forall i :: count <= i < ENTRIES_PER_TABLE ==> row[i] == ZeroFrame()[i]
    requires forall i :: 0 <= i < ENTRIES_PER_TABLE && !(STACK_INDEX <= i < STACK_INDEX + STACK_PAGES) ==>
               row'[i] == row[i]
    ensures Unmapped(row', count, STACK_INDEX) && Unmapped(row', 1023, 1024)
  {
  }
}
