/** The virtual memory manager: page tables edited through the recursive mapping and a temporary window. */
module Vmm {
  import opened Common
  import opened PageTables
  import Pmm

  const VMM_PDT_VIRTUAL_ADDR := 0xFFFF_F000
  const PT_BASE := 0xFFC0_0000
  const VMM_TEMP_PAGE := 0xC03F_F000

  /** Where entry `j` of table `i` appears in the recursive region; the directory is its table 1023. */
  lemma TableAddress(i: nat, j: nat)
    requires i < ENTRIES_PER_TABLE && j < ENTRIES_PER_TABLE
    ensures var a := PT_BASE + i * PAGE_SIZE + 4 * j;
            a < 0x1_0000_0000 && a % 4 == 0 && a / PAGE_SIZE == RECURSIVE + i && a % PAGE_SIZE / 4 == j
    ensures VMM_PDT_VIRTUAL_ADDR == PT_BASE + SELF_SLOT * PAGE_SIZE
    ensures var a := VMM_TEMP_PAGE + 4 * j;
            a < 0x1_0000_0000 && a % 4 == 0 && a / PAGE_SIZE == WINDOW && a % PAGE_SIZE / 4 == j
  {
  }

  class AddressSpaces {
    const pmm: Pmm.FramePool
    var ram: Ram
    var cr3: nat
    /** The frames of the page directories in use. */
    ghost var dirs: set<nat>

    constructor (pmm: Pmm.FramePool, ram: Ram, pdtPhys: nat)
      requires pmm.Valid() && pdtPhys % PAGE_SIZE == 0 && Spaces(ram, {pdtPhys / PAGE_SIZE}, pmm.Free())
      ensures Valid() && dirs == {pdtPhys / PAGE_SIZE} && this.pmm == pmm && this.ram == ram && cr3 == pdtPhys
    {
      this.pmm := pmm;
      this.ram := ram;
      cr3 := pdtPhys;
      dirs := {pdtPhys / PAGE_SIZE};
    }

    ghost predicate Valid()
      reads this, pmm, pmm.bitmap
    {
      && pmm.Valid() && Spaces(ram, dirs, pmm.Free())
      && cr3 % PAGE_SIZE == 0 && Active() in dirs
    }

    /** The directory that the processor uses. */
    function Active(): nat
      reads this
    {
      cr3 / PAGE_SIZE
    }

    /** What the memory unit needs to find its way. */
    ghost predicate Walkable()
      reads this
    {
      Sized(ram) && SelfMapped(ram, Active())
    }

    /** A load through the memory unit. */
    method Load(vaddr: nat) returns (w: Word)
      requires Walkable() && vaddr < 0x1_0000_0000 && vaddr % 4 == 0
      requires Lookup(ram, Active(), vaddr / PAGE_SIZE).Some? && Lookup(ram, Active(), vaddr / PAGE_SIZE).value < |ram|
      ensures w == ram[Lookup(ram, Active(), vaddr / PAGE_SIZE).value][vaddr % PAGE_SIZE / 4]
    {
      var frame := Lookup(ram, Active(), vaddr / PAGE_SIZE).value;
      w := ram[frame][vaddr % PAGE_SIZE / 4];
    }

    /** A store through the memory unit. */
    method Store(vaddr: nat, w: Word)
      requires Walkable() && vaddr < 0x1_0000_0000 && vaddr % 4 == 0
      requires Lookup(ram, Active(), vaddr / PAGE_SIZE).Some? && Lookup(ram, Active(), vaddr / PAGE_SIZE).value < |ram|
      modifies this`ram
      ensures ram == Put(old(ram), Lookup(old(ram), Active(), vaddr / PAGE_SIZE).value, vaddr % PAGE_SIZE / 4, w)
      ensures Sized(ram)
    {
      var frame := Lookup(ram, Active(), vaddr / PAGE_SIZE).value;
      ram := Put(ram, frame, vaddr % PAGE_SIZE / 4, w);
    }

    /** Entry `j` of the table in slot `i` of the active directory. */
    method LoadEntry(i: nat, j: nat) returns (w: Word)
      requires Walkable() && i < ENTRIES_PER_TABLE && j < ENTRIES_PER_TABLE && Has(ram, Active(), i)
               && TableOf(ram, Active(), i) < |ram|
      ensures w == ram[TableOf(ram, Active(), i)][j]
    {
      hide Put;
      RecursivePage(ram, Active(), i);
      TableAddress(i, j);
      hide SelfMapped, Has, TableOf, Lookup;
      w := Load(PT_BASE + i * PAGE_SIZE + 4 * j);
    }

    method StoreEntry(i: nat, j: nat, w: Word)
      requires Walkable() && i < ENTRIES_PER_TABLE && j < ENTRIES_PER_TABLE && Has(ram, Active(), i)
               && TableOf(ram, Active(), i) < |ram|
      modifies this`ram
      ensures ram == Put(old(ram), TableOf(old(ram), Active(), i), j, w) && Sized(ram)
    {
      hide Put;
      RecursivePage(ram, Active(), i);
      TableAddress(i, j);
      hide SelfMapped, Has, TableOf, Lookup;
      Store(PT_BASE + i * PAGE_SIZE + 4 * j, w);
    }

    /** Entry `i` of the active directory. */
    method LoadPde(i: nat) returns (w: Word)
      requires Walkable() && i < ENTRIES_PER_TABLE
      ensures w == ram[Active()][i]
    {
      TableAddress(SELF_SLOT, i);
      RecursivePage(ram, Active(), SELF_SLOT);
      w := Load(VMM_PDT_VIRTUAL_ADDR + 4 * i);
    }

    method StorePde(i: nat, w: Word)
      requires Walkable() && i < ENTRIES_PER_TABLE
      modifies this`ram
      ensures ram == Put(old(ram), Active(), i, w) && Sized(ram)
    {
      TableAddress(SELF_SLOT, i);
      RecursivePage(ram, Active(), SELF_SLOT);
      Store(VMM_PDT_VIRTUAL_ADDR + 4 * i, w);
    }

    /** The temporary window shows the frame `n`, which is neither the directory nor the table the window is in. */
    ghost predicate WindowShows(n: nat)
      reads this
    {
      && Walkable() && n < |ram| && n != Active()
      && Has(ram, Active(), KERNEL_SLOT) && TableOf(ram, Active(), KERNEL_SLOT) < |ram|
      && n != TableOf(ram, Active(), KERNEL_SLOT)
      && Lookup(ram, Active(), WINDOW) == Some(n)
    }

    method StoreWindow(j: nat, w: Word, ghost n: nat)
      requires WindowShows(n) && j < ENTRIES_PER_TABLE
      modifies this`ram
      ensures ram == Put(old(ram), n, j, w) && WindowShows(n)
    {
      TableAddress(0, j);
      Store(VMM_TEMP_PAGE + 4 * j, w);
    }

    /** `memset` of the temporary window. */
    method ZeroWindow(ghost n: nat)
      requires WindowShows(n)
      modifies this`ram
      ensures ram == old(ram)[n := ZeroFrame()] && WindowShows(n)
    {
      hide Lookup, Has, TableOf;
      for j := 0 to ENTRIES_PER_TABLE
        invariant WindowShows(n) && |ram| == |old(ram)|
        invariant forall f :: 0 <= f < |ram| && f != n ==> ram[f] == old(ram)[f]
        invariant forall x :: 0 <= x < j ==> ram[n][x] == 0
      {
        StoreWindow(j, 0, n);
      }
      assert ram[n] == ZeroFrame();
    }

    /** The temporary window is reachable: the first kernel table is there and is not the directory. */
    ghost predicate Windowed()
      reads this
    {
      && Walkable() && Has(ram, Active(), KERNEL_SLOT)
      && TableOf(ram, Active(), KERNEL_SLOT) < |ram| && TableOf(ram, Active(), KERNEL_SLOT) != Active()
    }

    /** The window is opened on a free frame, which is then cleared. */
    method OpenWindow(addr: nat)
      requires Windowed() && addr % PAGE_SIZE == 0 && addr < 0x1_0000_0000 && addr / PAGE_SIZE < |ram|
      requires addr / PAGE_SIZE != Active() && addr / PAGE_SIZE != TableOf(ram, Active(), KERNEL_SLOT)
      modifies this`ram
      ensures WindowShows(addr / PAGE_SIZE) && Windowed()
              && TableOf(ram, Active(), KERNEL_SLOT) == TableOf(old(ram), Active(), KERNEL_SLOT)
      ensures ram
              == Put(old(ram), TableOf(old(ram), Active(), KERNEL_SLOT), 1023,
                     Entry(addr, PAGE_WRITE))[addr / PAGE_SIZE := ZeroFrame()]
    {
      hide Entry;
      StoreEntry(KERNEL_SLOT, 1023, Entry(addr, PAGE_WRITE));
      assert Lookup(ram, Active(), WINDOW) == Some(addr / PAGE_SIZE);
      ZeroWindow(addr / PAGE_SIZE);
    }

    /** The part of `vmm_map_page` that makes a table: a zeroed one from the lowest free frame, or nothing. */
    method CreateTableAt(pdeIdx: nat, flags: nat) returns (ok: bool, ghost n: nat)
      requires Valid() && pdeIdx < SELF_SLOT && !Has(ram, Active(), pdeIdx) && flags < PAGE_SIZE
      modifies this`ram, pmm`outstanding, pmm.bitmap
      ensures Valid() && (ok <==> old(pmm.Free()) != {})
      ensures !ok ==> ram == old(ram) && pmm.Free() == old(pmm.Free()) && pmm.outstanding == old(pmm.outstanding)
      ensures ok ==> pmm.outstanding == old(pmm.outstanding) + {n}
      ensures ok ==> n in old(pmm.Free()) && (forall e :: e in old(pmm.Free()) ==> n <= e)
                     && pmm.Free() == old(pmm.Free()) - {n}
      ensures ok ==> TableOf(old(ram), Active(), KERNEL_SLOT) < |old(ram)| && n < |old(ram)| && n < Pmm.MAX_FRAMES
                     && ram == CreateTable(old(ram), Active(), pdeIdx, n, Entry(n * PAGE_SIZE, flags))
    {
      hide Pmm.FramePool.Used, Pmm.FramePool.Free, Lookup, Put, Entry;
      ghost var free := pmm.Free();
      KernelTable(ram, dirs, free, Active());
      var newPt := pmm.AllocFrame();
      if newPt == 0 {
        n := 0;
        return false, 0;
      }
      n := newPt / PAGE_SIZE;
      FreshFrame(ram, dirs, free, Active(), n);
      CreateKeeps(ram, dirs, free, Active(), pdeIdx, n, Entry(newPt, flags));
      WindowErased(ram, Active(), TableOf(ram, Active(), KERNEL_SLOT), pdeIdx, n, Entry(newPt, PAGE_WRITE),
                   Entry(newPt, flags));
      OpenWindow(newPt);
      assert KERNEL_SLOT != pdeIdx && Windowed();
      PdeKeepsWindow(ram, Active(), pdeIdx, Entry(newPt, flags));
      StorePde(pdeIdx, Entry(newPt, flags));
      StoreEntry(KERNEL_SLOT, 1023, 0);
      ok := true;
    }

    /** The table for page `q`, made if need be, so that storing `w` in it is the update that is wanted. */
    method EnsureTable(q: nat, flags: nat, ghost w: Word) returns (ok: bool, ghost taken: set<nat>)
      requires Valid() && q < RECURSIVE && flags < PAGE_SIZE && Present(w)
      modifies this`ram, pmm`outstanding, pmm.bitmap
      ensures pmm.Valid() && Walkable() && |ram| == |old(ram)|
      ensures ok <==> old(Has(ram, Active(), q / ENTRIES_PER_TABLE)) || old(pmm.Free()) != {}
      ensures LowestTaken(old(pmm.Free()), !old(Has(ram, Active(), q / ENTRIES_PER_TABLE)), taken)
      ensures pmm.Free() == old(pmm.Free()) - taken && pmm.outstanding == old(pmm.outstanding) + taken
      ensures !ok ==> Valid() && ram == old(ram) && OnlyTouched(old(ram), ram, Active(), q, taken)
      ensures ok ==>
                Completes(old(ram), ram, dirs, pmm.Free(), Active(), q, w, taken,
                          !old(Has(ram, Active(), q / ENTRIES_PER_TABLE)))
    {
      hide Pmm.FramePool.Used, Pmm.FramePool.Free, Lookup, Put, Entry, Updated, CreateTable, OnlyTouched, Spaces,
           LowestTaken, Completes, TableOf, SelfMapped, Pmm.FramePool.Valid;
      pmm.HasShape();
      ghost var free := pmm.Free();
      KernelTable(ram, dirs, free, Active());
      var pde := LoadPde(q / ENTRIES_PER_TABLE);
      if Present(pde) {
        taken := {};
        TakesNone(free, false);
        CompletesPresent(ram, dirs, free, Active(), q, w);
        return true, taken;
      }
      ghost var n;
      ok, n := CreateTableAt(q / ENTRIES_PER_TABLE, flags);
      if !ok {
        taken := {};
        TakesNone(free, true);
        TouchedNothing(ram, Active(), q);
        return;
      }
      taken := {n};
      TakesLowest(free, n);
      CompletesCreated(old(ram), dirs, free, Active(), q, n, Entry(n * PAGE_SIZE, flags), w);
      KernelTable(ram, dirs, pmm.Free(), Active());
    }

    /**
     * `vmm_map_page` below the recursive region: one update of the abstract page map. With no table and no
     * frame for one, nothing happens.
     */
    method MapPage(vaddr: nat, paddr: Word, flags: nat) returns (ghost taken: set<nat>)
      requires Valid() && vaddr < PT_BASE && flags < PAGE_SIZE
      modifies this`ram, pmm`outstanding, pmm.bitmap
      ensures Valid() && |ram| == |old(ram)|
      ensures var created := !old(Has(ram, Active(), vaddr / 0x40_0000));
              && LowestTaken(old(pmm.Free()), created, taken)
              && if created && old(pmm.Free()) == {} then ram == old(ram)
                 else Updated(old(ram), ram, dirs, Active(), vaddr / PAGE_SIZE, Some(paddr / PAGE_SIZE), created)
      ensures pmm.Free() == old(pmm.Free()) - taken && pmm.outstanding == old(pmm.outstanding) + taken
      ensures OnlyTouched(old(ram), ram, Active(), vaddr / PAGE_SIZE, taken)
    {
      hide Pmm.FramePool.Used, Pmm.FramePool.Free, Pmm.FramePool.Valid, Lookup, Put, Updated, OnlyTouched, Spaces,
           LowestTaken, Has, TableOf, Entry, Present;
      var pdeIdx, pteIdx := vaddr / 0x40_0000, vaddr / PAGE_SIZE % ENTRIES_PER_TABLE;
      PageIndex(vaddr);
      var ok;
      ok, taken := EnsureTable(vaddr / PAGE_SIZE, flags, Entry(paddr, flags));
      if !ok {
        return;
      }
      StoreEntry(pdeIdx, pteIdx, Entry(paddr, flags));
    }

    /** `vmm_unmap_page`, given a table for the address: exactly that page is removed. */
    method UnmapPage(vaddr: nat)
      requires Valid() && vaddr < PT_BASE && Has(ram, Active(), vaddr / 0x40_0000)
      modifies this`ram
      ensures Valid() && |ram| == |old(ram)|
      ensures Updated(old(ram), ram, dirs, Active(), vaddr / PAGE_SIZE, None, false)
    {
      hide Pmm.FramePool.Used, Pmm.FramePool.Free, Lookup, Put, Updated, Spaces;
      PageIndex(vaddr);
      KernelTable(ram, dirs, pmm.Free(), Active());
      MapPresentUpdates(ram, dirs, pmm.Free(), Active(), vaddr / PAGE_SIZE, 0);
      StoreEntry(vaddr / 0x40_0000, vaddr / PAGE_SIZE % ENTRIES_PER_TABLE, 0);
    }

    /** `vmm_get_phys_addr` agrees with the memory unit at every address, those of the recursive region included. */
    method GetPhysAddr(vaddr: nat) returns (paddr: nat)
      requires Valid() && vaddr < 0x1_0000_0000
      ensures paddr == match Lookup(ram, Active(), vaddr / PAGE_SIZE)
                       case Some(f) => f * PAGE_SIZE + vaddr % PAGE_SIZE
                       case None => 0
    {
      var pdeIdx, pteIdx := vaddr / 0x40_0000, vaddr / PAGE_SIZE % ENTRIES_PER_TABLE;
      var pde := LoadPde(pdeIdx);
      if !Present(pde) {
        return 0;
      }
      TableInMemory(ram, dirs, pmm.Free(), Active(), pdeIdx);
      var pte := LoadEntry(pdeIdx, pteIdx);
      if !Present(pte) {
        return 0;
      }
      paddr := pte - pte % PAGE_SIZE + vaddr % PAGE_SIZE;
    }

    /** Copies slots of the active directory into the frame behind the window. */
    method CopySlots(from: nat, to: nat, ghost n: nat)
      requires WindowShows(n) && from <= to <= SELF_SLOT
      modifies this`ram
      ensures WindowShows(n) && |ram| == |old(ram)|
      ensures forall f :: 0 <= f < |ram| && f != n ==> ram[f] == old(ram)[f]
      ensures forall x :: 0 <= x < ENTRIES_PER_TABLE ==>
                ram[n][x] == if from <= x < to then ram[Active()][x] else old(ram)[n][x]
    {
      hide Lookup, Has, TableOf;
      for i := from to to
        invariant WindowShows(n) && |ram| == |old(ram)|
        invariant forall f :: 0 <= f < |ram| && f != n ==> ram[f] == old(ram)[f]
        invariant forall x :: 0 <= x < ENTRIES_PER_TABLE ==>
                    ram[n][x] == if from <= x < i then ram[Active()][x] else old(ram)[n][x]
      {
        var w := LoadPde(i);
        StoreWindow(i, w, n);
      }
    }

    /**
     `vmm_clone_kernel_mappings`: a new directory that translates as the active one, with the window left unmapped.
     */
    method CloneKernelMappings() returns (newPdt: nat)
      requires Valid()
      modifies this`ram, this`dirs, pmm`outstanding, pmm.bitmap
      ensures Valid() && |ram| == |old(ram)|
      ensures newPdt == 0 <==> old(pmm.Free()) == {}
      ensures newPdt == 0 ==> ram == old(ram) && dirs == old(dirs) && pmm.Free() == old(pmm.Free())
      ensures newPdt != 0 ==>
                && newPdt % PAGE_SIZE == 0 && newPdt / PAGE_SIZE in old(pmm.Free())
                && pmm.Free() == old(pmm.Free()) - {newPdt / PAGE_SIZE}
                && dirs == old(dirs) + {newPdt / PAGE_SIZE}
                && Cloned(old(ram), ram, old(dirs), Active(), newPdt / PAGE_SIZE)
    {
      hide Pmm.FramePool.Used, Pmm.FramePool.Free, Lookup, Entry, Spaces, Cloned;
      ghost var free := pmm.Free();
      KernelTable(ram, dirs, free, Active());
      newPdt := pmm.AllocFrame();
      if newPdt == 0 {
        return 0;
      }
      ghost var n := newPdt / PAGE_SIZE;
      FreshFrame(ram, dirs, free, Active(), n);
      ghost var row := ram[Active()][SELF_SLOT := Entry(newPdt, PAGE_WRITE)];
      CopyClones(ram, dirs, free, Active(), n, Entry(newPdt, PAGE_WRITE));
      WindowErasedCopy(ram, Active(), TableOf(ram, Active(), KERNEL_SLOT), n, Entry(newPdt, PAGE_WRITE), row);
      FillClone(newPdt, row);
      StoreEntry(KERNEL_SLOT, 1023, 0);
      dirs := dirs + {n};
    }

    /** The window is opened on the new directory, which is filled from the active one. */
    method FillClone(newPdt: nat, ghost row: seq<Word>)
      requires Windowed() && newPdt % PAGE_SIZE == 0 && newPdt < 0x1_0000_0000 && newPdt / PAGE_SIZE < |ram|
      requires newPdt / PAGE_SIZE != Active() && newPdt / PAGE_SIZE != TableOf(ram, Active(), KERNEL_SLOT)
      requires row == ram[Active()][SELF_SLOT := Entry(newPdt, PAGE_WRITE)]
      modifies this`ram
      ensures Windowed() && TableOf(ram, Active(), KERNEL_SLOT) == TableOf(old(ram), Active(), KERNEL_SLOT)
      ensures ram
              == Put(old(ram), TableOf(old(ram), Active(), KERNEL_SLOT), 1023,
                     Entry(newPdt, PAGE_WRITE))[newPdt / PAGE_SIZE := row]
    {
      hide Lookup, Entry;
      ghost var n := newPdt / PAGE_SIZE;
      OpenWindow(newPdt);
      CopySlots(0, KERNEL_SLOT, n);
      CopySlots(KERNEL_SLOT, SELF_SLOT, n);
      StoreWindow(SELF_SLOT, Entry(newPdt, PAGE_WRITE), n);
      assert ram[n] == row;
    }

    /** `vmm_map_page_for_pdt`: the same update in another directory; the active one is restored. */
    method MapPageForPdt(pdtPhys: nat, vaddr: nat, paddr: Word, flags: nat) returns (ghost taken: set<nat>)
      requires Valid() && vaddr < PT_BASE && flags < PAGE_SIZE && pdtPhys % PAGE_SIZE == 0
               && pdtPhys / PAGE_SIZE in dirs
      modifies this`ram, this`cr3, pmm`outstanding, pmm.bitmap
      ensures Valid() && |ram| == |old(ram)| && cr3 == old(cr3)
      ensures var created := !old(Has(ram, pdtPhys / PAGE_SIZE, vaddr / 0x40_0000));
              && LowestTaken(old(pmm.Free()), created, taken)
              && if created && old(pmm.Free()) == {} then ram == old(ram)
                 else Updated(old(ram), ram, dirs, pdtPhys / PAGE_SIZE, vaddr / PAGE_SIZE, Some(paddr / PAGE_SIZE),
                              created)
      ensures pmm.Free() == old(pmm.Free()) - taken && pmm.outstanding == old(pmm.outstanding) + taken
      ensures OnlyTouched(old(ram), ram, pdtPhys / PAGE_SIZE, vaddr / PAGE_SIZE, taken)
    {
      hide Pmm.FramePool.Used, Pmm.FramePool.Free, Lookup, Put, Entry, Updated, OnlyTouched, Spaces, LowestTaken;
      var oldCr3 := cr3;
      cr3 := pdtPhys;
      taken := MapPage(vaddr, paddr, flags);
      cr3 := oldCr3;
    }

    /** `vmm_unmap_page_for_pdt`. */
    method UnmapPageForPdt(pdtPhys: nat, vaddr: nat)
      requires Valid() && vaddr < PT_BASE && pdtPhys % PAGE_SIZE == 0 && pdtPhys / PAGE_SIZE in dirs
      requires Has(ram, pdtPhys / PAGE_SIZE, vaddr / 0x40_0000)
      modifies this`ram, this`cr3
      ensures Valid() && |ram| == |old(ram)| && cr3 == old(cr3)
      ensures Updated(old(ram), ram, dirs, pdtPhys / PAGE_SIZE, vaddr / PAGE_SIZE, None, false)
    {
      hide Pmm.FramePool.Used, Pmm.FramePool.Free, Lookup, Put, Entry, Updated, OnlyTouched, Spaces;
      var oldCr3 := cr3;
      cr3 := pdtPhys;
      UnmapPage(vaddr);
      cr3 := oldCr3;
    }
  }
}
