/** The physical memory manager: a bitmap of page frames that stands for the set of free ones. */
module Pmm {
  import opened Common
  import opened FrameBitmap

  const BITMAP_SIZE := 4096
  const MAX_FRAMES := 32768
  const MAX_PMM_REGIONS := 64
  const BIOS_BOOT_RESERVED_END := 0x000F_FFFF
  const VGA_BUFFER := 0xB8000

  function Wrap64(x: int): nat {
    x % 0x1_0000_0000_0000_0000
  }

  /** A multiboot memory map entry. */
  datatype MapEntry = MapEntry(addr: nat, len: nat, kind: nat)

  /** What the boot loader says about memory: a map and where the map lies, or only the size of upper memory. */
  datatype BootInfo =
    | MemoryMap(entries: seq<MapEntry>, mapAddr: nat, mapLength: nat)
    | UpperMemory(kilobytes: nat)

  datatype Region = Region(startFrame: nat, endFrame: nat, kind: nat)

  /** Frames of a map entry, with the driver's truncations. */
  function EntryStart(e: MapEntry): nat {
    Wrap32(e.addr / PAGE_SIZE)
  }

  function EntryEnd(e: MapEntry): (end: nat)
    ensures end < MAX_FRAMES
  {
    var end := Wrap32(Wrap32(Wrap64(e.addr + e.len + (PAGE_SIZE - 1)) / PAGE_SIZE) - 1);
    if end >= MAX_FRAMES then MAX_FRAMES - 1 else end
  }

  function TopFrames(kilobytes: nat): (n: nat)
    ensures n <= MAX_FRAMES
  {
    var n := Wrap32(kilobytes * 1024 + 0x10_0000) / PAGE_SIZE;
    if n > MAX_FRAMES then MAX_FRAMES else n
  }

  ghost predicate Covers(e: MapEntry, f: nat) {
    e.kind == 1 && EntryStart(e) <= f <= EntryEnd(e)
  }

  /** One of the first `n` entries makes the frame available. */
  ghost predicate Covered(entries: seq<MapEntry>, n: nat, f: nat)
    requires n <= |entries|
  {
    exists i :: 0 <= i < n && Covers(entries[i], f)
  }

  /** The memory map says that the frame is available. */
  ghost predicate Available(info: BootInfo, f: nat) {
    match info
    case MemoryMap(entries, _, _) =>
      Covered(entries, |entries|, f)
    case UpperMemory(kilobytes) =>
      f <= Wrap32(TopFrames(kilobytes) - 1)
  }

  /** The frames no one may be given: the first mebibyte, the kernel image, the VGA buffer and the map itself. */
  ghost predicate Reserved(info: BootInfo, kernelStart: nat, kernelEnd: nat, f: nat) {
    || f <= BIOS_BOOT_RESERVED_END / PAGE_SIZE
    || kernelStart / PAGE_SIZE <= f <= (kernelEnd - 1) / PAGE_SIZE
    || f == VGA_BUFFER / PAGE_SIZE
    || (info.MemoryMap? && info.mapAddr / PAGE_SIZE <= f <= (info.mapAddr + info.mapLength - 1) / PAGE_SIZE)
  }

  /** The kernel image, and the map if there is one, are not empty and lie below 128 MiB. */
  ghost predicate LowImage(info: BootInfo, kernelStart: nat, kernelEnd: nat) {
    && kernelStart < kernelEnd <= MAX_FRAMES * PAGE_SIZE
    && (info.MemoryMap? ==> info.mapLength > 0 && info.mapAddr + info.mapLength <= MAX_FRAMES * PAGE_SIZE)
  }

  // ---- what that means in bytes ----

  /** The frame shares a byte with [lo, hi). */
  ghost predicate Shares(f: nat, lo: nat, hi: nat) {
    f * 4096 < hi && lo < f * 4096 + 4096
  }

  /** A range of memory whose end, rounded up to frames, is a 32-bit frame number. */
  ghost predicate Plain(e: MapEntry) {
    e.addr + e.len + 4095 < 0x1000_0000_0000
  }

  /**
   An available range makes exactly the frames available that it shares a byte with. An empty range does not: it makes
   the frame around its address available if that is not the start of a frame, and all frames if it is 0.
   */
  lemma CoversMeans(e: MapEntry, f: nat)
    requires Plain(e) && f < MAX_FRAMES
    ensures e.len > 0 ==> (Covers(e, f) <==> e.kind == 1 && Shares(f, e.addr, e.addr + e.len))
    ensures e.len == 0 ==> (Covers(e, f) <==>
              e.kind == 1 && (e.addr == 0 || (e.addr % 4096 != 0 && f * 4096 < e.addr < f * 4096 + 4096)))
  {
    var total := e.addr + e.len + 4095;
    assert Wrap64(total) == total && Wrap32(total / 4096) == total / 4096;
    assert EntryStart(e) == e.addr / 4096;
  }

  /** Without a map, the frames that lie below the top of upper memory, wholly, are available. */
  lemma UpperMeans(kilobytes: nat, f: nat)
    requires 1024 * kilobytes + 0x10_0000 < 0x1_0000_0000 && f < MAX_FRAMES
    ensures f <= Wrap32(TopFrames(kilobytes) - 1) <==> 4096 * f + 4096 <= 1024 * kilobytes + 0x10_0000
    ensures f <= Wrap32(TopFrames(kilobytes) - 1) ==> f < TopFrames(kilobytes)
  {
  }

  /** The ranges of the map are plain and not empty. */
  ghost predicate PlainMap(entries: seq<MapEntry>) {
    forall i :: 0 <= i < |entries| ==> Plain(entries[i]) && entries[i].len > 0
  }

  /** The frame has a byte that the map says is available. */
  ghost predicate InMap(entries: seq<MapEntry>, f: nat) {
    exists i :: 0 <= i < |entries| && entries[i].kind == 1
                && Shares(f, entries[i].addr, entries[i].addr + entries[i].len)
  }

  lemma MapMeans(entries: seq<MapEntry>, f: nat)
    requires PlainMap(entries) && f < MAX_FRAMES
    ensures Covered(entries, |entries|, f) <==> InMap(entries, f)
  {
    hide Shares, Covers;
    forall i | 0 <= i < |entries|
      ensures Covers(entries[i], f) <==> entries[i].kind == 1
                                         && Shares(f, entries[i].addr, entries[i].addr + entries[i].len)
    {
      CoversMeans(entries[i], f);
    }
  }

  /** Such a map, or a size of upper memory that does not wrap around. */
  ghost predicate PlainInfo(info: BootInfo) {
    match info
    case MemoryMap(entries, _, _) =>
      PlainMap(entries)
    case UpperMemory(kilobytes) =>
      1024 * kilobytes + 0x10_0000 < 0x1_0000_0000
  }

  /** The frame has a byte that the map says is available; without a map, all its bytes are below the top of memory. */
  ghost predicate InMemory(info: BootInfo, f: nat) {
    match info
    case MemoryMap(entries, _, _) =>
      InMap(entries, f)
    case UpperMemory(kilobytes) =>
      4096 * f + 4096 <= 1024 * kilobytes + 0x10_0000
  }

  /** The frame shares a byte with the first mebibyte, the kernel image or the memory map. */
  ghost predicate TakenAtBoot(info: BootInfo, kernelStart: nat, kernelEnd: nat, f: nat) {
    || Shares(f, 0, 0x10_0000) || Shares(f, kernelStart, kernelEnd)
    || (info.MemoryMap? && Shares(f, info.mapAddr, info.mapAddr + info.mapLength))
  }

  lemma AvailableMeans(info: BootInfo, f: nat)
    requires PlainInfo(info) && f < MAX_FRAMES
    ensures Available(info, f) <==> InMemory(info, f)
  {
    hide Covered, InMap, TopFrames;
    match info
    case MemoryMap(entries, _, _) =>
      MapMeans(entries, f);
    case UpperMemory(kilobytes) =>
      UpperMeans(kilobytes, f);
  }

  lemma UpperInside(kilobytes: nat)
    ensures PlainInfo(UpperMemory(kilobytes)) ==> forall f: nat ::
              f < MAX_FRAMES && Available(UpperMemory(kilobytes), f) ==> f < TopFrames(kilobytes)
  {
    hide TopFrames;
    forall f: nat | PlainInfo(UpperMemory(kilobytes)) && f < MAX_FRAMES && Available(UpperMemory(kilobytes), f)
      ensures f < TopFrames(kilobytes)
    {
      UpperMeans(kilobytes, f);
    }
  }

  lemma ReservedMeans(info: BootInfo, kernelStart: nat, kernelEnd: nat, f: nat)
    requires LowImage(info, kernelStart, kernelEnd)
    ensures Reserved(info, kernelStart, kernelEnd, f) <==> TakenAtBoot(info, kernelStart, kernelEnd, f)
  {
  }

  lemma FrameAddress(f: nat)
    ensures (f * PAGE_SIZE) / PAGE_SIZE == f && (f * PAGE_SIZE) % PAGE_SIZE == 0
  {
  }

  class FramePool {
    const bitmap: array<bv8>
    var regions: seq<Region>
    var totalFrames: nat
    /** The frames that were free when the pool was set up, and those of them that are handed out now. */
    ghost var pool: set<nat>
    ghost var outstanding: set<nat>

    ghost predicate Shape()
      reads this
    {
      bitmap.Length == BITMAP_SIZE && totalFrames <= MAX_FRAMES
    }

    ghost predicate Used(f: nat)
      requires bitmap.Length == BITMAP_SIZE && f < MAX_FRAMES
      reads bitmap
    {
      BitSet(bitmap[f / 8], f % 8)
    }

    /** The set the bitmap stands for. */
    ghost function Free(): set<nat>
      requires Shape()
      reads this, bitmap
    {
      set f | 0 <= f < totalFrames && !Used(f)
    }

    /** Frames are conserved: each frame of the pool is either free or handed out, and frame 0 is not one of them. */
    ghost predicate Valid()
      reads this, bitmap
    {
      && Shape()
      && Free() + outstanding == pool && Free() !! outstanding && 0 !in pool
      && forall f :: f in pool ==> f < totalFrames
    }

    lemma HasShape()
      requires Valid()
      ensures Shape()
    {
    }

    constructor ()
      ensures Shape() && totalFrames == 0 && regions == [] && fresh(bitmap)
    {
      bitmap := new bv8[BITMAP_SIZE];
      regions := [];
      totalFrames := 0;
      pool := {};
      outstanding := {};
    }

    method SetBit(f: nat)
      requires Shape() && f < MAX_FRAMES
      modifies bitmap
      ensures forall j: nat :: j < MAX_FRAMES ==> (Used(j) <==> j == f || old(Used(j)))
    {
      hide Mask, BitSet;
      forall j: nat | j < MAX_FRAMES && j / 8 == f / 8
        ensures BitSet(bitmap[f / 8] | Mask(f % 8), j % 8) <==> j == f || Used(j)
      {
        BitChanged(bitmap[f / 8], f % 8, j % 8);
      }
      bitmap[f / 8] := bitmap[f / 8] | Mask(f % 8);
    }

    method ClearBit(f: nat)
      requires Shape() && f < MAX_FRAMES
      modifies bitmap
      ensures forall j: nat :: j < MAX_FRAMES ==> (Used(j) <==> j != f && old(Used(j)))
    {
      hide Mask, BitSet;
      forall j: nat | j < MAX_FRAMES && j / 8 == f / 8
        ensures BitSet(bitmap[f / 8] & !Mask(f % 8), j % 8) <==> j != f && Used(j)
      {
        BitChanged(bitmap[f / 8], f % 8, j % 8);
      }
      bitmap[f / 8] := bitmap[f / 8] & !Mask(f % 8);
    }

    method TestBit(f: nat) returns (used: bool)
      requires Shape() && f < MAX_FRAMES
      ensures used <==> Used(f)
    {
      used := bitmap[f / 8] & Mask(f % 8) != 0;
    }

    method MarkRangeFree(startFrame: nat, endFrame: nat)
      requires Shape()
      modifies bitmap
      ensures forall j: nat :: j < MAX_FRAMES ==> (Used(j) <==> !(startFrame <= j <= endFrame) && old(Used(j)))
    {
      var i := startFrame;
      while i <= endFrame && i < BITMAP_SIZE * 8
        invariant startFrame <= i
        invariant forall j: nat :: j < MAX_FRAMES ==>
                    (Used(j) <==> !(startFrame <= j <= endFrame && j < i) && old(Used(j)))
        decreases MAX_FRAMES - i
      {
        ClearBit(i);
        i := i + 1;
      }
    }

    method MarkRangeUsed(startFrame: nat, endFrame: nat)
      requires Shape()
      modifies bitmap
      ensures forall j: nat :: j < MAX_FRAMES ==> (Used(j) <==> startFrame <= j <= endFrame || old(Used(j)))
    {
      var i := startFrame;
      while i <= endFrame && i < BITMAP_SIZE * 8
        invariant startFrame <= i
        invariant forall j: nat :: j < MAX_FRAMES ==>
                    (Used(j) <==> (startFrame <= j <= endFrame && j < i) || old(Used(j)))
        decreases MAX_FRAMES - i
      {
        SetBit(i);
        i := i + 1;
      }
    }

    method RecordRegion(startFrame: nat, endFrame: nat, kind: nat)
      modifies this`regions
      ensures regions == if |old(regions)| >= MAX_PMM_REGIONS then old(regions)
                         else old(regions) + [Region(startFrame, endFrame, kind)]
    {
      if |regions| >= MAX_PMM_REGIONS {
        return;
      }
      regions := regions + [Region(startFrame, endFrame, kind)];
    }

    /** Step 1 of `pmm_init`: everything is reserved. */
    method ReserveEverything()
      requires Shape()
      modifies this`regions, this`totalFrames, bitmap
      ensures Shape() && regions == [] && totalFrames == 0
      ensures forall f: nat :: f < MAX_FRAMES ==> Used(f)
    {
      for i := 0 to BITMAP_SIZE
        invariant forall k :: 0 <= k < i ==> bitmap[k] == 0xFF
      {
        bitmap[i] := 0xFF;
      }
      regions := [];
      totalFrames := 0;
      forall f: nat | f < MAX_FRAMES
        ensures Used(f)
      {
        AllSet(f % 8);
      }
    }

    /** No recorded region reaches past the bitmap, unless its end wraps around. */
    ghost predicate RegionsFit()
      reads this`regions
    {
      forall i :: 0 <= i < |regions| ==> Wrap32(regions[i].endFrame + 1) <= MAX_FRAMES
    }

    method FreeEntry(e: MapEntry)
      requires Shape() && RegionsFit()
      modifies this`regions, this`totalFrames, bitmap
      ensures Shape() && RegionsFit() && totalFrames == Max(old(totalFrames), EntryEnd(e) + 1)
      ensures forall f: nat :: f < MAX_FRAMES ==> (Used(f) <==> !Covers(e, f) && old(Used(f)))
    {
      hide Used;
      var startFrame, endFrame := EntryStart(e), EntryEnd(e);
      hide EntryStart, EntryEnd;
      RecordRegion(startFrame, endFrame, e.kind);
      if e.kind == 1 {
        MarkRangeFree(startFrame, endFrame);
      }
      if endFrame + 1 > totalFrames {
        totalFrames := endFrame + 1;
      }
    }

    /** The available ranges of the memory map are freed. */
    method FreeMap(entries: seq<MapEntry>)
      requires Shape() && regions == [] && totalFrames == 0 && forall f: nat :: f < MAX_FRAMES ==> Used(f)
      modifies this`regions, this`totalFrames, bitmap
      ensures Shape() && RegionsFit()
      ensures forall f: nat :: f < MAX_FRAMES ==> (Used(f) <==> !Covered(entries, |entries|, f))
      ensures forall f: nat :: Covered(entries, |entries|, f) ==> f < totalFrames
      ensures PlainMap(entries) ==> forall f: nat :: f < MAX_FRAMES ==> (Used(f) <==> !InMap(entries, f))
    {
      for n := 0 to |entries|
        invariant Shape() && RegionsFit()
        invariant forall f: nat :: f < MAX_FRAMES ==> (Used(f) <==> !Covered(entries, n, f))
        invariant forall i :: 0 <= i < n ==> EntryEnd(entries[i]) < totalFrames
      {
        hide Used, EntryStart, EntryEnd, RegionsFit;
        assert forall f: nat :: Covered(entries, n + 1, f) <==> Covered(entries, n, f) || Covers(entries[n], f);
        FreeEntry(entries[n]);
      }
      forall f: nat | PlainMap(entries) && f < MAX_FRAMES
        ensures Used(f) <==> !InMap(entries, f)
      {
        MapMeans(entries, f);
      }
    }

    /** Step 2: what the boot loader says is available is freed. */
    method FreeAvailable(info: BootInfo)
      requires Shape() && regions == [] && totalFrames == 0 && forall f: nat :: f < MAX_FRAMES ==> Used(f)
      modifies this`regions, this`totalFrames, bitmap
      ensures Shape() && RegionsFit()
      ensures forall f: nat :: f < MAX_FRAMES ==> (Used(f) <==> !Available(info, f))
      ensures info.MemoryMap? ==> forall f: nat :: Available(info, f) ==> f < totalFrames
      ensures PlainInfo(info) ==> forall f: nat :: f < MAX_FRAMES && Available(info, f) ==> f < totalFrames
    {
      hide Covered, InMap, TopFrames;
      match info
      case MemoryMap(entries, _, _) => FreeMap(entries);
      case UpperMemory(kilobytes) =>
        UpperInside(kilobytes);
        FreeUpper(kilobytes);
    }

    /** Without a map, everything below the top of upper memory is freed. */
    method FreeUpper(kilobytes: nat)
      requires Shape() && regions == [] && totalFrames == 0 && forall f: nat :: f < MAX_FRAMES ==> Used(f)
      modifies this`regions, this`totalFrames, bitmap
      ensures Shape() && RegionsFit()
      ensures forall f: nat :: f < MAX_FRAMES ==> (Used(f) <==> !Available(UpperMemory(kilobytes), f))
      ensures totalFrames == TopFrames(kilobytes)
    {
      hide Used;
      totalFrames := TopFrames(kilobytes);
      RecordRegion(0, Wrap32(totalFrames - 1), 1);
      MarkRangeFree(0, Wrap32(totalFrames - 1));
    }

    /** Records and marks one range that must not be handed out. */
    method ReserveRange(startFrame: nat, endFrame: nat)
      requires Shape() && RegionsFit() && endFrame < MAX_FRAMES
      modifies this`regions, bitmap
      ensures RegionsFit()
      ensures forall f: nat :: f < MAX_FRAMES ==> (Used(f) <==> startFrame <= f <= endFrame || old(Used(f)))
    {
      RecordRegion(startFrame, endFrame, 0);
      MarkRangeUsed(startFrame, endFrame);
    }

    /** Steps 3 to 6: what must not be handed out is reserved again. */
    method Reserve(info: BootInfo, kernelStart: nat, kernelEnd: nat)
      requires Shape() && RegionsFit() && LowImage(info, kernelStart, kernelEnd)
      modifies this`regions, this`totalFrames, bitmap
      ensures Shape() && RegionsFit() && totalFrames >= old(totalFrames)
      ensures forall f: nat :: f < MAX_FRAMES ==>
                (Used(f) <==> Reserved(info, kernelStart, kernelEnd, f) || old(Used(f)))
    {
      hide Used, RegionsFit;
      ReserveRange(0, BIOS_BOOT_RESERVED_END / PAGE_SIZE);
      ReserveRange(kernelStart / PAGE_SIZE, (kernelEnd - 1) / PAGE_SIZE);
      ReserveRange(VGA_BUFFER / PAGE_SIZE, VGA_BUFFER / PAGE_SIZE);
      if info.MemoryMap? {
        var mapEnd := (info.mapAddr + info.mapLength - 1) / PAGE_SIZE;
        ReserveRange(info.mapAddr / PAGE_SIZE, mapEnd);
        if mapEnd + 1 > totalFrames {
          totalFrames := mapEnd + 1;
        }
      }
    }

    /** The last step: the total covers every recorded region. */
    method CoverRegions()
      requires Shape() && RegionsFit()
      modifies this`totalFrames
      ensures Shape() && totalFrames >= old(totalFrames)
    {
      for i := 0 to |regions|
        invariant Shape() && totalFrames >= old(totalFrames)
      {
        var end := Wrap32(regions[i].endFrame + 1);
        if end > totalFrames {
          totalFrames := end;
        }
      }
    }

    /** `pmm_init`: exactly the available frames that are not reserved are free. */
    method Init(info: BootInfo, kernelStart: nat, kernelEnd: nat)
      requires bitmap.Length == BITMAP_SIZE && LowImage(info, kernelStart, kernelEnd)
      modifies this, bitmap
      ensures Valid() && outstanding == {} && pool == Free()
      ensures forall f: nat :: f in pool <==>
                f < totalFrames && Available(info, f) && !Reserved(info, kernelStart, kernelEnd, f)
      ensures info.MemoryMap? ==> forall f: nat :: Available(info, f) ==> f < totalFrames
      ensures PlainInfo(info) ==> forall f: nat :: f in pool <==>
                f < MAX_FRAMES && InMemory(info, f) && !TakenAtBoot(info, kernelStart, kernelEnd, f)
    {
      totalFrames := 0;
      ReserveEverything();
      FreeAvailable(info);
      Reserve(info, kernelStart, kernelEnd);
      CoverRegions();
      outstanding := {};
      pool := Free();
      InBytes(info, kernelStart, kernelEnd);
    }

    /** What start-up leaves free, in bytes. */
    lemma InBytes(info: BootInfo, kernelStart: nat, kernelEnd: nat)
      requires Shape() && LowImage(info, kernelStart, kernelEnd)
      requires forall f: nat :: f < MAX_FRAMES ==>
                 (Used(f) <==> Reserved(info, kernelStart, kernelEnd, f) || !Available(info, f))
      requires PlainInfo(info) ==> forall f: nat :: f < MAX_FRAMES && Available(info, f) ==> f < totalFrames
      ensures PlainInfo(info) ==> forall f: nat :: f in Free() <==>
                f < MAX_FRAMES && InMemory(info, f) && !TakenAtBoot(info, kernelStart, kernelEnd, f)
    {
      hide Used, Available, InMemory, Reserved, TakenAtBoot;
      forall f: nat | PlainInfo(info) && f < MAX_FRAMES
        ensures Available(info, f) <==> InMemory(info, f)
        ensures Reserved(info, kernelStart, kernelEnd, f) <==> TakenAtBoot(info, kernelStart, kernelEnd, f)
      {
        AvailableMeans(info, f);
        ReservedMeans(info, kernelStart, kernelEnd, f);
      }
    }

    /** `pmm_alloc_frame`: the lowest free frame, or null when there is none. */
    method AllocFrame() returns (addr: nat)
      requires Valid()
      modifies this`outstanding, bitmap
      ensures Valid()
      ensures old(Free()) == {} ==> addr == 0 && Free() == {} && outstanding == old(outstanding)
      ensures old(Free()) != {} ==>
                && addr > 0 && addr % PAGE_SIZE == 0
                && var f := addr / PAGE_SIZE;
                && f in old(Free()) && (forall e :: e in old(Free()) ==> f <= e)
                && Free() == old(Free()) - {f} && outstanding == old(outstanding) + {f}
    {
      for i := 0 to totalFrames
        invariant Valid() && unchanged(bitmap) && outstanding == old(outstanding)
        invariant forall e :: e in Free() ==> i <= e
      {
        hide Used, Valid;
        var used := TestBit(i);
        if !used {
          TakeFrame(i);
          FrameAddress(i);
          return i * PAGE_SIZE;
        }
      }
      addr := 0;
    }

    /** Marks a free frame as handed out. */
    method TakeFrame(f: nat)
      requires Valid() && f < totalFrames && !Used(f)
      modifies this`outstanding, bitmap
      ensures Valid() && f in old(Free()) && f > 0
      ensures Free() == old(Free()) - {f} && outstanding == old(outstanding) + {f}
    {
      hide Used;
      ghost var free := Free();
      SetBit(f);
      assert Free() == free - {f};
      outstanding := outstanding + {f};
    }

    /** `pmm_free_frame`, given a frame that is handed out. */
    method FreeFrame(addr: nat)
      requires Valid() && addr / PAGE_SIZE in outstanding
      modifies this`outstanding, bitmap
      ensures Valid()
      ensures Free() == old(Free()) + {addr / PAGE_SIZE} && outstanding == old(outstanding) - {addr / PAGE_SIZE}
    {
      var f := addr / PAGE_SIZE;
      assert f in pool;
      ClearBit(f);
      outstanding := outstanding - {f};
    }

    /** `pmm_get_free_frames` counts the set. */
    method GetFreeFrames() returns (count: nat)
      requires Shape()
      ensures count == |Free()|
    {
      count := 0;
      ghost var seen: set<nat> := {};
      for i := 0 to totalFrames
        invariant seen == set f | 0 <= f < i && !Used(f)
        invariant count == |seen|
      {
        var used := TestBit(i);
        if !used {
          count := count + 1;
          seen := seen + {i};
        }
      }
    }
  }
}
