/**
 The loader of relocatable modules: frames, pages, section contents and relocations, and the clean-up of a failed load.
 */
module ModuleLoader {
  import opened Common
  import opened Bytes
  import opened ModuleLayout
  import opened ModuleRelocation
  import opened RelocationRecords
  import opened HeapPages
  import Pmm

  /** What one page table maps. */
  const SLOT_SIZE := 0x40_0000

  datatype ModuleState = Idle | Loaded | Failed

  // ---------------------------------------------------------------- frames

  /** The frames `frames[j..]` are the module's, taken from the pool. */
  ghost predicate Taken(free0: set<nat>, outstanding0: set<nat>, frames: seq<nat>, j: nat, free: set<nat>,
                        outstanding: set<nat>) {
    && j <= |frames| && free0 !! outstanding0
    && (forall k :: 0 <= k < |frames| ==> frames[k] / PAGE_SIZE in free0)
    && FramesDistinct(frames)
    && free == free0 - FrameSet(frames, j) && outstanding == outstanding0 + FrameSet(frames, j)
  }

  lemma TakeStep(free0: set<nat>, outstanding0: set<nat>, frames: seq<nat>, free: set<nat>, outstanding: set<nat>,
                 addr: nat)
    requires Taken(free0, outstanding0, frames, 0, free, outstanding) && addr / PAGE_SIZE in free
    ensures Taken(free0, outstanding0, frames + [addr], 0, free - {addr / PAGE_SIZE}, outstanding + {addr / PAGE_SIZE})
  {
    hide FrameSet, FramesDistinct;
    FrameSetGrows(frames, addr);
  }

  lemma GiveStep(free0: set<nat>, outstanding0: set<nat>, frames: seq<nat>, j: nat, free: set<nat>,
                 outstanding: set<nat>)
    requires j < |frames| && Taken(free0, outstanding0, frames, j, free, outstanding)
    ensures frames[j] / PAGE_SIZE in outstanding
    ensures Taken(free0, outstanding0, frames, j + 1, free + {frames[j] / PAGE_SIZE},
                  outstanding - {frames[j] / PAGE_SIZE})
  {
    hide FrameSet, FramesDistinct;
    FrameSetShrinks(frames, j);
  }

  lemma TakenCount(free0: set<nat>, outstanding0: set<nat>, frames: seq<nat>, free: set<nat>, outstanding: set<nat>)
    requires Taken(free0, outstanding0, frames, 0, free, outstanding)
    ensures |free0| == |free| + |frames|
  {
    FrameCount(frames, 0);
    assert free0 == free + FrameSet(frames, 0);
  }

  lemma NoneTaken(free0: set<nat>, outstanding0: set<nat>, frames: seq<nat>)
    ensures FrameSet(frames, |frames|) == {} && FrameSet([], 0) == {}
  {
  }

  // ---------------------------------------------------------------- contents

  predicate InFile(elf: seq<byte>, s: Section) {
    s.kind != SHT_NOBITS ==> s.offset + s.size <= |elf|
  }

  /** The byte of a section at a distance from its start: from the file if it has one there, else zero. */
  function ContentAt(elf: seq<byte>, s: Section, x: nat): byte
    requires InFile(elf, s)
  {
    if s.kind != SHT_NOBITS && x < s.size then elf[s.offset + x] else 0
  }

  /** The pages of a section hold its bytes and zeros behind them. */
  ghost predicate Filled(m: Memory, elf: seq<byte>, s: Section, base: nat, pages: nat) {
    InFile(elf, s) && forall a :: base <= a < base + PAGE_SIZE * pages ==> a in m && m[a] == ContentAt(elf, s, a - base)
  }

  /** The page that an address is in. */
  function PageOf(a: nat): nat {
    a - a % PAGE_SIZE
  }

  /** Bytes outside a range are as they were. */
  ghost predicate SameOutside(m: Memory, r: Memory, from: nat, to: nat) {
    forall a :: !(from <= a < to) ==> (a in r <==> a in m) && (a in r ==> r[a] == m[a])
  }

  ghost predicate AllFilled(m: Memory, elf: seq<byte>, sections: seq<Section>, placed: seq<Placed>) {
    forall k :: 0 <= k < |placed| ==> placed[k].index < |sections|
                                      && Filled(m, elf, sections[placed[k].index], placed[k].base, placed[k].pages)
  }

  /** The pages of a section are mapped to its frames. */
  ghost predicate RunMapped(mapped: map<nat, nat>, frames: seq<nat>, p: Placed) {
    p.first + p.pages <= |frames| && forall j: nat :: j < p.pages ==>
      Page(p.base, j) in mapped && mapped[Page(p.base, j)] == frames[p.first + j]
  }

  /** Exactly the pages of the placed sections were mapped, each to its own frame of the module. */
  ghost predicate AllMapped(mapped0: map<nat, nat>, mapped: map<nat, nat>, frames: seq<nat>, placed: seq<Placed>) {
    && mapped.Keys == mapped0.Keys + PageSet(placed)
    && (forall v :: v in mapped0 ==> v in mapped && mapped[v] == mapped0[v])
    && forall k :: 0 <= k < |placed| ==> RunMapped(mapped, frames, placed[k])
  }

  /** The section mapping table of the loader. */
  ghost function MappingsOf(placed: seq<Placed>): seq<Mapping> {
    if placed == [] then []
      else MappingsOf(placed[..|placed| - 1]) + [Mapping(placed[|placed| - 1].index, placed[|placed| - 1].base)]
  }

  /** Nothing is mapped yet where the module goes. */
  ghost predicate AreaFree(mapped0: map<nat, nat>, offset: nat) {
    forall v :: v in mapped0 ==> v < MODULE_LOAD_BASE || v >= MODULE_LOAD_BASE + offset
  }

  /** The wanted sections among the first `n` that have contents have them in the file. */
  ghost predicate AllInFile(elf: seq<byte>, sections: seq<Section>, n: nat)
    requires n <= |sections|
  {
    forall i :: 0 <= i < n && Wanted(sections[i]) ==> InFile(elf, sections[i])
  }

  /** What a load needs to succeed, relocation aside. */
  ghost predicate Loadable(elf: seq<byte>, sections: seq<Section>, free: nat) {
    PagesNeeded(sections, |sections|) <= 16 && PagesNeeded(sections, |sections|) <= free
    && AllInFile(elf, sections, |sections|)
  }

  lemma {:induction false} OffsetGrows(sections: seq<Section>, n: nat)
    requires n <= |sections| && WellAligned(sections)
    ensures OffsetAfter(sections, n) <= OffsetAfter(sections, |sections|)
    decreases |sections| - n
  {
    if n < |sections| {
      AlignedUp(OffsetAfter(sections, n), sections[n]);
      OffsetGrows(sections, n + 1);
    }
  }

  lemma {:induction false} NothingPlaced(elf: seq<byte>, sections: seq<Section>, m: Memory, mapped: map<nat, nat>)
    ensures MappingsOf([]) == [] && OffsetAfter(sections, 0) == 0
    ensures Laid(sections, 0, [], 0, 0) && AllInFile(elf, sections, 0) && AllFilled(m, elf, sections, [])
            && AllMapped(mapped, mapped, [], [])
  {
  }

  lemma Skipped(elf: seq<byte>, sections: seq<Section>, n: nat, placed: seq<Placed>, offset: nat, pages: nat)
    requires n < |sections| && !Wanted(sections[n]) && Laid(sections, n, placed, offset, pages)
             && AllInFile(elf, sections, n)
    ensures Laid(sections, n + 1, placed, offset, pages) && AllInFile(elf, sections, n + 1)
            && OffsetAfter(sections, n + 1) == OffsetAfter(sections, n)
  {
  }

  lemma OffsetStep(sections: seq<Section>, n: nat)
    requires n < |sections| && Wanted(sections[n]) && WellAligned(sections)
    ensures AlignmentOk(sections[n]) && PagesOf(sections[n].size) > 0
    ensures OffsetAfter(sections, n + 1)
            == AlignUp(OffsetAfter(sections, n), AlignOf(sections[n])) + PAGE_SIZE * PagesOf(sections[n].size)
  {
  }

  lemma InFileStep(elf: seq<byte>, sections: seq<Section>, n: nat)
    requires n < |sections| && AllInFile(elf, sections, n) && InFile(elf, sections[n])
    ensures AllInFile(elf, sections, n + 1)
  {
  }

  /** A section that cannot be loaded makes the whole module one that cannot. */
  lemma {:induction false} NotLoadable(elf: seq<byte>, sections: seq<Section>, n: nat, free: nat)
    requires n < |sections|
    ensures Wanted(sections[n])
            && (PagesNeeded(sections, n) + PagesOf(sections[n].size) > MAX_MODULE_PAGES
                || PagesNeeded(sections, n) + PagesOf(sections[n].size) > free || !InFile(elf, sections[n])) ==>
              !Loadable(elf, sections, free)
  {
    PagesNeededGrows(sections, n + 1);
  }

  /** The mapping table never fills up. */
  lemma {:induction false} FewMappings(sections: seq<Section>, n: nat, placed: seq<Placed>, offset: nat, pages: nat)
    requires n <= |sections| && Laid(sections, n, placed, offset, pages) && pages <= MAX_MODULE_PAGES
    ensures |MappingsOf(placed)| < SECTION_MAPPINGS
  {
    MappingsAt(placed);
  }

  /** Sections in front of a new one keep their contents and their pages. */
  lemma FilledStep(m: Memory, r: Memory, elf: seq<byte>, sections: seq<Section>, placed: seq<Placed>, offset: nat,
                   pages: nat, p: Placed)
    requires AllFilled(m, elf, sections, placed) && LaidApart(sections, placed, offset, pages)
             && MODULE_LOAD_BASE + offset <= p.base
    requires SameOutside(m, r, p.base, EndOf(p)) && p.index < |sections|
             && Filled(r, elf, sections[p.index], p.base, p.pages)
    ensures AllFilled(r, elf, sections, placed + [p])
  {
    var more := placed + [p];
    forall k | 0 <= k < |more|
      ensures more[k].index < |sections| && Filled(r, elf, sections[more[k].index], more[k].base, more[k].pages)
    {
      if k < |placed| {
        assert more[k] == placed[k] && PlacedWell(sections, placed[k], offset, pages);
        assert Filled(m, elf, sections[placed[k].index], placed[k].base, placed[k].pages);
      }
    }
  }

  lemma MappedStep(mapped0: map<nat, nat>, mapped: map<nat, nat>, after: map<nat, nat>, frames: seq<nat>,
                   more: seq<nat>, sections: seq<Section>, n: nat, placed: seq<Placed>, offset: nat, p: Placed)
    requires n <= |sections| && Laid(sections, n, placed, offset, |frames|) && frames <= more
    requires AllMapped(mapped0, mapped, frames, placed) && RunMapped(after, more, p)
    requires MODULE_LOAD_BASE + offset <= p.base && AreaFree(mapped0, EndOf(p) - MODULE_LOAD_BASE)
    requires after.Keys == mapped.Keys + RunOf(p.base, p.pages)
    requires forall v :: v in mapped && v !in RunOf(p.base, p.pages) ==> after[v] == mapped[v]
    ensures AllMapped(mapped0, after, more, placed + [p])
  {
    var q := placed + [p];
    assert q[..|q| - 1] == placed;
    forall k | 0 <= k < |q|
      ensures RunMapped(after, more, q[k])
    {
      if k < |placed| {
        assert q[k] == placed[k] && RunMapped(mapped, frames, placed[k]);
        forall j: nat | j < placed[k].pages
          ensures Page(placed[k].base, j) in after && after[Page(placed[k].base, j)] == more[placed[k].first + j]
        {
          InPageSet(placed, k, j);
          PageBelow(sections, n, placed, offset, |frames|, Page(placed[k].base, j));
        }
      }
    }
  }

  // ---------------------------------------------------------------- a load that fails at a section

  /**
   Section `n` is the first that cannot be loaded, for want of room in the module, of frames, or of contents in the
   file.
   */
  ghost predicate GivesUpAt(elf: seq<byte>, sections: seq<Section>, free: nat, n: nat) {
    && n < |sections| && Wanted(sections[n]) && AllInFile(elf, sections, n)
    && PagesNeeded(sections, n) <= MAX_MODULE_PAGES && PagesNeeded(sections, n) <= free
    && (PagesNeeded(sections, n + 1) > MAX_MODULE_PAGES || PagesNeeded(sections, n + 1) > free
        || !InFile(elf, sections[n]))
  }

  /** The frames that the module holds by then: those that were left go to it before it runs short. */
  ghost function HeldAt(sections: seq<Section>, free: nat, n: nat): nat
    requires n < |sections|
  {
    if PagesNeeded(sections, n + 1) > MAX_MODULE_PAGES then PagesNeeded(sections, n)
    else if PagesNeeded(sections, n + 1) > free then free
    else PagesNeeded(sections, n + 1)
  }

  /**
   How many of the sections have been mapped by then: a section is mapped before its place in the file is looked at.
   */
  ghost function MappedAt(sections: seq<Section>, free: nat, n: nat): (m: nat)
    requires n < |sections|
    ensures m <= |sections|
  {
    if PagesNeeded(sections, n + 1) > MAX_MODULE_PAGES || PagesNeeded(sections, n + 1) > free then n else n + 1
  }

  /** The state of a load that gives up at section `n`, before the clean-up. */
  ghost predicate GaveUp(elf: seq<byte>, sections: seq<Section>, free: nat, n: nat, placed: seq<Placed>,
                         mapped0: map<nat, nat>, mapped: map<nat, nat>, frames: seq<nat>) {
    && GivesUpAt(elf, sections, free, n) && |frames| == HeldAt(sections, free, n)
    && var m := MappedAt(sections, free, n);
    && Laid(sections, m, placed, OffsetAfter(sections, m), PagesNeeded(sections, m))
    && AllMapped(mapped0, mapped, frames, placed)
  }

  /**
   What such a load leaves: the pages of the mapped sections that are not among the first ones from the load base on.
   */
  ghost predicate LeftBehind(sections: seq<Section>, free: nat, n: nat, placed: seq<Placed>, mapped0: map<nat, nat>,
                             mapped: map<nat, nat>)
    requires n < |sections|
  {
    var m, held := MappedAt(sections, free, n), HeldAt(sections, free, n);
    && Laid(sections, m, placed, OffsetAfter(sections, m), PagesNeeded(sections, m))
    && mapped.Keys == mapped0.Keys + (PageSet(placed) - RunOf(MODULE_LOAD_BASE, held))
    && (mapped == mapped0 <==> OffsetAfter(sections, m) <= PAGE_SIZE * held)
  }

  lemma MoreFrames(mapped0: map<nat, nat>, mapped: map<nat, nat>, frames: seq<nat>, more: seq<nat>, placed: seq<Placed>)
    requires AllMapped(mapped0, mapped, frames, placed) && frames <= more
    ensures AllMapped(mapped0, mapped, more, placed)
  {
    forall k | 0 <= k < |placed|
      ensures RunMapped(mapped, more, placed[k])
    {
      assert RunMapped(mapped, frames, placed[k]);
    }
  }

  lemma {:induction false} GaveUpBefore(elf: seq<byte>, sections: seq<Section>, free: nat, n: nat, placed: seq<Placed>,
                                        mapped0: map<nat, nat>, mapped: map<nat, nat>, frames0: seq<nat>,
                                        frames: seq<nat>)
    requires n < |sections| && Wanted(sections[n]) && AllInFile(elf, sections, n) && |frames0| <= MAX_MODULE_PAGES
             && |frames0| <= free
    requires Laid(sections, n, placed, OffsetAfter(sections, n), |frames0|)
             && AllMapped(mapped0, mapped, frames0, placed) && frames0 <= frames
    requires var pages := |frames0| + PagesOf(sections[n].size);
             if pages > MAX_MODULE_PAGES then frames == frames0 else pages > free == |frames|
    ensures GaveUp(elf, sections, free, n, placed, mapped0, mapped, frames) && MappedAt(sections, free, n) == n
  {
    hide AllInFile, OffsetAfter, AllMapped, LaidApart;
    LaidPages(sections, n, placed, OffsetAfter(sections, n), |frames0|);
    MoreFrames(mapped0, mapped, frames0, frames, placed);
  }

  lemma {:induction false} GaveUpBehind(elf: seq<byte>, sections: seq<Section>, free: nat, n: nat, placed: seq<Placed>,
                                        mapped0: map<nat, nat>, mapped: map<nat, nat>, frames: seq<nat>)
    requires n < |sections| && Wanted(sections[n]) && AllInFile(elf, sections, n) && !InFile(elf, sections[n])
    requires |frames| <= MAX_MODULE_PAGES && |frames| <= free
    requires Laid(sections, n + 1, placed, OffsetAfter(sections, n + 1), |frames|)
             && AllMapped(mapped0, mapped, frames, placed)
    ensures GaveUp(elf, sections, free, n, placed, mapped0, mapped, frames) && MappedAt(sections, free, n) == n + 1
  {
    hide AllInFile, InFile, OffsetAfter, AllMapped, LaidApart;
    LaidPages(sections, n + 1, placed, OffsetAfter(sections, n + 1), |frames|);
  }

  lemma GaveUpMeans(elf: seq<byte>, sections: seq<Section>, free: nat, n: nat, placed: seq<Placed>,
                    mapped0: map<nat, nat>, mapped: map<nat, nat>, frames: seq<nat>)
    requires GaveUp(elf, sections, free, n, placed, mapped0, mapped, frames)
    ensures GivesUpAt(elf, sections, free, n) && n < |sections|
  {
  }

  /** What the clean-up makes of it. */
  lemma {:induction false} GaveUpCleaned(elf: seq<byte>, sections: seq<Section>, free: nat, n: nat, placed: seq<Placed>,
                                         mapped0: map<nat, nat>, mapped: map<nat, nat>, frames: seq<nat>)
    requires GaveUp(elf, sections, free, n, placed, mapped0, mapped, frames)
    requires AreaFree(mapped0, OffsetAfter(sections, |sections|)) && WellAligned(sections)
    ensures LeftBehind(sections, free, n, placed, mapped0, mapped - RunOf(MODULE_LOAD_BASE, |frames|))
  {
    hide OffsetAfter, Laid, RunMapped, WellAligned, GivesUpAt;
    GaveUpMeans(elf, sections, free, n, placed, mapped0, mapped, frames);
    var m := MappedAt(sections, free, n);
    CleanupReaches(sections, m, placed, OffsetAfter(sections, m), PagesNeeded(sections, m), |frames|);
    OffsetCovers(sections, n + 1);
    OffsetGrows(sections, n + 1);
    OffsetGrows(sections, m);
    HeldBelow(elf, sections, free, n);
    var run := RunOf(MODULE_LOAD_BASE, |frames|);
    RunBelow(|frames|, OffsetAfter(sections, |sections|));
    assert forall v :: v in run ==> v !in mapped0;
    forall v | v in PageSet(placed)
      ensures v !in mapped0
    {
      PageBelow(sections, m, placed, OffsetAfter(sections, m), PagesNeeded(sections, m), v);
    }
    KeysLeft(mapped0, mapped, PageSet(placed), run);
  }

  lemma {:induction false} HeldBelow(elf: seq<byte>, sections: seq<Section>, free: nat, n: nat)
    requires GivesUpAt(elf, sections, free, n)
    ensures HeldAt(sections, free, n) <= PagesNeeded(sections, n + 1)
  {
  }

  lemma RunBelow(pages: nat, size: nat)
    requires PAGE_SIZE * pages <= size
    ensures forall v :: v in RunOf(MODULE_LOAD_BASE, pages) ==> MODULE_LOAD_BASE <= v < MODULE_LOAD_BASE + size
  {
  }

  lemma KeysLeft(mapped0: map<nat, nat>, mapped: map<nat, nat>, pages: set<nat>, run: set<nat>)
    requires mapped.Keys == mapped0.Keys + pages && forall v :: v in mapped0 ==> mapped[v] == mapped0[v]
    requires mapped0.Keys !! pages && mapped0.Keys !! run
    ensures (mapped - run).Keys == mapped0.Keys + (pages - run)
    ensures mapped - run == mapped0 <==> pages <= run
  {
    var after := mapped - run;
    assert after.Keys == mapped0.Keys + (pages - run);
    if pages <= run {
      assert after.Keys == mapped0.Keys;
    } else {
      var v :| v in pages && v !in run;
      assert v in after.Keys && v !in mapped0.Keys;
    }
  }

  // ---------------------------------------------------------------- the page table of the module region

  /** The pages of the first section that takes up memory, or 0 if there is none. */
  ghost function FirstNeed(sections: seq<Section>): nat {
    if sections == [] then 0 else if Wanted(sections[0]) then PagesOf(sections[0].size) else FirstNeed(sections[1..])
  }

  /** The pool has frames, but not for the pages of the first section and the page table behind the load base. */
  ghost predicate Doomed(sections: seq<Section>, free: nat, present: bool) {
    !present && 0 < free <= FirstNeed(sections) <= MAX_MODULE_PAGES
  }

  /** The frames that are left for pages, once the page table has been made of one if need be. */
  ghost function ForPages(sections: seq<Section>, free: nat, present: bool): nat {
    if !present && 0 < FirstNeed(sections) <= MAX_MODULE_PAGES && FirstNeed(sections) < free then free - 1 else free
  }

  lemma {:induction false} NeedStep(sections: seq<Section>, i: nat)
    requires i < |sections|
    ensures FirstNeed(sections[i..])
         == if Wanted(sections[i]) then PagesOf(sections[i].size) else FirstNeed(sections[i + 1..])
    ensures Wanted(sections[i]) ==> PagesOf(sections[i].size) > 0
  {
    assert sections[i..][1..] == sections[i + 1..];
  }

  /** The page table in the course of a load: made, or not and no section has been loaded yet. */
  ghost predicate TableSoFar(sections: seq<Section>, i: nat, free: nat, had: bool, present: bool, left: nat,
                             placed: nat)
    requires i <= |sections|
  {
    if present then !Doomed(sections, free, had) && left == ForPages(sections, free, had)
    else !had && placed == 0 && left == free && FirstNeed(sections[i..]) == FirstNeed(sections)
  }

  lemma TableStarts(sections: seq<Section>, free: nat, had: bool)
    ensures TableSoFar(sections, 0, free, had, had, free, 0)
  {
    assert sections[0..] == sections;
  }

  lemma TableMeans(sections: seq<Section>, i: nat, free: nat, had: bool, present: bool, left: nat, placed: nat)
    requires i <= |sections| && TableSoFar(sections, i, free, had, present, left, placed)
    ensures present ==> !Doomed(sections, free, had) && left == ForPages(sections, free, had)
    ensures !present ==> placed == 0 && left == free && !had
  {
  }

  /**
   One more section: the table is made if frames are left behind those for its pages, and the section is loaded if
   there is room, a table and its contents in the file. With as many frames as pages, the contents fault.
   */
  ghost predicate Tried(held: nat, pages: nat, free: nat, present: bool, inFile: bool, present': bool, held': nat,
                        ok: bool, fault: bool) {
    var fits := held + pages <= MAX_MODULE_PAGES;
    && (present' <==> present || (fits && held + pages < free))
    && (fault <==> !present' && fits && held + pages == free && inFile)
    && (ok <==> present' && fits && held + pages <= free && inFile)
    && (!present' ==> held' == if fits then free else held)
  }

  lemma TriedIs(held: nat, pages: nat, free: nat, present: bool, inFile: bool, present': bool, held': nat)
    requires var fits := held + pages <= MAX_MODULE_PAGES;
             && (present' <==> present || (fits && held + pages <= free && held + pages < free))
             && (!present' ==> if !fits then held' == held
                               else if held + pages <= free then held' == held + pages else held' == free)
    ensures var fits := held + pages <= MAX_MODULE_PAGES && held + pages <= free;
            Tried(held, pages, free, present, inFile, present', held', fits && present' && inFile,
                  fits && !present' && inFile)
  {
  }

  lemma InFileMeans(elf: seq<byte>, s: Section)
    ensures InFile(elf, s) <==> !(s.kind != SHT_NOBITS && s.offset + s.size > |elf|)
  {
  }

  lemma {:induction false} TableStep(sections: seq<Section>, i: nat, free: nat, had: bool, present: bool, left: nat,
                                     placed: nat, held: nat, inFile: bool, present': bool, held': nat, ok: bool,
                                     fault: bool, made: nat)
    requires i < |sections| && Wanted(sections[i]) && TableSoFar(sections, i, free, had, present, left, placed)
    requires Tried(held, PagesOf(sections[i].size), left, present, inFile, present', held', ok, fault)
    requires placed == 0 ==> held == 0
    requires made == if present' == present then 0 else 1
    ensures made <= left && (fault ==> !ok)
    ensures ok ==> TableSoFar(sections, i + 1, free, had, present', left - made, placed + 1)
    ensures !ok && Doomed(sections, free, had) ==> fault || (!present' && held' > 0)
    ensures !ok && !Doomed(sections, free, had) ==>
              && !fault && (present' || held' == 0) && left - made == ForPages(sections, free, had)
              && (present' || held' == held)
    ensures !ok && !Doomed(sections, free, had) ==>
              held + PagesOf(sections[i].size) > MAX_MODULE_PAGES
              || held + PagesOf(sections[i].size) > left - made || !inFile
  {
    NeedStep(sections, i);
  }

  lemma {:induction false} TableSkips(sections: seq<Section>, i: nat, free: nat, had: bool, present: bool, left: nat,
                                      placed: nat)
    requires i < |sections| && !Wanted(sections[i]) && TableSoFar(sections, i, free, had, present, left, placed)
    ensures TableSoFar(sections, i + 1, free, had, present, left, placed)
  {
    NeedStep(sections, i);
  }

  lemma {:induction false} TableEnds(sections: seq<Section>, free: nat, had: bool, present: bool, left: nat,
                                     placed: nat)
    requires TableSoFar(sections, |sections|, free, had, present, left, placed)
    ensures !Doomed(sections, free, had) && left == ForPages(sections, free, had)
    ensures !present ==> placed == 0
  {
    NeedOfNone(sections);
  }

  lemma {:induction false} NonePlaced(sections: seq<Section>, n: nat)
    requires n <= |sections| && WantedIndices(sections, n) == []
    ensures PagesNeeded(sections, n) == 0
  {
    if n > 0 {
      NonePlaced(sections, n - 1);
    }
  }

  /** Part of a pool has gone to page tables. */
  ghost predicate Rebased(free0: set<nat>, outstanding0: set<nat>, free: set<nat>, outstanding: set<nat>) {
    free <= free0 && outstanding == outstanding0 + (free0 - free)
  }

  lemma RebasedNot(free0: set<nat>, outstanding0: set<nat>)
    ensures Rebased(free0, outstanding0, free0, outstanding0)
  {
  }

  lemma RebasedTwice(free0: set<nat>, outstanding0: set<nat>, free1: set<nat>, outstanding1: set<nat>, free2: set<nat>,
                     outstanding2: set<nat>)
    requires Rebased(free0, outstanding0, free1, outstanding1) && Rebased(free1, outstanding1, free2, outstanding2)
    ensures Rebased(free0, outstanding0, free2, outstanding2)
  {
    assert free0 - free2 == (free0 - free1) + (free1 - free2);
  }

  lemma RebasedBy(free0: set<nat>, outstanding0: set<nat>, made: set<nat>)
    requires made <= free0
    ensures Rebased(free0, outstanding0, free0 - made, outstanding0 + made) && |free0 - made| == |free0| - |made|
    ensures made == {} ==> free0 - made == free0 && outstanding0 + made == outstanding0
  {
    assert free0 - (free0 - made) == made && free0 == (free0 - made) + made;
  }

  /** A frame of the pool given to a page table is no longer there for the module. */
  lemma TakenRebased(free0: set<nat>, outstanding0: set<nat>, frames: seq<nat>, free: set<nat>, outstanding: set<nat>,
                     made: set<nat>)
    requires Taken(free0, outstanding0, frames, 0, free, outstanding) && made <= free
    ensures Taken(free0 - made, outstanding0 + made, frames, 0, free - made, outstanding + made)
  {
    forall k | 0 <= k < |frames|
      ensures frames[k] / PAGE_SIZE in free0 - made
    {
      assert frames[k] / PAGE_SIZE in FrameSet(frames, 0);
    }
  }

  /** The load base is where the first section goes. */
  lemma FirstBase(sections: seq<Section>, i: nat, placed: seq<Placed>, offset: nat, pages: nat, align: nat)
    requires i <= |sections| && Laid(sections, i, placed, offset, pages) && placed == [] && align > 0
    ensures offset == 0 && AlignUp(0, align) == 0
  {
    assert (align - 1) / align == 0;
  }

  /** Where the next section goes. */
  lemma NextPlace(sections: seq<Section>, i: nat, placed: seq<Placed>, held: nat)
    requires i < |sections| && Wanted(sections[i]) && WellAligned(sections)
    requires Laid(sections, i, placed, OffsetAfter(sections, i), held) && held <= MAX_MODULE_PAGES
    ensures AlignmentOk(sections[i]) && PagesOf(sections[i].size) > 0 && |MappingsOf(placed)| < SECTION_MAPPINGS
    ensures var aligned, pages := AlignUp(OffsetAfter(sections, i), AlignOf(sections[i])), PagesOf(sections[i].size);
            && OffsetAfter(sections, i) <= aligned && aligned % PAGE_SIZE == 0 && (placed == [] ==> aligned == 0)
            && OffsetAfter(sections, i + 1) == aligned + pages * PAGE_SIZE
            && Laid(sections, i + 1, placed + [Placed(i, MODULE_LOAD_BASE + aligned, pages, held)],
                    OffsetAfter(sections, i + 1), held + pages)
  {
    hide Laid, OffsetAfter, AlignUp, AlignOf, PagesOf, Wanted, WellAligned, AlignmentOk;
    OffsetStep(sections, i);
    var offset, align := OffsetAfter(sections, i), AlignOf(sections[i]);
    AlignedUp(offset, sections[i]);
    LaidStep(sections, i, placed, offset, held, AlignUp(offset, align));
    FewMappings(sections, i, placed, offset, held);
    if placed == [] {
      FirstBase(sections, i, placed, offset, held, align);
    }
  }

  /** The pages a module can have from the load base on lie in its slot of the page directory. */
  lemma BaseSlot(page: nat)
    requires page < MAX_MODULE_PAGES
    ensures (MODULE_LOAD_BASE + page * PAGE_SIZE) / SLOT_SIZE == MODULE_LOAD_BASE / SLOT_SIZE
  {
  }

  lemma SetsGrow(free: set<nat>, made: set<nat>, more: set<nat>)
    ensures free - made - more == free - (made + more) && made + {} == made && {} + more == more
  {
  }

  lemma FreeInside(free0: set<nat>, outstanding0: set<nat>, frames: seq<nat>, free: set<nat>, outstanding: set<nat>)
    requires Taken(free0, outstanding0, frames, 0, free, outstanding)
    ensures free <= free0
  {
  }

  lemma NeedOfNone(sections: seq<Section>)
    ensures FirstNeed(sections[|sections|..]) == 0
  {
  }

  lemma UnmappedBase(mapped0: map<nat, nat>, mapped: map<nat, nat>, frames: seq<nat>, size: nat)
    requires AllMapped(mapped0, mapped, frames, []) && AreaFree(mapped0, size) && size > 0
    ensures MODULE_LOAD_BASE !in mapped
  {
    assert PageSet([]) == {};
  }

  class Loader {
    const pmm: Pmm.FramePool
    var memory: Memory
    var mapped: map<nat, nat>
    /** The slot of the page directory that the load base lies in has its page table. */
    var tablePresent: bool
    /** `frames` up to `page_count`. */
    var frames: seq<nat>
    var loadBase: nat
    var loadSize: nat
    var state: ModuleState

    constructor (pmm: Pmm.FramePool)
      ensures this.pmm == pmm && memory == map[] && mapped == map[] && frames == [] && !tablePresent
    {
      this.pmm := pmm;
      tablePresent := false;
      memory := map[];
      mapped := map[];
      frames := [];
      loadBase := 0;
      loadSize := 0;
      state := Idle;
    }

    ghost predicate Accounted(free0: set<nat>, outstanding0: set<nat>)
      reads this, pmm, pmm.bitmap
    {
      pmm.Valid() && Taken(free0, outstanding0, frames, 0, pmm.Free(), pmm.outstanding)
    }

    lemma FramesFew(free0: set<nat>, outstanding0: set<nat>)
      requires Accounted(free0, outstanding0)
      ensures |frames| <= |free0|
    {
      hide Taken;
      TakenCount(free0, outstanding0, frames, pmm.Free(), pmm.outstanding);
    }

    /** `allocate_module_frames`. */
    method AllocateFrames(pages: nat, ghost free0: set<nat>, ghost outstanding0: set<nat>) returns (ok: bool)
      requires Accounted(free0, outstanding0) && |frames| <= MAX_MODULE_PAGES && pages > 0
      modifies this`frames, pmm`outstanding, pmm.bitmap
      ensures Accounted(free0, outstanding0) && old(frames) <= frames && |frames| <= MAX_MODULE_PAGES
      ensures ok ==> |frames| == |old(frames)| + pages
      ensures ok <==> |old(frames)| + pages <= MAX_MODULE_PAGES && |old(frames)| + pages <= |free0|
      ensures !ok && |old(frames)| + pages <= MAX_MODULE_PAGES ==> |frames| == |free0|
    {
      hide Taken, Pmm.FramePool.Used, Pmm.FramePool.Free;
      for i := 0 to pages
        invariant Accounted(free0, outstanding0) && old(frames) <= frames && |frames| == |old(frames)| + i
        invariant i > 0 ==> |frames| <= MAX_MODULE_PAGES && |frames| <= |free0|
      {
        TakenCount(free0, outstanding0, frames, pmm.Free(), pmm.outstanding);
        if |frames| >= MAX_MODULE_PAGES {
          return false;
        }
        ghost var free, outstanding := pmm.Free(), pmm.outstanding;
        var frame := pmm.AllocFrame();
        if frame == 0 {
          return false;
        }
        TakeStep(free0, outstanding0, frames, free, outstanding, frame);
        frames := frames + [frame];
      }
      ok := true;
    }

    /** `vmm_unmap_page` behind the load base: without a page table the store faults. */
    method UnmapPage(vaddr: nat) returns (fault: bool)
      modifies this`mapped
      ensures fault <==> !tablePresent
      ensures !fault ==> mapped == old(mapped) - {vaddr}
    {
      if !tablePresent {
        return true;
      }
      mapped := mapped - {vaddr};
      fault := false;
    }

    /**
     `cleanup_module_frames`: every frame goes back; the pages from the load base on are unmapped, one for each frame.
     */
    method Cleanup(ghost free0: set<nat>, ghost outstanding0: set<nat>) returns (fault: bool)
      requires Accounted(free0, outstanding0)
      modifies this`frames, this`mapped, this`loadBase, this`loadSize, pmm`outstanding, pmm.bitmap
      ensures fault <==> !tablePresent && old(frames) != []
      ensures !fault ==>
                && pmm.Valid() && pmm.Free() == free0 && pmm.outstanding == outstanding0 && frames == []
                && mapped == old(mapped) - RunOf(old(loadBase), |old(frames)|)
    {
      hide Taken, Pmm.FramePool.Used, Pmm.FramePool.Free;
      var i := 0;
      assert old(mapped) - RunOf(loadBase, 0) == mapped;
      while i < |frames|
        invariant i <= |frames| && pmm.Valid() && Taken(free0, outstanding0, frames, i, pmm.Free(), pmm.outstanding)
        invariant mapped == old(mapped) - RunOf(loadBase, i) && frames == old(frames) && loadBase == old(loadBase)
        invariant i > 0 ==> tablePresent
      {
        GiveStep(free0, outstanding0, frames, i, pmm.Free(), pmm.outstanding);
        assert RunOf(loadBase, i + 1) == RunOf(loadBase, i) + {Page(loadBase, i)};
        fault := UnmapPage(loadBase + i * PAGE_SIZE);
        if fault {
          return;
        }
        pmm.FreeFrame(frames[i]);
        i := i + 1;
      }
      AllGiven(free0, outstanding0, frames, pmm.Free(), pmm.outstanding);
      frames := [];
      loadSize := 0;
      loadBase := 0;
      fault := false;
    }

    /**
     `vmm_map_kernel_page`: the page table behind the load base is made when there is none, from a frame of the pool;
     with none left, nothing is mapped. Page tables further up, where only a large alignment leads, are taken as there.
     */
    method MapKernelPage(vaddr: nat, paddr: nat) returns (ghost made: set<nat>)
      requires pmm.Valid()
      modifies this`mapped, this`tablePresent, pmm`outstanding, pmm.bitmap
      ensures pmm.Valid() && pmm.Free() == old(pmm.Free()) - made && pmm.outstanding == old(pmm.outstanding) + made
      ensures old(tablePresent) ==> tablePresent
      ensures vaddr / SLOT_SIZE == MODULE_LOAD_BASE / SLOT_SIZE ==>
                (tablePresent <==> old(tablePresent) || old(pmm.Free()) != {})
      ensures if tablePresent == old(tablePresent) then made == {} else |made| == 1 && made <= old(pmm.Free())
      ensures mapped == if tablePresent || vaddr / SLOT_SIZE != MODULE_LOAD_BASE / SLOT_SIZE
                        then old(mapped)[vaddr := paddr] else old(mapped)
    {
      hide Pmm.FramePool.Used, Pmm.FramePool.Free, Pmm.FramePool.Valid;
      made := {};
      if !tablePresent && vaddr / SLOT_SIZE == MODULE_LOAD_BASE / SLOT_SIZE {
        var newPt := pmm.AllocFrame();
        if newPt == 0 {
          return;
        }
        tablePresent := true;
        made := {newPt / PAGE_SIZE};
      }
      mapped := mapped[vaddr := paddr];
    }

    /** Maps the pages of a section to its frames, if there is a page table or a frame for one. */
    method MapSection(base: nat, pages: nat, first: nat, ghost p: Placed) returns (ghost made: set<nat>)
      requires pmm.Valid() && first + pages <= |frames| && p.base == base && p.pages == pages > 0 && p.first == first
      requires tablePresent || (base == MODULE_LOAD_BASE && pages <= MAX_MODULE_PAGES)
      modifies this`mapped, this`tablePresent, pmm`outstanding, pmm.bitmap
      ensures pmm.Valid() && pmm.Free() == old(pmm.Free()) - made && pmm.outstanding == old(pmm.outstanding) + made
      ensures tablePresent <==> old(tablePresent) || old(pmm.Free()) != {}
      ensures if tablePresent == old(tablePresent) then made == {} else |made| == 1 && made <= old(pmm.Free())
      ensures tablePresent ==>
                && mapped.Keys == old(mapped).Keys + RunOf(base, pages) && RunMapped(mapped, frames, p)
                && forall v :: v in old(mapped) && v !in RunOf(base, pages) ==> mapped[v] == old(mapped)[v]
      ensures !tablePresent ==> mapped == old(mapped)
    {
      hide Pmm.FramePool.Used, Pmm.FramePool.Free, Pmm.FramePool.Valid, RunOf, MappedSoFar;
      pmm.HasShape();
      made := {};
      SetsGrow(pmm.Free(), made, {});
      for page := 0 to pages
        invariant pmm.Valid() && pmm.Shape()
        invariant pmm.Free() == old(pmm.Free()) - made && pmm.outstanding == old(pmm.outstanding) + made
        invariant page == 0 ==> tablePresent == old(tablePresent) && mapped == old(mapped)
        invariant page > 0 ==> (tablePresent <==> old(tablePresent) || old(pmm.Free()) != {})
        invariant if tablePresent == old(tablePresent) then made == {} else |made| == 1 && made <= old(pmm.Free())
        invariant !tablePresent ==> mapped == old(mapped)
        invariant page > 0 && tablePresent ==> MappedSoFar(old(mapped), mapped, base, page, first)
      {
        ghost var m := mapped;
        if !tablePresent {
          BaseSlot(page);
        }
        ghost var more := MapKernelPage(base + page * PAGE_SIZE, frames[first + page]);
        pmm.HasShape();
        SetsGrow(old(pmm.Free()), made, more);
        made := made + more;
        if tablePresent {
          PageMapped(old(mapped), m, base, page, first, mapped);
        }
      }
      if tablePresent {
        SectionMapped(old(mapped), mapped, base, pages, first, p);
      }
    }

    lemma SectionMapped(m0: map<nat, nat>, m: map<nat, nat>, base: nat, pages: nat, first: nat, p: Placed)
      requires first + pages <= |frames| && p.base == base && p.pages == pages && p.first == first
      requires MappedSoFar(m0, m, base, pages, first)
      ensures m.Keys == m0.Keys + RunOf(base, pages) && RunMapped(m, frames, p)
      ensures forall v :: v in m0 && v !in RunOf(base, pages) ==> m[v] == m0[v]
    {
    }

    ghost predicate MappedSoFar(m0: map<nat, nat>, m: map<nat, nat>, base: nat, pages: nat, first: nat)
      requires first + pages <= |frames|
      reads this`frames
    {
      && m.Keys == m0.Keys + RunOf(base, pages)
      && (forall j: nat :: j < pages ==> Page(base, j) in m && m[Page(base, j)] == frames[first + j])
      && forall v :: v in m0 && v !in RunOf(base, pages) ==> m[v] == m0[v]
    }

    lemma PageMapped(m0: map<nat, nat>, m: map<nat, nat>, base: nat, page: nat, first: nat, m': map<nat, nat>)
      requires first + page < |frames| && m' == m[base + page * PAGE_SIZE := frames[first + page]]
      requires if page == 0 then m == m0 else MappedSoFar(m0, m, base, page, first)
      ensures MappedSoFar(m0, m', base, page + 1, first)
    {
      assert RunOf(base, 0) == {};
      assert RunOf(base, page + 1) == RunOf(base, page) + {Page(base, page)};
    }

    /** A store of one byte to a mapped page. */
    method StoreByte(a: nat, b: byte)
      requires PageOf(a) in mapped
      modifies this`memory
      ensures memory == old(memory)[a := b]
    {
      memory := memory[a := b];
    }

    /** Stores zeros to a mapped range. */
    method ZeroRange(from: nat, to: nat)
      requires from <= to && forall a: nat :: from <= a < to ==> PageOf(a) in mapped
      modifies this`memory
      ensures SameOutside(old(memory), memory, from, to)
      ensures forall a :: from <= a < to ==> a in memory && memory[a] == 0
    {
      hide PageOf;
      for i := from to to
        invariant SameOutside(old(memory), memory, from, i)
        invariant forall a :: from <= a < i ==> a in memory && memory[a] == 0
      {
        StoreByte(i, 0);
      }
    }

    /** Copies the bytes of a section from the file. */
    method CopyBytes(elf: seq<byte>, s: Section, base: nat)
      requires s.kind != SHT_NOBITS && InFile(elf, s) && forall a: nat :: base <= a < base + s.size ==>
                 PageOf(a) in mapped
      modifies this`memory
      ensures SameOutside(old(memory), memory, base, base + s.size)
      ensures forall a :: base <= a < base + s.size ==> a in memory && memory[a] == ContentAt(elf, s, a - base)
    {
      hide PageOf;
      for i := 0 to s.size
        invariant SameOutside(old(memory), memory, base, base + i)
        invariant forall a :: base <= a < base + i ==> a in memory && memory[a] == ContentAt(elf, s, a - base)
      {
        StoreByte(base + i, elf[s.offset + i]);
      }
    }

    /** The contents of a section: its bytes, if the file has them, and zeros. */
    method FillSection(elf: seq<byte>, s: Section, base: nat, pages: nat, ghost p: Placed)
      requires base == p.base && pages == p.pages && base % PAGE_SIZE == 0 && pages == PagesOf(s.size)
      requires RunMapped(mapped, frames, p) && InFile(elf, s)
      modifies this`memory
      ensures Filled(memory, elf, s, base, pages) && SameOutside(old(memory), memory, base, EndOf(p))
    {
      hide PageOf;
      InRun(p);
      if s.kind == SHT_NOBITS {
        ZeroRange(base, base + pages * PAGE_SIZE);
      } else {
        CopyBytes(elf, s, base);
        if s.size < pages * PAGE_SIZE {
          ZeroRange(base + s.size, base + pages * PAGE_SIZE);
        }
      }
    }

    /** After the first `n` sections. */
    ghost predicate SectionsDone(elf: seq<byte>, sections: seq<Section>, n: nat, placed: seq<Placed>,
                                 mappings: seq<Mapping>, mapped0: map<nat, nat>)
      requires n <= |sections|
      reads this`memory, this`mapped, this`frames, this`loadBase
    {
      && |frames| <= MAX_MODULE_PAGES && loadBase == MODULE_LOAD_BASE
      && Laid(sections, n, placed, OffsetAfter(sections, n), |frames|) && AllInFile(elf, sections, n)
      && AllMapped(mapped0, mapped, frames, placed) && AllFilled(memory, elf, sections, placed)
      && mappings == MappingsOf(placed)
    }

    lemma {:induction false} DoneMeans(elf: seq<byte>, sections: seq<Section>, n: nat, placed: seq<Placed>,
                                       mappings: seq<Mapping>,
                    mapped0: map<nat, nat>)
      requires n <= |sections| && SectionsDone(elf, sections, n, placed, mappings, mapped0)
      ensures |frames| == PagesNeeded(sections, n) <= MAX_MODULE_PAGES && AllInFile(elf, sections, n)
      ensures |placed| == 0 ==> frames == []
    {
      LaidPages(sections, n, placed, OffsetAfter(sections, n), |frames|);
      if placed == [] {
        NonePlaced(sections, n);
      }
    }

    lemma {:induction false} DoneParts(elf: seq<byte>, sections: seq<Section>, n: nat, placed: seq<Placed>,
                                       mappings: seq<Mapping>,
                    mapped0: map<nat, nat>)
      requires n <= |sections| && SectionsDone(elf, sections, n, placed, mappings, mapped0)
      ensures |frames| <= MAX_MODULE_PAGES && loadBase == MODULE_LOAD_BASE && mappings == MappingsOf(placed)
      ensures Laid(sections, n, placed, OffsetAfter(sections, n), |frames|) && AllInFile(elf, sections, n)
      ensures AllMapped(mapped0, mapped, frames, placed) && AllFilled(memory, elf, sections, placed)
    {
    }

    lemma DoneSkips(elf: seq<byte>, sections: seq<Section>, n: nat, placed: seq<Placed>, mappings: seq<Mapping>,
                    mapped0: map<nat, nat>)
      requires n < |sections| && !Wanted(sections[n]) && SectionsDone(elf, sections, n, placed, mappings, mapped0)
      ensures SectionsDone(elf, sections, n + 1, placed, mappings, mapped0)
      ensures OffsetAfter(sections, n + 1) == OffsetAfter(sections, n)
    {
      hide LaidApart, OffsetAfter, AllMapped, AllFilled, MappingsOf;
      Skipped(elf, sections, n, placed, OffsetAfter(sections, n), |frames|);
    }

    lemma {:induction false} DoneNothing(elf: seq<byte>, sections: seq<Section>)
      requires frames == [] && loadBase == MODULE_LOAD_BASE
      ensures SectionsDone(elf, sections, 0, [], [], mapped) && OffsetAfter(sections, 0) == 0
    {
      NothingPlaced(elf, sections, memory, mapped);
    }

    /** The contents of a section behind the ones placed so far. */
    method FillPlaced(elf: seq<byte>, s: Section, base: nat, pages: nat, ghost sections: seq<Section>,
                      ghost placed: seq<Placed>, ghost offset: nat, ghost before: nat, ghost p: Placed)
      requires base == p.base && pages == p.pages && base % PAGE_SIZE == 0 && pages == PagesOf(s.size)
      requires RunMapped(mapped, frames, p) && InFile(elf, s) && p.index < |sections| && sections[p.index] == s
      requires AllFilled(memory, elf, sections, placed) && Laid(sections, p.index, placed, offset, before)
      requires MODULE_LOAD_BASE + offset <= p.base
      modifies this`memory
      ensures AllFilled(memory, elf, sections, placed + [p])
    {
      hide AllFilled, RunMapped, Filled, SameOutside, LaidApart, LaidAll;
      ghost var memory1 := memory;
      FillSection(elf, s, base, pages, p);
      FilledStep(memory1, memory, elf, sections, placed, offset, before, p);
    }

    /** Frames and page mappings for a section behind the ones placed so far, if there is room. */
    method TakePages(ghost elf: seq<byte>, ghost sections: seq<Section>, ghost i: nat, base: nat, pages: nat,
                     ghost p: Placed, ghost placed: seq<Placed>, ghost mapped0: map<nat, nat>, ghost free0: set<nat>,
                     ghost outstanding0: set<nat>) returns (ok: bool, ghost free: set<nat>, ghost outstanding: set<nat>)
      requires i < |sections| && Wanted(sections[i]) && AllInFile(elf, sections, i) && Accounted(free0, outstanding0)
               && |frames| <= MAX_MODULE_PAGES
      requires Laid(sections, i, placed, OffsetAfter(sections, i), |frames|)
               && AllMapped(mapped0, mapped, frames, placed)
      requires 0 < pages == PagesOf(sections[i].size) == p.pages && p.base == base && p.first == |frames|
      requires MODULE_LOAD_BASE + OffsetAfter(sections, i) <= p.base
      requires AreaFree(mapped0, EndOf(p) - MODULE_LOAD_BASE)
      requires tablePresent || (placed == [] && base == MODULE_LOAD_BASE)
      modifies this`mapped, this`frames, this`tablePresent, pmm`outstanding, pmm.bitmap
      ensures Accounted(free, outstanding) && Rebased(free0, outstanding0, free, outstanding)
      ensures |free| == if tablePresent == old(tablePresent) then |free0| else |free0| - 1
      ensures ok <==> |old(frames)| + pages <= MAX_MODULE_PAGES && |old(frames)| + pages <= |free0|
      ensures tablePresent <==> old(tablePresent) || (ok && |old(frames)| + pages < |free0|)
      ensures !ok ==> GaveUp(elf, sections, |free0|, i, placed, mapped0, mapped, frames)
                      && MappedAt(sections, |free0|, i) == i
      ensures !ok ==> if |old(frames)| + pages > MAX_MODULE_PAGES then frames == old(frames) else |frames| == |free0|
      ensures ok ==> |frames| == |old(frames)| + pages
      ensures ok && tablePresent ==> |frames| <= |free|
                                     && AllMapped(mapped0, mapped, frames, placed + [p]) && RunMapped(mapped, frames, p)
      ensures ok && !tablePresent ==> mapped == old(mapped)
    {
      hide Taken, Pmm.FramePool.Used, Pmm.FramePool.Free, Pmm.FramePool.Valid, LaidApart, LaidAll, AllMapped,
           RunMapped, GaveUp, MappedAt, PagesNeeded, OffsetAfter, RunOf, AllInFile, AreaFree, Wanted, Rebased;
      free, outstanding := free0, outstanding0;
      RebasedNot(free0, outstanding0);
      FramesFew(free0, outstanding0);
      ghost var frames0, mapped1 := frames, mapped;
      if |frames| + pages > MAX_MODULE_PAGES {
        GaveUpBefore(elf, sections, |free0|, i, placed, mapped0, mapped, frames0, frames);
        return false, free, outstanding;
      }
      var firstFrameIndex := |frames|;
      ok := AllocateFrames(pages, free0, outstanding0);
      FramesFew(free0, outstanding0);
      if !ok {
        GaveUpBefore(elf, sections, |free0|, i, placed, mapped0, mapped, frames0, frames);
        return;
      }
      free, outstanding := MapAccounted(base, pages, firstFrameIndex, p, free0, outstanding0);
      FramesFew(free, outstanding);
      if tablePresent {
        MappedStep(mapped0, mapped1, mapped, frames0, frames, sections, i, placed, OffsetAfter(sections, i), p);
      }
    }

    /** The mapping of a section, and what it makes of the pool. */
    method MapAccounted(base: nat, pages: nat, first: nat, ghost p: Placed, ghost free0: set<nat>,
                        ghost outstanding0: set<nat>) returns (ghost free: set<nat>, ghost outstanding: set<nat>)
      requires Accounted(free0, outstanding0) && first + pages == |frames|
      requires p.base == base && p.pages == pages > 0 && p.first == first
      requires tablePresent || (base == MODULE_LOAD_BASE && pages <= MAX_MODULE_PAGES)
      modifies this`mapped, this`tablePresent, pmm`outstanding, pmm.bitmap
      ensures Accounted(free, outstanding) && Rebased(free0, outstanding0, free, outstanding)
      ensures |free| == if tablePresent == old(tablePresent) then |free0| else |free0| - 1
      ensures tablePresent <==> old(tablePresent) || |frames| < |free0|
      ensures tablePresent ==>
                && mapped.Keys == old(mapped).Keys + RunOf(base, pages) && RunMapped(mapped, frames, p)
                && forall v :: v in old(mapped) && v !in RunOf(base, pages) ==> mapped[v] == old(mapped)[v]
      ensures !tablePresent ==> mapped == old(mapped)
    {
      hide Taken, Pmm.FramePool.Used, Pmm.FramePool.Free, RunOf, RunMapped, Rebased;
      ghost var free1, outstanding1 := pmm.Free(), pmm.outstanding;
      TakenCount(free0, outstanding0, frames, free1, outstanding1);
      FreeInside(free0, outstanding0, frames, free1, outstanding1);
      ghost var made := MapSection(base, pages, first, p);
      TakenRebased(free0, outstanding0, frames, free1, outstanding1, made);
      RebasedBy(free0, outstanding0, made);
      free, outstanding := free0 - made, outstanding0 + made;
    }

    /**
     The body of the loop over the sections, for one that takes up memory. Without a page table the first byte that
     is stored faults.
     */
    method LoadSection(elf: seq<byte>, sections: seq<Section>, i: nat, currentOffset: nat, mappings: seq<Mapping>,
                       ghost placed: seq<Placed>, ghost mapped0: map<nat, nat>, ghost free0: set<nat>,
                       ghost outstanding0: set<nat>)
      returns (ok: bool, fault: bool, offset: nat, mappings': seq<Mapping>, ghost p: Placed,
               ghost free: set<nat>, ghost outstanding: set<nat>)
      requires i < |sections| && Wanted(sections[i]) && WellAligned(sections)
               && currentOffset == OffsetAfter(sections, i) && (tablePresent || placed == [])
      requires SectionsDone(elf, sections, i, placed, mappings, mapped0) && Accounted(free0, outstanding0)
      requires AreaFree(mapped0, OffsetAfter(sections, i + 1))
      modifies this`memory, this`mapped, this`frames, this`tablePresent, pmm`outstanding, pmm.bitmap
      ensures Accounted(free, outstanding) && Rebased(free0, outstanding0, free, outstanding)
      ensures |free| == if tablePresent == old(tablePresent) then |free0| else |free0| - 1
      ensures Tried(|old(frames)|, PagesOf(sections[i].size), |free0|, old(tablePresent), InFile(elf, sections[i]),
                    tablePresent, |frames|, ok, fault)
      ensures ok ==> offset == OffsetAfter(sections, i + 1)
                     && SectionsDone(elf, sections, i + 1, placed + [p], mappings', mapped0)
      ensures !ok && (tablePresent || |frames| == |old(frames)|) ==>
                GaveUp(elf, sections, |free|, i,
                       if MappedAt(sections, |free|, i) == i then placed else placed + [p],
                       mapped0, mapped, frames)
    {
      hide Taken, Pmm.FramePool.Used, Pmm.FramePool.Free, Pmm.FramePool.Valid, LaidApart, LaidAll, AllFilled,
           AllMapped, Filled, RunMapped, AlignOf, AlignUp, GaveUp, MappedAt, PagesNeeded, RunOf, AreaFree, MappingsOf,
             Laid, AllInFile, OffsetAfter, AlignmentOk, WellAligned, Wanted, PagesOf, Rebased, SectionsDone, Tried,
               InFile;
      DoneParts(elf, sections, i, placed, mappings, mapped0);
      NextPlace(sections, i, placed, |frames|);
      var sh := sections[i];
      var align := AlignOf(sh);
      var alignedOffset := AlignUp(currentOffset, align);
      var sectionBase := loadBase + alignedOffset;
      var pages := PagesOf(sh.size);
      p := Placed(i, sectionBase, pages, |frames|);
      offset, mappings', fault := alignedOffset + pages * PAGE_SIZE, mappings, false;
      ghost var frames0 := frames;
      if placed == [] {
        UnmappedBase(mapped0, mapped, frames, OffsetAfter(sections, i + 1));
      }
      ok, free, outstanding := TakePages(elf, sections, i, sectionBase, pages, p, placed, mapped0, free0, outstanding0);
      InFileMeans(elf, sh);
      TriedIs(|frames0|, pages, |free0|, old(tablePresent), InFile(elf, sh), tablePresent, |frames|);
      if !ok {
        return;
      }
      if sh.kind != SHT_NOBITS && sh.offset + sh.size > |elf| {
        if tablePresent {
          GaveUpBehind(elf, sections, |free|, i, placed + [p], mapped0, mapped, frames);
        }
        ok := false;
        return;
      }
      fault, mappings' := StoreSection(elf, sections, i, sectionBase, pages, mappings, placed, mapped0, |frames0|, p);
      ok := !fault;
    }

    /** The contents of a section, and its entry in the mapping table. */
    method StoreSection(elf: seq<byte>, sections: seq<Section>, i: nat, base: nat, pages: nat, mappings: seq<Mapping>,
                        ghost placed: seq<Placed>, ghost mapped0: map<nat, nat>, ghost before: nat, ghost p: Placed)
      returns (fault: bool, mappings': seq<Mapping>)
      requires i < |sections| && p.index == i && p.base == base && p.pages == pages == PagesOf(sections[i].size) > 0
      requires base % PAGE_SIZE == 0 && MODULE_LOAD_BASE + OffsetAfter(sections, i) <= base
      requires |frames| <= MAX_MODULE_PAGES && loadBase == MODULE_LOAD_BASE && |mappings| < SECTION_MAPPINGS
      requires Laid(sections, i, placed, OffsetAfter(sections, i), before) && mappings == MappingsOf(placed)
      requires Laid(sections, i + 1, placed + [p], OffsetAfter(sections, i + 1), |frames|)
      requires AllInFile(elf, sections, i) && InFile(elf, sections[i]) && AllFilled(memory, elf, sections, placed)
      requires tablePresent ==> AllMapped(mapped0, mapped, frames, placed + [p]) && RunMapped(mapped, frames, p)
      requires !tablePresent ==> base !in mapped
      modifies this`memory
      ensures fault <==> !tablePresent
      ensures !fault ==> SectionsDone(elf, sections, i + 1, placed + [p], mappings', mapped0)
    {
      hide LaidApart, LaidAll, AllFilled, AllMapped, Filled, RunMapped, MappingsOf, AllInFile, InFile, OffsetAfter,
           PagesOf;
      fault, mappings' := false, mappings;
      RunBegins(p);
      if base !in mapped {
        fault := true;  // the first byte is stored to the first page
        return;
      }
      FillPlaced(elf, sections[i], base, pages, sections, placed, OffsetAfter(sections, i), before, p);
      InFileStep(elf, sections, i);
      if |mappings| < SECTION_MAPPINGS {
        mappings' := mappings + [Mapping(i, base)];
      }
      MappingsStep(placed, p);
    }

    lemma RunBegins(p: Placed)
      ensures p.pages > 0 && RunMapped(mapped, frames, p) ==> p.base in mapped
    {
      assert Page(p.base, 0) == p.base;
    }

    /** The loop over the sections: they are all loaded, or the load is to be cleaned up. */
    method LoadSections(elf: seq<byte>, sections: seq<Section>, ghost mapped0: map<nat, nat>, ghost free0: set<nat>,
                        ghost outstanding0: set<nat>)
      returns (ok: bool, fault: bool, mappings: seq<Mapping>, ghost placed: seq<Placed>,
               ghost free: set<nat>, ghost outstanding: set<nat>)
      requires WellAligned(sections) && AreaFree(mapped, OffsetAfter(sections, |sections|)) && mapped0 == mapped
      requires frames == [] && loadBase == MODULE_LOAD_BASE && Accounted(free0, outstanding0)
      modifies this`memory, this`mapped, this`frames, this`loadSize, this`tablePresent, pmm`outstanding, pmm.bitmap
      ensures Accounted(free, outstanding) && Rebased(free0, outstanding0, free, outstanding)
      ensures Doomed(sections, |free0|, old(tablePresent)) ==> fault || (!ok && !tablePresent && frames != [])
      ensures !Doomed(sections, |free0|, old(tablePresent)) ==>
                && !fault && (tablePresent || frames == [])
                && |free| == ForPages(sections, |free0|, old(tablePresent))
                && (ok <==> Loadable(elf, sections, |free|))
                && (!ok ==> exists n :: GaveUp(elf, sections, |free|, n, placed, mapped0, mapped, frames))
      ensures ok ==> SectionsDone(elf, sections, |sections|, placed, mappings, mapped0)
                     && loadSize == OffsetAfter(sections, |sections|)
    {
      hide Taken, Pmm.FramePool.Used, Pmm.FramePool.Free, OffsetAfter, Loadable, PagesNeeded, GaveUp, MappedAt,
           FirstNeed, Wanted, SectionsDone, AllInFile, WellAligned, Doomed, ForPages, TableSoFar, AreaFree, Tried,
             InFile, PagesOf, Rebased;
      mappings, placed, fault, free, outstanding := [], [], false, free0, outstanding0;
      RebasedNot(free0, outstanding0);
      ghost var had := tablePresent;
      var currentOffset := 0;
      DoneNothing(elf, sections);
      TableStarts(sections, |free0|, had);
      for i := 0 to |sections|
        invariant SectionsDone(elf, sections, i, placed, mappings, mapped0) && currentOffset == OffsetAfter(sections, i)
        invariant Accounted(free, outstanding) && Rebased(free0, outstanding0, free, outstanding) && !fault
        invariant TableSoFar(sections, i, |free0|, had, tablePresent, |free|, |placed|)
      {
        DoneMeans(elf, sections, i, placed, mappings, mapped0);
        TableMeans(sections, i, |free0|, had, tablePresent, |free|, |placed|);
        ghost var free1, outstanding1, present, len, held := free, outstanding, tablePresent, |placed|, |frames|;
        if Wanted(sections[i]) {
          OffsetGrows(sections, i + 1);
          FreeBelow(mapped0, OffsetAfter(sections, i + 1), OffsetAfter(sections, |sections|));
          ghost var p;
          ok, fault, currentOffset, mappings, p, free, outstanding :=
            LoadSection(elf, sections, i, currentOffset, mappings, placed, mapped0, free1, outstanding1);
          RebasedTwice(free0, outstanding0, free1, outstanding1, free, outstanding);
          TableStep(sections, i, |free0|, had, present, |free1|, len, held, InFile(elf, sections[i]), tablePresent,
                    |frames|, ok, fault, |free1| - |free|);
          NotLoadable(elf, sections, i, |free|);
          if !ok {
            placed := if MappedAt(sections, |free|, i) == i then placed else placed + [p];
            return;
          }
          placed := placed + [p];
        } else {
          DoneSkips(elf, sections, i, placed, mappings, mapped0);
          TableSkips(sections, i, |free0|, had, tablePresent, |free|, |placed|);
        }
      }
      DoneMeans(elf, sections, |sections|, placed, mappings, mapped0);
      TableEnds(sections, |free0|, had, tablePresent, |free|, |placed|);
      FramesFew(free, outstanding);
      NowLoadable(elf, sections, |free|);
      loadSize := currentOffset;
      ok := true;
    }

    /** The relocations of one section, up to the first symbol that cannot be resolved. */
    method RelocateSection(c: Context, symbols: seq<Sym>, base: nat, rels: seq<Rel>) returns (ok: bool)
      requires forall r :: r in rels && Known(r.kind) ==> HasWord(memory, Wrap32(base + r.offset))
      modifies this`memory
      ensures memory.Keys == old(memory).Keys && (ok <==> SectionPatches(c, symbols, base, rels).Some?)
      ensures ok ==> Reachable(old(memory), SectionPatches(c, symbols, base, rels).value)
                     && memory == ApplyAll(old(memory), SectionPatches(c, symbols, base, rels).value)
    {
      hide SymbolValue, HasWord, Apply, Relocated, SectionPatches, Prepend, Reachable, ApplyAll;
      ghost var done: seq<Patch> := [];
      ghost var all := SectionPatches(c, symbols, base, rels);
      NoPatches(memory, c, symbols, base, rels);
      for j := 0 to |rels|
        invariant Reachable(old(memory), done) && memory == ApplyAll(old(memory), done)
        invariant all == Prepend(done, SectionPatches(c, symbols, base, rels[j..]))
      {
        var rel := rels[j];
        assert rel in rels;
        PatchesStep(c, symbols, base, rels, j, done);
        if Known(rel.kind) {
          if rel.symIndex >= |symbols| {
            return false;
          }
          var sym := symbols[rel.symIndex];
          var symValue := SymbolValue(c, sym);
          if symValue == 0 && sym.shndx == 0 {
            return false;
          }
          ghost var patch := Patch(Wrap32(base + rel.offset), symValue, rel.kind != R_386_32);
          PatchWord(Wrap32(base + rel.offset), symValue, rel.kind != R_386_32, old(memory));
          ApplyLast(old(memory), done, patch);
          done := done + [patch];
        }
      }
      AllPatches(c, symbols, base, rels, done);
      ok := true;
    }

    /** One word: S + A, or S + A - P where the relocation is relative. */
    method PatchWord(target: nat, symValue: nat, relative: bool, ghost m0: Memory)
      requires HasWord(memory, target) || (memory.Keys == m0.Keys && HasWord(m0, target))
      modifies this`memory
      ensures HasWord(old(memory), target) && memory == Apply(old(memory), Patch(target, symValue, relative))
    {
      var addend := ReadWord(memory, target);
      if !relative {
        memory := WriteWord(memory, target, Wrap32(symValue + addend));
      } else {
        memory := WriteWord(memory, target, Wrap32(symValue + addend - target));
      }
    }

    /** `process_relocations`: 0 with every patch applied, or -1 when a symbol cannot be resolved. */
    method ProcessRelocations(c: Context, sections: seq<RelSection>) returns (r: int)
      requires TargetsMapped(c, sections, memory)
      modifies this`memory
      ensures memory.Keys == old(memory).Keys && r == if Patches(c, sections).Some? then 0 else -1
      ensures r == 0 ==> Reachable(old(memory), Patches(c, sections).value)
                         && memory == ApplyAll(old(memory), Patches(c, sections).value)
      ensures r == 0 <==> AllResolve(c, sections)
      ensures r == 0 ==> Relocates(c, sections, old(memory), memory)
    {
      hide SectionPatches, HasWord, Apply, AllResolve, Relocates;
      PatchesExist(c, sections);
      ghost var done: seq<Patch> := [];
      ghost var all := Patches(c, sections);
      assert sections[0..] == sections && (all.Some? ==> [] + all.value == all.value);
      for i := 0 to |sections|
        invariant Reachable(old(memory), done) && memory == ApplyAll(old(memory), done)
        invariant all == Prepend(done, Patches(c, sections[i..]))
      {
        var s := sections[i];
        assert sections[i..][1..] == sections[i + 1..] && sections[i..][0] == s && s in sections;
        if Active(c, s) {
          ghost var before := memory;
          MappedStill(old(memory), memory, c, sections, s);
          var ok := RelocateSection(c, c.symbols.value, BaseOf(c.mappings, s.target), s.rels);
          if !ok {
            return -1;
          }
          ghost var ps := SectionPatches(c, c.symbols.value, BaseOf(c.mappings, s.target), s.rels).value;
          ReachableBack(old(memory), before, ps);
          ApplyConcat(old(memory), done, ps);
          PrependConcat(done, ps, Patches(c, sections[i + 1..]));
          done := done + ps;
        }
      }
      r := 0;
      assert done + [] == done;
      PatchesRelocate(c, sections, old(memory));
    }

    /** A failed load gives back what it took. */
    method FailLoad(ghost free0: set<nat>, ghost outstanding0: set<nat>) returns (fault: bool)
      requires Accounted(free0, outstanding0)
      modifies this`frames, this`mapped, this`loadBase, this`loadSize, this`state, pmm`outstanding, pmm.bitmap
      ensures fault <==> !tablePresent && old(frames) != []
      ensures !fault ==>
                && pmm.Valid() && pmm.Free() == free0 && pmm.outstanding == outstanding0 && frames == []
                && state == Failed && mapped == old(mapped) - RunOf(old(loadBase), |old(frames)|)
    {
      fault := Cleanup(free0, outstanding0);
      if fault {
        return;
      }
      state := Failed;
    }

    /** The end of the load: relocation, and the clean-up if it fails. */
    method FinishLoad(c: Context, relSections: seq<RelSection>, ghost elf: seq<byte>, ghost sections: seq<Section>,
                      ghost placed: seq<Placed>, ghost mapped0: map<nat, nat>, ghost free0: set<nat>,
                      ghost outstanding0: set<nat>) returns (r: int)
      requires SectionsDone(elf, sections, |sections|, placed, c.mappings, mapped0) && Accounted(free0, outstanding0)
      requires c.sectionCount == |sections| && WellAligned(sections)
               && AreaFree(mapped0, OffsetAfter(sections, |sections|))
      requires MODULE_LOAD_BASE + OffsetAfter(sections, |sections|) <= 0x1_0000_0000
               && TargetsInside(sections, relSections) && (tablePresent || frames == [])
      modifies this, pmm`outstanding, pmm.bitmap
      ensures r == if AllResolve(c, relSections) then 0 else -1
      ensures r == 0 ==>
                && state == Loaded && Accounted(free0, outstanding0) && frames == old(frames) && mapped == old(mapped)
                && Relocates(c, relSections, old(memory), memory)
                && Patches(c, relSections).Some? && Reachable(old(memory), Patches(c, relSections).value)
                && memory == ApplyAll(old(memory), Patches(c, relSections).value)
      ensures r == -1 ==> state == Failed && frames == [] && pmm.Valid() && pmm.Free() == free0
                          && pmm.outstanding == outstanding0
      ensures r == -1 ==> (mapped == mapped0 <==> OffsetAfter(sections, |sections|) == PAGE_SIZE * |old(frames)|)
    {
      hide Taken, Pmm.FramePool.Used, Pmm.FramePool.Free, Pmm.FramePool.Valid, Laid, AllFilled, AllMapped, AllInFile,
           TargetsInside, Patches, AllResolve, Relocates, OffsetAfter, MappingsOf, Reachable, AreaFree, WellAligned,
             TargetsMapped;
      TargetsReached(memory, elf, sections, placed, relSections, c, |frames|);
      r := ProcessRelocations(c, relSections);
      if r != 0 {
        CleanedUp(sections, placed, mapped0, mapped, frames);
        var _ := FailLoad(free0, outstanding0);
        return -1;
      }
      state := Loaded;
    }

    /**
     * `module_loader_load` on a decoded file. It faults exactly when the page table behind the load base is still to
     * be made and there are frames, but not for that and the first section. Otherwise it succeeds exactly when the
     * sections fit, their contents are in the file and every symbol resolves. A failure gives every frame back but
     * that of the page table. After a failed relocation nothing of the module stays mapped if and only if alignment
     * left no gaps between the sections; after a failure at a section, if and only if what was laid out by then is
     * no larger than the frames that the module held.
     */
    method Load(elf: seq<byte>, sections: seq<Section>, relSections: seq<RelSection>, symbols: Option<seq<Sym>>,
                exported: map<string, nat>)
      returns (r: int, fault: bool, ghost placed: seq<Placed>, ghost filled: Memory, ghost pool: set<nat>)
      requires pmm.Valid() && WellAligned(sections) && AreaFree(mapped, OffsetAfter(sections, |sections|))
      requires MODULE_LOAD_BASE + OffsetAfter(sections, |sections|) <= 0x1_0000_0000
               && TargetsInside(sections, relSections)
      modifies this, pmm`outstanding, pmm.bitmap
      ensures fault <==> Doomed(sections, |old(pmm.Free())|, old(tablePresent))
      ensures !fault ==> pmm.Valid() && (r == 0 || r == -1) && pool <= old(pmm.Free())
                         && |pool| == ForPages(sections, |old(pmm.Free())|, old(tablePresent))
      ensures !fault && !Loadable(elf, sections, |pool|) ==> r == -1
      ensures !fault && Loadable(elf, sections, |pool|) ==>
                && Laid(sections, |sections|, placed, OffsetAfter(sections, |sections|),
                        PagesNeeded(sections, |sections|))
                && AllFilled(filled, elf, sections, placed)
                && (r == 0 <==> AllResolve(Context(symbols, |sections|, MappingsOf(placed), exported), relSections))
      ensures !fault && r == 0 ==>
                && state == Loaded && Accounted(pool, old(pmm.outstanding) + (old(pmm.Free()) - pool))
                && AllMapped(old(mapped), mapped, frames, placed)
                && var c := Context(symbols, |sections|, MappingsOf(placed), exported);
                && Relocates(c, relSections, filled, memory)
                && Patches(c, relSections).Some? && Reachable(filled, Patches(c, relSections).value)
                && memory == ApplyAll(filled, Patches(c, relSections).value)
      ensures !fault && r == -1 ==> state == Failed && frames == [] && pmm.Free() == pool
                                    && pmm.outstanding == old(pmm.outstanding) + (old(pmm.Free()) - pool)
      ensures !fault && !Loadable(elf, sections, |pool|) ==>
                exists n :: GivesUpAt(elf, sections, |pool|, n)
                            && LeftBehind(sections, |pool|, n, placed, old(mapped), mapped)
      ensures !fault && r == -1 && Loadable(elf, sections, |pool|) ==>
                (mapped == old(mapped) <==>
                 OffsetAfter(sections, |sections|) == PAGE_SIZE * PagesNeeded(sections, |sections|))
    {
      hide Taken, Pmm.FramePool.Used, Pmm.FramePool.Free, Laid, AllFilled, AllMapped, AllInFile, Loadable,
           TargetsInside, Patches, AllResolve, Relocates, OffsetAfter, PagesNeeded, MappingsOf, Reachable, AreaFree,
             WellAligned, RunOf, GaveUp, LeftBehind, GivesUpAt, Doomed, ForPages, Pmm.FramePool.Valid;
      pmm.HasShape();
      ghost var free0, outstanding0, mapped0 := pmm.Free(), pmm.outstanding, mapped;
      StartTaken(free0, outstanding0);
      frames := [];
      loadBase := MODULE_LOAD_BASE;
      loadSize := 0;
      var ok, mappings;
      ghost var outstanding;
      ok, fault, mappings, placed, pool, outstanding := LoadSections(elf, sections, mapped0, free0, outstanding0);
      filled := memory;
      pmm.HasShape();
      if fault {
        return -1, fault, placed, filled, pool;
      }
      if !ok {
        ghost var mapped1, frames1 := mapped, frames;
        fault := FailLoad(pool, outstanding);
        if !fault {
          pmm.HasShape();
          ghost var n :| GaveUp(elf, sections, |pool|, n, placed, mapped0, mapped1, frames1);
          GaveUpCleaned(elf, sections, |pool|, n, placed, mapped0, mapped1, frames1);
          GaveUpMeans(elf, sections, |pool|, n, placed, mapped0, mapped1, frames1);
        }
        return -1, fault, placed, filled, pool;
      }
      LaidPages(sections, |sections|, placed, OffsetAfter(sections, |sections|), |frames|);
      r := FinishLoad(Context(symbols, |sections|, mappings, exported), relSections, elf, sections, placed, mapped0,
                      pool, outstanding);
    }

    lemma StartTaken(free0: set<nat>, outstanding0: set<nat>)
      requires pmm.Valid() && free0 == pmm.Free() && outstanding0 == pmm.outstanding
      ensures Taken(free0, outstanding0, [], 0, pmm.Free(), pmm.outstanding)
    {
      NoneTaken(free0, outstanding0, []);
    }

    lemma InRun(p: Placed)
      requires p.base % PAGE_SIZE == 0 && RunMapped(mapped, frames, p)
      ensures forall a: nat :: p.base <= a < EndOf(p) ==> PageOf(a) in mapped
    {
      forall a: nat | p.base <= a < EndOf(p)
        ensures PageOf(a) in mapped
      {
        assert PageOf(a) == Page(p.base, (a - p.base) / PAGE_SIZE);
      }
    }
  }

  lemma {:induction false} NoPatches(m: Memory, c: Context, symbols: seq<Sym>, base: nat, rels: seq<Rel>)
    ensures Reachable(m, []) && ApplyAll(m, []) == m
    ensures SectionPatches(c, symbols, base, rels) == Prepend([], SectionPatches(c, symbols, base, rels[0..]))
  {
    hide SectionPatches;
    var all := SectionPatches(c, symbols, base, rels);
    assert rels[0..] == rels && (all.Some? ==> [] + all.value == all.value);
  }

  /** What the next relocation adds to the patches, if its symbol can be resolved. */
  lemma {:induction false} PatchesStep(c: Context, symbols: seq<Sym>, base: nat, rels: seq<Rel>, j: nat,
                                       done: seq<Patch>)
    requires j < |rels|
    ensures var now, next, rel := SectionPatches(c, symbols, base, rels[j..]),
            SectionPatches(c, symbols, base, rels[j + 1..]), rels[j];
            if !Known(rel.kind) then now == next
            else if rel.symIndex >= |symbols|
            || (SymbolValue(c, symbols[rel.symIndex]) == 0 && symbols[rel.symIndex].shndx == 0) then
              Prepend(done, now) == None
            else
              var patch := Patch(Wrap32(base + rel.offset), SymbolValue(c, symbols[rel.symIndex]),
                                 rel.kind != R_386_32);
              Prepend(done, now) == Prepend(done + [patch], next)
  {
    hide SymbolValue;
    assert rels[j..][1..] == rels[j + 1..] && rels[j..][0] == rels[j];
    if Known(rels[j].kind) && rels[j].symIndex < |symbols| {
      var sym := symbols[rels[j].symIndex];
      PrependConcat(done, [Patch(Wrap32(base + rels[j].offset), SymbolValue(c, sym), rels[j].kind != R_386_32)],
                    SectionPatches(c, symbols, base, rels[j + 1..]));
    }
  }

  lemma {:induction false} AllPatches(c: Context, symbols: seq<Sym>, base: nat, rels: seq<Rel>, done: seq<Patch>)
    ensures Prepend(done, SectionPatches(c, symbols, base, rels[|rels|..])) == Some(done)
  {
    assert done + [] == done;
  }

  lemma {:induction false} ApplyLast(m: Memory, done: seq<Patch>, p: Patch)
    requires Reachable(m, done) && HasWord(m, p.target)
    ensures Reachable(m, done + [p]) && HasWord(ApplyAll(m, done), p.target)
    ensures ApplyAll(m, done + [p]) == Apply(ApplyAll(m, done), p)
  {
    hide Apply;
    assert (done + [p])[..|done|] == done;
    var r := ApplyAll(m, done);
    assert r.Keys == m.Keys;
  }

  /** The words that relocation will patch are in memory. */
  ghost predicate TargetsMapped(c: Context, sections: seq<RelSection>, m: Memory) {
    forall s :: s in sections && Active(c, s) ==> SectionTargets(c, s, m)
  }

  ghost predicate SectionTargets(c: Context, s: RelSection, m: Memory) {
    forall r :: r in s.rels && Known(r.kind) ==> HasWord(m, Wrap32(BaseOf(c.mappings, s.target) + r.offset))
  }

  lemma MappedStill(m: Memory, r: Memory, c: Context, sections: seq<RelSection>, s: RelSection)
    requires TargetsMapped(c, sections, m) && s in sections && Active(c, s) && r.Keys == m.Keys
    ensures SectionTargets(c, s, r)
  {
    assert SectionTargets(c, s, m);
  }

  lemma ReachableBack(m: Memory, r: Memory, ps: seq<Patch>)
    requires Reachable(r, ps) && r.Keys == m.Keys
    ensures Reachable(m, ps)
  {
    assert forall p :: p in ps ==> HasWord(r, p.target);
  }

  lemma PrependConcat(a: seq<Patch>, b: seq<Patch>, rest: Option<seq<Patch>>)
    ensures Prepend(a, Prepend(b, rest)) == Prepend(a + b, rest)
  {
    if rest.Some? {
      assert a + (b + rest.value) == a + b + rest.value;
    }
  }

  /** Every relocation lies inside the section it applies to. */
  ghost predicate TargetsInside(sections: seq<Section>, relSections: seq<RelSection>) {
    forall s, r :: s in relSections && s.target < |sections| && r in s.rels && Known(r.kind) ==>
      r.offset + 4 <= sections[s.target].size
  }

  lemma {:induction false} LaidPages(sections: seq<Section>, n: nat, placed: seq<Placed>, offset: nat, pages: nat)
    requires n <= |sections| && Laid(sections, n, placed, offset, pages)
    ensures pages == PagesNeeded(sections, n)
  {
  }

  lemma {:induction false} NowLoadable(elf: seq<byte>, sections: seq<Section>, free: nat)
    requires PagesNeeded(sections, |sections|) <= MAX_MODULE_PAGES && PagesNeeded(sections, |sections|) <= free
             && AllInFile(elf, sections, |sections|)
    ensures Loadable(elf, sections, free)
  {
  }

  lemma FreeBelow(mapped0: map<nat, nat>, offset: nat, more: nat)
    requires AreaFree(mapped0, more) && offset <= more
    ensures AreaFree(mapped0, offset)
  {
  }

  /** The base that a section index is found under is that of its placed section. */
  lemma {:induction false} BaseOfPlaced(mappings: seq<Mapping>, section: nat) returns (k: nat)
    requires BaseOf(mappings, section) != 0
    ensures k < |mappings| && mappings[k] == Mapping(section, BaseOf(mappings, section))
  {
    if mappings[0].section == section {
      k := 0;
    } else {
      k := BaseOfPlaced(mappings[1..], section);
      k := k + 1;
    }
  }

  /** A relocation inside a loaded section patches a word in memory. */
  lemma {:induction false} TargetReached(m: Memory, elf: seq<byte>, sections: seq<Section>, placed: seq<Placed>, k: nat,
                                         offset: nat, pages: nat, at: nat)
    requires LaidApart(sections, placed, offset, pages) && AllFilled(m, elf, sections, placed) && k < |placed|
    requires MODULE_LOAD_BASE + offset <= 0x1_0000_0000 && placed[k].index < |sections|
             && at + 4 <= sections[placed[k].index].size
    ensures HasWord(m, Wrap32(placed[k].base + at))
  {
    var p := placed[k];
    assert PlacedWell(sections, p, offset, pages);
    assert Filled(m, elf, sections[p.index], p.base, p.pages);
    assert sections[p.index].size <= PAGE_SIZE * p.pages;
    assert Wrap32(p.base + at) == p.base + at;
  }

  lemma {:induction false} TargetsReached(m: Memory, elf: seq<byte>, sections: seq<Section>, placed: seq<Placed>,
                                          relSections: seq<RelSection>, c: Context, pages: nat)
    requires Laid(sections, |sections|, placed, OffsetAfter(sections, |sections|), pages)
             && AllFilled(m, elf, sections, placed)
    requires c.mappings == MappingsOf(placed) && c.sectionCount == |sections| && TargetsInside(sections, relSections)
    requires MODULE_LOAD_BASE + OffsetAfter(sections, |sections|) <= 0x1_0000_0000
    ensures TargetsMapped(c, relSections, m)
  {
    hide OffsetAfter, LaidAll, LaidApart, AllFilled, HasWord, Wrap32;
    MappingsAt(placed);
    forall s | s in relSections && Active(c, s)
      ensures SectionTargets(c, s, m)
    {
      var k := BaseOfPlaced(c.mappings, s.target);
      forall r | r in s.rels && Known(r.kind)
        ensures HasWord(m, Wrap32(BaseOf(c.mappings, s.target) + r.offset))
      {
        TargetReached(m, elf, sections, placed, k, OffsetAfter(sections, |sections|), pages, r.offset);
      }
    }
  }

  /** What the clean-up leaves mapped once all sections were loaded. */
  lemma {:induction false} CleanedUp(sections: seq<Section>, placed: seq<Placed>, mapped0: map<nat, nat>,
                                     mapped: map<nat, nat>, frames: seq<nat>)
    requires Laid(sections, |sections|, placed, OffsetAfter(sections, |sections|), |frames|)
    requires AllMapped(mapped0, mapped, frames, placed) && AreaFree(mapped0, OffsetAfter(sections, |sections|))
             && WellAligned(sections)
    ensures mapped - RunOf(MODULE_LOAD_BASE, |frames|) == mapped0 <==>
              OffsetAfter(sections, |sections|) == PAGE_SIZE * |frames|
  {
    var offset := OffsetAfter(sections, |sections|);
    CleanupReaches(sections, |sections|, placed, offset, |frames|, |frames|);
    OffsetCovers(sections, |sections|);
    hide OffsetAfter, Laid;
    var run := RunOf(MODULE_LOAD_BASE, |frames|);
    assert forall v :: v in run ==> v !in mapped0;
    forall v | v in PageSet(placed)
      ensures v !in mapped0
    {
      PageBelow(sections, |sections|, placed, offset, |frames|, v);
    }
    var after := mapped - run;
    assert after.Keys == mapped0.Keys + (PageSet(placed) - run);
    if PageSet(placed) <= run {
      assert after.Keys == mapped0.Keys;
    } else {
      var v :| v in PageSet(placed) && v !in run;
      assert v in after.Keys && v !in mapped0;
    }
  }

  /** The load is never smaller than its pages. */
  lemma {:induction false} OffsetCovers(sections: seq<Section>, n: nat)
    requires n <= |sections| && WellAligned(sections)
    ensures OffsetAfter(sections, n) >= PAGE_SIZE * PagesNeeded(sections, n)
  {
    if n > 0 {
      OffsetCovers(sections, n - 1);
      AlignedUp(OffsetAfter(sections, n - 1), sections[n - 1]);
    }
  }

  lemma {:induction false} MappingsStep(placed: seq<Placed>, p: Placed)
    ensures MappingsOf(placed + [p]) == MappingsOf(placed) + [Mapping(p.index, p.base)]
  {
    assert (placed + [p])[..|placed|] == placed;
  }

  /** A section counts as put somewhere exactly if it is placed, and then where it is placed. */
  lemma {:induction false} PutWherePlaced(sections: seq<Section>, placed: seq<Placed>, offset: nat, pages: nat,
                                          section: nat, base: nat)
    requires Laid(sections, |sections|, placed, offset, pages)
    ensures PutAt(MappingsOf(placed), section, base) <==>
              exists k :: 0 <= k < |placed| && placed[k].index == section && placed[k].base == base
  {
    hide MappingsOf;
    MappingsAt(placed);
    LaidMembers(sections, placed, offset, pages);
    var mappings := MappingsOf(placed);
    forall k: nat | k < |placed| && placed[k].index == section
      ensures FirstMapping(mappings, section, k)
    {
      assert mappings[k] == Mapping(placed[k].index, placed[k].base);
    }
    if PutAt(mappings, section, base) {
      var m: nat :| FirstMapping(mappings, section, m) && mappings[m].base == base;
      assert mappings[m] == Mapping(placed[m].index, placed[m].base);
    }
  }

  /** A filled section holds its bytes of the file, and zero in the rest of its pages; one of type 8 has no bytes. */
  lemma FilledMeans(m: Memory, elf: seq<byte>, s: Section, base: nat, pages: nat, x: nat)
    requires Filled(m, elf, s, base, pages) && x < 4096 * pages
    ensures base + x in m
    ensures s.kind != 8 && x < s.size ==> s.offset + x < |elf| && m[base + x] == elf[s.offset + x]
    ensures s.kind == 8 || x >= s.size ==> m[base + x] == 0
  {
  }

  lemma {:induction false} MappingsAt(placed: seq<Placed>)
    ensures |MappingsOf(placed)| == |placed|
    ensures forall k :: 0 <= k < |placed| ==> MappingsOf(placed)[k] == Mapping(placed[k].index, placed[k].base)
  {
    if placed != [] {
      MappingsAt(placed[..|placed| - 1]);
    }
  }

  lemma AllGiven(free0: set<nat>, outstanding0: set<nat>, frames: seq<nat>, free: set<nat>, outstanding: set<nat>)
    requires Taken(free0, outstanding0, frames, |frames|, free, outstanding)
    ensures free == free0 && outstanding == outstanding0
  {
    assert FrameSet(frames, |frames|) == {};
  }
}
