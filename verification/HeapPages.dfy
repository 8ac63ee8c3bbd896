/** The page-wise growth of the heap: which pages are mapped, to which frames, and what a rollback gives back. */
module HeapPages {
  import opened Common

  const HEAP_LIMIT := 0xC080_0000

  /** `KERNEL_HEAP_END` is the last byte of the heap region. */
  const KERNEL_HEAP_END := HEAP_LIMIT - 1

  /** The pages that a request of `size` bytes and a header are given, in 32-bit arithmetic. */
  function PagesFor(size: nat): nat {
    Wrap32(Wrap32(size + 16) + PAGE_SIZE - 1) / PAGE_SIZE
  }

  /** The count is right up to where it wraps around: there a rounded request is given no page at all. */
  lemma PagesForWraps(size: nat)
    requires size % 16 == 0 && size < 0x1_0000_0000
    ensures PagesFor(size) == 0 <==> size > 0xFFFF_EFF0
    ensures size <= 0xFFFF_EFF0 ==> size + 16 <= PAGE_SIZE * PagesFor(size) < size + 16 + PAGE_SIZE
  {
  }

  function Page(base: nat, k: nat): nat {
    base + PAGE_SIZE * k
  }

  ghost predicate HeapPage(v: nat, end: nat) {
    HEAP_START <= v < end && v % PAGE_SIZE == 0
  }

  /** Exactly the pages of the heap are mapped, each to a frame of its own that is handed out. */
  ghost predicate Backed(mapped: map<nat, nat>, end: nat, outstanding: set<nat>) {
    && HEAP_START <= end <= HEAP_LIMIT && end % PAGE_SIZE == 0
    && (forall v :: v in mapped <==> HeapPage(v, end))
    && (forall v :: v in mapped ==> mapped[v] / PAGE_SIZE in outstanding)
    && forall v, w :: v in mapped && w in mapped && v != w ==> mapped[v] / PAGE_SIZE != mapped[w] / PAGE_SIZE
  }

  /**
   The heap can grow by some pages: the region has room for them, and the pool has frames for them and for their page
   table if that is still to be made.
   */
  ghost predicate CanGrow(end: nat, free: set<nat>, present: bool, pages: nat) {
    Page(end, pages) <= 0xC080_0000 && pages + (if present || pages == 0 then 0 else 1) <= |free|
  }

  /** The heap region is one slot of the page directory: it has a page table of its own, or nothing is mapped in it. */
  ghost predicate TableOk(present: bool, tables: set<nat>, mapped: map<nat, nat>, end: nat, outstanding: set<nat>) {
    && (present <==> tables != {}) && |tables| <= 1 && tables <= outstanding
    && (!present ==> end == HEAP_START)
    && forall v :: v in mapped ==> mapped[v] / PAGE_SIZE !in tables
  }

  /** The frames at the addresses `frames[j..]`. */
  ghost function FrameSet(frames: seq<nat>, j: nat): set<nat>
    requires j <= |frames|
  {
    set k | j <= k < |frames| :: frames[k] / PAGE_SIZE
  }

  ghost predicate FramesDistinct(frames: seq<nat>) {
    forall k, l :: 0 <= k < l < |frames| ==> frames[k] / PAGE_SIZE != frames[l] / PAGE_SIZE
  }

  /** Memory before growth. */
  datatype Start = Start(mapped: map<nat, nat>, end: nat, free: set<nat>, outstanding: set<nat>)

  ghost predicate Settled(s: Start) {
    Backed(s.mapped, s.end, s.outstanding) && s.free !! s.outstanding
  }

  /** Page `k` behind the old end is one of those that are mapped while pages `j..` have frames `frames[j..]`. */
  ghost predicate NewPage(s: Start, frames: seq<nat>, j: nat, v: nat) {
    Page(s.end, j) <= v < Page(s.end, |frames|) && v % PAGE_SIZE == 0
  }

  /**
   Pages `j..|frames|` behind the old end have the frames `frames[j..]`, taken from the pool; all else is as before.
   */
  ghost predicate Grown(s: Start, frames: seq<nat>, j: nat, mapped: map<nat, nat>, free: set<nat>,
                        outstanding: set<nat>) {
    && j <= |frames|
    && (forall v :: v in mapped <==> v in s.mapped || NewPage(s, frames, j, v))
    && (forall v :: v in s.mapped ==> v in mapped && mapped[v] == s.mapped[v])
    && (forall k: nat :: j <= k < |frames| ==> Page(s.end, k) in mapped && mapped[Page(s.end, k)] == frames[k])
    && (forall k :: 0 <= k < |frames| ==> frames[k] / PAGE_SIZE in s.free)
    && FramesDistinct(frames)
    && free == s.free - FrameSet(frames, j)
    && outstanding == s.outstanding + FrameSet(frames, j)
  }

  lemma FrameSetGrows(frames: seq<nat>, addr: nat)
    ensures FrameSet(frames + [addr], 0) == FrameSet(frames, 0) + {addr / PAGE_SIZE}
    ensures addr / PAGE_SIZE !in FrameSet(frames, 0) && FramesDistinct(frames) ==> FramesDistinct(frames + [addr])
  {
    var more := frames + [addr];
    assert more[|frames|] == addr;
    assert forall k :: 0 <= k < |frames| ==> more[k] == frames[k] && frames[k] / PAGE_SIZE in FrameSet(frames, 0);
  }

  lemma FrameSetShrinks(frames: seq<nat>, j: nat)
    requires j < |frames| && FramesDistinct(frames)
    ensures FrameSet(frames, j) == FrameSet(frames, j + 1) + {frames[j] / PAGE_SIZE}
    ensures frames[j] / PAGE_SIZE !in FrameSet(frames, j + 1)
  {
  }

  lemma NewPages(s: Start, frames: seq<nat>, j: nat, addr: nat, v: nat)
    requires j <= |frames| && s.end % PAGE_SIZE == 0
    ensures NewPage(s, frames + [addr], j, v) <==> NewPage(s, frames, j, v) || v == Page(s.end, |frames|)
    ensures j < |frames| ==> (NewPage(s, frames, j, v) <==> NewPage(s, frames, j + 1, v) || v == Page(s.end, j))
    ensures j < |frames| ==> !NewPage(s, frames, j + 1, Page(s.end, j))
  {
  }

  lemma PageFresh(s: Start, k: nat)
    requires Settled(s)
    ensures Page(s.end, k) !in s.mapped && s.end % PAGE_SIZE == 0 && s.free !! s.outstanding
  {
  }

  /** One page more. */
  lemma GrowStep(s: Start, frames: seq<nat>, mapped: map<nat, nat>, free: set<nat>, outstanding: set<nat>, addr: nat)
    requires Settled(s) && Grown(s, frames, 0, mapped, free, outstanding) && addr / PAGE_SIZE in free
    ensures Grown(s, frames + [addr], 0, mapped[Page(s.end, |frames|) := addr], free - {addr / PAGE_SIZE},
                  outstanding + {addr / PAGE_SIZE})
  {
    hide Settled, FrameSet, NewPage, FramesDistinct;
    PageFresh(s, |frames|);
    FrameSetGrows(frames, addr);
    var after := mapped[Page(s.end, |frames|) := addr];
    forall v: nat
      ensures v in after <==> v in s.mapped || NewPage(s, frames + [addr], 0, v)
    {
      NewPages(s, frames, 0, addr, v);
    }
  }

  /** One page of the rollback. */
  lemma ShrinkStep(s: Start, frames: seq<nat>, j: nat, mapped: map<nat, nat>, free: set<nat>, outstanding: set<nat>)
    requires Settled(s) && j < |frames| && Grown(s, frames, j, mapped, free, outstanding)
    ensures frames[j] / PAGE_SIZE in outstanding
    ensures Grown(s, frames, j + 1, mapped - {Page(s.end, j)}, free + {frames[j] / PAGE_SIZE},
                  outstanding - {frames[j] / PAGE_SIZE})
  {
    hide Settled, FrameSet, NewPage, FramesDistinct;
    PageFresh(s, j);
    FrameSetShrinks(frames, j);
    var f := frames[j] / PAGE_SIZE;
    assert f in s.free && f !in s.outstanding;
    var after := mapped - {Page(s.end, j)};
    forall v: nat
      ensures v in after <==> v in s.mapped || NewPage(s, frames, j + 1, v)
    {
      NewPages(s, frames, j, 0, v);
    }
  }

  /** After the last page is given back everything is as it was. */
  lemma RolledBack(s: Start, frames: seq<nat>, mapped: map<nat, nat>, free: set<nat>, outstanding: set<nat>)
    requires Grown(s, frames, |frames|, mapped, free, outstanding)
    ensures mapped == s.mapped && free == s.free && outstanding == s.outstanding
  {
    assert FrameSet(frames, |frames|) == {};
    assert forall v :: v in mapped <==> v in s.mapped;
  }

  lemma {:induction false} FrameCount(frames: seq<nat>, j: nat)
    requires FramesDistinct(frames) && j <= |frames|
    ensures |FrameSet(frames, j)| == |frames| - j
    decreases |frames| - j
  {
    if j < |frames| {
      FrameCount(frames, j + 1);
      assert FrameSet(frames, j) == {frames[j] / PAGE_SIZE} + FrameSet(frames, j + 1);
      assert frames[j] / PAGE_SIZE !in FrameSet(frames, j + 1);
    } else {
      assert FrameSet(frames, j) == {};
    }
  }

  lemma CountFree(s: Start, frames: seq<nat>, mapped: map<nat, nat>, free: set<nat>, outstanding: set<nat>)
    requires Grown(s, frames, 0, mapped, free, outstanding)
    ensures |s.free| == |free| + |frames|
  {
    FrameCount(frames, 0);
    assert s.free == free + FrameSet(frames, 0);
  }

  /** A mapped page is an old one or one of the new ones, with its frame. */
  lemma MappedCases(s: Start, frames: seq<nat>, mapped: map<nat, nat>, free: set<nat>, outstanding: set<nat>, v: nat)
    returns (k: nat)
    requires Grown(s, frames, 0, mapped, free, outstanding) && s.end % PAGE_SIZE == 0 && v in mapped
    ensures k <= |frames|
    ensures k == |frames| ==> v in s.mapped && mapped[v] == s.mapped[v]
    ensures k < |frames| ==> v == Page(s.end, k) && mapped[v] == frames[k] && mapped[v] / PAGE_SIZE in s.free
                             && mapped[v] / PAGE_SIZE in outstanding
  {
    if v in s.mapped {
      k := |frames|;
    } else {
      assert NewPage(s, frames, 0, v);
      k := (v - s.end) / PAGE_SIZE;
      assert v == Page(s.end, k);
      assert frames[k] / PAGE_SIZE in FrameSet(frames, 0);
    }
  }

  /** Growth keeps the pages of the heap mapped, each to a frame of its own. */
  lemma GrownBacked(s: Start, frames: seq<nat>, mapped: map<nat, nat>, free: set<nat>, outstanding: set<nat>)
    requires Settled(s) && Grown(s, frames, 0, mapped, free, outstanding) && Page(s.end, |frames|) <= HEAP_LIMIT
    ensures Backed(mapped, Page(s.end, |frames|), outstanding)
    ensures free <= s.free && |free| == |s.free| - |frames|
  {
    hide FrameSet, NewPage;
    CountFree(s, frames, mapped, free, outstanding);
    forall v | v in mapped
      ensures mapped[v] / PAGE_SIZE in outstanding
    {
      var _ := MappedCases(s, frames, mapped, free, outstanding, v);
    }
    forall v, w | v in mapped && w in mapped && v != w
      ensures mapped[v] / PAGE_SIZE != mapped[w] / PAGE_SIZE
    {
      var k := MappedCases(s, frames, mapped, free, outstanding, v);
      var l := MappedCases(s, frames, mapped, free, outstanding, w);
    }
    GrownKeys(s, frames, mapped, free, outstanding);
  }

  lemma GrownKeys(s: Start, frames: seq<nat>, mapped: map<nat, nat>, free: set<nat>, outstanding: set<nat>)
    requires Settled(s) && Grown(s, frames, 0, mapped, free, outstanding)
    ensures forall v :: v in mapped <==> HeapPage(v, Page(s.end, |frames|))
  {
    hide FrameSet, FramesDistinct;
  }

  lemma NothingGrown(s: Start)
    requires Settled(s)
    ensures Grown(s, [], 0, s.mapped, s.free, s.outstanding)
  {
    assert FrameSet([], 0) == {};
  }

  /** `t` is `s` after growth by `n` pages. */
  ghost predicate Extended(s: Start, t: Start, n: nat) {
    && t.end == Page(s.end, n) <= HEAP_LIMIT
    && (forall v :: v in s.mapped ==> v in t.mapped && t.mapped[v] == s.mapped[v])
    && t.free <= s.free && |t.free| == |s.free| - n
    && t.outstanding == s.outstanding + (s.free - t.free)
  }

  lemma GrownExtended(s: Start, frames: seq<nat>, mapped: map<nat, nat>, free: set<nat>, outstanding: set<nat>)
    requires Settled(s) && Grown(s, frames, 0, mapped, free, outstanding) && Page(s.end, |frames|) <= HEAP_LIMIT
    ensures Backed(mapped, Page(s.end, |frames|), outstanding)
    ensures Extended(s, Start(mapped, Page(s.end, |frames|), free, outstanding), |frames|)
  {
    hide NewPage, Backed, Settled;
    GrownBacked(s, frames, mapped, free, outstanding);
    assert FrameSet(frames, 0) <= s.free;
  }

  // ---- the page table of the region ----

  /** Memory with frames taken for page tables. */
  ghost function Tabled(s: Start, taken: set<nat>): Start {
    s.(free := s.free - taken, outstanding := s.outstanding + taken)
  }

  /**
   Growth by the frames `frames`, of which `taken` is the one that went to the page table. Where there is none to
   make the table of, the first frame is handed out but its page is not mapped.
   */
  ghost predicate Growing(s: Start, had: bool, frames: seq<nat>, taken: set<nat>, present: bool, mapped: map<nat, nat>,
                          free: set<nat>, outstanding: set<nat>) {
    if present then
      && taken <= s.free && |taken| == (if had then 0 else 1) && (!had ==> frames != [])
      && Settled(Tabled(s, taken)) && Grown(Tabled(s, taken), frames, 0, mapped, free, outstanding)
    else
      && !had && taken == {} && mapped == s.mapped
      && (frames == [] ==> free == s.free && outstanding == s.outstanding)
      && (frames != [] ==> |frames| == 1 && free == {} && |s.free| == 1)
  }

  lemma GrowingStarts(s: Start, present: bool)
    requires Settled(s)
    ensures Growing(s, present, [], {}, present, s.mapped, s.free, s.outstanding)
  {
    assert Tabled(s, {}) == s;
    NothingGrown(s);
  }

  /** With its table there, one page more. */
  lemma GrowingOn(s: Start, had: bool, frames: seq<nat>, taken: set<nat>, mapped: map<nat, nat>, free: set<nat>,
                  outstanding: set<nat>, addr: nat)
    requires Growing(s, had, frames, taken, true, mapped, free, outstanding) && addr / PAGE_SIZE in free
    ensures Growing(s, had, frames + [addr], taken, true, mapped[Page(s.end, |frames|) := addr],
                    free - {addr / PAGE_SIZE}, outstanding + {addr / PAGE_SIZE})
  {
    hide Grown, Settled;
    GrowStep(Tabled(s, taken), frames, mapped, free, outstanding, addr);
  }

  /** The first page, and its table from the next frame. */
  lemma TableMade(s: Start, addr: nat, table: nat)
    requires Settled(s) && addr / PAGE_SIZE in s.free && table / PAGE_SIZE in s.free - {addr / PAGE_SIZE}
    ensures Growing(s, false, [addr], {table / PAGE_SIZE}, true, s.mapped[Page(s.end, 0) := addr],
                    s.free - {addr / PAGE_SIZE} - {table / PAGE_SIZE},
                    s.outstanding + {addr / PAGE_SIZE} + {table / PAGE_SIZE})
  {
    var a, t := addr / PAGE_SIZE, table / PAGE_SIZE;
    var u := Tabled(s, {t});
    assert Settled(u);
    NothingGrown(u);
    hide Grown, Settled;
    GrowStep(u, [], u.mapped, u.free, u.outstanding, addr);
    assert [] + [addr] == [addr];
    assert u.free - {a} == s.free - {a} - {t} && u.outstanding + {a} == s.outstanding + {a} + {t};
  }

  /** The first page without a frame for its table. */
  lemma TableMissing(s: Start, addr: nat)
    requires addr / PAGE_SIZE in s.free && s.free - {addr / PAGE_SIZE} == {}
    ensures Growing(s, false, [addr], {}, false, s.mapped, {}, s.outstanding + {addr / PAGE_SIZE})
  {
    assert s.free == {addr / PAGE_SIZE};
  }

  /** How many frames are gone. */
  lemma GrowingCount(s: Start, had: bool, frames: seq<nat>, taken: set<nat>, present: bool, mapped: map<nat, nat>,
                     free: set<nat>, outstanding: set<nat>)
    requires Growing(s, had, frames, taken, present, mapped, free, outstanding)
    ensures |s.free| == |free| + |frames| + |taken|
  {
    if present {
      hide Grown, Settled;
      CountFree(Tabled(s, taken), frames, mapped, free, outstanding);
      assert s.free == (s.free - taken) + taken;
    }
  }

  /** Once the pages are mapped the heap is longer by them, on frames apart from that of the table. */
  lemma GrowingEnds(s: Start, had: bool, tables: set<nat>, frames: seq<nat>, taken: set<nat>, mapped: map<nat, nat>,
                    free: set<nat>, outstanding: set<nat>)
    requires Growing(s, had, frames, taken, true, mapped, free, outstanding) && Settled(s)
    requires TableOk(had, tables, s.mapped, s.end, s.outstanding) && Page(s.end, |frames|) <= HEAP_LIMIT
    ensures var end := Page(s.end, |frames|);
            && Backed(mapped, end, outstanding) && TableOk(true, tables + taken, mapped, end, outstanding)
            && Extended(Tabled(s, taken), Start(mapped, end, free, outstanding), |frames|)
  {
    hide FrameSet, NewPage, Backed;
    var u := Tabled(s, taken);
    GrownExtended(u, frames, mapped, free, outstanding);
    TableCount(had, tables, taken);
    hide Settled;
    forall v | v in mapped
      ensures mapped[v] / PAGE_SIZE !in tables + taken
    {
      hide Grown;
      OutsideTables(s, had, tables, frames, taken, mapped, free, outstanding, v);
    }
    TablesOut(s, tables, taken, free, outstanding, |frames|, mapped, Page(s.end, |frames|));
  }

  lemma TableCount(had: bool, tables: set<nat>, taken: set<nat>)
    requires (had <==> tables != {}) && |tables| <= 1 && |taken| == (if had then 0 else 1)
    ensures tables + taken != {} && |tables + taken| <= 1
  {
    if had {
      assert taken == {} && tables + taken == tables;
    } else {
      assert tables + taken == taken;
    }
  }

  lemma TablesOut(s: Start, tables: set<nat>, taken: set<nat>, free: set<nat>, outstanding: set<nat>, n: nat,
                  mapped: map<nat, nat>, end: nat)
    requires tables <= s.outstanding && Extended(Tabled(s, taken), Start(mapped, end, free, outstanding), n)
    ensures tables + taken <= outstanding
  {
  }

  lemma OutsideTables(s: Start, had: bool, tables: set<nat>, frames: seq<nat>, taken: set<nat>, mapped: map<nat, nat>,
                      free: set<nat>, outstanding: set<nat>, v: nat)
    requires Growing(s, had, frames, taken, true, mapped, free, outstanding) && Settled(s) && v in mapped
    requires TableOk(had, tables, s.mapped, s.end, s.outstanding)
    ensures mapped[v] / PAGE_SIZE !in tables + taken
  {
    hide Grown, FrameSet;
    assert s.end % PAGE_SIZE == 0;
    var k := MappedCases(Tabled(s, taken), frames, mapped, free, outstanding, v);
  }

  /** A growth that was taken back leaves the table. */
  lemma GrowingUndone(s: Start, had: bool, tables: set<nat>, taken: set<nat>)
    requires Settled(s) && taken <= s.free && |taken| == (if had then 0 else 1)
    requires TableOk(had, tables, s.mapped, s.end, s.outstanding)
    ensures var u := Tabled(s, taken);
            Backed(u.mapped, u.end, u.outstanding) && TableOk(true, tables + taken, u.mapped, u.end, u.outstanding)
  {
    TableCount(had, tables, taken);
  }

  lemma NotExtended(s: Start)
    requires Settled(s)
    ensures Extended(s, s, 0)
  {
  }

  lemma UntabledStart(s: Start)
    ensures Tabled(s, {}) == s
  {
    assert s.free - {} == s.free && s.outstanding + {} == s.outstanding;
  }

  lemma Singleton(a: set<nat>, t: nat)
    requires |a| == 1 && t in a
    ensures a == {t}
  {
    assert |a - {t}| == 0;
    assert a == (a - {t}) + {t};
  }

  /** What one more frame, and perhaps one for the table, make of a growth. */
  lemma PageGrown(s: Start, had: bool, frames: seq<nat>, taken: set<nat>, present: bool, mapped: map<nat, nat>,
                  free: set<nat>, outstanding: set<nat>, addr: nat, made: set<nat>, present': bool,
                  mapped': map<nat, nat>, free': set<nat>, outstanding': set<nat>)
    requires Growing(s, had, frames, taken, present, mapped, free, outstanding) && Settled(s)
             && addr / PAGE_SIZE in free
    requires free' == free - {addr / PAGE_SIZE} - made && outstanding' == outstanding + {addr / PAGE_SIZE} + made
    requires present' <==> present || free - {addr / PAGE_SIZE} != {}
    requires if present || !present' then made == {} else |made| == 1 && made <= free - {addr / PAGE_SIZE}
    requires mapped' == if present' then mapped[Page(s.end, |frames|) := addr] else mapped
    ensures Growing(s, had, frames + [addr], taken + made, present', mapped', free', outstanding')
  {
    hide Growing, Grown, Settled;
    GrowingFacts(s, had, frames, taken, present, mapped, free, outstanding);
    var a := addr / PAGE_SIZE;
    if present {
      GrowingOn(s, had, frames, taken, mapped, free, outstanding, addr);
      assert taken + made == taken && free' == free - {a} && outstanding' == outstanding + {a};
    } else {
      assert frames + [addr] == [addr] && taken + made == made;
      FirstGrown(s, addr, made, present', mapped', free', outstanding');
    }
  }

  lemma FirstGrown(s: Start, addr: nat, made: set<nat>, present: bool, mapped: map<nat, nat>, free: set<nat>,
                   outstanding: set<nat>)
    requires Settled(s) && addr / PAGE_SIZE in s.free
    requires free == s.free - {addr / PAGE_SIZE} - made && outstanding == s.outstanding + {addr / PAGE_SIZE} + made
    requires present <==> s.free - {addr / PAGE_SIZE} != {}
    requires if present then |made| == 1 && made <= s.free - {addr / PAGE_SIZE} else made == {}
    requires mapped == if present then s.mapped[Page(s.end, 0) := addr] else s.mapped
    ensures Growing(s, false, [addr], made, present, mapped, free, outstanding)
  {
    hide Growing, Grown, Settled;
    if present {
      var t :| t in made;
      Singleton(made, t);
      assert (PAGE_SIZE * t) / PAGE_SIZE == t;
      TableMade(s, addr, PAGE_SIZE * t);
    } else {
      TableMissing(s, addr);
      assert free == {} && outstanding == s.outstanding + {addr / PAGE_SIZE};
    }
  }

  /** What a growth is known to be like at any point. */
  lemma GrowingFacts(s: Start, had: bool, frames: seq<nat>, taken: set<nat>, present: bool, mapped: map<nat, nat>,
                     free: set<nat>, outstanding: set<nat>)
    requires Growing(s, had, frames, taken, present, mapped, free, outstanding)
    ensures |frames| + |taken| <= |s.free|
    ensures present ==> |taken| == (if had then 0 else 1) && taken <= s.free
    ensures present && !had ==> frames != []
    ensures !present ==> !had && taken == {} && mapped == s.mapped
    ensures !present && frames == [] ==> free == s.free && outstanding == s.outstanding
    ensures !present && frames != [] ==> |frames| == 1 == |s.free| && free == {}
  {
    GrowingCount(s, had, frames, taken, present, mapped, free, outstanding);
  }

  lemma TakenIs(s: Start, had: bool, tables: set<nat>, taken: set<nat>)
    requires Settled(s) && TableOk(had, tables, s.mapped, s.end, s.outstanding) && taken <= s.free
    ensures tables + taken - tables == taken && (had ==> tables != {}) && (!had ==> tables == {})
  {
    assert tables !! taken;
  }

  lemma GrowingGrown(s: Start, had: bool, frames: seq<nat>, taken: set<nat>, present: bool, mapped: map<nat, nat>,
                     free: set<nat>, outstanding: set<nat>)
    requires Growing(s, had, frames, taken, present, mapped, free, outstanding)
    ensures present ==> Settled(Tabled(s, taken)) && Grown(Tabled(s, taken), frames, 0, mapped, free, outstanding)
  {
  }

  /** What is left of a growth that never had a page table. */
  lemma UntabledEnd(s: Start, had: bool, frames: seq<nat>, taken: set<nat>, present: bool, mapped: map<nat, nat>,
                    free: set<nat>, outstanding: set<nat>)
    requires Growing(s, had, frames, taken, present, mapped, free, outstanding)
    ensures !present && frames == [] ==> Tabled(s, taken) == Start(mapped, s.end, free, outstanding)
  {
    UntabledStart(s);
  }

  /** The page table after growth by some pages was tried: there if it was, or if there were frames for it. */
  ghost predicate Grew(had: bool, tables0: set<nat>, free: set<nat>, pages: nat, present: bool, tables: set<nat>) {
    && (present <==> had || (pages > 0 && |free| >= 2))
    && tables0 <= tables && (present == had ==> tables == tables0) && tables - tables0 <= free
    && (present != had ==> |tables - tables0| == 1)
  }

  lemma GrewBy(s: Start, had: bool, tables: set<nat>, mappedPages: nat, taken: set<nat>, present: bool, pages: nat)
    requires Settled(s) && TableOk(had, tables, s.mapped, s.end, s.outstanding) && taken <= s.free
    requires |taken| == (if present && !had then 1 else 0) && (had ==> present) && mappedPages + |taken| <= |s.free|
    requires mappedPages < pages ==> Page(s.end, mappedPages + 1) > HEAP_LIMIT || mappedPages + |taken| == |s.free|
    requires mappedPages <= pages && (!present && mappedPages > 0 ==> |s.free| == 1)
    requires present && !had ==> mappedPages > 0
    ensures Grew(had, tables, s.free, pages, present, tables + taken)
  {
    TakenIs(s, had, tables, taken);
    assert taken == {} ==> tables + taken == tables;
  }

  /** The heap's pages and its page table are in order. */
  ghost predicate Sound(s: Start, present: bool, tables: set<nat>) {
    Settled(s) && TableOk(present, tables, s.mapped, s.end, s.outstanding)
  }

  /**
   The outcome `t` of growing `s` by some pages: all of them on new frames if they can be had, and otherwise none.
   Either way the page table that was made for them stays.
   */
  ghost predicate Outcome(s: Start, had: bool, tables0: set<nat>, pages: nat, ok: bool, t: Start, present: bool,
                          tables: set<nat>) {
    && Sound(t, present, tables) && Grew(had, tables0, s.free, pages, present, tables)
    && (ok <==> CanGrow(s.end, s.free, had, pages))
    && if ok then Extended(Tabled(s, tables - tables0), t, pages) else t == Tabled(s, tables - tables0)
  }

  /** All pages were mapped. */
  lemma GrownOutcome(s: Start, had: bool, tables0: set<nat>, frames: seq<nat>, taken: set<nat>, present: bool, t: Start)
    requires Sound(s, had, tables0) && t.end == Page(s.end, |frames|) <= HEAP_LIMIT
    requires Growing(s, had, frames, taken, present, t.mapped, t.free, t.outstanding)
    requires present || frames == []
    ensures Outcome(s, had, tables0, |frames|, true, t, present, tables0 + taken)
  {
    hide Growing, Settled, TableOk, Backed, Extended, Grew;
    GrowingFacts(s, had, frames, taken, present, t.mapped, t.free, t.outstanding);
    TakenIs(s, had, tables0, taken);
    GrewBy(s, had, tables0, |frames|, taken, present, |frames|);
    if present {
      GrowingEnds(s, had, tables0, frames, taken, t.mapped, t.free, t.outstanding);
      GrowingApart(s, had, frames, taken, t.mapped, t.free, t.outstanding, t.end);
    } else {
      UntabledStart(s);
      NotExtended(s);
      assert t == s;
      assert tables0 + taken == tables0;
    }
  }

  lemma GrowingApart(s: Start, had: bool, frames: seq<nat>, taken: set<nat>, mapped: map<nat, nat>, free: set<nat>,
                     outstanding: set<nat>, end: nat)
    requires Growing(s, had, frames, taken, true, mapped, free, outstanding) && Backed(mapped, end, outstanding)
    ensures Settled(Start(mapped, end, free, outstanding))
  {
    hide Backed;
  }

  /** Not all of them could be, and they were taken back. */
  lemma UndoneOutcome(s: Start, had: bool, tables0: set<nat>, frames: seq<nat>, taken: set<nat>, present: bool,
                      mapped: map<nat, nat>, free: set<nat>, outstanding: set<nat>, pages: nat)
    requires Sound(s, had, tables0) && Growing(s, had, frames, taken, present, mapped, free, outstanding)
    requires present || frames == []
    requires |frames| < pages && (Page(s.end, |frames| + 1) > HEAP_LIMIT || |frames| + |taken| == |s.free|)
    ensures Outcome(s, had, tables0, pages, false, Tabled(s, taken), present, tables0 + taken)
  {
    hide Growing, Backed, Extended, Grew, TableOk;
    GrowingFacts(s, had, frames, taken, present, mapped, free, outstanding);
    TakenIs(s, had, tables0, taken);
    if !present {
      StartIs(s, had, tables0);
    }
    GrewBy(s, had, tables0, |frames|, taken, present, pages);
    if present {
      GrowingUndone(s, had, tables0, taken);
    } else {
      UntabledStart(s);
      assert tables0 + taken == tables0;
    }
  }

  lemma StartIs(s: Start, had: bool, tables0: set<nat>)
    requires Sound(s, had, tables0) && !had
    ensures s.end == HEAP_START && Page(s.end, 1) <= HEAP_LIMIT
  {
  }

  lemma OutcomeRefused(s: Start, had: bool, tables0: set<nat>, pages: nat, t: Start, present: bool, tables: set<nat>)
    requires Outcome(s, had, tables0, pages, false, t, present, tables)
    ensures t.mapped == s.mapped && t.end == s.end
  {
  }

  lemma OutcomeSound(s: Start, had: bool, tables0: set<nat>, pages: nat, ok: bool, t: Start, present: bool,
                     tables: set<nat>)
    requires Outcome(s, had, tables0, pages, ok, t, present, tables)
    ensures Sound(t, present, tables)
  {
  }
}
