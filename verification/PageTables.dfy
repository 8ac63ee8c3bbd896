/**
 Two-level i386 page tables in physical memory: the walk of the memory unit, and page directories that share tables.
 */
module PageTables {
  import opened Common

  const ENTRIES_PER_TABLE := 1024
  const PAGE_PRESENT := 1
  const PAGE_WRITE := 2

  /** The directory slot that points back to the directory, and that of the first kernel table. */
  const SELF_SLOT := 1023
  const KERNEL_SLOT := 768

  /** The page number of the temporary window at 0xC03FF000, and of the first page of the recursive region. */
  const WINDOW := KERNEL_SLOT * ENTRIES_PER_TABLE + 1023
  const RECURSIVE := SELF_SLOT * ENTRIES_PER_TABLE

  type Word = w: int | 0 <= w < 0x1_0000_0000

  /** Physical memory: frames of 1024 words. */
  type Ram = seq<seq<Word>>

  predicate Present(w: Word) {
    w % 2 == 1
  }

  function FrameOf(w: Word): nat {
    w / PAGE_SIZE
  }

  /** `addr | flags | PAGE_PRESENT`, with the low bits of the address cleared: the fields do not overlap. */
  function Entry(addr: Word, flags: nat): (w: Word)
    requires flags < PAGE_SIZE
    ensures Present(w) && FrameOf(w) == addr / PAGE_SIZE
  {
    addr - addr % PAGE_SIZE + (if flags % 2 == 1 then flags else flags + PAGE_PRESENT)
  }

  /** Bit 0 is set, the other flags are those given, and the frame is that of the address. */
  lemma EntryBits(addr: Word, flags: nat)
    requires flags < PAGE_SIZE
    ensures Entry(addr, flags) % 2 == 1 && Entry(addr, flags) % 4096 / 2 == flags / 2
    ensures Entry(addr, flags) / 4096 == addr / 4096
  {
  }

  ghost predicate Sized(ram: Ram) {
    forall f :: 0 <= f < |ram| ==> |ram[f]| == ENTRIES_PER_TABLE
  }

  function Put(ram: Ram, f: nat, i: nat, w: Word): Ram
    requires f < |ram| && i < |ram[f]|
  {
    var row: seq<Word> := ram[f][i := w];
    ram[f := row]
  }

  /** Slot `i` of the directory `d` points to a table, and to which one. */
  predicate Has(ram: Ram, d: nat, i: nat)
    requires Sized(ram) && d < |ram| && i < ENTRIES_PER_TABLE
  {
    Present(ram[d][i])
  }

  function TableOf(ram: Ram, d: nat, i: nat): nat
    requires Sized(ram) && d < |ram| && i < ENTRIES_PER_TABLE
  {
    FrameOf(ram[d][i])
  }

  /** What a present or absent table entry maps its page to. */
  function Leaf(w: Word): Option<nat> {
    if Present(w) then Some(FrameOf(w)) else None
  }

  /** The walk: the frame that page `q` of the directory `d` is mapped to. */
  function Lookup(ram: Ram, d: nat, q: nat): Option<nat>
    requires Sized(ram) && d < |ram| && q < ENTRIES_PER_TABLE * ENTRIES_PER_TABLE
  {
    var i := q / ENTRIES_PER_TABLE;
    if Has(ram, d, i) && TableOf(ram, d, i) < |ram|
    then Leaf(ram[TableOf(ram, d, i)][q % ENTRIES_PER_TABLE])
    else None
  }

  // ---------------------------------------------------------------- well-formed directories

  ghost predicate SelfMapped(ram: Ram, d: nat)
    requires Sized(ram)
  {
    d < |ram| && Has(ram, d, SELF_SLOT) && TableOf(ram, d, SELF_SLOT) == d
  }

  /** A table in use is in memory, is no directory, and is not free. */
  ghost predicate TableApart(ram: Ram, dirs: set<nat>, free: set<nat>, d: nat, i: nat)
    requires Sized(ram) && d < |ram| && i < SELF_SLOT
  {
    Has(ram, d, i) ==> TableOf(ram, d, i) < |ram| && TableOf(ram, d, i) !in dirs && TableOf(ram, d, i) !in free
  }

  /** No table serves two different slots. */
  ghost predicate SlotsApart(ram: Ram, d: nat, i: nat, e: nat, j: nat)
    requires Sized(ram) && d < |ram| && e < |ram| && i < SELF_SLOT && j < SELF_SLOT
  {
    Has(ram, d, i) && Has(ram, e, j) && TableOf(ram, d, i) == TableOf(ram, e, j) ==> i == j
  }

  /**
   * The directories in memory: each maps itself, all share the first kernel table, and two of them share
   * a table only at the same slot. Frames that are free hold neither directories nor tables.
   */
  ghost predicate Spaces(ram: Ram, dirs: set<nat>, free: set<nat>) {
    && Sized(ram) && dirs !! free
    && (forall f :: f in free ==> f < |ram|)
    && (forall d :: d in dirs ==> SelfMapped(ram, d) && Has(ram, d, KERNEL_SLOT))
    && (forall d: nat, i: nat :: d in dirs && i < SELF_SLOT ==> TableApart(ram, dirs, free, d, i))
    && (forall d: nat, i: nat, e: nat, j: nat :: d in dirs && i < SELF_SLOT && e in dirs && j < SELF_SLOT ==>
        SlotsApart(ram, d, i, e, j))
    && (forall d, e :: d in dirs && e in dirs ==> TableOf(ram, d, KERNEL_SLOT) == TableOf(ram, e, KERNEL_SLOT))
  }

  /** `e` sees the same table as `d` at slot `i`. */
  ghost predicate Shares(ram: Ram, d: nat, e: nat, i: nat)
    requires Sized(ram) && d < |ram| && e < |ram| && i < ENTRIES_PER_TABLE
  {
    Has(ram, d, i) && Has(ram, e, i) && TableOf(ram, d, i) == TableOf(ram, e, i)
  }

  /** A write to a table entry keeps the directories as they are and changes one page where the table is seen. */
  lemma WriteLeaf(ram: Ram, dirs: set<nat>, free: set<nat>, d: nat, i: nat, j: nat, w: Word)
    requires Spaces(ram, dirs, free) && d in dirs && i < SELF_SLOT && j < ENTRIES_PER_TABLE && Has(ram, d, i)
    ensures TableApart(ram, dirs, free, d, i) && TableOf(ram, d, i) < |ram|
    ensures var after := Put(ram, TableOf(ram, d, i), j, w);
            && Spaces(after, dirs, free) && |after| == |ram|
            && (forall e :: e in dirs ==> after[e] == ram[e])
            && forall e, q :: e in dirs && 0 <= q < RECURSIVE ==>
                 Lookup(after, e, q) == if q == i * ENTRIES_PER_TABLE + j && Shares(ram, d, e, i) then Leaf(w)
                   else Lookup(ram, e, q)
  {
    assert TableApart(ram, dirs, free, d, i);
    var t := TableOf(ram, d, i);
    var after := Put(ram, t, j, w);
    assert forall e :: e in dirs ==> after[e] == ram[e];
    SameDirectories(ram, after, dirs, free);
    forall e, q | e in dirs && 0 <= q < RECURSIVE
      ensures Lookup(after, e, q) == if q == i * ENTRIES_PER_TABLE + j && Shares(ram, d, e, i) then Leaf(w)
                else Lookup(ram, e, q)
    {
      var k := q / ENTRIES_PER_TABLE;
      assert TableApart(ram, dirs, free, e, k) && SlotsApart(ram, d, i, e, k);
    }
  }

  /** The claims about directories depend on the words of the directories only. */
  lemma SameDirectories(ram: Ram, after: Ram, dirs: set<nat>, free: set<nat>)
    requires Spaces(ram, dirs, free) && Sized(after) && |after| == |ram|
    requires forall e :: e in dirs ==> after[e] == ram[e]
    ensures Spaces(after, dirs, free)
  {
    forall d: nat, i: nat | d in dirs && i < SELF_SLOT
      ensures TableApart(after, dirs, free, d, i)
    {
      assert TableApart(ram, dirs, free, d, i);
    }
    forall d: nat, i: nat, e: nat, j: nat | d in dirs && i < SELF_SLOT && e in dirs && j < SELF_SLOT
      ensures SlotsApart(after, d, i, e, j)
    {
      assert SlotsApart(ram, d, i, e, j);
    }
  }

  // ---------------------------------------------------------------- new tables and directories

  ghost function ZeroFrame(): seq<Word> {
    seq(ENTRIES_PER_TABLE, _ => 0)
  }

  /** Memory with the zeroed table `n` in slot `i` of `d`. */
  ghost function LinkTable(ram: Ram, d: nat, i: nat, n: nat, w: Word): Ram
    requires d < |ram| && n < |ram| && n != d && i < |ram[d]|
  {
    Put(ram[n := ZeroFrame()], d, i, w)
  }

  /** A zeroed table from a free frame changes no translation. */
  lemma LinkKeeps(ram: Ram, dirs: set<nat>, free: set<nat>, d: nat, i: nat, n: nat, w: Word)
    requires Spaces(ram, dirs, free) && d in dirs && i < SELF_SLOT && !Has(ram, d, i) && n in free && Present(w)
             && FrameOf(w) == n
    ensures var after := LinkTable(ram, d, i, n, w);
            && Spaces(after, dirs, free - {n}) && |after| == |ram|
            && Has(after, d, i) && TableOf(after, d, i) == n
            && (forall e, k :: e in dirs && 0 <= k < ENTRIES_PER_TABLE && (e != d || k != i) ==>
                after[e][k] == ram[e][k])
            && forall e, q :: e in dirs && 0 <= q < RECURSIVE ==> Lookup(after, e, q) == Lookup(ram, e, q)
  {
    var after := LinkTable(ram, d, i, n, w);
    forall e, q | e in dirs && 0 <= q < RECURSIVE
      ensures Lookup(after, e, q) == Lookup(ram, e, q)
    {
      assert TableApart(ram, dirs, free, e, q / ENTRIES_PER_TABLE);
    }
    forall e: nat, k: nat | e in dirs && k < SELF_SLOT
      ensures TableApart(after, dirs, free - {n}, e, k)
    {
      assert TableApart(ram, dirs, free, e, k);
    }
    forall a: nat, k: nat, b: nat, l: nat | a in dirs && k < SELF_SLOT && b in dirs && l < SELF_SLOT
      ensures SlotsApart(after, a, k, b, l)
    {
      assert SlotsApart(ram, a, k, b, l) && TableApart(ram, dirs, free, a, k) && TableApart(ram, dirs, free, b, l);
    }
  }

  /** Memory with a copy of the directory `d` at `n` that maps itself. */
  ghost function CopyDirectory(ram: Ram, d: nat, n: nat, w: Word): Ram
    requires d < |ram| && n < |ram| && |ram[d]| == ENTRIES_PER_TABLE
  {
    var row: seq<Word> := ram[d][SELF_SLOT := w];
    ram[n := row]
  }

  /** A copy of a directory in a free frame translates as its source and disturbs no other. */
  lemma CopyKeeps(ram: Ram, dirs: set<nat>, free: set<nat>, d: nat, n: nat, w: Word)
    requires Spaces(ram, dirs, free) && d in dirs && n in free && Present(w) && FrameOf(w) == n
    ensures var after := CopyDirectory(ram, d, n, w);
            && Spaces(after, dirs + {n}, free - {n}) && |after| == |ram|
            && (forall e :: e in dirs ==> after[e] == ram[e])
            && (forall e, q :: e in dirs && 0 <= q < RECURSIVE ==> Lookup(after, e, q) == Lookup(ram, e, q))
            && forall q :: 0 <= q < RECURSIVE ==> Lookup(after, n, q) == Lookup(ram, d, q)
  {
    var after := CopyDirectory(ram, d, n, w);
    forall e, q | e in dirs && 0 <= q < RECURSIVE
      ensures Lookup(after, e, q) == Lookup(ram, e, q)
      ensures Lookup(after, n, q) == Lookup(ram, d, q)
    {
      assert TableApart(ram, dirs, free, e, q / ENTRIES_PER_TABLE);
      assert TableApart(ram, dirs, free, d, q / ENTRIES_PER_TABLE);
    }
    forall e: nat, k: nat | e in dirs + {n} && k < SELF_SLOT
      ensures TableApart(after, dirs + {n}, free - {n}, e, k)
    {
      assert TableApart(ram, dirs, free, if e == n then d else e, k);
    }
    forall a: nat, k: nat, b: nat, l: nat | a in dirs + {n} && k < SELF_SLOT && b in dirs + {n} && l < SELF_SLOT
      ensures SlotsApart(after, a, k, b, l)
    {
      assert SlotsApart(ram, if a == n then d else a, k, if b == n then d else b, l);
    }
  }

  // ---------------------------------------------------------------- the recursive region

  /** Through the self slot the directory is its own table: page `RECURSIVE + i` is the table in slot `i`. */
  lemma RecursivePage(ram: Ram, d: nat, i: nat)
    requires Sized(ram) && SelfMapped(ram, d) && i < ENTRIES_PER_TABLE
    ensures Lookup(ram, d, RECURSIVE + i) == if Has(ram, d, i) then Some(TableOf(ram, d, i)) else None
  {
  }

  // ---------------------------------------------------------------- what the operations do to memory

  /** Memory after `vaddr`'s page `q` was mapped, when its table is there. */
  ghost function MapPresent(ram: Ram, d: nat, q: nat, w: Word): Ram
    requires Sized(ram) && d < |ram| && q < RECURSIVE && TableOf(ram, d, q / ENTRIES_PER_TABLE) < |ram|
  {
    Put(ram, TableOf(ram, d, q / ENTRIES_PER_TABLE), q % ENTRIES_PER_TABLE, w)
  }

  /** Memory after a table was created in slot `i`, with the temporary window used and cleared. */
  ghost function CreateTable(ram: Ram, d: nat, i: nat, n: nat, w: Word): Ram
    requires Sized(ram) && d < |ram| && n < |ram| && n != d && i < SELF_SLOT && TableOf(ram, d, KERNEL_SLOT) < |ram|
  {
    Put(LinkTable(ram, d, i, n, w), TableOf(ram, d, KERNEL_SLOT), 1023, 0)
  }

  /** Whether the directory `e` sees a change to the page `q` of `d`. */
  ghost predicate Sees(ram: Ram, d: nat, e: nat, q: nat)
    requires Sized(ram) && d < |ram| && e < |ram| && q < RECURSIVE
  {
    e == d || Shares(ram, d, e, q / ENTRIES_PER_TABLE)
  }

  /**
   * One update of the abstract page map: the page `q` gets what `x` says in `d` and in the directories that
   * share its table; if a table was created the window is left unmapped; every other page below the
   * recursive region keeps its translation in every directory.
   */
  ghost predicate Updated(ram: Ram, after: Ram, dirs: set<nat>, d: nat, q: nat, x: Option<nat>, created: bool)
    requires Sized(ram) && Sized(after) && |after| == |ram| && q < RECURSIVE && d in dirs
    requires forall e :: e in dirs ==> e < |ram|
  {
    forall e, p :: e in dirs && 0 <= p < RECURSIVE ==>
      Lookup(after, e, p) == if p == q && Sees(ram, d, e, q) then x else if created && p == WINDOW then None
        else Lookup(ram, e, p)
  }

  lemma MapPresentUpdates(ram: Ram, dirs: set<nat>, free: set<nat>, d: nat, q: nat, w: Word)
    requires Spaces(ram, dirs, free) && d in dirs && q < RECURSIVE && Has(ram, d, q / ENTRIES_PER_TABLE)
    ensures TableOf(ram, d, q / ENTRIES_PER_TABLE) < |ram|
    ensures var after := MapPresent(ram, d, q, w);
            Spaces(after, dirs, free) && |after| == |ram| && Updated(ram, after, dirs, d, q, Leaf(w), false)
            && forall e :: e in dirs ==> after[e] == ram[e]
  {
    WriteLeaf(ram, dirs, free, d, q / ENTRIES_PER_TABLE, q % ENTRIES_PER_TABLE, w);
  }

  lemma CreateKeeps(ram: Ram, dirs: set<nat>, free: set<nat>, d: nat, i: nat, n: nat, w: Word)
    requires Spaces(ram, dirs, free) && d in dirs && i < SELF_SLOT && !Has(ram, d, i) && n in free && Present(w)
             && FrameOf(w) == n
    ensures TableOf(ram, d, KERNEL_SLOT) < |ram|
    ensures var after := CreateTable(ram, d, i, n, w);
            && Spaces(after, dirs, free - {n}) && |after| == |ram|
            && Has(after, d, i) && TableOf(after, d, i) == n
            && (forall e, k :: e in dirs && 0 <= k < ENTRIES_PER_TABLE && (e != d || k != i) ==>
                after[e][k] == ram[e][k])
            && forall e, p :: e in dirs && 0 <= p < RECURSIVE ==>
              Lookup(after, e, p) == if p == WINDOW then None else Lookup(ram, e, p)
  {
    assert TableApart(ram, dirs, free, d, KERNEL_SLOT);
    LinkKeeps(ram, dirs, free, d, i, n, w);
    var linked := LinkTable(ram, d, i, n, w);
    WriteLeaf(linked, dirs, free - {n}, d, KERNEL_SLOT, 1023, 0);
    forall e | e in dirs
      ensures Shares(linked, d, e, KERNEL_SLOT)
    {
    }
  }

  lemma MapCreatedUpdates(ram: Ram, dirs: set<nat>, free: set<nat>, d: nat, q: nat, n: nat, pde: Word, w: Word)
    requires Spaces(ram, dirs, free) && d in dirs && q < RECURSIVE && !Has(ram, d, q / ENTRIES_PER_TABLE)
    requires n in free && Present(pde) && FrameOf(pde) == n
    ensures TableOf(ram, d, KERNEL_SLOT) < |ram|
            && TableOf(CreateTable(ram, d, q / ENTRIES_PER_TABLE, n, pde), d, q / ENTRIES_PER_TABLE) == n
    ensures n < |ram| == |CreateTable(ram, d, q / ENTRIES_PER_TABLE, n, pde)|
            && Has(CreateTable(ram, d, q / ENTRIES_PER_TABLE, n, pde), d, q / ENTRIES_PER_TABLE)
    ensures var after := MapPresent(CreateTable(ram, d, q / ENTRIES_PER_TABLE, n, pde), d, q, w);
            Spaces(after, dirs, free - {n}) && |after| == |ram| && Updated(ram, after, dirs, d, q, Leaf(w), true)
  {
    var i := q / ENTRIES_PER_TABLE;
    CreateKeeps(ram, dirs, free, d, i, n, pde);
    var created := CreateTable(ram, d, i, n, pde);
    MapPresentUpdates(created, dirs, free - {n}, d, q, w);
    forall e | e in dirs
      ensures Sees(created, d, e, q) <==> Sees(ram, d, e, q)
    {
      assert e != d ==> TableApart(ram, dirs, free, e, i);
    }
  }

  /** What went through the temporary window leaves no trace but the frame that was written. */
  lemma WindowErased(ram: Ram, d: nat, k: nat, i: nat, n: nat, e: Word, w: Word)
    requires Sized(ram) && d < |ram| && k < |ram| && n < |ram| && d != k && d != n && k != n && i < ENTRIES_PER_TABLE
    ensures Put(Put(Put(ram, k, 1023, e)[n := ZeroFrame()], d, i, w), k, 1023, 0)
            == Put(LinkTable(ram, d, i, n, w), k, 1023, 0)
  {
    var a := Put(Put(Put(ram, k, 1023, e)[n := ZeroFrame()], d, i, w), k, 1023, 0);
    var b := Put(LinkTable(ram, d, i, n, w), k, 1023, 0);
    assert a[k] == b[k];
    assert forall f :: 0 <= f < |ram| ==> a[f] == b[f];
  }

  lemma WindowErasedCopy(ram: Ram, d: nat, k: nat, n: nat, e: Word, row: seq<Word>)
    requires Sized(ram) && d < |ram| && k < |ram| && n < |ram| && k != n
    ensures Put(Put(ram, k, 1023, e)[n := row], k, 1023, 0) == Put(ram[n := row], k, 1023, 0)
  {
    var a := Put(Put(ram, k, 1023, e)[n := row], k, 1023, 0);
    var b := Put(ram[n := row], k, 1023, 0);
    assert a[k] == b[k];
    assert forall f :: 0 <= f < |ram| ==> a[f] == b[f];
  }

  /** The kernel table of a directory is in memory and is not the directory. */
  lemma KernelTable(ram: Ram, dirs: set<nat>, free: set<nat>, d: nat)
    requires Spaces(ram, dirs, free) && d in dirs
    ensures Sized(ram) && SelfMapped(ram, d) && Has(ram, d, KERNEL_SLOT) && TableOf(ram, d, KERNEL_SLOT) < |ram|
            && TableOf(ram, d, KERNEL_SLOT) != d
  {
    assert TableApart(ram, dirs, free, d, KERNEL_SLOT);
  }

  /** A free frame is neither the directory nor its kernel table. */
  lemma FreshFrame(ram: Ram, dirs: set<nat>, free: set<nat>, d: nat, n: nat)
    requires Spaces(ram, dirs, free) && d in dirs && n in free
    ensures n < |ram| && n != d && n != TableOf(ram, d, KERNEL_SLOT)
  {
    assert TableApart(ram, dirs, free, d, KERNEL_SLOT);
  }

  /** Another slot of the directory does not matter to the window. */
  lemma PdeKeepsWindow(ram: Ram, d: nat, i: nat, w: Word)
    requires Sized(ram) && SelfMapped(ram, d) && i < SELF_SLOT && i != KERNEL_SLOT
    ensures var after := Put(ram, d, i, w);
            && Sized(after) && |after| == |ram| && SelfMapped(after, d)
            && (Has(after, d, KERNEL_SLOT) <==> Has(ram, d, KERNEL_SLOT))
            && TableOf(after, d, KERNEL_SLOT) == TableOf(ram, d, KERNEL_SLOT)
  {
  }

  /**
   The only words that mapping page `q` may change: its directory and table entries, the window's slot, and the frames
   that were taken.
   */
  ghost predicate OnlyTouched(ram: Ram, after: Ram, d: nat, q: nat, taken: set<nat>)
    requires Sized(ram) && Sized(after) && |after| == |ram| && d < |ram| && q < RECURSIVE
  {
    forall f, j :: 0 <= f < |ram| && 0 <= j < ENTRIES_PER_TABLE && after[f][j] != ram[f][j] ==>
      || (f == d && j == q / ENTRIES_PER_TABLE)
      || (f == TableOf(ram, d, q / ENTRIES_PER_TABLE) && j == q % ENTRIES_PER_TABLE)
      || (f == TableOf(ram, d, KERNEL_SLOT) && j == 1023)
      || f in taken
  }

  /** The lowest free frame is taken if one is wanted and there is one, and otherwise none. */
  ghost predicate LowestTaken(free: set<nat>, wanted: bool, taken: set<nat>) {
    && taken <= free && |taken| == (if wanted && free != {} then 1 else 0)
    && forall n, e :: n in taken && e in free ==> n <= e
  }

  lemma TakesNone(free: set<nat>, wanted: bool)
    requires !wanted || free == {}
    ensures LowestTaken(free, wanted, {}) && free - {} == free
  {
  }

  lemma TakesLowest(free: set<nat>, n: nat)
    requires n in free && forall e :: e in free ==> n <= e
    ensures LowestTaken(free, true, {n}) && {n} != {}
  {
  }

  lemma TouchedNothing(ram: Ram, d: nat, q: nat)
    requires Sized(ram) && d < |ram| && q < RECURSIVE
    ensures OnlyTouched(ram, ram, d, q, {})
  {
  }

  lemma TouchedPresent(ram: Ram, dirs: set<nat>, free: set<nat>, d: nat, q: nat, w: Word)
    requires Spaces(ram, dirs, free) && d in dirs && q < RECURSIVE && Has(ram, d, q / ENTRIES_PER_TABLE)
    ensures TableOf(ram, d, q / ENTRIES_PER_TABLE) < |ram|
    ensures OnlyTouched(ram, MapPresent(ram, d, q, w), d, q, {})
  {
    assert TableApart(ram, dirs, free, d, q / ENTRIES_PER_TABLE);
  }

  lemma TouchedCreating(ram: Ram, dirs: set<nat>, free: set<nat>, d: nat, q: nat, n: nat, pde: Word, w: Word)
    requires Spaces(ram, dirs, free) && d in dirs && q < RECURSIVE && !Has(ram, d, q / ENTRIES_PER_TABLE)
    requires n in free && Present(pde) && FrameOf(pde) == n
    ensures TableOf(ram, d, KERNEL_SLOT) < |ram|
            && TableOf(CreateTable(ram, d, q / ENTRIES_PER_TABLE, n, pde), d, q / ENTRIES_PER_TABLE) == n
    ensures OnlyTouched(ram, MapPresent(CreateTable(ram, d, q / ENTRIES_PER_TABLE, n, pde), d, q, w), d, q, {n})
  {
    FreshFrame(ram, dirs, free, d, n);
    KernelTable(ram, dirs, free, d);
  }

  /** Storing `w` in the table of page `q` completes a mapping that began with memory as it was `before`. */
  ghost predicate Completes(before: Ram, ram: Ram, dirs: set<nat>, free: set<nat>, d: nat, q: nat, w: Word,
                            taken: set<nat>, created: bool) {
    && Sized(before) && Sized(ram) && |ram| == |before| && d in dirs && q < RECURSIVE
    && (forall e :: e in dirs ==> e < |ram|)
    && Has(ram, d, q / ENTRIES_PER_TABLE) && TableOf(ram, d, q / ENTRIES_PER_TABLE) < |ram|
    && var after := MapPresent(ram, d, q, w);
    && |after| == |ram| && Spaces(after, dirs, free)
    && OnlyTouched(before, after, d, q, taken) && Updated(before, after, dirs, d, q, Some(FrameOf(w)), created)
  }

  lemma DirsInMemory(ram: Ram, dirs: set<nat>, free: set<nat>)
    requires Spaces(ram, dirs, free)
    ensures Sized(ram) && forall e :: e in dirs ==> e < |ram|
  {
  }

  lemma CompletesPresent(ram: Ram, dirs: set<nat>, free: set<nat>, d: nat, q: nat, w: Word)
    requires Spaces(ram, dirs, free) && d in dirs && q < RECURSIVE && Has(ram, d, q / ENTRIES_PER_TABLE) && Present(w)
    ensures Completes(ram, ram, dirs, free, d, q, w, {}, false)
  {
    hide Spaces, OnlyTouched, Updated, MapPresent, Lookup;
    DirsInMemory(ram, dirs, free);
    MapPresentUpdates(ram, dirs, free, d, q, w);
    TouchedPresent(ram, dirs, free, d, q, w);
  }

  lemma CompletesCreated(ram: Ram, dirs: set<nat>, free: set<nat>, d: nat, q: nat, n: nat, pde: Word, w: Word)
    requires Spaces(ram, dirs, free) && d in dirs && q < RECURSIVE && !Has(ram, d, q / ENTRIES_PER_TABLE) && Present(w)
    requires n in free && Present(pde) && FrameOf(pde) == n
    ensures TableOf(ram, d, KERNEL_SLOT) < |ram| && n < |ram| && n != d
    ensures |CreateTable(ram, d, q / ENTRIES_PER_TABLE, n, pde)| == |ram|
    ensures Completes(ram, CreateTable(ram, d, q / ENTRIES_PER_TABLE, n, pde), dirs, free - {n}, d, q, w, {n}, true)
  {
    hide Spaces, OnlyTouched, Updated, MapPresent, Lookup, CreateTable;
    DirsInMemory(ram, dirs, free);
    FreshFrame(ram, dirs, free, d, n);
    MapCreatedUpdates(ram, dirs, free, d, q, n, pde, w);
    TouchedCreating(ram, dirs, free, d, q, n, pde, w);
    CreateKeeps(ram, dirs, free, d, q / ENTRIES_PER_TABLE, n, pde);
    DirsInMemory(CreateTable(ram, d, q / ENTRIES_PER_TABLE, n, pde), dirs, free - {n});
  }

  /** The 10-10-12 split of an address names its page. */
  lemma PageIndex(vaddr: nat)
    requires vaddr < RECURSIVE * PAGE_SIZE
    ensures var q := vaddr / PAGE_SIZE; q < RECURSIVE && q / ENTRIES_PER_TABLE == vaddr / 0x40_0000 < SELF_SLOT
  {
  }

  lemma TableInMemory(ram: Ram, dirs: set<nat>, free: set<nat>, d: nat, i: nat)
    requires Spaces(ram, dirs, free) && d in dirs && i < ENTRIES_PER_TABLE && Has(ram, d, i)
    ensures TableOf(ram, d, i) < |ram|
  {
    assert i < SELF_SLOT ==> TableApart(ram, dirs, free, d, i);
  }

  /** The new directory `n` translates as `d` did, and the window is unmapped everywhere; nothing else moves. */
  ghost predicate Cloned(ram: Ram, after: Ram, dirs: set<nat>, d: nat, n: nat)
    requires Sized(ram) && Sized(after) && |after| == |ram| && d < |ram| && n < |ram|
    requires forall e :: e in dirs ==> e < |ram|
  {
    && (forall e, p :: e in dirs && 0 <= p < RECURSIVE ==>
        Lookup(after, e, p) == if p == WINDOW then None else Lookup(ram, e, p))
    && (forall p :: 0 <= p < RECURSIVE ==> Lookup(after, n, p) == if p == WINDOW then None else Lookup(ram, d, p))
  }

  lemma CopyClones(ram: Ram, dirs: set<nat>, free: set<nat>, d: nat, n: nat, w: Word)
    requires Spaces(ram, dirs, free) && d in dirs && n in free && Present(w) && FrameOf(w) == n
    ensures TableOf(ram, d, KERNEL_SLOT) < |ram|
    ensures var after := Put(CopyDirectory(ram, d, n, w), TableOf(ram, d, KERNEL_SLOT), 1023, 0);
            && Spaces(after, dirs + {n}, free - {n}) && |after| == |ram| && Cloned(ram, after, dirs, d, n)
  {
    KernelTable(ram, dirs, free, d);
    CopyKeeps(ram, dirs, free, d, n, w);
    var copied := CopyDirectory(ram, d, n, w);
    WriteLeaf(copied, dirs + {n}, free - {n}, d, KERNEL_SLOT, 1023, 0);
    forall e | e in dirs + {n}
      ensures Shares(copied, d, e, KERNEL_SLOT)
    {
    }
  }
}
