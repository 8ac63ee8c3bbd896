/** Where the sections of a module go: one run of pages each, in table order, aligned and apart. */
module ModuleLayout {
  import opened Common
  import opened HeapPages
  import Arithmetic

  const MODULE_LOAD_BASE := 0xC090_0000
  const MAX_MODULE_PAGES := 16
  const SECTION_MAPPINGS := 64
  const SHT_NOBITS := 8

  /** A section header, as far as loading goes. */
  datatype Section = Section(alloc: bool, kind: nat, offset: nat, size: nat, align: nat)

  /** A section that takes up memory. */
  predicate Wanted(s: Section) {
    s.alloc && s.size != 0
  }

  function PagesOf(size: nat): nat {
    (size + PAGE_SIZE - 1) / PAGE_SIZE
  }

  function AlignOf(s: Section): (a: nat)
    ensures a >= PAGE_SIZE
  {
    if s.align < PAGE_SIZE then PAGE_SIZE else s.align
  }

  /** `(x + a - 1) & ~(a - 1)`, which for a power of two is the next multiple. */
  function AlignUp(x: nat, a: nat): nat
    requires a > 0
  {
    (x + a - 1) / a * a
  }

  /** The alignment of every section is none or a power of two. */
  ghost predicate WellAligned(sections: seq<Section>) {
    forall i :: 0 <= i < |sections| ==> AlignmentOk(sections[i])
  }

  ghost predicate AlignmentOk(s: Section) {
    s.align == 0 || exists k: nat :: s.align == Pow2(k)
  }

  lemma {:induction false} Pow2Pages(k: nat)
    requires Pow2(k) >= PAGE_SIZE
    ensures Pow2(k) % PAGE_SIZE == 0
  {
    if Pow2(k) == PAGE_SIZE {
    } else {
      assert k > 0;
      Pow2Odd(k - 1);
      Pow2Pages(k - 1);
    }
  }

  /** No power of two lies between one page and half of it. */
  lemma {:induction false} Pow2Odd(k: nat)
    requires Pow2(k) > PAGE_SIZE / 2
    ensures Pow2(k) >= PAGE_SIZE
  {
    assert Pow2(5) == 32;
    assert Pow2(11) == PAGE_SIZE / 2;
    if k <= 11 {
      Pow2Monotone(k, 11);
    } else {
      assert Pow2(12) == PAGE_SIZE;
      Pow2Monotone(12, k);
    }
  }

  lemma {:induction false} Pow2Monotone(j: nat, k: nat)
    requires j <= k
    ensures Pow2(j) <= Pow2(k)
    decreases k - j
  {
    if j < k {
      Pow2Monotone(j + 1, k);
    }
  }

  /** The next multiple of a power of two that is at least a page is a multiple of the page size. */
  lemma AlignedUp(x: nat, s: Section)
    requires AlignmentOk(s)
    ensures x <= AlignUp(x, AlignOf(s)) < x + AlignOf(s) && AlignUp(x, AlignOf(s)) % PAGE_SIZE == 0
    ensures OnGrid(s, AlignUp(x, AlignOf(s)))
  {
    var a := AlignOf(s);
    if s.align >= PAGE_SIZE {
      var k: nat :| s.align == Pow2(k);
      Pow2Pages(k);
    }
    var q := (x + a - 1) / a;
    assert x + a - 1 == q * a + (x + a - 1) % a;
    Arithmetic.DivModUnique(q * a, a, q, 0);
    var m := a / PAGE_SIZE;
    assert a == m * PAGE_SIZE;
    assert q * a == (q * m) * PAGE_SIZE;
    Arithmetic.DivModUnique(q * a, PAGE_SIZE, q * m, 0);
  }

  // ---------------------------------------------------------------- placed sections

  /** Section `index` lies at `base` for `pages` pages, with the module's frames from `first` on. */
  datatype Placed = Placed(index: nat, base: nat, pages: nat, first: nat)

  function EndOf(p: Placed): nat {
    p.base + PAGE_SIZE * p.pages
  }

  /** The wanted sections among the first `n`, in order, and the pages they need. */
  ghost function WantedIndices(sections: seq<Section>, n: nat): seq<nat>
    requires n <= |sections|
  {
    if n == 0 then [] else WantedIndices(sections, n - 1) + (if Wanted(sections[n - 1]) then [n - 1] else [])
  }

  ghost function PagesNeeded(sections: seq<Section>, n: nat): nat
    requires n <= |sections|
  {
    if n == 0 then 0
      else PagesNeeded(sections, n - 1) + (if Wanted(sections[n - 1]) then PagesOf(sections[n - 1].size) else 0)
  }

  /** An offset that is a multiple of the section's alignment. */
  ghost predicate OnGrid(s: Section, x: nat) {
    x % AlignOf(s) == 0
  }

  /** A placed section is aligned as it asks, behind the load base, and has the pages of its size. */
  ghost predicate PlacedWell(sections: seq<Section>, p: Placed, offset: nat, pages: nat) {
    && p.index < |sections| && p.pages == PagesOf(sections[p.index].size) > 0
    && p.base % PAGE_SIZE == 0 && MODULE_LOAD_BASE <= p.base && EndOf(p) <= MODULE_LOAD_BASE + offset
    && OnGrid(sections[p.index], p.base - MODULE_LOAD_BASE)
    && p.first + p.pages <= pages
  }

  /** Each wanted section among the first `n` is placed, in order, and no other. */
  ghost predicate LaidAll(sections: seq<Section>, n: nat, placed: seq<Placed>, pages: nat)
    requires n <= |sections|
  {
    && |placed| == |WantedIndices(sections, n)| <= pages == PagesNeeded(sections, n)
    && forall k :: 0 <= k < |placed| ==> placed[k].index == WantedIndices(sections, n)[k]
  }

  /** The placed sections lie one behind the other, up to the offset. */
  ghost predicate LaidApart(sections: seq<Section>, placed: seq<Placed>, offset: nat, pages: nat) {
    && offset == (if placed == [] then 0 else EndOf(placed[|placed| - 1]) - MODULE_LOAD_BASE)
    && (forall k :: 0 <= k < |placed| ==> PlacedWell(sections, placed[k], offset, pages))
    && (forall k, l :: 0 <= k < l < |placed| ==>
        EndOf(placed[k]) <= placed[l].base && placed[k].first + placed[k].pages <= placed[l].first)
  }

  /** The layout of the first `n` sections. */
  ghost predicate Laid(sections: seq<Section>, n: nat, placed: seq<Placed>, offset: nat, pages: nat)
    requires n <= |sections|
  {
    LaidAll(sections, n, placed, pages) && LaidApart(sections, placed, offset, pages)
  }

  lemma ApartStep(sections: seq<Section>, placed: seq<Placed>, offset: nat, pages: nat, p: Placed)
    requires LaidApart(sections, placed, offset, pages) && MODULE_LOAD_BASE + offset <= p.base && p.first == pages
    requires PlacedWell(sections, p, EndOf(p) - MODULE_LOAD_BASE, pages + p.pages)
    ensures LaidApart(sections, placed + [p], EndOf(p) - MODULE_LOAD_BASE, pages + p.pages)
  {
    var more := placed + [p];
    var end := EndOf(p) - MODULE_LOAD_BASE;
    assert forall k :: 0 <= k < |placed| ==> more[k] == placed[k];
    assert more[|placed|] == p;
    forall k | 0 <= k < |more|
      ensures PlacedWell(sections, more[k], end, pages + p.pages)
      ensures k < |placed| ==> EndOf(more[k]) <= p.base && more[k].first + more[k].pages <= p.first
    {
      assert k < |placed| ==> PlacedWell(sections, placed[k], offset, pages);
    }
  }

  /** One more wanted section behind the others. */
  lemma LaidStep(sections: seq<Section>, n: nat, placed: seq<Placed>, offset: nat, pages: nat, aligned: nat)
    requires n < |sections| && Wanted(sections[n]) && Laid(sections, n, placed, offset, pages)
    requires offset <= aligned && aligned % PAGE_SIZE == 0 && OnGrid(sections[n], aligned)
    ensures var p := Placed(n, MODULE_LOAD_BASE + aligned, PagesOf(sections[n].size), pages);
            Laid(sections, n + 1, placed + [p], aligned + PAGE_SIZE * p.pages, pages + p.pages)
  {
    hide LaidApart, OnGrid;
    var p := Placed(n, MODULE_LOAD_BASE + aligned, PagesOf(sections[n].size), pages);
    assert p.pages > 0;
    ApartStep(sections, placed, offset, pages, p);
  }

  lemma {:induction false} WantedOnce(sections: seq<Section>, n: nat)
    requires n <= |sections|
    ensures var w := WantedIndices(sections, n);
            && (forall k :: 0 <= k < |w| ==> w[k] < n)
            && (forall k, l :: 0 <= k < l < |w| ==> w[k] < w[l])
            && forall i: nat :: i < n ==> (i in w <==> sections[i].alloc && sections[i].size > 0)
  {
    if n > 0 {
      WantedOnce(sections, n - 1);
    }
  }

  /** A power of two up to a page divides it. */
  lemma {:induction false} Pow2Divides(k: nat)
    requires Pow2(k) < PAGE_SIZE
    ensures PAGE_SIZE % Pow2(k) == 0
  {
    if k > 11 {
      assert Pow2(5) == 32;
      assert Pow2(12) == PAGE_SIZE;
      Pow2Monotone(12, k);
    } else {
      SmallPowers();
    }
  }

  lemma SmallPowers()
    ensures Pow2(0) == 1 && Pow2(1) == 2 && Pow2(2) == 4 && Pow2(3) == 8 && Pow2(4) == 16 && Pow2(5) == 32
    ensures Pow2(6) == 64 && Pow2(7) == 128 && Pow2(8) == 256 && Pow2(9) == 512 && Pow2(10) == 1024 && Pow2(11) == 2048
  {
    assert Pow2(5) == 32;
    assert Pow2(9) == 512;
  }

  lemma MultipleOfPage(x: nat, s: Section)
    requires AlignmentOk(s) && x % PAGE_SIZE == 0 && OnGrid(s, x)
    ensures s.align > 0 ==> x % s.align == 0
  {
    if 0 < s.align < PAGE_SIZE {
      var k: nat :| s.align == Pow2(k);
      Pow2Divides(k);
      var m, q := PAGE_SIZE / s.align, x / PAGE_SIZE;
      assert x == q * (m * s.align);
      assert q * (m * s.align) == (q * m) * s.align;
      Arithmetic.DivModUnique(x, s.align, q * m, 0);
    }
  }

  /** The place of a section: on its own pages, at a multiple of its alignment from the load base on. */
  ghost predicate PlaceMeans(sections: seq<Section>, p: Placed) {
    && p.index < |sections| && p.base >= 0xC090_0000 && p.base % 4096 == 0
    && var s := sections[p.index];
       && 4096 * p.pages - 4096 < s.size <= 4096 * p.pages
       && (s.align > 0 ==> (p.base - 0xC090_0000) % s.align == 0)
  }

  /**
   What a layout is, in the terms of the section headers: every section that is to be allocated and is not empty has one
   place, and no other has one. It is placed well, and behind the sections in front of it.
   */
  lemma LaidMeans(sections: seq<Section>, placed: seq<Placed>, offset: nat, pages: nat)
    requires Laid(sections, |sections|, placed, offset, pages) && WellAligned(sections)
    ensures forall i: nat :: i < |sections| ==>
              (sections[i].alloc && sections[i].size > 0 <==> exists k :: 0 <= k < |placed| && placed[k].index == i)
    ensures forall k, l :: 0 <= k < l < |placed| ==>
              placed[k].index < placed[l].index && placed[k].base + 4096 * placed[k].pages <= placed[l].base
    ensures forall k :: 0 <= k < |placed| ==> PlaceMeans(sections, placed[k])
  {
    hide Laid, WellAligned;
    LaidMembers(sections, placed, offset, pages);
    forall k | 0 <= k < |placed|
      ensures PlaceMeans(sections, placed[k])
    {
      PlacedMeans(sections, placed, offset, pages, k);
    }
  }

  lemma PlacedMeans(sections: seq<Section>, placed: seq<Placed>, offset: nat, pages: nat, k: nat)
    requires Laid(sections, |sections|, placed, offset, pages) && WellAligned(sections) && k < |placed|
    ensures PlaceMeans(sections, placed[k])
  {
    hide OnGrid, AlignmentOk, LaidAll;
    assert PlacedWell(sections, placed[k], offset, pages);
    MultipleOfPage(placed[k].base - MODULE_LOAD_BASE, sections[placed[k].index]);
  }

  lemma LaidMembers(sections: seq<Section>, placed: seq<Placed>, offset: nat, pages: nat)
    requires Laid(sections, |sections|, placed, offset, pages)
    ensures forall i: nat :: i < |sections| ==>
              (sections[i].alloc && sections[i].size > 0 <==> exists k :: 0 <= k < |placed| && placed[k].index == i)
    ensures forall k, l :: 0 <= k < l < |placed| ==>
              placed[k].index < placed[l].index && placed[k].base + 4096 * placed[k].pages <= placed[l].base
  {
    WantedOnce(sections, |sections|);
    var w := WantedIndices(sections, |sections|);
    hide WantedIndices, PlacedWell;
    forall i: nat | i < |sections| && i in w
      ensures exists k :: 0 <= k < |placed| && placed[k].index == i
    {
      var k :| 0 <= k < |w| && w[k] == i;
      assert placed[k].index == i;
    }
  }

  /** The offset behind the first `n` sections. */
  ghost function OffsetAfter(sections: seq<Section>, n: nat): nat
    requires n <= |sections|
  {
    if n == 0 then 0
    else if !Wanted(sections[n - 1]) then OffsetAfter(sections, n - 1)
    else AlignUp(OffsetAfter(sections, n - 1), AlignOf(sections[n - 1])) + PAGE_SIZE * PagesOf(sections[n - 1].size)
  }

  lemma {:induction false} PagesNeededGrows(sections: seq<Section>, n: nat)
    requires n <= |sections|
    ensures PagesNeeded(sections, n) <= PagesNeeded(sections, |sections|)
    decreases |sections| - n
  {
    if n < |sections| {
      PagesNeededGrows(sections, n + 1);
    }
  }

  /** The ranges of two sections of a loaded module do not meet, and there are never too many for the mapping table. */
  lemma RangesApart(sections: seq<Section>, placed: seq<Placed>, offset: nat, pages: nat, k: nat, l: nat)
    requires Laid(sections, |sections|, placed, offset, pages) && pages <= MAX_MODULE_PAGES && k < |placed|
             && l < |placed|
    ensures |placed| <= MAX_MODULE_PAGES < SECTION_MAPPINGS
    ensures k != l ==> EndOf(placed[k]) <= placed[l].base || EndOf(placed[l]) <= placed[k].base
    ensures placed[k].base % PAGE_SIZE == 0 && Wanted(sections[placed[k].index])
            && sections[placed[k].index].size <= PAGE_SIZE * placed[k].pages
  {
    WantedOnly(sections, |sections|, k);
    assert PlacedWell(sections, placed[k], offset, pages);
  }

  lemma {:induction false} WantedOnly(sections: seq<Section>, n: nat, k: nat)
    requires n <= |sections| && k < |WantedIndices(sections, n)|
    ensures WantedIndices(sections, n)[k] < n && Wanted(sections[WantedIndices(sections, n)[k]])
  {
    if n > 0 && k < |WantedIndices(sections, n - 1)| {
      WantedOnly(sections, n - 1, k);
    }
  }

  // ---------------------------------------------------------------- what is mapped

  ghost function RunOf(base: nat, pages: nat): set<nat> {
    set j: nat | j < pages :: Page(base, j)
  }

  /** The pages of the placed sections. */
  ghost function PageSet(placed: seq<Placed>): set<nat> {
    if placed == [] then {}
      else PageSet(placed[..|placed| - 1]) + RunOf(placed[|placed| - 1].base, placed[|placed| - 1].pages)
  }

  lemma {:induction false} InPageSet(placed: seq<Placed>, k: nat, j: nat)
    requires k < |placed| && j < placed[k].pages
    ensures Page(placed[k].base, j) in PageSet(placed)
  {
    if k < |placed| - 1 {
      InPageSet(placed[..|placed| - 1], k, j);
    } else {
      assert Page(placed[k].base, j) in RunOf(placed[k].base, placed[k].pages);
    }
  }

  lemma {:induction false} PageSetOnly(placed: seq<Placed>, v: nat) returns (k: nat, j: nat)
    requires v in PageSet(placed)
    ensures k < |placed| && j < placed[k].pages && v == Page(placed[k].base, j)
  {
    var last := |placed| - 1;
    if v in RunOf(placed[last].base, placed[last].pages) {
      k := last;
      j :| j < placed[last].pages && v == Page(placed[last].base, j);
    } else {
      k, j := PageSetOnly(placed[..last], v);
    }
  }

  /**
   * The clean-up after a failure unmaps as many pages from the load base on as the module has frames. It reaches
   * every page of the placed sections if and only if the size of the load, gaps included, is within that range.
   */
  lemma {:induction false} CleanupReaches(sections: seq<Section>, n: nat, placed: seq<Placed>, offset: nat, pages: nat,
                                          frames: nat)
    requires n <= |sections| && Laid(sections, n, placed, offset, pages)
    ensures PageSet(placed) <= RunOf(MODULE_LOAD_BASE, frames) <==> offset <= PAGE_SIZE * frames
  {
    hide LaidAll, PagesOf, OnGrid;
    if placed != [] {
      var last := placed[|placed| - 1];
      assert PlacedWell(sections, last, offset, pages);
      InPageSet(placed, |placed| - 1, last.pages - 1);
      if PageSet(placed) <= RunOf(MODULE_LOAD_BASE, frames) {
        assert Page(last.base, last.pages - 1) in RunOf(MODULE_LOAD_BASE, frames);
      }
      if offset <= PAGE_SIZE * frames {
        forall v | v in PageSet(placed)
          ensures v in RunOf(MODULE_LOAD_BASE, frames)
        {
          PageBelow(sections, n, placed, offset, pages, v);
          assert v == Page(MODULE_LOAD_BASE, (v - MODULE_LOAD_BASE) / PAGE_SIZE);
        }
      }
    }
  }

  lemma {:induction false} PageBelow(sections: seq<Section>, n: nat, placed: seq<Placed>, offset: nat, pages: nat,
                                     v: nat)
    requires n <= |sections| && Laid(sections, n, placed, offset, pages) && v in PageSet(placed)
    ensures MODULE_LOAD_BASE <= v < MODULE_LOAD_BASE + offset && v % PAGE_SIZE == 0
  {
    hide OnGrid, LaidAll;
    var k, j := PageSetOnly(placed, v);
    assert PlacedWell(sections, placed[k], offset, pages);
  }

  /** Two small sections, the second aligned to two pages: the clean-up of both misses the second. */
  lemma CleanupMisses()
    ensures var sections := [Section(true, 1, 0, 1, 0), Section(true, 1, 0, 1, 0x2000)];
            var placed := [Placed(0, MODULE_LOAD_BASE, 1, 0), Placed(1, MODULE_LOAD_BASE + 0x2000, 1, 1)];
            && WellAligned(sections) && Laid(sections, 2, placed, 0x3000, 2)
            && AlignUp(0x1000, AlignOf(sections[1])) == 0x2000
            && !(PageSet(placed) <= RunOf(MODULE_LOAD_BASE, 2))
  {
    var sections := [Section(true, 1, 0, 1, 0), Section(true, 1, 0, 1, 0x2000)];
    var placed := [Placed(0, MODULE_LOAD_BASE, 1, 0), Placed(1, MODULE_LOAD_BASE + 0x2000, 1, 1)];
    assert Pow2(5) == 32;
    assert Pow2(9) == 512;
    assert sections[1].align == Pow2(13);
    assert WantedIndices(sections, 1) == [0] && WantedIndices(sections, 2) == [0, 1];
    assert Laid(sections, 2, placed, 0x3000, 2);
    CleanupReaches(sections, 2, placed, 0x3000, 2, 2);
  }
}
