/**
 What relocation does, told record by record: which records apply, when all of their symbols resolve, and what the word
 of each of them holds afterwards.
 */
module RelocationRecords {
  import opened Common
  import opened Bytes
  import opened ModuleRelocation

  /** Entry `m` is the first for that section. */
  ghost predicate FirstMapping(mappings: seq<Mapping>, section: nat, m: nat) {
    && m < |mappings| && mappings[m].section == section
    && forall l :: 0 <= l < m ==> mappings[l].section != section
  }

  /** A section was put at `base`. */
  ghost predicate PutAt(mappings: seq<Mapping>, section: nat, base: nat) {
    exists m: nat :: FirstMapping(mappings, section, m) && mappings[m].base == base
  }

  /** Record `j` of relocation section `i` is of a known kind, and its section was put at `base`. */
  ghost predicate Applies(c: Context, sections: seq<RelSection>, i: nat, j: nat, base: nat) {
    && i < |sections| && j < |sections[i].rels| && c.symbols.Some? && sections[i].target < c.sectionCount
    && base != 0 && PutAt(c.mappings, sections[i].target, base)
    && sections[i].rels[j].kind in {1, 2, 4}
  }

  /** The value S of a symbol: the kernel's export of that name, or its own value from the base of its section on. */
  ghost predicate Denotes(c: Context, sym: Sym, v: nat) {
    if sym.shndx == 0 then
      sym.name.Some? && sym.name.value in c.exported && v == c.exported[sym.name.value]
    else
      && (forall base: nat :: PutAt(c.mappings, sym.shndx, base) ==> v == (base + sym.value) % 0x1_0000_0000)
      && ((forall base: nat :: !PutAt(c.mappings, sym.shndx, base)) ==> v == 0)
  }

  /** The record names a symbol of the table, and if that is external the kernel exports something under its name. */
  ghost predicate Resolves(c: Context, rel: Rel)
    requires c.symbols.Some?
  {
    && rel.symIndex < |c.symbols.value|
    && (c.symbols.value[rel.symIndex].shndx == 0 ==>
        exists v: nat :: v != 0 && Denotes(c, c.symbols.value[rel.symIndex], v))
  }

  ghost predicate AllResolve(c: Context, sections: seq<RelSection>) {
    forall i: nat, j: nat, base: nat :: Applies(c, sections, i, j, base) ==> Resolves(c, sections[i].rels[j])
  }

  /** The address of the word of a record. */
  ghost function Target(sections: seq<RelSection>, i: nat, j: nat, base: nat): nat
    requires i < |sections| && j < |sections[i].rels|
  {
    (base + sections[i].rels[j].offset) % 0x1_0000_0000
  }

  ghost predicate ApartFrom(sections: seq<RelSection>, i: nat, j: nat, base: nat, k: nat, l: nat, base': nat)
    requires i < |sections| && j < |sections[i].rels| && k < |sections| && l < |sections[k].rels|
  {
    || Target(sections, i, j, base) + 4 <= Target(sections, k, l, base')
    || Target(sections, k, l, base') + 4 <= Target(sections, i, j, base)
  }

  /** No two records share a byte. */
  ghost predicate WordsApart(c: Context, sections: seq<RelSection>) {
    forall i: nat, j: nat, base: nat, k: nat, l: nat, base': nat ::
      Applies(c, sections, i, j, base) && Applies(c, sections, k, l, base') && (i != k || j != l) ==>
        ApartFrom(sections, i, j, base, k, l, base')
  }

  /** The record was carried out: its word went from A to S + A, or to S + A - P. */
  ghost predicate CarriedOut(c: Context, sections: seq<RelSection>, m: Memory, m': Memory, i: nat, j: nat, base: nat)
    requires Applies(c, sections, i, j, base)
  {
    var rel, t := sections[i].rels[j], Target(sections, i, j, base);
    && HasWord(m, t) && HasWord(m', t) && rel.symIndex < |c.symbols.value|
    && forall v: nat :: Denotes(c, c.symbols.value[rel.symIndex], v) ==>
         ReadWord(m', t) == (v + ReadWord(m, t) - (if rel.kind == 1 then 0 else t)) % 0x1_0000_0000
  }

  // ---------------------------------------------------------------- bases and symbols

  lemma {:induction false} BaseIs(mappings: seq<Mapping>, section: nat, m: nat)
    requires FirstMapping(mappings, section, m)
    ensures IsMapped(mappings, section) && BaseOf(mappings, section) == mappings[m].base
  {
    if m > 0 {
      assert mappings[0].section != section;
      BaseIs(mappings[1..], section, m - 1);
    }
  }

  lemma {:induction false} MappedFirst(mappings: seq<Mapping>, section: nat) returns (m: nat)
    requires IsMapped(mappings, section)
    ensures FirstMapping(mappings, section, m)
  {
    if mappings[0].section == section {
      m := 0;
    } else {
      m := MappedFirst(mappings[1..], section);
      m := m + 1;
    }
  }

  lemma {:induction false} NoBase(mappings: seq<Mapping>, section: nat)
    requires !IsMapped(mappings, section)
    ensures BaseOf(mappings, section) == 0
  {
    if mappings != [] {
      NoBase(mappings[1..], section);
    }
  }

  lemma {:induction false} PutIsBase(mappings: seq<Mapping>, section: nat, base: nat)
    ensures PutAt(mappings, section, base) <==> IsMapped(mappings, section) && base == BaseOf(mappings, section)
  {
    hide BaseOf, IsMapped;
    if IsMapped(mappings, section) {
      var m := MappedFirst(mappings, section);
      BaseIs(mappings, section, m);
    }
    if PutAt(mappings, section, base) {
      var m: nat :| FirstMapping(mappings, section, m) && mappings[m].base == base;
      BaseIs(mappings, section, m);
    }
  }

  lemma SymbolDenotes(c: Context, sym: Sym)
    ensures forall v: nat :: Denotes(c, sym, v) ==> v == SymbolValue(c, sym)
    ensures sym.shndx != 0 || SymbolValue(c, sym) != 0 ==> Denotes(c, sym, SymbolValue(c, sym))
  {
    hide BaseOf, IsMapped, PutAt;
    forall base: nat
      ensures PutAt(c.mappings, sym.shndx, base) <==>
                IsMapped(c.mappings, sym.shndx) && base == BaseOf(c.mappings, sym.shndx)
    {
      PutIsBase(c.mappings, sym.shndx, base);
    }
    assert IsMapped(c.mappings, sym.shndx) ==> PutAt(c.mappings, sym.shndx, BaseOf(c.mappings, sym.shndx));
  }

  // ---------------------------------------------------------------- records and patches

  /** Record `j` of relocation section `i` asks for a patch. */
  ghost predicate Asks(c: Context, sections: seq<RelSection>, i: nat, j: nat) {
    i < |sections| && j < |sections[i].rels| && Active(c, sections[i]) && Known(sections[i].rels[j].kind)
  }

  /** The symbol of a record can be had. */
  ghost predicate Resolved(c: Context, symbols: seq<Sym>, rel: Rel) {
    && rel.symIndex < |symbols|
    && !(SymbolValue(c, symbols[rel.symIndex]) == 0 && symbols[rel.symIndex].shndx == 0)
  }

  ghost function PatchOf(c: Context, symbols: seq<Sym>, base: nat, rel: Rel): Patch
    requires rel.symIndex < |symbols|
  {
    Patch(Wrap32(base + rel.offset), SymbolValue(c, symbols[rel.symIndex]), rel.kind != R_386_32)
  }

  lemma AppliesAsks(c: Context, sections: seq<RelSection>, i: nat, j: nat, base: nat)
    ensures Applies(c, sections, i, j, base) <==>
              Asks(c, sections, i, j) && base == BaseOf(c.mappings, sections[i].target)
  {
    hide PutAt, BaseOf, IsMapped;
    if i < |sections| {
      PutIsBase(c.mappings, sections[i].target, base);
      PutIsBase(c.mappings, sections[i].target, BaseOf(c.mappings, sections[i].target));
      if !IsMapped(c.mappings, sections[i].target) {
        NoBase(c.mappings, sections[i].target);
      }
    }
  }

  lemma ResolvesResolved(c: Context, rel: Rel)
    requires c.symbols.Some?
    ensures Resolves(c, rel) <==> Resolved(c, c.symbols.value, rel)
  {
    hide Denotes, SymbolValue;
    if rel.symIndex < |c.symbols.value| {
      SymbolDenotes(c, c.symbols.value[rel.symIndex]);
    }
  }

  ghost predicate FromRecord(c: Context, symbols: seq<Sym>, base: nat, rels: seq<Rel>, x: nat, p: Patch) {
    && x < |rels| && Known(rels[x].kind) && rels[x].symIndex < |symbols|
    && p == PatchOf(c, symbols, base, rels[x])
  }

  /** The patches of a section, each with the record it stems from. */
  ghost predicate TracedSection(c: Context, symbols: seq<Sym>, base: nat, rels: seq<Rel>, j: nat, ps: seq<Patch>,
                                js: seq<nat>)
  {
    && |js| == |ps|
    && (forall k :: 0 <= k < |js| ==> j <= js[k] && FromRecord(c, symbols, base, rels, js[k], ps[k]))
    && (forall k, l :: 0 <= k < l < |js| ==> js[k] < js[l])
    && forall x :: j <= x < |rels| && Known(rels[x].kind) ==> x in js
  }

  lemma {:induction false} TraceSection(c: Context, symbols: seq<Sym>, base: nat, rels: seq<Rel>, j: nat)
    returns (js: seq<nat>)
    requires j <= |rels|
    ensures SectionPatches(c, symbols, base, rels[j..]).Some? <==>
              forall x :: j <= x < |rels| && Known(rels[x].kind) ==> Resolved(c, symbols, rels[x])
    ensures SectionPatches(c, symbols, base, rels[j..]).Some? ==>
              TracedSection(c, symbols, base, rels, j, SectionPatches(c, symbols, base, rels[j..]).value, js)
    decreases |rels| - j
  {
    hide SymbolValue, Known, Resolved, PatchOf, TracedSection;
    js := [];
    if j == |rels| {
      assert TracedSection(c, symbols, base, rels, j, [], []) by { TracedNone(c, symbols, base, rels, j); }
    } else {
      js := TraceSection(c, symbols, base, rels, j + 1);
      SectionStep(c, symbols, base, rels, j);
      var rest := SectionPatches(c, symbols, base, rels[j + 1..]);
      if rest.Some? && (!Known(rels[j].kind) || Resolved(c, symbols, rels[j])) {
        js := TracedMore(c, symbols, base, rels, j, rest.value, js);
      }
    }
  }

  lemma TracedNone(c: Context, symbols: seq<Sym>, base: nat, rels: seq<Rel>, j: nat)
    requires j == |rels|
    ensures TracedSection(c, symbols, base, rels, j, [], [])
  {
  }

  lemma {:induction false} SectionStep(c: Context, symbols: seq<Sym>, base: nat, rels: seq<Rel>, j: nat)
    requires j < |rels|
    ensures var now, rest := SectionPatches(c, symbols, base, rels[j..]),
            SectionPatches(c, symbols, base, rels[j + 1..]);
            if !Known(rels[j].kind) then now == rest
            else if !Resolved(c, symbols, rels[j]) then now.None?
            else now == Prepend([PatchOf(c, symbols, base, rels[j])], rest)
  {
    hide SymbolValue, Known;
    assert rels[j..][0] == rels[j] && rels[j..][1..] == rels[j + 1..];
  }

  lemma TracedMore(c: Context, symbols: seq<Sym>, base: nat, rels: seq<Rel>, j: nat, ps: seq<Patch>, js: seq<nat>)
    returns (more: seq<nat>)
    requires j < |rels| && TracedSection(c, symbols, base, rels, j + 1, ps, js)
    requires Known(rels[j].kind) ==> Resolved(c, symbols, rels[j])
    ensures TracedSection(c, symbols, base, rels, j,
                          if Known(rels[j].kind) then [PatchOf(c, symbols, base, rels[j])] + ps else ps, more)
  {
    hide SymbolValue, Known, PatchOf;
    more := js;
    if Known(rels[j].kind) {
      var p := PatchOf(c, symbols, base, rels[j]);
      assert FromRecord(c, symbols, base, rels, j, p);
      hide FromRecord, Resolved;
      more := [j] + js;
      var all := [p] + ps;
      forall k | 0 <= k < |more|
        ensures j <= more[k] && FromRecord(c, symbols, base, rels, more[k], all[k])
      {
        assert k > 0 ==> more[k] == js[k - 1] && all[k] == ps[k - 1];
      }
      forall x | j <= x < |rels| && Known(rels[x].kind)
        ensures x in more
      {
        assert x > j ==> x in js;
      }
    }
  }

  /** A record by its relocation section and its place there. */
  datatype Origin = Origin(section: nat, record: nat)

  /** Patch `p` is the one that record `j` of section `i` asks for. */
  ghost predicate StemsFrom(c: Context, sections: seq<RelSection>, i: nat, j: nat, p: Patch) {
    && Asks(c, sections, i, j) && Resolved(c, c.symbols.value, sections[i].rels[j])
    && p == PatchOf(c, c.symbols.value, BaseOf(c.mappings, sections[i].target), sections[i].rels[j])
  }

  /** All patches from section `i` on, each with the record it stems from; no record is left out or told twice. */
  ghost predicate Traced(c: Context, sections: seq<RelSection>, i: nat, ps: seq<Patch>, os: seq<Origin>) {
    && |os| == |ps|
    && (forall k :: 0 <= k < |os| ==> os[k].section >= i && StemsFrom(c, sections, os[k].section, os[k].record, ps[k]))
    && (forall k, l :: 0 <= k < l < |os| ==> os[k] != os[l])
    && forall x: nat, y: nat :: x >= i && Asks(c, sections, x, y) ==> Origin(x, y) in os
  }

  lemma {:induction false} Trace(c: Context, sections: seq<RelSection>, i: nat) returns (os: seq<Origin>)
    requires i <= |sections|
    ensures Patches(c, sections[i..]).Some? <==>
              forall x: nat, y: nat :: x >= i && Asks(c, sections, x, y) ==>
                Resolved(c, c.symbols.value, sections[x].rels[y])
    ensures Patches(c, sections[i..]).Some? ==> Traced(c, sections, i, Patches(c, sections[i..]).value, os)
    decreases |sections| - i
  {
    hide SymbolValue, SectionPatches, Active, Known, Resolved, PatchOf, TracedSection;
    os := [];
    if i < |sections| {
      var s := sections[i];
      assert sections[i..][0] == s && sections[i..][1..] == sections[i + 1..];
      os := Trace(c, sections, i + 1);
      if Active(c, s) {
        assert c.symbols.Some? by { ActiveSymbols(c, s); }
        var base := BaseOf(c.mappings, s.target);
        var js := TraceSection(c, c.symbols.value, base, s.rels, 0);
        assert s.rels[0..] == s.rels;
        var first := SectionPatches(c, c.symbols.value, base, s.rels);
        if first.Some? && Patches(c, sections[i + 1..]).Some? {
          os := Joined(c, sections, i, first.value, js, Patches(c, sections[i + 1..]).value, os);
        }
      }
    }
  }

  lemma ActiveSymbols(c: Context, s: RelSection)
    requires Active(c, s)
    ensures c.symbols.Some?
  {
  }

  lemma Joined(c: Context, sections: seq<RelSection>, i: nat, first: seq<Patch>, js: seq<nat>, rest: seq<Patch>,
               os: seq<Origin>) returns (all: seq<Origin>)
    requires i < |sections| && Active(c, sections[i]) && c.symbols.Some?
    requires TracedSection(c, c.symbols.value, BaseOf(c.mappings, sections[i].target), sections[i].rels, 0, first, js)
    requires forall x :: 0 <= x < |sections[i].rels| && Known(sections[i].rels[x].kind) ==>
               Resolved(c, c.symbols.value, sections[i].rels[x])
    requires Traced(c, sections, i + 1, rest, os)
    ensures Traced(c, sections, i, first + rest, all)
  {
    hide Active, Known, Resolved, PatchOf, SymbolValue, FromRecord, StemsFrom, Asks;
    var mine := seq(|js|, k requires 0 <= k < |js| => Origin(i, js[k]));
    all := mine + os;
    var ps := first + rest;
    forall k | 0 <= k < |all|
      ensures all[k].section >= i && StemsFrom(c, sections, all[k].section, all[k].record, ps[k])
    {
      if k < |js| {
        RecordStems(c, sections, i, js[k], first[k]);
      } else {
        assert all[k] == os[k - |js|] && ps[k] == rest[k - |js|];
      }
    }
    forall x: nat, y: nat | x >= i && Asks(c, sections, x, y)
      ensures Origin(x, y) in all
    {
      if x == i {
        AsksKnown(c, sections, x, y);
        var k :| 0 <= k < |js| && js[k] == y;
        assert all[k] == Origin(x, y);
      } else {
        assert Origin(x, y) in os;
      }
    }
  }

  lemma RecordStems(c: Context, sections: seq<RelSection>, i: nat, x: nat, p: Patch)
    requires i < |sections| && Active(c, sections[i]) && c.symbols.Some?
    requires FromRecord(c, c.symbols.value, BaseOf(c.mappings, sections[i].target), sections[i].rels, x, p)
    requires forall y :: 0 <= y < |sections[i].rels| && Known(sections[i].rels[y].kind) ==>
               Resolved(c, c.symbols.value, sections[i].rels[y])
    ensures StemsFrom(c, sections, i, x, p)
  {
    hide PatchOf, SymbolValue, BaseOf;
  }

  lemma AsksKnown(c: Context, sections: seq<RelSection>, i: nat, j: nat)
    requires Asks(c, sections, i, j)
    ensures i < |sections| && j < |sections[i].rels| && Known(sections[i].rels[j].kind)
  {
  }

  // ---------------------------------------------------------------- the result

  /** Relocation succeeds exactly when every record that applies resolves. */
  lemma {:induction false} PatchesExist(c: Context, sections: seq<RelSection>)
    ensures Patches(c, sections).Some? <==> AllResolve(c, sections)
  {
    hide Applies, Asks, Resolves, Resolved, Patches;
    var _ := Trace(c, sections, 0);
    assert sections[0..] == sections;
    forall i: nat, j: nat, base: nat | Applies(c, sections, i, j, base)
      ensures Asks(c, sections, i, j) && i < |sections| && j < |sections[i].rels| && c.symbols.Some?
      ensures Resolves(c, sections[i].rels[j]) <==> Resolved(c, c.symbols.value, sections[i].rels[j])
    {
      AppliesAsks(c, sections, i, j, base);
      AsksSymbols(c, sections, i, j);
      ResolvesResolved(c, sections[i].rels[j]);
    }
    forall i: nat, j: nat | Asks(c, sections, i, j)
      ensures i < |sections| && Applies(c, sections, i, j, BaseOf(c.mappings, sections[i].target))
    {
      AsksSymbols(c, sections, i, j);
      AppliesAsks(c, sections, i, j, BaseOf(c.mappings, sections[i].target));
    }
  }

  lemma AsksSymbols(c: Context, sections: seq<RelSection>, i: nat, j: nat)
    requires Asks(c, sections, i, j)
    ensures i < |sections| && j < |sections[i].rels| && c.symbols.Some?
  {
  }

  lemma TracedPatch(c: Context, sections: seq<RelSection>, ps: seq<Patch>, os: seq<Origin>, i: nat, j: nat,
                    base: nat) returns (k: nat)
    requires Traced(c, sections, 0, ps, os) && Applies(c, sections, i, j, base)
    ensures k < |ps| == |os| && os[k] == Origin(i, j) && StemsFrom(c, sections, i, j, ps[k])
    ensures base == BaseOf(c.mappings, sections[i].target)
  {
    hide Applies, Asks, StemsFrom;
    AppliesAsks(c, sections, i, j, base);
    assert Origin(i, j) in os;
    k :| 0 <= k < |os| && os[k] == Origin(i, j);
  }

  /** Patches of records that lie apart lie apart. */
  lemma TracedApart(c: Context, sections: seq<RelSection>, ps: seq<Patch>, os: seq<Origin>)
    requires Traced(c, sections, 0, ps, os) && WordsApart(c, sections)
    ensures Disjoint(ps)
  {
    hide Applies, Asks, Apart, StemsFrom, ApartFrom;
    forall k, l | 0 <= k < l < |ps|
      ensures Apart(ps[k], ps[l])
    {
      assert StemsFrom(c, sections, os[k].section, os[k].record, ps[k])
             && StemsFrom(c, sections, os[l].section, os[l].record, ps[l]);
      var base := Stem(c, sections, os[k].section, os[k].record, ps[k]);
      var base' := Stem(c, sections, os[l].section, os[l].record, ps[l]);
      assert os[k] != os[l];
      assert ApartFrom(sections, os[k].section, os[k].record, base, os[l].section, os[l].record, base');
      TargetsApart(sections, os[k], base, os[l], base', ps[k], ps[l]);
    }
  }

  lemma TargetsApart(sections: seq<RelSection>, o: Origin, base: nat, o': Origin, base': nat, p: Patch,
                     q: Patch)
    requires o.section < |sections| && o.record < |sections[o.section].rels| && o'.section < |sections|
             && o'.record < |sections[o'.section].rels|
    requires ApartFrom(sections, o.section, o.record, base, o'.section, o'.record, base')
    requires p.target == Target(sections, o.section, o.record, base)
             && q.target == Target(sections, o'.section, o'.record, base')
    ensures Apart(p, q)
  {
  }

  lemma Stem(c: Context, sections: seq<RelSection>, i: nat, j: nat, p: Patch) returns (base: nat)
    requires StemsFrom(c, sections, i, j, p)
    ensures i < |sections| && j < |sections[i].rels|
    ensures Applies(c, sections, i, j, base) && p.target == Target(sections, i, j, base)
  {
    hide Applies;
    base := BaseOf(c.mappings, sections[i].target);
    AppliesAsks(c, sections, i, j, base);
  }

  /** What the word of a patch ends as, in terms of its record. */
  lemma StemMeans(c: Context, sections: seq<RelSection>, i: nat, j: nat, base: nat, p: Patch)
    requires StemsFrom(c, sections, i, j, p) && base == BaseOf(c.mappings, sections[i].target)
    ensures var rel := sections[i].rels[j];
            && p.target == Target(sections, i, j, base) && rel.symIndex < |c.symbols.value|
            && forall v: nat, a: nat :: Denotes(c, c.symbols.value[rel.symIndex], v) ==>
                 Relocated(p, a) == (v + a - (if rel.kind == 1 then 0 else p.target)) % 0x1_0000_0000
  {
    hide Denotes, SymbolValue;
    SymbolDenotes(c, c.symbols.value[sections[i].rels[j].symIndex]);
  }

  /** Where no two records share a byte, every record that applies is carried out. */
  lemma {:induction false} RecordsCarriedOut(c: Context, sections: seq<RelSection>, m: Memory, i: nat, j: nat,
                                             base: nat)
    requires Patches(c, sections).Some? && Reachable(m, Patches(c, sections).value) && WordsApart(c, sections)
    requires Applies(c, sections, i, j, base)
    ensures CarriedOut(c, sections, m, ApplyAll(m, Patches(c, sections).value), i, j, base)
  {
    hide Applies, Patches, Denotes, StemsFrom, WordsApart, Disjoint, Traced, ReadWord, Relocated;
    var ps := Patches(c, sections).value;
    var os := Trace(c, sections, 0);
    assert sections[0..] == sections;
    TracedApart(c, sections, ps, os);
    var k := TracedPatch(c, sections, ps, os, i, j, base);
    EachRelocatedOnce(m, ps, k);
    StemMeans(c, sections, i, j, base, ps[k]);
  }

  /** A byte that belongs to the word of no record keeps its value, whether or not records overlap. */
  lemma {:induction false} OtherBytesKept(c: Context, sections: seq<RelSection>, m: Memory, a: nat)
    requires Patches(c, sections).Some? && Reachable(m, Patches(c, sections).value) && a in m
    requires OutsideWords(c, sections, a)
    ensures a in ApplyAll(m, Patches(c, sections).value) && ApplyAll(m, Patches(c, sections).value)[a] == m[a]
  {
    hide Applies, Patches, StemsFrom;
    var ps := Patches(c, sections).value;
    var os := Trace(c, sections, 0);
    assert sections[0..] == sections;
    forall k | 0 <= k < |ps|
      ensures !Hits(ps[k], a)
    {
      var base := Stem(c, sections, os[k].section, os[k].record, ps[k]);
    }
    OthersKept(m, ps, a);
  }

  /** The four bytes of a word, lowest first. */
  lemma WordBytes(m: Memory, a: nat)
    requires HasWord(m, a)
    ensures ReadWord(m, a) == m[a] as int + 256 * (m[a + 1] as int) + 65536 * (m[a + 2] as int)
                              + 16777216 * (m[a + 3] as int)
  {
  }

  /** What relocation does to memory, for every record and every other byte. */
  ghost predicate Relocates(c: Context, sections: seq<RelSection>, m: Memory, m': Memory) {
    && m'.Keys == m.Keys
    && (WordsApart(c, sections) ==>
          forall i: nat, j: nat, base: nat :: Applies(c, sections, i, j, base) ==>
            CarriedOut(c, sections, m, m', i, j, base))
    && forall a :: a in m && OutsideWords(c, sections, a) ==> m'[a] == m[a]
  }

  ghost predicate OutsideWords(c: Context, sections: seq<RelSection>, a: nat) {
    forall i: nat, j: nat, base: nat :: Applies(c, sections, i, j, base) ==>
      !(Target(sections, i, j, base) <= a < Target(sections, i, j, base) + 4)
  }

  lemma {:induction false} PatchesRelocate(c: Context, sections: seq<RelSection>, m: Memory)
    requires Patches(c, sections).Some? && Reachable(m, Patches(c, sections).value)
    ensures Relocates(c, sections, m, ApplyAll(m, Patches(c, sections).value))
  {
    hide Applies, Patches, WordsApart, CarriedOut, ApplyAll, Reachable;
    var m' := ApplyAll(m, Patches(c, sections).value);
    forall i: nat, j: nat, base: nat | Applies(c, sections, i, j, base) && WordsApart(c, sections)
      ensures CarriedOut(c, sections, m, m', i, j, base)
    {
      RecordsCarriedOut(c, sections, m, i, j, base);
    }
    forall a: nat | a in m && OutsideWords(c, sections, a)
      ensures m'[a] == m[a]
    {
      OtherBytesKept(c, sections, m, a);
    }
  }
}
