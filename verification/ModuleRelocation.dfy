/** Relocation of a loaded module: every relocated word gets S + A or S + A - P, computed modulo 2^32. */
module ModuleRelocation {
  import opened Common
  import opened Bytes

  const R_386_32 := 1
  const R_386_PC32 := 2
  const R_386_PLT32 := 4

  /** Bytes by virtual address, where something is mapped. */
  type Memory = map<nat, byte>

  /** A symbol: `shndx` 0 is external, and the name is missing if it lies outside the string table. */
  datatype Sym = Sym(value: nat, shndx: nat, name: Option<string>)

  datatype Rel = Rel(offset: nat, symIndex: nat, kind: nat)

  /** A relocation section and the section it applies to. */
  datatype RelSection = RelSection(target: nat, rels: seq<Rel>)

  /** Where a section was put. */
  datatype Mapping = Mapping(section: nat, base: nat)

  /** What relocation looks things up in; a module may have no symbol table. */
  datatype Context = Context(symbols: Option<seq<Sym>>, sectionCount: nat, mappings: seq<Mapping>,
                             exported: map<string, nat>)

  // ---------------------------------------------------------------- words

  predicate HasWord(m: Memory, a: nat) {
    a in m && a + 1 in m && a + 2 in m && a + 3 in m
  }

  function ReadWord(m: Memory, a: nat): (w: nat)
    requires HasWord(m, a)
    ensures w < 0x1_0000_0000
  {
    ReadLe32([m[a], m[a + 1], m[a + 2], m[a + 3]], 0)
  }

  function WriteWord(m: Memory, a: nat, w: nat): Memory
    requires w < 0x1_0000_0000
  {
    var b := WriteLe32([0, 0, 0, 0], 0, w);
    m[a := b[0]][a + 1 := b[1]][a + 2 := b[2]][a + 3 := b[3]]
  }

  lemma WordRoundTrip(m: Memory, a: nat, w: nat)
    requires w < 0x1_0000_0000
    ensures HasWord(WriteWord(m, a, w), a) && ReadWord(WriteWord(m, a, w), a) == w
  {
    hide ReadLe32, WriteLe32;
    Le32RoundTrip([0, 0, 0, 0], 0, w);
    var b := WriteLe32([0, 0, 0, 0], 0, w);
    var r := WriteWord(m, a, w);
    assert [r[a], r[a + 1], r[a + 2], r[a + 3]] == b;
  }

  lemma SameWord(m: Memory, r: Memory, a: nat)
    requires HasWord(m, a) && HasWord(r, a) && forall x :: a <= x < a + 4 ==> m[x] == r[x]
    ensures ReadWord(m, a) == ReadWord(r, a)
  {
  }

  // ---------------------------------------------------------------- symbols

  /** The base of the first mapping of a section, or 0. */
  function BaseOf(mappings: seq<Mapping>, section: nat): nat {
    if mappings == [] then 0 else if mappings[0].section == section then mappings[0].base
      else BaseOf(mappings[1..], section)
  }

  predicate IsMapped(mappings: seq<Mapping>, section: nat) {
    mappings != [] && (mappings[0].section == section || IsMapped(mappings[1..], section))
  }

  /** `resolve_symbol_value`: the kernel's export, or section base plus value; 0 when there is neither. */
  function SymbolValue(c: Context, sym: Sym): nat {
    if sym.shndx == 0 then
      if sym.name.Some? && sym.name.value in c.exported then c.exported[sym.name.value] else 0
    else if IsMapped(c.mappings, sym.shndx) then Wrap32(BaseOf(c.mappings, sym.shndx) + sym.value)
    else 0
  }

  predicate Known(kind: nat) {
    kind == R_386_32 || kind == R_386_PC32 || kind == R_386_PLT32
  }

  // ---------------------------------------------------------------- patches

  /** One word to patch: its address, the symbol value, and whether it is relative to its own address. */
  datatype Patch = Patch(target: nat, value: nat, relative: bool)

  /** What the word gets when it holds `addend`. */
  function Relocated(p: Patch, addend: nat): (w: nat)
    ensures w < 0x1_0000_0000
  {
    Wrap32(p.value + addend - (if p.relative then p.target else 0))
  }

  ghost function Apply(m: Memory, p: Patch): Memory
    requires HasWord(m, p.target)
  {
    WriteWord(m, p.target, Relocated(p, ReadWord(m, p.target)))
  }

  ghost predicate Reachable(m: Memory, ps: seq<Patch>) {
    forall p :: p in ps ==> HasWord(m, p.target)
  }

  /** All patches, in order. */
  ghost function ApplyAll(m: Memory, ps: seq<Patch>): (r: Memory)
    requires Reachable(m, ps)
    ensures r.Keys == m.Keys
    decreases |ps|
  {
    if ps == [] then m else
      var p, q := ps[..|ps| - 1], ps[|ps| - 1];
      assert q in ps && forall x :: x in p ==> x in ps;
      var before := ApplyAll(m, p);
      assert HasWord(before, q.target) by { assert HasWord(m, q.target); assert before.Keys == m.Keys; }
      Apply(before, q)
  }

  /** The patches that a relocation section asks for, or none at the first symbol that cannot be resolved. */
  ghost function SectionPatches(c: Context, symbols: seq<Sym>, base: nat, rels: seq<Rel>): Option<seq<Patch>> {
    if rels == [] then Some([])
    else if !Known(rels[0].kind) then SectionPatches(c, symbols, base, rels[1..])
    else if rels[0].symIndex >= |symbols| then None
    else
      var sym := symbols[rels[0].symIndex];
      if SymbolValue(c, sym) == 0 && sym.shndx == 0 then None
      else Prepend([Patch(Wrap32(base + rels[0].offset), SymbolValue(c, sym), rels[0].kind != R_386_32)],
                   SectionPatches(c, symbols, base, rels[1..]))
  }

  ghost function Prepend(ps: seq<Patch>, rest: Option<seq<Patch>>): Option<seq<Patch>> {
    if rest.None? then None else Some(ps + rest.value)
  }

  /** A section is relocated if there are symbols and its target was loaded. */
  predicate Active(c: Context, s: RelSection) {
    c.symbols.Some? && s.target < c.sectionCount && BaseOf(c.mappings, s.target) != 0
  }

  /** The patches of all relocation sections, in order. */
  ghost function Patches(c: Context, sections: seq<RelSection>): Option<seq<Patch>> {
    if sections == [] then Some([])
    else if !Active(c, sections[0]) then Patches(c, sections[1..])
    else
      var first := SectionPatches(c, c.symbols.value, BaseOf(c.mappings, sections[0].target), sections[0].rels);
      if first.None? then None else Prepend(first.value, Patches(c, sections[1..]))
  }

  // ---------------------------------------------------------------- what relocation does to memory

  ghost predicate Apart(p: Patch, q: Patch) {
    p.target + 4 <= q.target || q.target + 4 <= p.target
  }

  ghost predicate Disjoint(ps: seq<Patch>) {
    forall i, j :: 0 <= i < j < |ps| ==> Apart(ps[i], ps[j])
  }

  ghost predicate Touched(ps: seq<Patch>, a: nat) {
    exists i :: 0 <= i < |ps| && Hits(ps[i], a)
  }

  ghost predicate Hits(p: Patch, a: nat) {
    p.target <= a < p.target + 4
  }

  lemma ApplyOne(m: Memory, q: Patch, a: nat)
    requires HasWord(m, q.target)
    ensures ReadWord(Apply(m, q), q.target) == Relocated(q, ReadWord(m, q.target))
    ensures a in m && !Hits(q, a) ==> Apply(m, q)[a] == m[a]
  {
    WordRoundTrip(m, q.target, Relocated(q, ReadWord(m, q.target)));
  }

  /** Bytes outside the patched words keep their values, whether or not the words overlap. */
  lemma {:induction false} OthersKept(m: Memory, ps: seq<Patch>, a: nat)
    requires Reachable(m, ps) && a in m && !Touched(ps, a)
    ensures ApplyAll(m, ps)[a] == m[a]
    decreases |ps|
  {
    if ps != [] {
      var p, q := ps[..|ps| - 1], ps[|ps| - 1];
      assert q in ps && forall x :: x in p ==> x in ps;
      assert !Touched(p, a) by {
        assert forall i :: 0 <= i < |p| ==> p[i] == ps[i];
      }
      OthersKept(m, p, a);
      assert !Hits(ps[|ps| - 1], a);
      ApplyOne(ApplyAll(m, p), q, a);
    }
  }

  /** Where the patched words are disjoint, each ends as S + A or S + A - P for its original contents A. */
  lemma {:induction false} EachRelocatedOnce(m: Memory, ps: seq<Patch>, i: nat)
    requires Reachable(m, ps) && Disjoint(ps) && i < |ps|
    ensures HasWord(m, ps[i].target) && HasWord(ApplyAll(m, ps), ps[i].target)
    ensures ReadWord(ApplyAll(m, ps), ps[i].target) == Relocated(ps[i], ReadWord(m, ps[i].target))
    decreases |ps|
  {
    hide ReadWord, Apply, Relocated, Apart;
    var p, q := ps[..|ps| - 1], ps[|ps| - 1];
    assert ps[i] in ps && q in ps && forall x :: x in p ==> x in ps;
    var before := ApplyAll(m, p);
    var t := ps[i].target;
    assert forall k :: 0 <= k < |p| ==> p[k] == ps[k];
    if i < |p| {
      EachRelocatedOnce(m, p, i);
      forall a | t <= a < t + 4
        ensures ApplyAll(m, ps)[a] == before[a]
      {
        ApartMisses(ps[i], q, a);
        ApplyOne(before, q, a);
      }
      SameWord(ApplyAll(m, ps), before, t);
    } else {
      forall a | t <= a < t + 4
        ensures before[a] == m[a]
      {
        forall k | 0 <= k < |p|
          ensures !Hits(p[k], a)
        {
          assert Apart(ps[k], ps[|ps| - 1]);
          ApartMisses(q, ps[k], a);
        }
        OthersKept(m, p, a);
      }
      SameWord(before, m, t);
      ApplyOne(before, q, t);
    }
  }

  lemma ApartMisses(p: Patch, q: Patch, a: nat)
    requires (Apart(p, q) || Apart(q, p)) && Hits(p, a)
    ensures !Hits(q, a)
  {
  }

  /** Patching in two goes is patching in one. */
  lemma {:induction false} ApplyConcat(m: Memory, a: seq<Patch>, b: seq<Patch>)
    requires Reachable(m, a) && Reachable(m, b)
    ensures Reachable(m, a + b) && Reachable(ApplyAll(m, a), b)
    ensures ApplyAll(ApplyAll(m, a), b) == ApplyAll(m, a + b)
    decreases |b|
  {
    hide Apply;
    StillReachable(m, a, b);
    if b == [] {
      assert a + b == a;
    } else {
      var c, q := b[..|b| - 1], b[|b| - 1];
      assert q in b && forall x :: x in c ==> x in b;
      ApplyConcat(m, a, c);
      assert (a + b)[..|a + b| - 1] == a + c && (a + b)[|a + b| - 1] == q;
    }
  }

  lemma {:induction false} StillReachable(m: Memory, a: seq<Patch>, b: seq<Patch>)
    requires Reachable(m, a) && Reachable(m, b)
    ensures Reachable(m, a + b) && Reachable(ApplyAll(m, a), b)
  {
    var r := ApplyAll(m, a);
    forall p | p in b
      ensures HasWord(r, p.target)
    {
      assert HasWord(m, p.target);
      assert r.Keys == m.Keys;
    }
  }
}
