/** `module_loader_t`: modules loaded one after another, each followed by its descriptor. */
module ModuleLoader {
  import opened Bytes
  import opened ElfLayout
  import opened ElfRelocation

  const SIZEOF_DESCRIPTOR := 64
  const SIZEOF_SECTION_HEADER := 40
  const STT_NOTYPE := 0

  /**
   * `elf_parser_t` on one image, with its symbol table and the sizes of the tables it carries along.
   * `named` says whether the image has a table of section names.
   */
  class ElfModule {
    const named: bool
    const sections: array<Section>
    const symbols: array<Symbol>
    const symtab: Table
    const strtab: Table
    const entry: nat

    constructor (named: bool, sections: array<Section>, symbols: array<Symbol>, symtab: Table, strtab: Table, entry: nat)
      ensures this.named == named && this.sections == sections && this.symbols == symbols
      ensures this.symtab == symtab && this.strtab == strtab && this.entry == entry
    {
      this.named, this.sections, this.symbols := named, sections, symbols;
      this.symtab, this.strtab, this.entry := symtab, strtab, entry;
    }

    /** `section_string_table`: it is looked up by name, and so not found without section names. */
    function StringTable(): Table {
      if named then strtab else NoTable
    }
  }

  datatype Table = NoTable | Table(size: nat)

  // ---- what an image must be ----

  /** Indices in range; the source uses them unchecked. */
  predicate Indexed(secs: seq<Section>, syms: seq<Symbol>) {
    && (forall i :: 0 <= i < |syms| ==> syms[i].shndx < |secs|)
    && (forall i :: 0 <= i < |secs| && secs[i].stype == SHT_REL ==> IndexedRels(secs, syms, i))
  }

  predicate IndexedRels(secs: seq<Section>, syms: seq<Symbol>, i: nat)
    requires i < |secs|
  {
    && secs[i].info < |secs|
    && forall j :: 0 <= j < |secs[i].rels| ==> secs[i].rels[j].sym < |syms|
  }

  /** The source panics on an undefined symbol. */
  predicate IsUndefined(sym: Symbol) { sym.stype == STT_NOTYPE && sym.shndx == 0 }

  // ---- the relocations of an image ----

  function FixOf(sh: Section, syms: seq<Symbol>, j: nat): Fix
    requires j < |sh.rels| && sh.rels[j].sym < |syms|
  {
    Fix(sh.info, sh.rels[j].offset, sh.rels[j].rtype, syms[sh.rels[j].sym])
  }

  /** The first `n` relocations of a section. */
  function SectionFixes(sh: Section, syms: seq<Symbol>, n: nat): (fixes: seq<Fix>)
    requires n <= |sh.rels| && forall j :: 0 <= j < |sh.rels| ==> sh.rels[j].sym < |syms|
    ensures |fixes| == n && forall j :: 0 <= j < n ==> fixes[j] == FixOf(sh, syms, j)
  {
    if n == 0 then [] else SectionFixes(sh, syms, n - 1) + [FixOf(sh, syms, n - 1)]
  }

  /** The relocations of the first `i` sections: those of relocation sections for allocated ones. */
  function FixesOf(secs: seq<Section>, syms: seq<Symbol>, i: nat): (fixes: seq<Fix>)
    requires Indexed(secs, syms) && i <= |secs|
    ensures forall k :: 0 <= k < |fixes| ==> fixes[k].sect < |secs| && fixes[k].sym.shndx < |secs|
  {
    if i == 0 then []
    else
      var sh := secs[i - 1];
      FixesOf(secs, syms, i - 1) +
      if Relocates(secs, syms, i - 1) then assert IndexedRels(secs, syms, i - 1); SectionFixes(sh, syms, |sh.rels|) else []
  }

  /** The relocations that `relocate_to` applies to an image: none at all without section names. */
  function Applied(named: bool, secs: seq<Section>, syms: seq<Symbol>): seq<Fix>
    requires Indexed(secs, syms)
  {
    if named then FixesOf(secs, syms, |secs|) else []
  }

  predicate Relocates(secs: seq<Section>, syms: seq<Symbol>, i: nat)
    requires i < |secs| && Indexed(secs, syms)
  {
    secs[i].stype == SHT_REL && (assert IndexedRels(secs, syms, i); secs[secs[i].info].alloc)
  }

  /** Entry `j` of section `i` is a relocation that is applied: its section is one of relocations for an allocated one. */
  ghost predicate IsApplied(secs: seq<Section>, syms: seq<Symbol>, i: nat, j: nat, f: Fix)
    requires Indexed(secs, syms)
  {
    && i < |secs| && secs[i].stype == SHT_REL && j < |secs[i].rels|
    && (assert IndexedRels(secs, syms, i); secs[secs[i].info].alloc
        && f == Fix(secs[i].info, secs[i].rels[j].offset, secs[i].rels[j].rtype, syms[secs[i].rels[j].sym]))
  }

  /** The relocations of an image are exactly the entries of the relocation sections for its allocated sections. */
  lemma {:induction false} FixesAre(secs: seq<Section>, syms: seq<Symbol>, n: nat, f: Fix)
    requires Indexed(secs, syms) && n <= |secs|
    ensures f in FixesOf(secs, syms, n) <==> exists i: nat, j: nat :: i < n && IsApplied(secs, syms, i, j, f)
    decreases n
  {
    if n > 0 {
      hide IsApplied, SectionFixes, Indexed;
      FixesAre(secs, syms, n - 1, f);
      OwnFixesAre(secs, syms, n - 1, f);
    }
  }

  /** The last section adds its own entries, if it is a relocation section for an allocated one. */
  lemma OwnFixesAre(secs: seq<Section>, syms: seq<Symbol>, i: nat, f: Fix)
    requires Indexed(secs, syms) && i < |secs|
    ensures f in FixesOf(secs, syms, i + 1) <==> f in FixesOf(secs, syms, i) || exists j: nat :: IsApplied(secs, syms, i, j, f)
  {
    FixesMore(secs, syms, i);
    forall j: nat ensures IsApplied(secs, syms, i, j, f) <==> IsOwn(secs, syms, i, j, f) { AppliedIsOwn(secs, syms, i, j, f); }
    hide IsApplied, Indexed, FixesOf;
    if Relocates(secs, syms, i) {
      var own := SectionFixes(secs[i], syms, |secs[i].rels|);
      if f in own {
        var j :| 0 <= j < |own| && own[j] == f;
        assert IsOwn(secs, syms, i, j, f);
      }
    }
  }

  ghost predicate IsOwn(secs: seq<Section>, syms: seq<Symbol>, i: nat, j: nat, f: Fix)
    requires Indexed(secs, syms) && i < |secs|
  {
    Relocates(secs, syms, i) && j < |secs[i].rels|
    && (assert IndexedRels(secs, syms, i); f == FixOf(secs[i], syms, j))
  }

  lemma AppliedIsOwn(secs: seq<Section>, syms: seq<Symbol>, i: nat, j: nat, f: Fix)
    requires Indexed(secs, syms) && i < |secs|
    ensures IsApplied(secs, syms, i, j, f) <==> IsOwn(secs, syms, i, j, f)
  {
    assert secs[i].stype == SHT_REL ==> IndexedRels(secs, syms, i);
  }

  // ---- descriptors ----

  datatype Descriptor = Descriptor(name: string, previous: nat, loadBase: nat, entryPoint: nat, loadedSize: nat,
                                   symtabStart: nat, strtabStart: nat)

  /** Addresses of the descriptors, newest first: each names the next, and the last names none. */
  ghost predicate Chained(descs: map<nat, Descriptor>, chain: seq<nat>) {
    && (forall i :: 0 <= i < |chain| ==> Linked(descs, chain, i))
    && forall a :: a in descs ==> a in chain
  }

  /** A module ends with its descriptor, and both lie above the descriptor before. */
  ghost predicate Linked(descs: map<nat, Descriptor>, chain: seq<nat>, i: nat)
    requires i < |chain|
  {
    && chain[i] in descs && 0 < chain[i]
    && var d := descs[chain[i]];
    && d.previous == (if i + 1 < |chain| then chain[i + 1] else 0)
    && d.loadBase + d.loadedSize == chain[i] + SIZEOF_DESCRIPTOR
    && (i + 1 < |chain| ==> chain[i + 1] + SIZEOF_DESCRIPTOR <= d.loadBase && chain[i + 1] + SIZEOF_DESCRIPTOR <= chain[i])
  }

  /** The names of the loaded modules, newest first. */
  ghost function Names(descs: map<nat, Descriptor>, chain: seq<nat>): (names: seq<string>)
    requires Chained(descs, chain)
    ensures |names| == |chain|
    ensures forall i :: 0 <= i < |chain| ==> Linked(descs, chain, i) && chain[i] in descs && names[i] == descs[chain[i]].name
  {
    AllThere(descs, chain);
    NamesAt(descs, chain)
  }

  lemma AllThere(descs: map<nat, Descriptor>, chain: seq<nat>)
    requires Chained(descs, chain)
    ensures forall i :: 0 <= i < |chain| ==> chain[i] in descs
  {
    forall i | 0 <= i < |chain| ensures chain[i] in descs { assert Linked(descs, chain, i); }
  }

  ghost function NamesAt(descs: map<nat, Descriptor>, at: seq<nat>): (names: seq<string>)
    requires forall i :: 0 <= i < |at| ==> at[i] in descs
    ensures |names| == |at| && forall i :: 0 <= i < |at| ==> names[i] == descs[at[i]].name
  {
    if at == [] then [] else NamesAt(descs, at[..|at| - 1]) + [descs[at[|at| - 1]].name]
  }

  /** Later modules lie wholly above earlier ones. */
  lemma {:induction false} ModulesDisjoint(descs: map<nat, Descriptor>, chain: seq<nat>, i: nat, j: nat)
    requires Chained(descs, chain) && i < j < |chain|
    ensures chain[i] in descs && chain[j] in descs
    ensures chain[j] + SIZEOF_DESCRIPTOR <= descs[chain[i]].loadBase && chain[j] + SIZEOF_DESCRIPTOR <= chain[i]
    decreases j
  {
    assert Linked(descs, chain, i) && Linked(descs, chain, j - 1) && Linked(descs, chain, j);
    if i < j - 1 {
      ModulesDisjoint(descs, chain, i, j - 1);
    }
  }

  lemma AllBelow(descs: map<nat, Descriptor>, chain: seq<nat>, i: nat)
    requires Chained(descs, chain) && i < |chain|
    ensures chain[i] <= chain[0]
  {
    assert Linked(descs, chain, 0);
    if i > 0 {
      ModulesDisjoint(descs, chain, 0, i);
    }
  }

  lemma ChainGrows(descs: map<nat, Descriptor>, chain: seq<nat>, at: nat, d: Descriptor)
    requires Chained(descs, chain) && 0 < at && d.loadBase + d.loadedSize == at + SIZEOF_DESCRIPTOR
    requires d.previous == if chain == [] then 0 else chain[0]
    requires chain != [] ==> chain[0] + SIZEOF_DESCRIPTOR <= d.loadBase && chain[0] + SIZEOF_DESCRIPTOR <= at
    ensures Chained(descs[at := d], [at] + chain)
    ensures Names(descs[at := d], [at] + chain) == [d.name] + Names(descs, chain)
  {
    hide Linked;
    var (e, c) := (descs[at := d], [at] + chain);
    HeadLinked(descs, chain, at, d);
    forall i | 1 <= i < |c| ensures Linked(e, c, i) {
      assert Linked(descs, chain, i - 1);
      AllBelow(descs, chain, i - 1);
      LinkStays(descs, chain, i - 1, at, d);
    }
    assert forall i :: 0 <= i < |c| ==> Linked(e, c, i);
    assert at !in chain by {
      forall i | 0 <= i < |chain| ensures chain[i] != at { AllBelow(descs, chain, i); }
    }
    NamesGrow(descs, chain, at, d);
  }

  lemma HeadLinked(descs: map<nat, Descriptor>, chain: seq<nat>, at: nat, d: Descriptor)
    requires 0 < at && d.loadBase + d.loadedSize == at + SIZEOF_DESCRIPTOR
    requires d.previous == if chain == [] then 0 else chain[0]
    requires chain != [] ==> chain[0] + SIZEOF_DESCRIPTOR <= d.loadBase && chain[0] + SIZEOF_DESCRIPTOR <= at
    ensures Linked(descs[at := d], [at] + chain, 0)
    ensures chain != [] ==> chain[0] < at
  {
  }

  lemma NamesGrow(descs: map<nat, Descriptor>, chain: seq<nat>, at: nat, d: Descriptor)
    requires Chained(descs, chain) && Chained(descs[at := d], [at] + chain) && at !in chain
    ensures Names(descs[at := d], [at] + chain) == [d.name] + Names(descs, chain)
  {
    hide Linked;
    var (e, c) := (descs[at := d], [at] + chain);
    forall i | 0 <= i < |c| ensures Names(e, c)[i] == ([d.name] + Names(descs, chain))[i] {
      NameAt(e, c, i);
      if i > 0 {
        assert c[i] == chain[i - 1];
        NameAt(descs, chain, i - 1);
      }
    }
  }

  lemma LinkStays(descs: map<nat, Descriptor>, chain: seq<nat>, i: nat, at: nat, d: Descriptor)
    requires i < |chain| && Linked(descs, chain, i) && chain[i] < at
    ensures Linked(descs[at := d], [at] + chain, i + 1)
  {
    var c := [at] + chain;
    assert c[i + 1] == chain[i];
    assert i + 1 < |chain| ==> c[i + 2] == chain[i + 1];
  }

  // ---- the loader ----

  datatype Outcome = Entry(address: nat) | AlreadyLoaded(descriptor: nat) | Panic

  /** Where the parts of a module were put after its sections. */
  datatype Tables = Tables(symtabStart: nat, strtabStart: nat, end: nat)

  function PlaceTables(end: nat, symtab: Table, strtab: Table): (t: Tables)
    ensures end <= t.end
    ensures symtab.Table? && symtab.size > 0 ==> end <= t.symtabStart && t.symtabStart + SIZEOF_SECTION_HEADER + symtab.size <= t.end
    ensures strtab.Table? ==> end <= t.strtabStart && t.strtabStart + SIZEOF_SECTION_HEADER + strtab.size <= t.end
    ensures symtab.Table? && symtab.size > 0 && strtab.Table? ==>
              t.symtabStart + SIZEOF_SECTION_HEADER + symtab.size <= t.strtabStart
  {
    var start := if symtab.Table? || strtab.Table? then PageAlignUp(end) else end;
    var mid := if symtab.Table? && symtab.size > 0 then start + SIZEOF_SECTION_HEADER + symtab.size else start;
    var last := if strtab.Table? then mid + SIZEOF_SECTION_HEADER + strtab.size else mid;
    Tables(start, mid, last)
  }

  class Loader {
    var first: nat
    var last: nat
    var mem: Memory
    var descs: map<nat, Descriptor>
    ghost var chain: seq<nat>

    ghost predicate Valid()
      reads this
    {
      && SIZEOF_DESCRIPTOR <= last
      && Chained(descs, chain)
      && if chain == [] then true else chain[0] == last - SIZEOF_DESCRIPTOR
    }

    ghost function Loaded(): seq<string>
      requires Valid()
      reads this
    {
      Names(descs, chain)
    }

    constructor (last: nat, mem: Memory)
      requires SIZEOF_DESCRIPTOR <= last
      ensures Valid() && Loaded() == [] && this.last == last && this.mem == mem && first == 0
    {
      first, this.last, this.mem, descs, chain := 0, last, mem, map[], [];
    }

    /** The first descriptor of the walk, if its magic is there. */
    lemma HeadIs()
      requires Valid()
      ensures last - SIZEOF_DESCRIPTOR in descs <==> chain != []
      ensures chain != [] ==> chain[0] == last - SIZEOF_DESCRIPTOR
    {
      if chain != [] {
        assert Linked(descs, chain, 0);
      }
    }

    /** `module_already_loaded`: true exactly for loaded names, and then the newest module of that name. */
    method ModuleAlreadyLoaded(name: string) returns (found: bool, descriptor: nat)
      requires Valid()
      ensures found <==> name in Loaded()
      ensures found ==> descriptor in descs && descs[descriptor].name == name
    {
      hide Linked;
      HeadIs();
      ghost var names := Loaded();
      var current := last - SIZEOF_DESCRIPTOR;
      ghost var k := 0;
      while current in descs
        invariant 0 <= k <= |chain| && (current in descs <==> k < |chain|) && (k < |chain| ==> current == chain[k])
        invariant name !in names[..k]
        decreases |chain| - k
      {
        NameAt(descs, chain, k);
        if descs[current].name == name {
          return true, current;
        }
        assert names[..k + 1] == names[..k] + [names[k]];
        NextLink(descs, chain, k);
        current := descs[current].previous;
        k := k + 1;
      }
      assert names[..k] == names;
      return false, 0;
    }

    /** `loaded_module_names`: newest first. */
    method LoadedModuleNames() returns (out: seq<string>)
      requires Valid()
      ensures out == Loaded()
    {
      hide Linked;
      HeadIs();
      ghost var names := Loaded();
      out := [];
      var current := last - SIZEOF_DESCRIPTOR;
      ghost var k := 0;
      while current in descs
        invariant 0 <= k <= |chain| && (current in descs <==> k < |chain|) && (k < |chain| ==> current == chain[k])
        invariant out == names[..k]
        decreases |chain| - k
      {
        NameAt(descs, chain, k);
        out := out + [descs[current].name];
        NextLink(descs, chain, k);
        current := descs[current].previous;
        k := k + 1;
      }
      assert names[..k] == names;
    }

    /** The second loop of `load_module`: sections are cleared or copied, and the end is raised to theirs. */
    method FillSections(sections: array<Section>, ghost secs: seq<Section>, base: nat)
      requires |secs| == sections.Length && AllBacked(secs) && LaidOut(sections[..], secs, base)
      modifies this`mem, this`last
      ensures mem == Filled(old(mem), secs, base, |secs|)
      ensures old(last) <= last
      ensures forall i :: 0 <= i < |secs| && secs[i].alloc ==> Placed(secs, base, i) + secs[i].size <= last
      ensures old(last) <= base + OffsetAt(secs, base, |secs|) ==> last <= base + OffsetAt(secs, base, |secs|)
    {
      hide Placed, Filled, Content;
      FilledNone(mem, secs, base);
      for i := 0 to sections.Length
        invariant mem == Filled(old(mem), secs, base, i) && old(last) <= last
        invariant forall j :: 0 <= j < i && secs[j].alloc ==> Placed(secs, base, j) + secs[j].size <= last
        invariant old(last) <= base + OffsetAt(secs, base, |secs|) ==> last <= base + OffsetAt(secs, base, |secs|)
      {
        FilledOneMore(old(mem), secs, base, i);
        var sh := sections[i];
        assert sections[..][i] == sh;
        if sh.alloc {
          LayoutIsSound(secs, base, i);
          ContentIs(secs[i]);
          if sh.stype == SHT_NOBITS {
            mem := Put(mem, sh.vaddr, Zeros(sh.size));
          } else {
            mem := Put(mem, sh.vaddr, sh.file[..sh.size]);
          }
          if sh.vaddr + sh.size > last {
            last := sh.vaddr + sh.size;
          }
        }
      }
    }

    /** One relocation; an undefined symbol panics, and an unknown type leaves the invalid result in place. */
    method ApplyRelocation(rel: Rel, sym: Symbol, sections: array<Section>, target: Section, ghost was: Symbol, ghost va: seq<nat>)
      returns (ok: bool)
      requires sym.shndx < sections.Length == |va| && sections[sym.shndx].vaddr == va[sym.shndx]
      requires was.shndx == sym.shndx && sym == was.(value := Patched(was, va))
      modifies this`mem
      ensures ok <==> !IsUndefined(was)
      ensures var p := target.vaddr + rel.offset;
        mem == if ok then Put(old(mem), p, Little(Result(rel.rtype, WordIn(old(mem), p), SymbolAddress(was, va), p), 4)) else old(mem)
      ensures ok ==> var p := target.vaddr + rel.offset;
        Prescribed(rel.rtype, WordOf(mem, p), WordOf(old(mem), p), Meaning(was, va), p)
    {
      hide Result, WordIn, WordOf, Patched, Prescribed;
      var p := target.vaddr + rel.offset;
      var a := WordIn(mem, p);
      if sym.stype == STT_NOTYPE && sym.shndx == 0 {
        return false;
      }
      var s := if sym.stype == STT_SECTION then sections[sym.shndx].vaddr else sym.value;
      WordOfIs(mem, p);
      ResultIsPrescribed(rel.rtype, a, was, va, p);
      mem := Put(mem, p, Little(Result(rel.rtype, a, s, p), 4));
      PutWord(old(mem), p, Result(rel.rtype, a, s, p));
      WordOfIs(mem, p);
      return true;
    }

    /** The inner loop of `relocate_to`, over one relocation section. */
    method RelocateSection(elf: ElfModule, i: nat, ghost secs: seq<Section>, ghost syms: seq<Symbol>, ghost va: seq<nat>,
                           ghost done: seq<Fix>, ghost m: Memory) returns (ok: bool)
      requires i < |secs| && Ready(elf, secs, syms, va) && Relocates(secs, syms, i)
      requires AllUsable(done, va) && mem == Relocated(m, done, va)
      modifies this`mem
      ensures IndexedRels(secs, syms, i)
      ensures var fixes := SectionFixes(secs[i], syms, |secs[i].rels|);
        && AllUsable(done + fixes, va)
        && (ok <==> NoneUndefined(fixes))
        && (ok ==> mem == Relocated(m, done + fixes, va))
    {
      hide Relocated, WordIn, WordOf, Result, SymbolAddress, Meaning, Prescribed;
      assert IndexedRels(secs, syms, i);
      var rels := elf.sections[i].rels;
      var target := elf.sections[elf.sections[i].info];
      ghost var sh := secs[i];
      assert done + SectionFixes(sh, syms, 0) == done;
      for j := 0 to |rels|
        invariant AllUsable(done + SectionFixes(sh, syms, j), va)
        invariant mem == Relocated(m, done + SectionFixes(sh, syms, j), va)
        invariant NoneUndefined(SectionFixes(sh, syms, j))
      {
        ghost var f := FixOf(sh, syms, j);
        RelocatedOneMore(m, done + SectionFixes(sh, syms, j), f, va);
        assert done + SectionFixes(sh, syms, j + 1) == (done + SectionFixes(sh, syms, j)) + [f];
        ok := ApplyRelocation(rels[j], elf.symbols[rels[j].sym], elf.sections, target, syms[rels[j].sym], va);
        if !ok {
          assert SectionFixes(sh, syms, |rels|)[j] == f;
          UsableAll(done, sh, syms, va);
          return;
        }
      }
      return true;
    }

    /** The loop of `relocate_to` over the relocation sections. */
    method RelocateSections(elf: ElfModule, ghost secs: seq<Section>, ghost syms: seq<Symbol>, ghost va: seq<nat>) returns (ok: bool)
      requires Ready(elf, secs, syms, va)
      modifies this`mem
      ensures var fixes := FixesOf(secs, syms, |secs|);
        && AllUsable(fixes, va)
        && (ok <==> NoneUndefined(fixes))
        && (ok ==> mem == Relocated(old(mem), fixes, va))
    {
      hide Relocated, SectionFixes, NoneUndefined;
      ghost var m := mem;
      RelocatedNone(m, va);
      NoneOfNone();
      for i := 0 to elf.sections.Length
        invariant AllUsable(FixesOf(secs, syms, i), va) && NoneUndefined(FixesOf(secs, syms, i))
        invariant mem == Relocated(m, FixesOf(secs, syms, i), va)
      {
        ghost var done := FixesOf(secs, syms, i);
        FixesMore(secs, syms, i);
        var relSection := elf.sections[i];
        if relSection.stype == SHT_REL {
          assert IndexedRels(secs, syms, i);
          var target := elf.sections[relSection.info];
          if target.alloc {
            ok := RelocateSection(elf, i, secs, syms, va, done, m);
            if !ok {
              UndefinedAppends(done, SectionFixes(secs[i], syms, |secs[i].rels|));
              UndefinedStays(secs, syms, i);
              return;
            }
            UndefinedAppends(done, SectionFixes(secs[i], syms, |secs[i].rels|));
          }
        }
      }
      return true;
    }

    /**
     * `relocate_to`: `ok` unless an undefined symbol panics. Its own result, `done`, is also false for
     * an image without section names, which it leaves as it is.
     */
    method RelocateTo(elf: ElfModule, ghost secs: seq<Section>, ghost syms: seq<Symbol>, ghost va: seq<nat>)
      returns (ok: bool, done: bool)
      requires Ready(elf, secs, syms, va)
      modifies this`mem
      ensures var fixes := Applied(elf.named, secs, syms);
        && AllUsable(fixes, va)
        && (ok <==> NoneUndefined(fixes))
        && (ok ==> mem == Relocated(old(mem), fixes, va))
      ensures done <==> elf.named && ok
      ensures !elf.named ==> mem == old(mem)
    {
      hide FixesOf;
      if !elf.named {
        RelocatedNone(mem, va);
        return true, false;
      }
      ok := RelocateSections(elf, secs, syms, va);
      done := ok;
    }

    /** The descriptor goes to the end of the last page, which is a fresh one if too little of it is left. */
    method PlaceDescriptor(name: string, base: nat, entryPoint: nat, symtabStart: nat, strtabStart: nat, previous: nat)
      requires previous + SIZEOF_DESCRIPTOR <= last && base == PageAlignUp(previous + SIZEOF_DESCRIPTOR) && Chained(descs, chain)
      requires chain != [] ==> chain[0] == previous
      requires previous in descs <==> chain != []
      modifies this`last, this`descs, this`chain
      ensures Valid() && Loaded() == [name] + Names(old(descs), old(chain))
      ensures last % PAGE_SIZE == 0 && old(last) + SIZEOF_DESCRIPTOR <= last < old(last) + SIZEOF_DESCRIPTOR + PAGE_SIZE
      ensures last - SIZEOF_DESCRIPTOR in descs
      ensures var d := descs[last - SIZEOF_DESCRIPTOR];
        && d.name == name && d.loadBase == base && d.loadBase + d.loadedSize == last && d.entryPoint == entryPoint
        && d.symtabStart == symtabStart && d.strtabStart == strtabStart
    {
      hide Linked, Chained, Names, PageAlignUp;
      var prev := last;
      AlignMonotone(previous + SIZEOF_DESCRIPTOR, last);
      last := PageAlignUp(last);
      if last - prev < SIZEOF_DESCRIPTOR {
        last := PageAlignUp(last + 1);
      }
      NextPage(prev);
      var d := Descriptor(name, if previous in descs then previous else 0, base, entryPoint, last - base, symtabStart, strtabStart);
      var at := last - SIZEOF_DESCRIPTOR;
      ChainGrows(descs, chain, at, d);
      descs := descs[at := d];
      chain := [at] + chain;
    }

    /** Sections laid out and filled, tables placed, symbols patched, relocations applied: all but the descriptor. */
    method Install(elf: ElfModule, base: nat, ghost secs: seq<Section>, ghost syms: seq<Symbol>) returns (t: Tables, ok: bool)
      requires secs == elf.sections[..] && syms == elf.symbols[..] && AllBacked(secs) && Indexed(secs, syms)
      requires last <= base
      modifies this`mem, this`last, elf.sections, elf.symbols
      ensures var (va, fixes) := (Addresses(secs, base), Applied(elf.named, secs, syms));
        && AllUsable(fixes, va)
        && (ok <==> NoneUndefined(fixes))
        && (ok ==> mem == LoadedAt(old(mem), secs, fixes, base))
      ensures exists end :: SectionsEnd(secs, base, old(last), end) && t == PlaceTables(end, elf.symtab, elf.StringTable())
      ensures old(last) <= last == t.end
    {
      hide Placed, Filled, OffsetAt, Relocated, Applied, NoneUndefined, Patched, Indexed, PlaceTables;
      ghost var old0, va := last, Addresses(secs, base);
      var sectionOffset := LayOut(elf.sections, base);
      assert LaidOut(elf.sections[..], secs, base);
      last := last + sectionOffset;
      FillSections(elf.sections, secs, base);
      ghost var end := last;
      assert SectionsEnd(secs, base, old0, end);
      t := PlaceTables(last, elf.symtab, elf.StringTable());
      last := t.end;
      IndexedSymbols(secs, syms);
      PatchSymbols(elf, va);
      // `load_module` ignores `done`: an image that was left unrelocated counts as loaded.
      var done;
      ok, done := RelocateTo(elf, secs, syms, va);
    }

    /**
     * `load_module`: a name already loaded leads back to its module; otherwise the module is put on the next
     * pages above everything loaded before, relocated there, and becomes the newest.
     */
    method LoadModule(name: string, elf: ElfModule, wantsClosure: bool) returns (r: Outcome)
      requires Valid() && |name| < 32
      requires AllBacked(elf.sections[..]) && Indexed(elf.sections[..], elf.symbols[..])
      modifies this, elf.sections, elf.symbols
      ensures !r.Panic? ==> Valid()
      ensures r.AlreadyLoaded? <==> name in old(Loaded()) && wantsClosure
      ensures r.AlreadyLoaded? ==> unchanged(this) && r.descriptor in descs && descs[r.descriptor].name == name
      ensures var (secs, syms) := (old(elf.sections[..]), old(elf.symbols[..]));
        r.Entry? <==> name !in old(Loaded()) && |secs| > 0 && NoneUndefined(Applied(elf.named, secs, syms))
      ensures r.Entry? ==> Loaded() == [name] + old(Loaded())
      ensures r.Entry? ==>
        var (secs, syms, base) := (old(elf.sections[..]), old(elf.symbols[..]), PageAlignUp(old(last)));
        var fixes := Applied(elf.named, secs, syms);
        && r.address == elf.entry + base
        && AllUsable(fixes, Addresses(secs, base)) && mem == LoadedAt(old(mem), secs, fixes, base)
        && (AllInside(fixes, secs) && DistinctTargets(fixes) ==> AllMeant(mem, secs, base, fixes))
        && last - SIZEOF_DESCRIPTOR in descs
        && Arranged(secs, base, old(last), elf.symtab, elf.StringTable(), descs[last - SIZEOF_DESCRIPTOR], last)
    {
      hide Linked, Chained, Names, LoadedAt, AllMeant, AllInside, DistinctTargets, Applied, NoneUndefined, Addresses,
           AllBacked, Indexed, SectionsEnd, Arranged;
      HeadIs();
      var found, descriptor := ModuleAlreadyLoaded(name);
      if found {
        return if wantsClosure then AlreadyLoaded(descriptor) else Panic;
      }
      r := LoadNew(name, elf);
    }

    /** The rest of `load_module`, for a name not loaded yet. */
    method LoadNew(name: string, elf: ElfModule) returns (r: Outcome)
      requires Valid() && AllBacked(elf.sections[..]) && Indexed(elf.sections[..], elf.symbols[..])
      modifies this, elf.sections, elf.symbols
      ensures !r.AlreadyLoaded? && (r.Entry? ==> Valid() && Loaded() == [name] + old(Loaded()))
      ensures var (secs, syms) := (old(elf.sections[..]), old(elf.symbols[..]));
        r.Entry? <==> |secs| > 0 && NoneUndefined(Applied(elf.named, secs, syms))
      ensures r.Entry? ==>
        var (secs, syms, base) := (old(elf.sections[..]), old(elf.symbols[..]), PageAlignUp(old(last)));
        var fixes := Applied(elf.named, secs, syms);
        && r.address == elf.entry + base
        && AllUsable(fixes, Addresses(secs, base)) && mem == LoadedAt(old(mem), secs, fixes, base)
        && (AllInside(fixes, secs) && DistinctTargets(fixes) ==> AllMeant(mem, secs, base, fixes))
        && last - SIZEOF_DESCRIPTOR in descs
        && Arranged(secs, base, old(last), elf.symtab, elf.StringTable(), descs[last - SIZEOF_DESCRIPTOR], last)
    {
      hide Linked, Chained, Names, LoadedAt, AllMeant, AllInside, DistinctTargets, Applied, NoneUndefined, Addresses,
           AllBacked, Indexed, SectionsEnd, Arranged;
      HeadIs();
      var previous := last - SIZEOF_DESCRIPTOR;
      var sectionBase := PageAlignUp(last);
      if first == 0 {
        first := sectionBase;
      }
      if elf.sections.Length == 0 {
        return Panic;
      }
      ghost var secs, syms, old0, mem0 := elf.sections[..], elf.symbols[..], last, mem;
      var t, ok := Install(elf, sectionBase, secs, syms);
      if !ok {
        return Panic;
      }
      MeantIfApart(mem0, secs, Applied(elf.named, secs, syms), sectionBase);
      ghost var end :| SectionsEnd(secs, sectionBase, old0, end) && t == PlaceTables(end, elf.symtab, elf.StringTable());
      PlaceDescriptor(name, sectionBase, elf.entry + sectionBase,
                      if elf.symtab.Table? && elf.symtab.size > 0 then t.symtabStart else 0,
                      if elf.StringTable().Table? then t.strtabStart else 0, previous);
      ArrangedIs(secs, sectionBase, old0, elf.symtab, elf.StringTable(), end, descs[last - SIZEOF_DESCRIPTOR], last);
      return Entry(elf.entry + sectionBase);
    }
  }

  /** All sections end at or below `end`, which lies within the space laid out, or where the loader stood. */
  ghost predicate SectionsEnd(secs: seq<Section>, base: nat, last: nat, end: nat) {
    && (forall i :: 0 <= i < |secs| && secs[i].alloc ==> Placed(secs, base, i) + secs[i].size <= end)
    && last <= end <= base + OffsetAt(secs, base, |secs|)
  }

  lemma MeantIfApart(m: Memory, secs: seq<Section>, fixes: seq<Fix>, base: nat)
    requires AllBacked(secs) && AllUsable(fixes, Addresses(secs, base))
    ensures AllInside(fixes, secs) && DistinctTargets(fixes) ==> AllMeant(LoadedAt(m, secs, fixes, base), secs, base, fixes)
  {
    if AllInside(fixes, secs) && DistinctTargets(fixes) { LoadedAsMeant(m, secs, fixes, base); }
  }

  lemma ArrangedIs(secs: seq<Section>, base: nat, before: nat, symtab: Table, strtab: Table, end: nat, d: Descriptor, last: nat)
    requires SectionsEnd(secs, base, before, end) && base == d.loadBase == PageAlignUp(before) && last % PAGE_SIZE == 0
    requires d.loadBase + d.loadedSize == last && PlaceTables(end, symtab, strtab).end <= last - SIZEOF_DESCRIPTOR
    requires d.symtabStart == if symtab.Table? && symtab.size > 0 then PlaceTables(end, symtab, strtab).symtabStart else 0
    requires d.strtabStart == if strtab.Table? then PlaceTables(end, symtab, strtab).strtabStart else 0
    ensures Arranged(secs, base, before, symtab, strtab, d, last)
  {
    hide SectionsEnd, PlaceTables;
  }

  lemma IndexedSymbols(secs: seq<Section>, syms: seq<Symbol>)
    requires Indexed(secs, syms)
    ensures forall i :: 0 <= i < |syms| ==> syms[i].shndx < |secs|
  {
  }

  /**
   * Base, sections, tables and descriptor of a loaded module, from low to high and apart from each other and from
   * all that was there before.
   */
  ghost predicate Arranged(secs: seq<Section>, base: nat, before: nat, symtab: Table, strtab: Table, d: Descriptor, last: nat) {
    && before <= base == d.loadBase && base % PAGE_SIZE == 0 && last % PAGE_SIZE == 0 && d.loadBase + d.loadedSize == last
    && exists end :: SectionsEnd(secs, base, before, end) && TablesApart(end, symtab, strtab, d, last - SIZEOF_DESCRIPTOR)
  }

  ghost predicate TablesApart(end: nat, symtab: Table, strtab: Table, d: Descriptor, descriptor: int) {
    && end <= descriptor
    && (symtab.Table? && symtab.size > 0 ==>
          end <= d.symtabStart && d.symtabStart + SIZEOF_SECTION_HEADER + symtab.size <= descriptor)
    && (strtab.Table? ==> end <= d.strtabStart && d.strtabStart + SIZEOF_SECTION_HEADER + strtab.size <= descriptor)
    && (symtab.Table? && symtab.size > 0 && strtab.Table? ==>
          d.symtabStart + SIZEOF_SECTION_HEADER + symtab.size <= d.strtabStart)
  }

  lemma AlignMonotone(a: nat, b: nat)
    requires a <= b
    ensures PageAlignUp(a) <= PageAlignUp(b)
  {
    var (p, q) := (PageAlignUp(a), PageAlignUp(b));
    assert p == PAGE_SIZE * (p / PAGE_SIZE) && q == PAGE_SIZE * (q / PAGE_SIZE);
  }

  lemma NextPage(prev: nat)
    ensures var p := PageAlignUp(prev);
      if p - prev < SIZEOF_DESCRIPTOR then prev + SIZEOF_DESCRIPTOR <= PageAlignUp(p + 1) < prev + SIZEOF_DESCRIPTOR + PAGE_SIZE
      else p < prev + SIZEOF_DESCRIPTOR + PAGE_SIZE
  {
    var p := PageAlignUp(prev);
    var q := PageAlignUp(p + 1);
    assert p == PAGE_SIZE * (p / PAGE_SIZE) && q == PAGE_SIZE * (q / PAGE_SIZE);
  }

  /** The headers and symbols as they are when relocation starts: addresses assigned, values patched. */
  ghost predicate Ready(elf: ElfModule, secs: seq<Section>, syms: seq<Symbol>, va: seq<nat>)
    reads elf.sections, elf.symbols
  {
    && Indexed(secs, syms) && |va| == |secs| == elf.sections.Length && |syms| == elf.symbols.Length
    && (forall i :: 0 <= i < |secs| ==> elf.sections[i] == secs[i].(vaddr := va[i]))
    && forall i :: 0 <= i < |syms| ==> elf.symbols[i] == syms[i].(value := Patched(syms[i], va))
  }

  ghost predicate NoneUndefined(fixes: seq<Fix>) { forall i :: 0 <= i < |fixes| ==> !IsUndefined(fixes[i].sym) }

  lemma NoneOfNone()
    ensures NoneUndefined([])
  {
  }

  lemma UndefinedAppends(a: seq<Fix>, b: seq<Fix>)
    ensures NoneUndefined(a + b) <==> NoneUndefined(a) && NoneUndefined(b)
  {
    if NoneUndefined(a + b) {
      assert forall i :: 0 <= i < |a| ==> (a + b)[i] == a[i];
      assert forall i :: 0 <= i < |b| ==> (a + b)[|a| + i] == b[i];
    }
  }

  lemma RelocatedNone(m: Memory, va: seq<nat>)
    ensures Relocated(m, [], va) == m
  {
  }

  lemma RelocatedOneMore(m: Memory, fixes: seq<Fix>, f: Fix, va: seq<nat>)
    requires AllUsable(fixes, va) && Usable(f, va)
    ensures AllUsable(fixes + [f], va)
    ensures var before := Relocated(m, fixes, va);
      Relocated(m, fixes + [f], va) == Put(before, Place(f, va), Little(Fixed(before, f, va), 4))
  {
    assert (fixes + [f])[..|fixes|] == fixes;
  }

  lemma UsableAll(done: seq<Fix>, sh: Section, syms: seq<Symbol>, va: seq<nat>)
    requires AllUsable(done, va) && sh.info < |va| && forall j :: 0 <= j < |sh.rels| ==> sh.rels[j].sym < |syms|
    requires forall j :: 0 <= j < |syms| ==> syms[j].shndx < |va|
    ensures AllUsable(done + SectionFixes(sh, syms, |sh.rels|), va)
  {
  }

  lemma FixesMore(secs: seq<Section>, syms: seq<Symbol>, i: nat)
    requires Indexed(secs, syms) && i < |secs|
    ensures Relocates(secs, syms, i) ==> IndexedRels(secs, syms, i)
    ensures Relocates(secs, syms, i) ==>
      FixesOf(secs, syms, i + 1) == FixesOf(secs, syms, i) + SectionFixes(secs[i], syms, |secs[i].rels|)
    ensures !Relocates(secs, syms, i) ==> FixesOf(secs, syms, i + 1) == FixesOf(secs, syms, i)
  {
    assert secs[i].stype == SHT_REL ==> IndexedRels(secs, syms, i);
  }

  lemma {:induction false} UndefinedStays(secs: seq<Section>, syms: seq<Symbol>, i: nat)
    requires Indexed(secs, syms) && i < |secs| && !NoneUndefined(FixesOf(secs, syms, i + 1))
    ensures !NoneUndefined(FixesOf(secs, syms, |secs|))
    decreases |secs| - i
  {
    if i + 1 < |secs| {
      hide FixesOf, NoneUndefined, Indexed, SectionFixes;
      FixesMore(secs, syms, i + 1);
      if Relocates(secs, syms, i + 1) {
        UndefinedAppends(FixesOf(secs, syms, i + 1), SectionFixes(secs[i + 1], syms, |secs[i + 1].rels|));
      }
      UndefinedStays(secs, syms, i + 1);
    }
  }

  /** "Update symbols values": in the loaded copy of the symbol table. */
  method PatchSymbols(elf: ElfModule, ghost va: seq<nat>)
    requires |va| == elf.sections.Length && forall i :: 0 <= i < |va| ==> elf.sections[i].vaddr == va[i]
    requires forall i :: 0 <= i < elf.symbols.Length ==> elf.symbols[i].shndx < |va|
    modifies elf.symbols
    ensures forall i :: 0 <= i < elf.symbols.Length ==>
              elf.symbols[i] == old(elf.symbols[i]).(value := Patched(old(elf.symbols[i]), va))
  {
    for i := 0 to elf.symbols.Length
      invariant forall j :: 0 <= j < i ==> elf.symbols[j] == old(elf.symbols[j]).(value := Patched(old(elf.symbols[j]), va))
      invariant forall j :: i <= j < elf.symbols.Length ==> elf.symbols[j] == old(elf.symbols[j])
    {
      var symbol := elf.symbols[i];
      if symbol.stype < STT_SECTION {
        elf.symbols[i] := symbol.(value := Low(symbol.value + elf.sections[symbol.shndx].vaddr));
      }
    }
  }

  lemma NameAt(descs: map<nat, Descriptor>, chain: seq<nat>, k: nat)
    requires Chained(descs, chain) && k < |chain|
    ensures chain[k] in descs && Names(descs, chain)[k] == descs[chain[k]].name
  {
    assert Linked(descs, chain, k);
  }

  lemma NextLink(descs: map<nat, Descriptor>, chain: seq<nat>, k: nat)
    requires Chained(descs, chain) && k < |chain|
    ensures chain[k] in descs
    ensures var p := descs[chain[k]].previous;
      (p in descs <==> k + 1 < |chain|) && (k + 1 < |chain| ==> p == chain[k + 1])
  {
    assert Linked(descs, chain, k);
    if k + 1 < |chain| {
      assert Linked(descs, chain, k + 1);
    }
    forall a | a in descs ensures a > 0 {
      Positive(descs, chain, a);
    }
  }

  lemma Positive(descs: map<nat, Descriptor>, chain: seq<nat>, a: nat)
    requires Chained(descs, chain) && a in descs
    ensures a > 0
  {
    var j :| 0 <= j < |chain| && chain[j] == a;
    assert Linked(descs, chain, j);
  }

  /** The headers hold the addresses of the layout. */
  ghost predicate LaidOut(now: seq<Section>, secs: seq<Section>, base: nat) {
    |now| == |secs| && forall i :: 0 <= i < |secs| ==> now[i] == secs[i].(vaddr := VAddr(secs, base, i))
  }

  lemma FilledNone(m: Memory, secs: seq<Section>, base: nat)
    requires AllBacked(secs)
    ensures Filled(m, secs, base, 0) == m
  {
  }

  lemma FilledOneMore(m: Memory, secs: seq<Section>, base: nat, i: nat)
    requires AllBacked(secs) && i < |secs|
    ensures secs[i].alloc ==>
      Filled(m, secs, base, i + 1) == Put(Filled(m, secs, base, i), Placed(secs, base, i), Content(secs[i]))
    ensures !secs[i].alloc ==> Filled(m, secs, base, i + 1) == Filled(m, secs, base, i)
  {
  }

  lemma ContentIs(sh: Section)
    requires sh.alloc && Backed(sh)
    ensures Content(sh) == if sh.stype == SHT_NOBITS then Zeros(sh.size) else sh.file[..sh.size]
  {
  }
}
