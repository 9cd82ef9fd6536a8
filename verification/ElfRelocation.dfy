/**
 * Relocation of a loaded module: the Relocation section in chapter 4 of the System V ABI, Intel386 Architecture
 * Processor Supplement.
 */
module ElfRelocation {
  import opened Bytes
  import opened ElfLayout

  const R_386_NONE := 0
  const R_386_32 := 1
  const R_386_PC32 := 2
  const STT_SECTION := 3
  const INVALID := 0xdeadbeef

  datatype Symbol = Symbol(value: nat, stype: nat, shndx: nat)

  // ---- memory ----

  type Memory = nat -> Byte

  function Put(m: Memory, at: nat, bytes: seq<Byte>): Memory {
    (a: nat) => if at <= a < at + |bytes| then bytes[a - at] else m(a)
  }

  function Four(m: Memory, at: nat): (bytes: seq<Byte>)
    ensures |bytes| == 4
  {
    [m(at), m(at + 1), m(at + 2), m(at + 3)]
  }

  function WordIn(m: Memory, at: nat): (w: nat)
    ensures w < WORD
  {
    FourBytes();
    LittleOfValue(Four(m, at), 0, 4);
    Value(Four(m, at), 0, 4)
  }

  lemma PutWord(m: Memory, at: nat, w: nat)
    requires w < WORD
    ensures WordIn(Put(m, at, Little(w, 4)), at) == w
  {
    hide Little, Value;
    FourBytes();
    var n := Put(m, at, Little(w, 4));
    assert Four(n, at) == Little(w, 4);
    assert Four(n, at)[0..4] == Little(w, 4);
    ValueOfLittle(Four(n, at), 0, w, 4);
  }

  // ---- symbols ----

  /** The value of a symbol once its loaded copy is patched. */
  function Patched(sym: Symbol, va: seq<nat>): nat
    requires sym.shndx < |va|
  {
    if sym.stype < STT_SECTION then Low(sym.value + va[sym.shndx]) else sym.value
  }

  /** S of the relocation formulas. */
  function SymbolAddress(sym: Symbol, va: seq<nat>): nat
    requires sym.shndx < |va|
  {
    if sym.stype == STT_SECTION then va[sym.shndx] else Patched(sym, va)
  }

  // ---- relocations ----

  /** A relocation together with the section it is in. */
  datatype Fix = Fix(sect: nat, offset: nat, rtype: nat, sym: Symbol)

  function Result(rtype: nat, a: nat, s: nat, p: nat): (w: nat)
    requires a < WORD
    ensures w < WORD
  {
    if rtype == R_386_NONE then a
    else if rtype == R_386_32 then Low(s + a)
    else if rtype == R_386_PC32 then Low(s + a - p)
    else INVALID
  }

  /** The word of four bytes, least significant first. */
  function Joined(b0: nat, b1: nat, b2: nat, b3: nat): nat {
    b0 + 0x100 * b1 + 0x1_0000 * b2 + 0x100_0000 * b3
  }

  function WordOf(m: Memory, at: nat): nat {
    Joined(m(at), m(at + 1), m(at + 2), m(at + 3))
  }

  /** What a symbol stands for: its section, or a place in it; a symbol of another kind has its address as value. */
  function Meaning(sym: Symbol, va: seq<nat>): nat
    requires sym.shndx < |va|
  {
    if sym.stype == STT_SECTION then va[sym.shndx]
    else if sym.stype < STT_SECTION then va[sym.shndx] + sym.value
    else sym.value
  }

  /**
   * The word `w` at place `p` is what its relocation asks for, in 32 bits: the addend `a` as it was, the
   * symbol's address and the addend, or the distance from the place to that.
   */
  predicate Prescribed(rtype: nat, w: nat, a: nat, s: nat, p: nat) {
    && w < 0x1_0000_0000
    && (rtype == R_386_NONE ==> w == a)
    && (rtype == R_386_32 ==> (w - (s + a)) % 0x1_0000_0000 == 0)
    && (rtype == R_386_PC32 ==> (w + p - (s + a)) % 0x1_0000_0000 == 0)
    && (rtype > R_386_PC32 ==> w == INVALID)
  }

  lemma WordOfIs(m: Memory, at: nat)
    ensures WordIn(m, at) == WordOf(m, at)
  {
    var b := Four(m, at);
    assert Value(b, 3, 1) == b[3];
    assert Value(b, 2, 2) == b[2] + 256 * Value(b, 3, 1);
    assert Value(b, 1, 3) == b[1] + 256 * Value(b, 2, 2);
  }

  lemma LowIs(x: int)
    ensures (Low(x) - x) % WORD == 0
  {
    assert x == x / WORD * WORD + Low(x);
    LowMultiple(0, -(x / WORD));
  }

  /** Once symbols are patched, the formulas of the loop compute what is prescribed. */
  lemma ResultIsPrescribed(rtype: nat, a: nat, sym: Symbol, va: seq<nat>, p: nat)
    requires a < WORD && sym.shndx < |va|
    ensures Prescribed(rtype, Result(rtype, a, SymbolAddress(sym, va), p), a, Meaning(sym, va), p)
  {
    var (s, t) := (SymbolAddress(sym, va), Meaning(sym, va));
    assert s == t || s == Low(t);
    var x := if rtype == R_386_PC32 then a - p else a;
    LowAdds(t, x);
    LowIs(t + x);
    hide Low, SymbolAddress, Meaning;
    assert rtype == R_386_PC32 ==> Low(t + x) + p - (t + a) == Low(t + x) - (t + x);
  }

  /** The section and the symbol's section are ones the layout has an address for. */
  predicate Usable(f: Fix, va: seq<nat>) { f.sect < |va| && f.sym.shndx < |va| }

  ghost predicate AllUsable(fixes: seq<Fix>, va: seq<nat>) {
    forall i :: 0 <= i < |fixes| ==> Usable(fixes[i], va)
  }

  function Place(f: Fix, va: seq<nat>): nat
    requires Usable(f, va)
  {
    va[f.sect] + f.offset
  }

  function Fixed(m: Memory, f: Fix, va: seq<nat>): nat
    requires Usable(f, va)
  {
    Result(f.rtype, WordIn(m, Place(f, va)), SymbolAddress(f.sym, va), Place(f, va))
  }

  /** The memory after the relocations, one after the other. */
  ghost function Relocated(m: Memory, fixes: seq<Fix>, va: seq<nat>): Memory
    requires AllUsable(fixes, va)
  {
    if fixes == [] then m else
    var f := fixes[|fixes| - 1];
    var before := Relocated(m, fixes[..|fixes| - 1], va);
    Put(before, Place(f, va), Little(Fixed(before, f, va), 4))
  }

  predicate Clear(p: nat, q: nat) { p + 4 <= q || q + 4 <= p }

  /** No two relocations share a byte. */
  ghost predicate Apart(fixes: seq<Fix>, va: seq<nat>)
    requires AllUsable(fixes, va)
  {
    forall i, j :: 0 <= i < j < |fixes| ==> Clear(Place(fixes[i], va), Place(fixes[j], va))
  }

  ghost predicate Untouched(fixes: seq<Fix>, va: seq<nat>, a: nat)
    requires AllUsable(fixes, va)
  {
    forall i :: 0 <= i < |fixes| ==> !(Place(fixes[i], va) <= a < Place(fixes[i], va) + 4)
  }

  /** `r` is `m` with every word a relocation names replaced, seen and left as if it were the only one. */
  ghost predicate Alone(m: Memory, fixes: seq<Fix>, va: seq<nat>, r: Memory)
    requires AllUsable(fixes, va)
  {
    && (forall i :: 0 <= i < |fixes| ==> WordIn(r, Place(fixes[i], va)) == Fixed(m, fixes[i], va))
    && (forall a: nat :: Untouched(fixes, va, a) ==> r(a) == m(a))
  }

  /** The order of relocations that do not overlap does not matter. */
  lemma {:induction false} EachAlone(m: Memory, fixes: seq<Fix>, va: seq<nat>)
    requires AllUsable(fixes, va) && Apart(fixes, va)
    ensures Alone(m, fixes, va, Relocated(m, fixes, va))
    decreases |fixes|
  {
    hide Fixed, Clear;
    if fixes != [] {
      var n := |fixes| - 1;
      assert forall i :: 0 <= i < n ==> fixes[..n][i] == fixes[i];
      EachAlone(m, fixes[..n], va);
      OneMore(m, fixes, va, Relocated(m, fixes[..n], va));
    }
  }

  lemma FourApart(m: Memory, n: Memory, p: nat)
    requires forall a: nat :: p <= a < p + 4 ==> m(a) == n(a)
    ensures WordIn(m, p) == WordIn(n, p)
  {
    assert Four(m, p) == Four(n, p);
  }

  lemma OneMore(m: Memory, fixes: seq<Fix>, va: seq<nat>, before: Memory)
    requires fixes != [] && AllUsable(fixes, va) && Apart(fixes, va)
    requires AllUsable(fixes[..|fixes| - 1], va) && Alone(m, fixes[..|fixes| - 1], va, before)
    ensures var f := fixes[|fixes| - 1]; Alone(m, fixes, va, Put(before, Place(f, va), Little(Fixed(before, f, va), 4)))
  {
    hide WordIn, Fixed;
    var n := |fixes| - 1;
    var rest, f := fixes[..n], fixes[n];
    var p := Place(f, va);
    var after := Put(before, p, Little(Fixed(before, f, va), 4));
    assert forall i :: 0 <= i < n ==> rest[i] == fixes[i];
    forall a: nat | p <= a < p + 4 ensures before(a) == m(a) {
      forall i | 0 <= i < n ensures !(Place(rest[i], va) <= a < Place(rest[i], va) + 4) {
        assert Clear(Place(fixes[i], va), Place(fixes[n], va));
      }
      assert Untouched(rest, va, a);
    }
    FourApart(before, m, p);
    FixedSame(before, m, f, va);
    PutWord(before, p, Fixed(before, f, va));
    forall i | 0 <= i < |fixes| ensures WordIn(after, Place(fixes[i], va)) == Fixed(m, fixes[i], va) {
      if i < n {
        assert Clear(Place(fixes[i], va), Place(fixes[n], va));
        FourApart(after, before, Place(fixes[i], va));
        assert WordIn(before, Place(rest[i], va)) == Fixed(m, rest[i], va);
      }
    }
    forall a: nat | Untouched(fixes, va, a) ensures after(a) == m(a) {
      assert !(Place(fixes[n], va) <= a < Place(fixes[n], va) + 4);
      assert forall i :: 0 <= i < n ==> Place(rest[i], va) == Place(fixes[i], va);
      assert Untouched(rest, va, a);
    }
  }

  lemma FixedSame(m: Memory, n: Memory, f: Fix, va: seq<nat>)
    requires Usable(f, va) && WordIn(m, Place(f, va)) == WordIn(n, Place(f, va))
    ensures Fixed(m, f, va) == Fixed(n, f, va)
    ensures Fixed(m, f, va) < WORD
  {
    hide WordIn;
  }

  // ---- base independence ----

  /** Two placements of the sections that differ by `d` for all allocated sections. */
  ghost predicate Shifted(secs: seq<Section>, va: seq<nat>, wa: seq<nat>, d: nat)
    requires |va| == |wa| == |secs|
  {
    forall i :: 0 <= i < |secs| && secs[i].alloc ==> wa[i] == va[i] + d
  }

  /** A relocation of a whole word inside an allocated section. */
  predicate Inside(f: Fix, secs: seq<Section>) {
    f.sect < |secs| && secs[f.sect].alloc && f.offset + 4 <= secs[f.sect].size && f.sym.shndx < |secs|
  }

  ghost predicate AllInside(fixes: seq<Fix>, secs: seq<Section>) {
    forall i :: 0 <= i < |fixes| ==> Inside(fixes[i], secs)
  }

  lemma WithinIsInside(fixes: seq<Fix>, secs: seq<Section>)
    requires AllWithin(fixes, secs)
    ensures AllInside(fixes, secs)
  {
    forall i | 0 <= i < |fixes| ensures Inside(fixes[i], secs) { assert WithinModule(fixes[i], secs); }
  }

  /** A relocation in an allocated section against a section, function, object or untyped symbol of one. */
  predicate WithinModule(f: Fix, secs: seq<Section>) {
    Inside(f, secs) && secs[f.sym.shndx].alloc && f.sym.stype <= STT_SECTION
  }

  lemma LowAdds(a: int, b: int)
    ensures Low(Low(a) + b) == Low(a + b)
  {
    var q := a / WORD;
    assert a == q * WORD + Low(a);
    LowMultiple(Low(a) + b, q);
  }

  lemma LowMultiple(a: int, q: int)
    ensures Low(a + q * WORD) == Low(a)
  {
  }

  lemma SymbolShifts(f: Fix, secs: seq<Section>, va: seq<nat>, wa: seq<nat>, d: nat)
    requires |va| == |wa| == |secs| && Shifted(secs, va, wa, d) && WithinModule(f, secs)
    ensures Low(SymbolAddress(f.sym, wa)) == Low(SymbolAddress(f.sym, va) + d)
  {
    var x := f.sym.value + va[f.sym.shndx];
    LowAdds(x, d);
    LowAdds(x + d, 0);
  }

  /** What moving a module by `d` does to one word: an absolute one moves along, a relative one stays. */
  ghost predicate Moves(rtype: nat, w: nat, v: nat, d: nat) {
    v == if rtype == R_386_32 then Low(w + d) else w
  }

  lemma AbsoluteMoves(a: nat, s: nat, t: nat, d: nat)
    requires Low(t) == Low(s + d)
    ensures Low(t + a) == Low(Low(s + a) + d)
  {
    hide Low;
    LowAdds(t, a);
    LowAdds(s + d, a);
    LowAdds(s + a, d);
  }

  lemma RelativeStays(a: nat, s: nat, t: nat, p: nat, d: nat)
    requires Low(t) == Low(s + d)
    ensures Low(t + a - (p + d)) == Low(s + a - p)
  {
    hide Low;
    LowAdds(t, a - (p + d));
    LowAdds(s + d, a - (p + d));
  }

  lemma FixMoves(f: Fix, secs: seq<Section>, va: seq<nat>, wa: seq<nat>, d: nat, m: Memory, n: Memory)
    requires |va| == |wa| == |secs| && Shifted(secs, va, wa, d) && WithinModule(f, secs)
    requires WordIn(m, Place(f, va)) == WordIn(n, Place(f, wa))
    ensures Moves(f.rtype, Fixed(m, f, va), Fixed(n, f, wa), d)
  {
    hide SymbolAddress, WordIn, Low;
    var (a, s, t, p) := (WordIn(m, Place(f, va)), SymbolAddress(f.sym, va), SymbolAddress(f.sym, wa), Place(f, va));
    SymbolShifts(f, secs, va, wa, d);
    AbsoluteMoves(a, s, t, d);
    RelativeStays(a, s, t, p, d);
  }

  predicate SameByte(m: Memory, va: seq<nat>, n: Memory, wa: seq<nat>, i: nat, o: nat)
    requires i < |va| == |wa|
  {
    m(va[i] + o) == n(wa[i] + o)
  }

  /** Both memories hold the same bytes where the sections are. */
  ghost predicate SameContents(secs: seq<Section>, va: seq<nat>, m: Memory, wa: seq<nat>, n: Memory)
    requires |va| == |wa| == |secs|
  {
    forall i: nat, o: nat :: i < |secs| && secs[i].alloc && o < secs[i].size ==> SameByte(m, va, n, wa, i, o)
  }

  ghost predicate AllWithin(fixes: seq<Fix>, secs: seq<Section>) {
    forall i :: 0 <= i < |fixes| ==> WithinModule(fixes[i], secs)
  }

  lemma FixStarts(f: Fix, secs: seq<Section>, va: seq<nat>, m: Memory, wa: seq<nat>, n: Memory)
    requires |va| == |wa| == |secs| && SameContents(secs, va, m, wa, n) && WithinModule(f, secs)
    ensures WordIn(m, Place(f, va)) == WordIn(n, Place(f, wa))
  {
    assert SameByte(m, va, n, wa, f.sect, f.offset);
    assert SameByte(m, va, n, wa, f.sect, f.offset + 1);
    assert SameByte(m, va, n, wa, f.sect, f.offset + 2);
    assert SameByte(m, va, n, wa, f.sect, f.offset + 3);
    assert Four(m, Place(f, va)) == Four(n, Place(f, wa));
  }

  /**
   * One module loaded at two bases a distance `d` apart: every relocated word of type R_386_32 differs by exactly
   * `d` in 32 bits, every other relocated word is the same, and so is every byte of a section that no relocation
   * covers.
   */
  lemma BaseIndependence(secs: seq<Section>, fixes: seq<Fix>, va: seq<nat>, m: Memory, wa: seq<nat>, n: Memory, d: nat)
    requires |va| == |wa| == |secs| && Shifted(secs, va, wa, d) && SameContents(secs, va, m, wa, n)
    requires AllWithin(fixes, secs) && AllUsable(fixes, va) && AllUsable(fixes, wa)
    requires Apart(fixes, va) && Apart(fixes, wa)
    ensures forall i :: 0 <= i < |fixes| ==>
      Moves(fixes[i].rtype, WordIn(Relocated(m, fixes, va), Place(fixes[i], va)), WordIn(Relocated(n, fixes, wa), Place(fixes[i], wa)), d)
    ensures forall i: nat, o: nat ::
      i < |secs| && secs[i].alloc && o < secs[i].size
      && Untouched(fixes, va, va[i] + o) && Untouched(fixes, wa, wa[i] + o) ==>
        SameByte(Relocated(m, fixes, va), va, Relocated(n, fixes, wa), wa, i, o)
  {
    hide Fixed, Relocated, Moves, WordIn, Place, Untouched, WithinModule, Apart;
    EachAlone(m, fixes, va);
    EachAlone(n, fixes, wa);
    forall i | 0 <= i < |fixes|
      ensures Moves(fixes[i].rtype, WordIn(Relocated(m, fixes, va), Place(fixes[i], va)), WordIn(Relocated(n, fixes, wa), Place(fixes[i], wa)), d)
    {
      FixStarts(fixes[i], secs, va, m, wa, n);
      FixMoves(fixes[i], secs, va, wa, d, m, n);
    }
    forall i: nat, o: nat | i < |secs| && secs[i].alloc && o < secs[i].size
        && Untouched(fixes, va, va[i] + o) && Untouched(fixes, wa, wa[i] + o)
      ensures SameByte(Relocated(m, fixes, va), va, Relocated(n, fixes, wa), wa, i, o)
    {
      assert SameByte(m, va, n, wa, i, o);
    }
  }

  // ---- from sections to addresses ----

  /** No two relocations of a section share a byte of it. */
  ghost predicate DistinctTargets(fixes: seq<Fix>) {
    forall i, j :: 0 <= i < j < |fixes| ==> TargetsApart(fixes[i], fixes[j])
  }

  predicate TargetsApart(f: Fix, g: Fix) { f.sect != g.sect || Clear(f.offset, g.offset) }

  /** Byte `o` of section `i` is part of no relocated word. */
  ghost predicate Plain(fixes: seq<Fix>, i: nat, o: nat) {
    forall k :: 0 <= k < |fixes| ==> !(fixes[k].sect == i && fixes[k].offset <= o < fixes[k].offset + 4)
  }

  function Addresses(secs: seq<Section>, base: nat): (va: seq<nat>)
    ensures |va| == |secs|
    ensures forall i :: 0 <= i < |secs| ==> va[i] == VAddr(secs, base, i)
  {
    seq(|secs|, i requires 0 <= i < |secs| => VAddr(secs, base, i))
  }

  /** A byte of one allocated section is where a byte of another is only if both are the same byte. */
  lemma SectionsClear(secs: seq<Section>, base: nat, i: nat, o: nat, j: nat, q: nat)
    requires i < |secs| && secs[i].alloc && o < secs[i].size && j < |secs| && secs[j].alloc && q < secs[j].size
    requires Placed(secs, base, i) + o == Placed(secs, base, j) + q
    ensures i == j && o == q
  {
    hide Placed;
    LayoutIsSound(secs, base, i);
    LayoutIsSound(secs, base, j);
  }

  lemma TargetsClear(f: Fix, g: Fix, secs: seq<Section>, base: nat)
    requires Inside(f, secs) && Inside(g, secs) && TargetsApart(f, g)
    ensures Clear(Placed(secs, base, f.sect) + f.offset, Placed(secs, base, g.sect) + g.offset)
  {
    hide Placed;
    LayoutIsSound(secs, base, f.sect);
    LayoutIsSound(secs, base, g.sect);
  }

  lemma LayoutKeepsApart(fixes: seq<Fix>, secs: seq<Section>, base: nat)
    requires AllInside(fixes, secs) && DistinctTargets(fixes) && AllUsable(fixes, Addresses(secs, base))
    ensures Apart(fixes, Addresses(secs, base))
  {
    hide Placed, Clear, TargetsApart;
    var va := Addresses(secs, base);
    forall i, j | 0 <= i < j < |fixes| ensures Clear(Place(fixes[i], va), Place(fixes[j], va)) {
      assert Inside(fixes[i], secs) && Inside(fixes[j], secs) && TargetsApart(fixes[i], fixes[j]);
      TargetsClear(fixes[i], fixes[j], secs, base);
    }
  }

  lemma PlainIsUntouched(fixes: seq<Fix>, secs: seq<Section>, base: nat, i: nat, o: nat)
    requires AllInside(fixes, secs) && AllUsable(fixes, Addresses(secs, base))
    requires i < |secs| && secs[i].alloc && o < secs[i].size && Plain(fixes, i, o)
    ensures Untouched(fixes, Addresses(secs, base), Addresses(secs, base)[i] + o)
  {
    hide Placed;
    var va := Addresses(secs, base);
    forall k | 0 <= k < |fixes| ensures !(Place(fixes[k], va) <= va[i] + o < Place(fixes[k], va) + 4) {
      assert Inside(fixes[k], secs);
      if Place(fixes[k], va) <= va[i] + o < Place(fixes[k], va) + 4 {
        var q := va[i] + o - va[fixes[k].sect];
        SectionsClear(secs, base, i, o, fixes[k].sect, q);
      }
    }
  }

  // ---- loading the sections ----

  /** The bytes a section has in memory. */
  function Content(sh: Section): (bytes: seq<Byte>)
    requires sh.alloc && Backed(sh)
    ensures |bytes| == sh.size
  {
    if sh.stype == SHT_NOBITS then Zeros(sh.size) else sh.file[..sh.size]
  }

  predicate Backed(sh: Section) { sh.alloc && sh.stype != SHT_NOBITS ==> sh.size <= |sh.file| }

  predicate AllBacked(secs: seq<Section>) { forall i :: 0 <= i < |secs| ==> Backed(secs[i]) }

  /** Memory after the first `i` sections are copied or cleared. */
  function Filled(m: Memory, secs: seq<Section>, base: nat, i: nat): Memory
    requires i <= |secs| && AllBacked(secs)
  {
    if i == 0 then m
    else if secs[i - 1].alloc then Put(Filled(m, secs, base, i - 1), Placed(secs, base, i - 1), Content(secs[i - 1]))
    else Filled(m, secs, base, i - 1)
  }

  /** Each section that is loaded reads back as its contents: no later one overwrites it. */
  lemma {:induction false} FilledHolds(m: Memory, secs: seq<Section>, base: nat, n: nat, i: nat, o: nat)
    requires i < n <= |secs| && AllBacked(secs) && secs[i].alloc && o < secs[i].size
    ensures Filled(m, secs, base, n)(Placed(secs, base, i) + o) == Content(secs[i])[o]
    decreases n
  {
    hide Placed;
    if i < n - 1 {
      FilledHolds(m, secs, base, n - 1, i, o);
      LayoutIsSound(secs, base, i);
    }
  }

  /** Nothing outside the space laid out is written. */
  lemma {:induction false} FilledElsewhere(m: Memory, secs: seq<Section>, base: nat, n: nat, a: nat)
    requires n <= |secs| && AllBacked(secs) && (a < base || base + OffsetAt(secs, base, |secs|) <= a)
    ensures Filled(m, secs, base, n)(a) == m(a)
    decreases n
  {
    hide Placed;
    if n > 0 {
      FilledElsewhere(m, secs, base, n - 1, a);
      if secs[n - 1].alloc {
        LayoutIsSound(secs, base, n - 1);
      }
    }
  }

  /** A module laid out, filled in and relocated. */
  ghost function LoadedAt(m: Memory, secs: seq<Section>, fixes: seq<Fix>, base: nat): Memory
    requires AllBacked(secs) && AllUsable(fixes, Addresses(secs, base))
  {
    Relocated(Filled(m, secs, base, |secs|), fixes, Addresses(secs, base))
  }

  /** Loading a module changes nothing outside the space laid out for it. */
  lemma LoadedElsewhere(m: Memory, secs: seq<Section>, fixes: seq<Fix>, base: nat, a: nat)
    requires AllBacked(secs) && AllInside(fixes, secs) && DistinctTargets(fixes) && AllUsable(fixes, Addresses(secs, base))
    requires a < base || base + OffsetAt(secs, base, |secs|) <= a
    ensures LoadedAt(m, secs, fixes, base)(a) == m(a)
  {
    hide Placed, Filled, Relocated, TargetsApart;
    var va := Addresses(secs, base);
    FilledElsewhere(m, secs, base, |secs|, a);
    LayoutKeepsApart(fixes, secs, base);
    EachAlone(Filled(m, secs, base, |secs|), fixes, va);
    forall k | 0 <= k < |fixes| ensures !(Place(fixes[k], va) <= a < Place(fixes[k], va) + 4) {
      assert Inside(fixes[k], secs);
      LayoutIsSound(secs, base, fixes[k].sect);
    }
    assert Untouched(fixes, va, a);
  }

  /** The word a section has in the file at offset `o`; a section without file contents has zeros. */
  function FileWord(sh: Section, o: nat): nat
    requires o + 4 <= sh.size && (sh.stype != SHT_NOBITS ==> sh.size <= |sh.file|)
  {
    if sh.stype == SHT_NOBITS then 0
    else Joined(sh.file[o], sh.file[o + 1], sh.file[o + 2], sh.file[o + 3])
  }

  /** The word that relocation `f` names is what is prescribed of the file's word and symbol. */
  ghost predicate Meant(r: Memory, secs: seq<Section>, base: nat, f: Fix)
    requires AllBacked(secs) && Inside(f, secs)
  {
    var va := Addresses(secs, base);
    var p := va[f.sect] + f.offset;
    Prescribed(f.rtype, WordOf(r, p), FileWord(secs[f.sect], f.offset), Meaning(f.sym, va), p)
  }

  /** Every relocated word of a loaded module is as its relocation prescribes. */
  ghost predicate AllMeant(r: Memory, secs: seq<Section>, base: nat, fixes: seq<Fix>)
    requires AllBacked(secs) && AllInside(fixes, secs)
  {
    forall i :: 0 <= i < |fixes| ==> Inside(fixes[i], secs) && Meant(r, secs, base, fixes[i])
  }

  lemma FilledWord(m: Memory, secs: seq<Section>, base: nat, i: nat, o: nat)
    requires i < |secs| && AllBacked(secs) && secs[i].alloc && o + 4 <= secs[i].size
    ensures WordOf(Filled(m, secs, base, |secs|), Placed(secs, base, i) + o) == FileWord(secs[i], o)
  {
    hide Placed, Filled;
    FilledHolds(m, secs, base, |secs|, i, o);
    FilledHolds(m, secs, base, |secs|, i, o + 1);
    FilledHolds(m, secs, base, |secs|, i, o + 2);
    FilledHolds(m, secs, base, |secs|, i, o + 3);
    ZerosAre(secs[i].size);
  }

  lemma {:induction false} ZerosAre(n: nat)
    ensures forall i :: 0 <= i < n ==> Zeros(n)[i] == 0
  {
    if n > 0 { ZerosAre(n - 1); }
  }

  /** Loading a module in which no two relocations share a byte gives every relocated word its prescribed value. */
  lemma LoadedAsMeant(m: Memory, secs: seq<Section>, fixes: seq<Fix>, base: nat)
    requires AllBacked(secs) && AllInside(fixes, secs) && DistinctTargets(fixes) && AllUsable(fixes, Addresses(secs, base))
    ensures AllMeant(LoadedAt(m, secs, fixes, base), secs, base, fixes)
  {
    hide Placed, Filled, Relocated, TargetsApart, Result, SymbolAddress, Meaning, WordIn, WordOf, Prescribed, FileWord, AllBacked;
    var va, filled, r := Addresses(secs, base), Filled(m, secs, base, |secs|), LoadedAt(m, secs, fixes, base);
    LayoutKeepsApart(fixes, secs, base);
    EachAlone(filled, fixes, va);
    forall i | 0 <= i < |fixes| ensures Inside(fixes[i], secs) && Meant(r, secs, base, fixes[i]) {
      var f := fixes[i];
      assert Inside(f, secs);
      var p := Place(f, va);
      WordOfIs(r, p);
      WordOfIs(filled, p);
      FilledWord(m, secs, base, f.sect, f.offset);
      ResultIsPrescribed(f.rtype, WordIn(filled, p), f.sym, va, p);
    }
  }

  lemma SameFilled(m: Memory, n: Memory, secs: seq<Section>, base: nat, k: nat)
    requires AllBacked(secs) && forall j :: 0 <= j < |secs| ==> Alignable(secs[j])
    ensures var d := base + k * PAGE_SIZE;
      && Shifted(secs, Addresses(secs, base), Addresses(secs, d), k * PAGE_SIZE)
      && SameContents(secs, Addresses(secs, base), Filled(m, secs, base, |secs|), Addresses(secs, d), Filled(n, secs, d, |secs|))
  {
    hide Placed, Filled, Alignable;
    var d := base + k * PAGE_SIZE;
    forall i | 0 <= i < |secs| && secs[i].alloc ensures Addresses(secs, d)[i] == Addresses(secs, base)[i] + k * PAGE_SIZE {
      LayoutShifts(secs, base, k, i);
    }
    forall i: nat, o: nat | i < |secs| && secs[i].alloc && o < secs[i].size
      ensures SameByte(Filled(m, secs, base, |secs|), Addresses(secs, base), Filled(n, secs, d, |secs|), Addresses(secs, d), i, o)
    {
      FilledHolds(m, secs, base, |secs|, i, o);
      FilledHolds(n, secs, d, |secs|, i, o);
    }
  }

  /**
   * A module with alignments up to the page size, loaded into any memory at two bases whole pages apart: its
   * R_386_32 words differ by the distance, its other relocated words are the same, and so are all other bytes.
   */
  lemma LoadingIsBaseIndependent(m: Memory, n: Memory, secs: seq<Section>, fixes: seq<Fix>, base: nat, k: nat)
    requires AllBacked(secs) && forall j :: 0 <= j < |secs| ==> Alignable(secs[j])
    requires AllWithin(fixes, secs) && DistinctTargets(fixes)
    requires AllUsable(fixes, Addresses(secs, base)) && AllUsable(fixes, Addresses(secs, base + k * PAGE_SIZE))
    ensures var wide := base + k * PAGE_SIZE; var (va, wa) := (Addresses(secs, base), Addresses(secs, wide));
      forall i :: 0 <= i < |fixes| ==>
        Moves(fixes[i].rtype, WordIn(LoadedAt(m, secs, fixes, base), Place(fixes[i], va)),
              WordIn(LoadedAt(n, secs, fixes, wide), Place(fixes[i], wa)), k * PAGE_SIZE)
    ensures var wide := base + k * PAGE_SIZE;
      forall i: nat, o: nat :: i < |secs| && secs[i].alloc && o < secs[i].size && Plain(fixes, i, o) ==>
        SameByte(LoadedAt(m, secs, fixes, base), Addresses(secs, base),
                 LoadedAt(n, secs, fixes, wide), Addresses(secs, wide), i, o)
  {
    hide Placed, Filled, Alignable, Moves, WordIn, Relocated, Place, Plain, Untouched, Apart, AllWithin,
         DistinctTargets, Shifted, SameContents, SameByte;
    var wide := base + k * PAGE_SIZE;
    WithinIsInside(fixes, secs);
    SameFilled(m, n, secs, base, k);
    LayoutKeepsApart(fixes, secs, base);
    LayoutKeepsApart(fixes, secs, wide);
    BaseIndependence(secs, fixes, Addresses(secs, base), Filled(m, secs, base, |secs|),
                     Addresses(secs, wide), Filled(n, secs, wide, |secs|), k * PAGE_SIZE);
    forall i: nat, o: nat | i < |secs| && secs[i].alloc && o < secs[i].size && Plain(fixes, i, o)
      ensures SameByte(LoadedAt(m, secs, fixes, base), Addresses(secs, base),
                       LoadedAt(n, secs, fixes, wide), Addresses(secs, wide), i, o)
    {
      PlainIsUntouched(fixes, secs, base, i, o);
      PlainIsUntouched(fixes, secs, wide, i, o);
    }
  }
}
