/** Where the sections of a relocatable module go in memory. */
module ElfLayout {
  import opened Bytes

  const PAGE_SIZE := 0x1000
  const SHT_NOBITS := 8
  const SHT_REL := 9

  /** A relocation entry of an `SHT_REL` section. */
  datatype Rel = Rel(offset: nat, rtype: nat, sym: nat)

  /** A section header, with the bytes it has in the file, or the relocations read from them. */
  datatype Section = Section(stype: nat, alloc: bool, vaddr: nat, size: nat, addralign: nat, file: seq<Byte>, info: nat, rels: seq<Rel>)

  /** `align_bytes`, for a size that is a power of two. */
  function AlignBytes(addr: nat, size: nat): (n: nat)
    requires size > 0
    ensures n < size && (addr + n) % size == 0
  {
    AlignLaw(addr, size);
    (size - addr % size) % size
  }

  lemma Scale(a: int, b: int, size: nat)
    requires a < b
    ensures a * size + size <= b * size
  {
    assert (a + 1) * size == a * size + size;
    assert (b - (a + 1)) * size >= 0;
    assert (b - (a + 1)) * size == b * size - (a + 1) * size;
  }

  lemma ModIs(x: int, q: int, r: nat, size: nat)
    requires x == q * size + r && r < size
    ensures x % size == r
  {
    var p, s := x / size, x % size;
    assert x == p * size + s;
    if p < q {
      Scale(p, q, size);
    } else if q < p {
      Scale(q, p, size);
    }
  }

  lemma AlignLaw(addr: nat, size: nat)
    requires size > 0
    ensures (addr + (size - addr % size) % size) % size == 0
  {
    var q, r := addr / size, addr % size;
    assert addr == q * size + r;
    if r == 0 {
      ModIs(size, 1, 0, size);
    } else {
      ModIs(size - r, 0, size - r, size);
      assert (q + 1) * size == q * size + size;
      ModIs(addr + (size - r), q + 1, 0, size);
    }
  }

  /** There is one padding below the size that leaves no remainder, as on machine words with masks. */
  lemma PaddingIsUnique(addr: nat, size: nat, n: nat)
    requires size > 0 && n < size && (addr + n) % size == 0
    ensures n == AlignBytes(addr, size)
  {
    var p := AlignBytes(addr, size);
    var (i, j) := ((addr + n) / size, (addr + p) / size);
    assert addr + n == i * size && addr + p == j * size;
    if i < j {
      Scale(i, j, size);
    } else if j < i {
      Scale(j, i, size);
    }
  }

  function PageAlignUp(addr: nat): (p: nat)
    ensures addr <= p < addr + PAGE_SIZE && p % PAGE_SIZE == 0
  {
    addr + AlignBytes(addr, PAGE_SIZE)
  }

  // ---- the layout ----

  /** The padding a section at `addr` needs. */
  function Padding(sh: Section, addr: nat): nat {
    if sh.addralign > 1 then AlignBytes(addr, sh.addralign) else 0
  }

  /** The offset from the base that the sections before the `i`-th take. */
  function OffsetAt(secs: seq<Section>, base: nat, i: nat): nat
    requires i <= |secs|
    decreases i, 0
  {
    if i == 0 then 0
    else if secs[i - 1].alloc then Placed(secs, base, i - 1) - base + secs[i - 1].size
    else OffsetAt(secs, base, i - 1)
  }

  /** The address of the `i`-th section; an address it has of its own only moves it further. */
  function Placed(secs: seq<Section>, base: nat, i: nat): (addr: nat)
    requires i < |secs|
    ensures addr >= base
    decreases i, 1
  {
    var start := base + OffsetAt(secs, base, i) + secs[i].vaddr;
    start + Padding(secs[i], start)
  }

  function VAddr(secs: seq<Section>, base: nat, i: nat): nat
    requires i < |secs|
  {
    if secs[i].alloc then Placed(secs, base, i) else secs[i].vaddr
  }

  lemma {:induction false} OffsetsRise(secs: seq<Section>, base: nat, i: nat, j: nat)
    requires i < j <= |secs|
    ensures OffsetAt(secs, base, i) <= OffsetAt(secs, base, j)
    ensures secs[i].alloc ==> Placed(secs, base, i) + secs[i].size <= base + OffsetAt(secs, base, j)
    decreases j
  {
    if i < j - 1 {
      OffsetsRise(secs, base, i, j - 1);
    }
  }

  /** Allocated sections follow each other without overlap, from the base up to the size computed, each aligned. */
  lemma LayoutIsSound(secs: seq<Section>, base: nat, i: nat)
    requires i < |secs| && secs[i].alloc
    ensures base <= Placed(secs, base, i)
    ensures Placed(secs, base, i) + secs[i].size <= base + OffsetAt(secs, base, |secs|)
    ensures secs[i].addralign > 1 ==> Placed(secs, base, i) % secs[i].addralign == 0
    ensures forall j :: i < j < |secs| && secs[j].alloc ==> Placed(secs, base, i) + secs[i].size <= Placed(secs, base, j)
  {
    OffsetsRise(secs, base, i, |secs|);
    forall j | i < j < |secs| && secs[j].alloc ensures Placed(secs, base, i) + secs[i].size <= Placed(secs, base, j) {
      OffsetsRise(secs, base, i, j);
    }
  }

  /** Where the last allocated section before the `i`-th ends, or the base. */
  ghost predicate EndsBefore(secs: seq<Section>, base: nat, i: nat, end: nat)
    requires i <= |secs|
  {
    (exists j :: 0 <= j < i && secs[j].alloc && (forall k :: j < k < i ==> !secs[k].alloc) && end == Placed(secs, base, j) + secs[j].size)
    || ((forall k :: 0 <= k < i ==> !secs[k].alloc) && end == base)
  }

  lemma {:induction false} OffsetIsEnd(secs: seq<Section>, base: nat, i: nat, end: nat)
    requires i <= |secs| && EndsBefore(secs, base, i, end)
    ensures base + OffsetAt(secs, base, i) == end
    decreases i
  {
    if i > 0 && !secs[i - 1].alloc {
      assert EndsBefore(secs, base, i - 1, end);
      OffsetIsEnd(secs, base, i - 1, end);
    }
  }

  /**
   * No room is wasted: a section stands at the first aligned address past the section before it and the
   * distance that its own header asks for.
   */
  lemma LayoutIsTight(secs: seq<Section>, base: nat, i: nat, end: nat, addr: nat)
    requires i < |secs| && secs[i].alloc && EndsBefore(secs, base, i, end)
    requires end + secs[i].vaddr <= addr && (secs[i].addralign > 1 ==> addr % secs[i].addralign == 0)
    ensures end + secs[i].vaddr <= Placed(secs, base, i) <= addr
  {
    OffsetIsEnd(secs, base, i, end);
    var start, size := end + secs[i].vaddr, secs[i].addralign;
    if size > 1 && addr < Placed(secs, base, i) {
      PaddingIsUnique(start, size, addr - start);
    }
  }

  // ---- the layout does not depend on the base ----

  predicate Divides(d: nat, n: nat) { d > 0 && n % d == 0 }

  /** What a linker emits: alignments that divide the page size. */
  predicate Alignable(sh: Section) { sh.addralign > 1 ==> Divides(sh.addralign, PAGE_SIZE) }

  lemma DividesMultiple(d: nat, n: nat, k: nat)
    requires Divides(d, n)
    ensures Divides(d, k * n)
  {
    var q := n / d;
    assert n == q * d;
    assert k * n == (k * q) * d;
    ModIs(k * n, k * q, 0, d);
  }

  lemma PaddingShifts(addr: nat, d: nat, size: nat)
    requires size > 0 && d % size == 0
    ensures AlignBytes(addr + d, size) == AlignBytes(addr, size)
  {
    var q := d / size;
    var a, r := addr / size, addr % size;
    assert addr + d == (a + q) * size + r;
    ModIs(addr + d, a + q, r, size);
  }

  /** At two page-aligned bases every section has the same offset from the base. */
  lemma {:induction false} LayoutShifts(secs: seq<Section>, base: nat, k: nat, i: nat)
    requires i <= |secs| && forall j :: 0 <= j < |secs| ==> Alignable(secs[j])
    ensures OffsetAt(secs, base + k * PAGE_SIZE, i) == OffsetAt(secs, base, i)
    ensures i < |secs| ==> Placed(secs, base + k * PAGE_SIZE, i) == Placed(secs, base, i) + k * PAGE_SIZE
    decreases i
  {
    var d := k * PAGE_SIZE;
    if i > 0 {
      LayoutShifts(secs, base, k, i - 1);
    }
    if i < |secs| && secs[i].addralign > 1 {
      DividesMultiple(secs[i].addralign, PAGE_SIZE, k);
      PaddingShifts(base + OffsetAt(secs, base, i) + secs[i].vaddr, d, secs[i].addralign);
    }
  }

  /** The first loop of `load_module`: addresses are written into the headers in place. */
  method LayOut(sections: array<Section>, base: nat) returns (sectionOffset: nat)
    modifies sections
    ensures sectionOffset == OffsetAt(old(sections[..]), base, sections.Length)
    ensures forall i :: 0 <= i < sections.Length ==> sections[i] == old(sections[i]).(vaddr := VAddr(old(sections[..]), base, i))
  {
    ghost var secs := sections[..];
    sectionOffset := 0;
    for i := 0 to sections.Length
      invariant sectionOffset == OffsetAt(secs, base, i)
      invariant forall j :: 0 <= j < i ==> sections[j] == secs[j].(vaddr := VAddr(secs, base, j))
      invariant forall j :: i <= j < sections.Length ==> sections[j] == secs[j]
    {
      var sh := sections[i];
      if sh.alloc {
        if sh.vaddr == 0 {
          sh := sh.(vaddr := base + sectionOffset);
        } else {
          sectionOffset := sectionOffset + sh.vaddr;
          sh := sh.(vaddr := base + sectionOffset);
        }
        if sh.addralign > 1 {
          var align := AlignBytes(sh.vaddr, sh.addralign);
          sh := sh.(vaddr := sh.vaddr + align);
          sectionOffset := sectionOffset + align;
        }
        sectionOffset := sectionOffset + sh.size;
        sections[i] := sh;
      }
    }
  }
}
