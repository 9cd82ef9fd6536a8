/** The alignment of addresses by bit masks, on machine words. */
module AlignMasks {

  /** `size` is a power of two: one more than a mask of low bits. */
  ghost predicate IsSize(size: bv32) { size != 0 && size & (size - 1) == 0 }

  /** `align_bytes`: the padding by the masks of the source. */
  function Padding(addr: bv32, size: bv32): bv32 { (size - (addr & (size - 1))) & (size - 1) }

  /** A padding below the size that clears the low bits. */
  ghost predicate Clears(addr: bv32, size: bv32, r: bv32) { r < size && (addr + r) & (size - 1) == 0 }

  lemma PaddingClears(addr: bv32, size: bv32)
    requires IsSize(size)
    ensures Clears(addr, size, Padding(addr, size))
  {
  }

  lemma ClearingIsPadding(addr: bv32, size: bv32, r: bv32)
    requires IsSize(size) && Clears(addr, size, r)
    ensures r == Padding(addr, size)
  {
  }

  /** The source's masks pick the one padding below the size that clears the low bits. */
  lemma MasksAlign(addr: bv32, size: bv32, r: bv32)
    requires IsSize(size)
    ensures r == Padding(addr, size) <==> Clears(addr, size, r)
  {
    hide *;
    PaddingClears(addr, size);
    if Clears(addr, size, r) { ClearingIsPadding(addr, size, r); }
  }
}
