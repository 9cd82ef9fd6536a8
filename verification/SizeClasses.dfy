/** The 41 size classes of the kernel heap and the search that picks one. */
module SizeClasses {

  const WORD := 8
  const SMALL_BLOCKS := 16
  const COUNT := 41
  const OTHER_INDEX := 40
  const SMALL_LIMIT := 128
  const LARGE_LIMIT := 10368
  const ADDRESS_SPACE := 0x1_0000_0000

  /** Class sizes in words; the last entry stands for "any size" and is the all-ones 32-bit word. */
  const ALL_SIZES: seq<int> := [
    8, 16, 24, 32, 40, 48, 56, 64,
    72, 80, 88, 96, 104, 112, 120, 128,
    152, 184, 224, 272, 328, 392, 472, 568,
    680, 816, 976, 1168, 1400, 1680, 2016, 2416,
    2896, 3472, 4168, 5000, 6000, 7200, 8640, 10368,
    0xffff_ffff]

  /** `(x + 8) & -8` on 32-bit words: the next multiple of 8 strictly above `x`, wrapping at the top. */
  function BlockAlign(x: int): int
    requires 0 <= x < ADDRESS_SPACE
  {
    ((x + WORD) / WORD * WORD) % ADDRESS_SPACE
  }

  /** The rounded request is a larger multiple of the word, unless the sum wraps to zero. */
  lemma BlockAlignRoundsUp(x: int)
    requires 0 <= x < ADDRESS_SPACE
    ensures BlockAlign(x) % WORD == 0
    ensures x < BlockAlign(x) <= x + WORD <==> x < ADDRESS_SPACE - WORD
    ensures x >= ADDRESS_SPACE - WORD ==> BlockAlign(x) == 0
  {
  }

  /**
   * Index a size belongs to. Size zero only arises for an arena with no room at all: there the
   * 32-bit `(size - 1) / 8` wraps and names no class.
   */
  function SizeClass(size: int): int
    requires 0 <= size < ADDRESS_SPACE
  {
    if size == 0 then (ADDRESS_SPACE - 1) / WORD else FirstAdequate(size, 0)
  }

  /** The first class from `i` on that holds `size` bytes. */
  function FirstAdequate(size: int, i: nat): (r: int)
    requires i <= OTHER_INDEX
    requires 0 < size < ADDRESS_SPACE
    ensures i <= r <= OTHER_INDEX
    ensures size <= ALL_SIZES[r]
    ensures forall j :: i <= j < r ==> ALL_SIZES[j] < size
    decreases OTHER_INDEX - i
  {
    if i == OTHER_INDEX || size <= ALL_SIZES[i] then i else FirstAdequate(size, i + 1)
  }

  lemma SizesIncrease(i: nat, j: nat)
    requires i < j <= OTHER_INDEX
    ensures ALL_SIZES[i] < ALL_SIZES[j]
    decreases j - i
  {
    assert forall k: nat :: k < OTHER_INDEX ==> ALL_SIZES[k] < ALL_SIZES[k + 1];
    if i + 1 < j {
      SizesIncrease(i, j - 1);
    }
  }

  /** A class is adequate and no smaller class is: this pins the index down. */
  lemma LeastAdequateIsUnique(size: int, r: int)
    requires 0 < size < ADDRESS_SPACE
    requires 0 <= r <= OTHER_INDEX && size <= ALL_SIZES[r]
    requires forall j :: 0 <= j < r ==> ALL_SIZES[j] < size
    ensures r == SizeClass(size)
  {
  }

  /** A size lands in the catch-all class exactly when it exceeds the largest exact class. */
  lemma OtherMeansLarge(size: int)
    requires 0 <= size < ADDRESS_SPACE
    ensures SizeClass(size) == OTHER_INDEX <==> size > LARGE_LIMIT
  {
    assert ALL_SIZES[OTHER_INDEX - 1] == LARGE_LIMIT;
    if size > LARGE_LIMIT {
      forall j | 0 <= j < OTHER_INDEX ensures ALL_SIZES[j] < size {
        if j < OTHER_INDEX - 1 { SizesIncrease(j, OTHER_INDEX - 1); }
      }
      LeastAdequateIsUnique(size, OTHER_INDEX);
    }
  }

  /**
   * The classes: whole words up to 16 of them; from there each is the number of words nearest to six
   * fifths of the one before; the last is the largest word.
   */
  lemma ClassesAre(i: nat)
    requires i < COUNT
    ensures i < SMALL_BLOCKS ==> ALL_SIZES[i] == WORD * (i + 1)
    ensures SMALL_BLOCKS <= i < OTHER_INDEX ==>
      var (n, m) := (ALL_SIZES[i] / WORD, ALL_SIZES[i - 1] / WORD);
      ALL_SIZES[i] == WORD * n && ALL_SIZES[i - 1] == WORD * m && -5 < 2 * (5 * n - 6 * m) < 5
    ensures i == OTHER_INDEX ==> ALL_SIZES[i] == ADDRESS_SPACE - 1
  {
  }

  /** Direct division for small sizes, bisection with a linear tail for large ones. */
  method FindIndex(size: int) returns (index: int)
    requires 0 <= size < ADDRESS_SPACE
    ensures index == SizeClass(size)
  {
    if size <= SMALL_LIMIT {
      index := ((size - 1) % ADDRESS_SPACE) / WORD;
      SmallIndexIsClass(size);
    } else if size <= LARGE_LIMIT {
      AscendingSizes();
      index := Bisect(ALL_SIZES, size, SMALL_BLOCKS, OTHER_INDEX - 1);
      LeastAdequateIsUnique(size, index);
    } else {
      OtherMeansLarge(size);
      index := OTHER_INDEX;
    }
  }

  ghost predicate Ascending(sizes: seq<int>) {
    forall i, j :: 0 <= i < j < |sizes| ==> sizes[i] < sizes[j]
  }

  lemma AscendingSizes()
    ensures Ascending(ALL_SIZES)
    ensures ALL_SIZES[SMALL_BLOCKS - 1] == SMALL_LIMIT
    ensures ALL_SIZES[OTHER_INDEX - 1] == LARGE_LIMIT
  {
    forall i, j | 0 <= i < j < |ALL_SIZES| ensures ALL_SIZES[i] < ALL_SIZES[j] {
      SizesIncrease(i, j);
    }
  }

  /** The two search loops of `find_index`: halve while more than five entries remain, then scan. */
  method Bisect(sizes: seq<int>, size: int, first: nat, last: nat) returns (index: nat)
    requires Ascending(sizes)
    requires 0 < first <= last < |sizes|
    requires sizes[first - 1] < size <= sizes[last]
    ensures first <= index <= last && size <= sizes[index]
    ensures forall j :: 0 <= j < index ==> sizes[j] < size
  {
    var lo, hi := first, last;
    while lo + 4 < hi
      invariant first <= lo <= hi <= last
      invariant sizes[lo - 1] < size <= sizes[hi]
    {
      var mi := (lo + hi) / 2;
      if size == sizes[mi] {
        return mi;
      } else if size < sizes[mi] {
        hi := mi;
      } else {
        lo := mi;
      }
    }
    index := lo;
    while index <= hi && sizes[index] < size
      invariant lo <= index <= hi
      invariant sizes[index - 1] < size <= sizes[hi]
    {
      index := index + 1;
    }
  }

  lemma SmallIndexIsClass(size: int)
    requires 0 <= size <= SMALL_LIMIT
    ensures ((size - 1) % ADDRESS_SPACE) / WORD == SizeClass(size)
  {
    if size > 0 {
      var index := (size - 1) / WORD;
      assert forall k: nat :: k < SMALL_BLOCKS ==> ALL_SIZES[k] == WORD * (k + 1);
      LeastAdequateIsUnique(size, index);
    }
  }
}
