/**
 * The three views of the kernel heap (tiling, boundary tags, segregated free lists), what it means
 * for them to agree, and what each primitive list or tag update does to all three at once.
 */
module HeapInvariant {
  import opened SizeClasses

  const HEADER := 16
  const MAGIC := 0xfa11dead
  const MIN_FRAG := 24
  const NULL := 0

  /** A block header. `link` is the union word: the next free block when free, the owner when busy. */
  datatype Rec = Rec(prev: int, size: int, index: int, link: int)

  /**
   * `mem` and `heads` are the words the program reads and writes; `tiles`, `free` and `lists` say
   * which headers are current, which of those are free, and the contents of each free list in order.
   */
  datatype View = View(
    start: int, last: int, mem: map<int, Rec>, heads: seq<int>,
    tiles: set<int>, free: set<int>, lists: seq<seq<int>>)

  ghost function Next(v: View, a: int): int
    requires a in v.mem
  {
    a + HEADER + v.mem[a].size
  }

  /** A multiple of the word size, counted down so that the prover meets no remainder. */
  ghost predicate Aligned(n: int) {
    if n <= 0 then n == 0 else Aligned(n - WORD)
  }

  lemma {:induction false} AlignedIsMultiple(n: int)
    ensures Aligned(n) <==> n >= 0 && n % WORD == 0
    decreases n
  {
    if n > 0 { AlignedIsMultiple(n - WORD); }
  }

  lemma AlignedSum(x: int, y: int)
    requires Aligned(x) && Aligned(y)
    ensures Aligned(x + y) && Aligned(x + y + HEADER)
    ensures y + HEADER <= x ==> Aligned(x - y - HEADER)
    ensures x != MAGIC
  {
    AlignedIsMultiple(x); AlignedIsMultiple(y);
    var m, n := x / WORD, y / WORD;
    hide Aligned;
    WordsAligned(m + n, x + y);
    WordsAligned(m + n + 2, x + y + HEADER);
    if y + HEADER <= x { WordsAligned(m - n - 2, x - y - HEADER); }
  }

  lemma {:induction false} WordsAligned(words: int, bytes: int)
    requires words >= 0 && bytes == WORD * words
    ensures Aligned(bytes)
  {
    if words > 0 { WordsAligned(words - 1, bytes - WORD); }
  }

  ghost predicate TilesOk(v: View) {
    && 0 < v.start < v.last && v.last + HEADER <= ADDRESS_SPACE
    && v.start in v.tiles && v.last in v.tiles
    && (forall a :: a in v.tiles ==> v.start <= a <= v.last && a in v.mem)
    && v.mem[v.start].size == 0 && v.mem[v.last].size == 0
    && (forall a :: a in v.tiles ==> v.mem[a].size >= 0 && Aligned(v.mem[a].size))
    && (forall a, b {:trigger Next(v, a), b in v.tiles} :: a in v.tiles && b in v.tiles && a < b ==> Next(v, a) <= b)
    && (forall a {:trigger Next(v, a)} :: a in v.tiles && a != v.last ==> Next(v, a) in v.tiles)
    && v.free <= v.tiles - {v.start, v.last}
  }

  /** The word before a block tells whether its predecessor is busy, and its size when it is not. */
  ghost predicate TagOk(v: View, a: int)
    requires TilesOk(v) && a in v.tiles && a != v.last
  {
    v.mem[Next(v, a)].prev == if a in v.free then v.mem[a].size else MAGIC
  }

  /** All tags agree, save perhaps the one that describes block `x`. */
  ghost predicate TagsExcept(v: View, x: int)
    requires TilesOk(v)
  {
    && v.mem[v.start].prev == MAGIC
    && forall a {:trigger TagOk(v, a)} :: a in v.tiles && a != v.last && a != x ==> TagOk(v, a)
  }

  ghost predicate TagsOk(v: View)
    requires TilesOk(v)
  {
    TagsExcept(v, NULL)
  }

  ghost function Succ(l: seq<int>, j: int): int {
    if 0 <= j + 1 < |l| then l[j + 1] else NULL
  }

  ghost predicate NoDup(l: seq<int>) {
    forall i, j :: 0 <= i < j < |l| ==> l[i] != l[j]
  }

  ghost predicate Chain(mem: map<int, Rec>, head: int, l: seq<int>) {
    && head == Succ(l, -1)
    && forall j {:trigger Succ(l, j)} :: 0 <= j < |l| ==> l[j] in mem && mem[l[j]].link == Succ(l, j)
  }

  /** A list is the chain from its head, holds only free blocks of its own index, each once. */
  ghost predicate ListOk(mem: map<int, Rec>, head: int, l: seq<int>, free: set<int>, i: int) {
    && Chain(mem, head, l)
    && NoDup(l)
    && forall a :: a in l ==> a in free && a in mem && mem[a].index == i && a != NULL
  }

  /** The lists together hold exactly the free blocks, each in the list its index names. */
  ghost predicate ListsAgree(mem: map<int, Rec>, heads: seq<int>, lists: seq<seq<int>>, free: set<int>) {
    && |heads| == COUNT && |lists| == COUNT
    && (forall i :: 0 <= i < COUNT ==> ListOk(mem, heads[i], lists[i], free, i))
    && (forall a :: a in free ==> a in mem && 0 <= mem[a].index < COUNT && a in lists[mem[a].index])
  }

  /** A block filed under an exact class can hold that class. */
  ghost predicate HoldsClass(r: Rec) {
    0 <= r.index < COUNT && (r.index < OTHER_INDEX ==> ALL_SIZES[r.index] <= r.size)
  }

  /** Whether they are free or busy now, all blocks can hold the class they are filed under. */
  ghost predicate ClassOk(v: View) {
    forall a :: a in v.tiles && a != v.start && a != v.last ==> a in v.mem && HoldsClass(v.mem[a])
  }

  /** A block filed under an exact class has too little beyond that class for another block. */
  ghost predicate SnugRec(r: Rec) {
    0 <= r.index < OTHER_INDEX ==> r.size < ALL_SIZES[r.index] + HEADER + ALL_SIZES[0]
  }

  /** So it is with all blocks, free or busy, except between the passes of coalescing. */
  ghost predicate Snug(v: View) {
    forall a :: a in v.tiles && a != v.start && a != v.last ==> a in v.mem && SnugRec(v.mem[a])
  }

  ghost predicate Inv(v: View) {
    TilesOk(v) && TagsOk(v) && ListsAgree(v.mem, v.heads, v.lists, v.free)
  }

  /** The state between taking block `a` off a free list and marking it busy in its successor's tag. */
  ghost predicate Pending(v: View, a: int) {
    && TilesOk(v) && TagsExcept(v, a) && ListsAgree(v.mem, v.heads, v.lists, v.free)
    && a in Busy(v)
  }

  ghost function Busy(v: View): set<int> {
    v.tiles - v.free - {v.start, v.last}
  }

  /** Every block but the first has a predecessor tile that ends where it begins. */
  lemma Predecessor(v: View, f: int) returns (a: int)
    requires TilesOk(v)
    requires f in v.tiles && f != v.start
    ensures a in v.tiles && a != v.last && a < f && Next(v, a) == f
  {
    var below := set b | b in v.tiles && b < f;
    assert v.start in below;
    a := Largest(below, v.start);
    assert forall b :: b in v.tiles && b < f ==> b in below;
  }

  lemma Largest(s: set<int>, x: int) returns (m: int)
    requires x in s
    ensures m in s && forall y :: y in s ==> y <= m
    decreases s
  {
    m := x;
    if y :| y in s && y > x {
      m := Largest(s - {x}, y);
      assert forall z :: z in s ==> z == x || z in s - {x};
    }
  }

  /** Two blocks never end at the same place. */
  lemma NextInjective(v: View, a: int, b: int)
    requires TilesOk(v)
    requires a in v.tiles && b in v.tiles
    requires Next(v, a) == Next(v, b)
    ensures a == b
  {
  }

  /** A tag other than the magic leads back to a free block that ends at `f`: no panic is possible. */
  lemma TagLeadsBack(v: View, f: int)
    requires TilesOk(v) && TagsOk(v)
    requires f in v.tiles && v.mem[f].prev != MAGIC
    ensures var b := f - HEADER - v.mem[f].prev;
            b in v.free && b < f && Next(v, b) == f && f != v.start
  {
    var a := Predecessor(v, f);
    assert TagOk(v, a);
  }

  /** The magic before `f` means exactly that the block ending at `f` is busy. */
  lemma MagicMeansBusy(v: View, a: int)
    requires TilesOk(v) && TagsOk(v)
    requires a in v.tiles && a != v.last
    ensures v.mem[Next(v, a)].prev == MAGIC <==> a !in v.free
  {
    AlignedSum(v.mem[a].size, 0);
    assert TagOk(v, a);
  }

  // ---- pure descriptions of the updates ----

  ghost function Without(l: seq<int>, k: nat): seq<int>
    requires k < |l|
  {
    l[..k] + l[k + 1..]
  }

  /** Where the pointer-to-pointer of the list loops points: a list head or the `next` word of a block. */
  datatype Slot = Head(i: int) | NextOf(rec: int)

  ghost function SlotAt(l: seq<int>, i: int, k: nat): Slot
    requires k <= |l|
  {
    if k == 0 then Head(i) else NextOf(l[k - 1])
  }

  /** `*ptr` */
  function Load(mem: map<int, Rec>, heads: seq<int>, s: Slot): int
    requires s.Head? ==> 0 <= s.i < |heads|
    requires s.NextOf? ==> s.rec in mem
  {
    match s
    case Head(i) => heads[i]
    case NextOf(r) => mem[r].link
  }

  /** `*ptr = p`, memory part */
  function StoreMem(mem: map<int, Rec>, s: Slot, p: int): map<int, Rec>
    requires s.NextOf? ==> s.rec in mem
  {
    match s
    case Head(i) => mem
    case NextOf(r) => mem[r := mem[r].(link := p)]
  }

  /** `*ptr = p`, list-head part */
  function StoreHeads(heads: seq<int>, s: Slot, p: int): seq<int>
    requires s.Head? ==> 0 <= s.i < |heads|
  {
    match s
    case Head(i) => heads[i := p]
    case NextOf(r) => heads
  }

  // ---- what list surgery keeps ----

  lemma FrameLists(mem: map<int, Rec>, mem': map<int, Rec>, heads: seq<int>, lists: seq<seq<int>>, free: set<int>)
    requires ListsAgree(mem, heads, lists, free)
    requires forall a :: a in free ==> a in mem' && mem'[a].link == mem[a].link && mem'[a].index == mem[a].index
    ensures ListsAgree(mem', heads, lists, free)
  {
    forall i | 0 <= i < COUNT ensures ListOk(mem', heads[i], lists[i], free, i) {
      assert ListOk(mem, heads[i], lists[i], free, i);
    }
  }

  /** The pointer-to-pointer always names a list head or the link word of a free block. */
  lemma SlotIsFree(mem: map<int, Rec>, heads: seq<int>, lists: seq<seq<int>>, free: set<int>, i: int, k: nat)
    requires ListsAgree(mem, heads, lists, free)
    requires 0 <= i < COUNT && k <= |lists[i]|
    ensures var s := SlotAt(lists[i], i, k);
            && (s.NextOf? ==> s.rec in mem && s.rec in free)
            && Load(mem, heads, s) == Succ(lists[i], k - 1)
    ensures k < |lists[i]| ==> lists[i][k] in mem && lists[i][k] in free && lists[i][k] != NULL
    ensures k < |lists[i]| ==> mem[lists[i][k]].index == i && mem[lists[i][k]].link == Succ(lists[i], k)
  {
    assert ListOk(mem, heads[i], lists[i], free, i);
    var tail := Succ(lists[i], k);
    var here := Succ(lists[i], k - 1);
    assert k < |lists[i]| ==> lists[i][k] in lists[i];
    assert k > 0 ==> lists[i][k - 1] in lists[i];
  }

  lemma WithoutMembers(l: seq<int>, k: nat)
    requires NoDup(l) && k < |l|
    ensures NoDup(Without(l, k)) && l[k] !in Without(l, k)
    ensures forall a :: a in l && a != l[k] ==> a in Without(l, k)
    ensures forall a :: a in Without(l, k) ==> a in l
  {
    forall a | a in l && a != l[k] ensures a in Without(l, k) {
      var n :| 0 <= n < |l| && l[n] == a;
      assert Without(l, k)[if n < k then n else n - 1] == a;
    }
  }

  lemma WithoutSucc(l: seq<int>, k: nat, n: nat)
    requires k < |l| && n < |l| - 1
    ensures Without(l, k)[n] == l[if n < k then n else n + 1]
    ensures Succ(Without(l, k), n) == if n + 1 == k then Succ(l, k) else Succ(l, if n < k then n else n + 1)
  {
  }

  /** The list a block is unlinked from stays a chain of the same blocks without that one. */
  lemma UnlinkKeepsList(mem: map<int, Rec>, heads: seq<int>, l: seq<int>, free: set<int>, i: int, k: nat)
    requires 0 <= i < |heads| && k < |l|
    requires ListOk(mem, heads[i], l, free, i)
    ensures var f, s := l[k], SlotAt(l, i, k);
            && (s.NextOf? ==> s.rec in mem)
            && ListOk(StoreMem(mem, s, mem[f].link), StoreHeads(heads, s, mem[f].link)[i], Without(l, k), free - {f}, i)
  {
    var f, s, l' := l[k], SlotAt(l, i, k), Without(l, k);
    WithoutMembers(l, k);
    assert mem[f].link == Succ(l, k);
    var prior := Succ(l, k - 1);
    assert k > 0 ==> l[k - 1] in l;
    var mem' := StoreMem(mem, s, mem[f].link);
    forall n | 0 <= n < |l'| ensures l'[n] in mem' && mem'[l'[n]].link == Succ(l', n) {
      WithoutSucc(l, k, n);
      var m := if n < k then n else n + 1;
      assert mem[l[m]].link == Succ(l, m);
    }
  }

  /** `*ptr = block->next` takes the block at position `k` out of list `i` and disturbs nothing else. */
  lemma UnlinkKeepsLists(mem: map<int, Rec>, heads: seq<int>, lists: seq<seq<int>>, free: set<int>, i: int, k: nat)
    requires ListsAgree(mem, heads, lists, free)
    requires 0 <= i < COUNT && k < |lists[i]|
    ensures var f, s := lists[i][k], SlotAt(lists[i], i, k);
            && f in mem && f in free
            && (s.NextOf? ==> s.rec in mem && s.rec in free)
            && ListsAgree(StoreMem(mem, s, mem[f].link), StoreHeads(heads, s, mem[f].link),
                          lists[i := Without(lists[i], k)], free - {f})
  {
    var l := lists[i];
    var f, s := l[k], SlotAt(l, i, k);
    SlotIsFree(mem, heads, lists, free, i, k);
    UnlinkKeepsList(mem, heads, l, free, i, k);
    WithoutMembers(l, k);
    var mem', heads' := StoreMem(mem, s, mem[f].link), StoreHeads(heads, s, mem[f].link);
    var lists', free' := lists[i := Without(l, k)], free - {f};
    forall j | 0 <= j < COUNT ensures ListOk(mem', heads'[j], lists'[j], free', j) {
      assert ListOk(mem, heads[j], lists[j], free, j);
      if j != i { OtherListKept(mem, mem', heads[j], lists[j], free, f, j, s); }
    }
  }

  lemma OtherListKept(mem: map<int, Rec>, mem': map<int, Rec>, head: int, l: seq<int>, free: set<int>, f: int, j: int, s: Slot)
    requires ListOk(mem, head, l, free, j)
    requires f !in l && (s.NextOf? ==> s.rec !in l && s.rec in mem)
    requires forall p :: p in mem && s != NextOf(p) ==> p in mem' && mem'[p] == mem[p]
    ensures ListOk(mem', head, l, free - {f}, j)
  {
  }

  /** `block->next = blocks[i]; blocks[i] = block` files a block that was in no list. */
  lemma PushKeepsLists(mem: map<int, Rec>, heads: seq<int>, lists: seq<seq<int>>, free: set<int>, i: int, f: int)
    requires ListsAgree(mem, heads, lists, free)
    requires 0 <= i < COUNT && f in mem && f !in free && f != NULL
    ensures ListsAgree(mem[f := mem[f].(link := heads[i], index := i)], heads[i := f],
                       lists[i := [f] + lists[i]], free + {f})
  {
    var mem' := mem[f := mem[f].(link := heads[i], index := i)];
    var lists' := lists[i := [f] + lists[i]];
    forall j | 0 <= j < COUNT ensures ListOk(mem', heads[i := f][j], lists'[j], free + {f}, j) {
      assert ListOk(mem, heads[j], lists[j], free, j);
      if j == i {
        var l' := [f] + lists[i];
        forall n | 0 <= n < |l'| ensures mem'[l'[n]].link == Succ(l', n) {
          assert n > 0 ==> mem[lists[i][n - 1]].link == Succ(lists[i], n - 1);
        }
      }
    }
    forall a | a in free + {f} ensures a in lists'[mem'[a].index] {
      assert a != f && mem[a].index == i ==> a in [f] + lists[i];
    }
  }
}
