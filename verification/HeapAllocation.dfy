/** What handing out and taking back one block does to the heap's views. */
module HeapAllocation {
  import opened SizeClasses
  import opened HeapInvariant
  import opened HeapSteps
  import opened HeapTheorems
  import opened HeapForecast

  /**
   * Block `a` was carved out of free space: it is the one new busy block, every other busy block
   * keeps its place, size, label and owner, the bytes that stopped being free are exactly those of
   * `a`, header included, and nothing but headers was written.
   */
  ghost predicate Carved(v: View, v': View, a: int)
    requires TilesOk(v) && TilesOk(v')
  {
    && v'.start == v.start && v'.last == v.last
    && a !in v.tiles - v.free && v'.tiles - v'.free == v.tiles - v.free + {a}
    && (forall b :: b in v.tiles - v.free ==> v'.mem[b] == v.mem[b].(prev := v'.mem[b].prev))
    && (forall x :: FreeByte(v', x) <==> FreeByte(v, x) && !(a <= x < Next(v', a)))
    && (forall x :: a <= x < Next(v', a) ==> FreeByte(v, x))
    && Untouched(v, v')
  }

  /** Block `a` went back to free space, unchanged, at the head of its list: the converse of carving. */
  ghost predicate Returned(v: View, v': View, a: int)
    requires TilesOk(v) && TilesOk(v')
  {
    && v'.start == v.start && v'.last == v.last && v'.tiles == v.tiles
    && a in Busy(v) && v'.tiles - v'.free == v.tiles - v.free - {a}
    && (forall b :: b in v'.tiles - v'.free ==> v'.mem[b] == v.mem[b].(prev := v'.mem[b].prev))
    && v'.mem[a] == v.mem[a].(link := v'.mem[a].link)
    && 0 <= v.mem[a].index < |v.lists|
    && v'.lists == v.lists[v.mem[a].index := [a] + v.lists[v.mem[a].index]]
    && (forall x :: FreeByte(v', x) <==> FreeByte(v, x) || a <= x < Next(v, a))
    && Untouched(v, v')
  }

  lemma CoalescedThenCarved(u: View, v: View, w: View, a: int)
    requires TilesOk(u) && TilesOk(v) && TilesOk(w) && Coalesced(u, v) && Carved(v, w, a)
    ensures Carved(u, w, a)
  {
    hide FreeByte;
    forall x ensures FreeByte(w, x) <==> FreeByte(u, x) && !(a <= x < Next(w, a)) {
      assert FreeByte(u, x) <==> FreeByte(v, x);
    }
  }

  ghost predicate SameBlocks(v: View, v': View) {
    && v'.start == v.start && v'.last == v.last && v'.tiles == v.tiles
    && forall a :: a in v.tiles ==> a in v.mem && a in v'.mem && v'.mem[a].size == v.mem[a].size
  }

  lemma BytesOfOne(v: View, a: int, b: int, x: int)
    requires TilesOk(v) && a in v.tiles && b in v.tiles && a != b
    ensures !(a <= x < Next(v, a)) || !(b <= x < Next(v, b))
  {
    assert (b < a ==> Next(v, b) <= a) && (a < b ==> Next(v, a) <= b);
  }

  lemma FreeAreTiles(v: View)
    requires TilesOk(v)
    ensures v.free <= v.tiles
  {
  }

  /** With the same blocks, freeing `f` adds exactly its bytes to the free ones. */
  lemma FreedBytes(v: View, v': View, f: int, x: int)
    requires TilesOk(v) && TilesOk(v') && SameBlocks(v, v') && f in v'.free && v.free == v'.free - {f}
    ensures f in v.mem && f in v'.mem && Next(v', f) == Next(v, f)
    ensures FreeByte(v', x) <==> FreeByte(v, x) || f <= x < Next(v, f)
    ensures f <= x < Next(v, f) ==> !FreeByte(v, x)
  {
    hide TilesOk;
    FreeAreTiles(v');
    if b :| b in v'.free && b <= x < Next(v', b) { assert b == f || (b in v.free && b <= x < Next(v, b)); }
    if b :| b in v.free && b <= x < Next(v, b) {
      assert b in v'.free && b <= x < Next(v', b);
      if f <= x < Next(v, f) { BytesOfOne(v, b, f, x); }
    }
    if f <= x < Next(v, f) { assert f in v'.free && f <= x < Next(v', f); }
  }

  lemma SameBlocksSameBytes(v: View, v': View, x: int)
    requires TilesOk(v) && TilesOk(v') && SameBlocks(v, v') && v'.free == v.free
    ensures FreeByte(v', x) <==> FreeByte(v, x)
  {
    if b :| b in v'.free && b <= x < Next(v', b) { assert b in v.free && b <= x < Next(v, b); }
    if b :| b in v.free && b <= x < Next(v, b) { assert b in v'.free && b <= x < Next(v', b); }
  }

  /** A free block that leaves the free set, with nothing but headers written, was carved out. */
  lemma UnfreedIsCarved(v: View, v': View, f: int)
    requires TilesOk(v) && TilesOk(v') && SameBlocks(v', v) && f in v.free && v'.free == v.free - {f}
    requires forall b :: b in v.tiles - v.free ==> v'.mem[b] == v.mem[b].(prev := v'.mem[b].prev)
    requires Untouched(v, v')
    ensures Carved(v, v', f)
  {
    hide FreeByte;
    forall x
      ensures FreeByte(v', x) <==> FreeByte(v, x) && !(f <= x < Next(v', f))
      ensures f <= x < Next(v', f) ==> FreeByte(v, x)
    {
      FreedBytes(v', v, f, x);
    }
  }

  lemma TakeCarves(v: View, i: int, k: nat, index: int)
    requires Inv(v) && 0 <= i < COUNT && k < |v.lists[i]| && Pending(Take(v, i, k, index), v.lists[i][k])
    ensures Carved(v, Take(v, i, k, index), v.lists[i][k])
  {
    SlotIsFree(v.mem, v.heads, v.lists, v.free, i, k);
    hide Carved, TagsExcept, ListsAgree;
    UnfreedIsCarved(v, Take(v, i, k, index), v.lists[i][k]);
  }

  lemma CutCarves(v: View, v': View, f: int, a: int)
    requires TilesOk(v) && TilesOk(v') && Cut(v, v', f, a) && Untouched(v, v')
    requires forall b :: b in v.tiles - v.free ==> v'.mem[b] == v.mem[b].(prev := v'.mem[b].prev)
    ensures Carved(v, v', a)
  {
    CutIsNew(v, v', f, a);
    forall x ensures FreeByte(v', x) <==> FreeByte(v, x) && !(a <= x < Next(v', a)) {
      if b :| b in v'.free && b <= x < Next(v', b) {
        assert b in v.free && b <= x < Next(v, b);
        assert (b < a ==> Next(v', b) <= a) && (a < b ==> Next(v', a) <= b);
      }
      if b :| b in v.free && b <= x < Next(v, b) && !(a <= x < Next(v', a)) {
        assert b in v'.free && b <= x < Next(v', b);
      }
    }
    forall x | a <= x < Next(v', a) ensures FreeByte(v, x) { assert f <= x < Next(v, f); }
  }

  lemma SplitCarves(v: View, f: int, size: int, index: int)
    requires Inv(v) && CanSplit(v, f, size)
    ensures var v', a := Split(v, f, size, index), f + v.mem[f].size - size;
            TilesOk(v') && Carved(v, v', a)
  {
    var v', a := Split(v, f, size, index), f + v.mem[f].size - size;
    SplitCuts(v, f, size, index);
    CutIsNew(v, v', f, a);
    CutKeepsTiles(v, v', f, a);
    hide ListsAgree, TagsExcept;
    CutCarves(v, v', f, a);
  }

  /** Marking the carved block busy changes nothing carving promised. */
  lemma SealCarves(u: View, v: View, a: int, owner: int)
    requires TilesOk(u) && Pending(v, a) && Carved(u, v, a) && Inv(Seal(v, a, owner))
    ensures Carved(u, Seal(v, a, owner), a)
    ensures Seal(v, a, owner).mem[a].size == v.mem[a].size && Seal(v, a, owner).mem[a].index == v.mem[a].index
  {
    SealWrites(v, a, owner, Seal(v, a, owner));
    hide ListsAgree, TagsExcept, FreeByte, Seal;
    forall x ensures FreeByte(Seal(v, a, owner), x) <==> FreeByte(v, x) {
      SameBlocksSameBytes(v, Seal(v, a, owner), x);
    }
  }

  lemma SealWrites(v: View, a: int, owner: int, w: View)
    requires Pending(v, a) && w == Seal(v, a, owner) && TilesOk(w)
    ensures SameBlocks(v, w) && w.free == v.free && Untouched(v, w) && Next(w, a) == Next(v, a)
    ensures forall b :: b in v.tiles && b != a ==> w.mem[b] == v.mem[b].(prev := w.mem[b].prev)
    ensures w.mem[a].index == v.mem[a].index
  {
    assert Next(v, a) in v.tiles;
    hide ListsAgree, TagsExcept;
  }

  lemma ReleaseReturns(v: View, a: int)
    requires Inv(v) && a in Busy(v) && 0 <= v.mem[a].index < COUNT && Inv(Release(v, a))
    ensures Returned(v, Release(v, a), a)
  {
    var w := Release(v, a);
    assert Next(v, a) in v.tiles;
    hide ListsAgree, TagsExcept, FreeByte;
    forall x ensures FreeByte(w, x) <==> FreeByte(v, x) || a <= x < Next(v, a) { FreedBytes(v, w, a, x); }
  }

  /** What a successful search of the catch-all list leaves: an adequate block, busy but for its tag. */
  ghost predicate Handed(v: View, v': View, a: int, size: int, index: int)
    requires TilesOk(v)
  {
    && Pending(v', a) && ClassOk(v') && Snug(v') && Carved(v, v', a)
    && size <= v'.mem[a].size < size + HEADER + ALL_SIZES[0] && v'.mem[a].index == index
  }

  lemma SplitHands(v: View, f: int, size: int, index: int, v': View)
    requires Inv(v) && ClassOk(v) && Snug(v) && CanSplit(v, f, size) && v.mem[f].index == OTHER_INDEX
    requires 0 <= index < COUNT && (index < OTHER_INDEX ==> size == ALL_SIZES[index])
    requires v' == Split(v, f, size, index)
    ensures Handed(v, v', f + v.mem[f].size - size, size, index) && f + v.mem[f].size - size > 0
  {
    SplitIsPending(v, f, size, index);
    SplitCarves(v, f, size, index);
    SplitKeepsClass(v, f, size, index);
    hide Carved, Pending;
  }

  lemma SplitKeepsClass(v: View, f: int, size: int, index: int)
    requires ClassOk(v) && Snug(v) && f in v.tiles && f in v.mem && v.mem[f].index == OTHER_INDEX
    requires 0 <= index < COUNT && (index < OTHER_INDEX ==> size == ALL_SIZES[index])
    ensures ClassOk(Split(v, f, size, index)) && Snug(Split(v, f, size, index))
  {
    var v', a := Split(v, f, size, index), f + v.mem[f].size - size;
    forall b | b in v'.tiles && b != v'.start && b != v'.last
      ensures b in v'.mem && HoldsClass(v'.mem[b]) && SnugRec(v'.mem[b])
    {
      if b != a && b != f { assert HoldsClass(v.mem[b]) && SnugRec(v.mem[b]); }
    }
  }

  lemma TakeHands(v: View, i: int, k: nat, size: int, index: int, v': View)
    requires Inv(v) && ClassOk(v) && Snug(v) && 0 <= i < COUNT && k < |v.lists[i]|
    requires v.lists[i][k] in v.mem && size <= v.mem[v.lists[i][k]].size < size + HEADER + ALL_SIZES[0]
    requires 0 <= index < COUNT && (index < OTHER_INDEX ==> size == ALL_SIZES[index])
    requires v' == Take(v, i, k, index)
    ensures Handed(v, v', v.lists[i][k], size, index)
  {
    TakeIsPending(v, i, k, index);
    TakeCarves(v, i, k, index);
    TakeKeepsClass(v, i, k, index, v');
  }

  lemma TakeKeepsClass(v: View, i: int, k: nat, index: int, v': View)
    requires Inv(v) && ClassOk(v) && Snug(v) && 0 <= i < COUNT && k < |v.lists[i]|
    requires v.lists[i][k] in v.mem && 0 <= index < COUNT
    requires index < OTHER_INDEX ==>
      ALL_SIZES[index] <= v.mem[v.lists[i][k]].size < ALL_SIZES[index] + HEADER + ALL_SIZES[0]
    requires v' == Take(v, i, k, index)
    ensures ClassOk(v') && Snug(v') && v'.mem[v.lists[i][k]].index == index && v'.mem[v.lists[i][k]].size == v.mem[v.lists[i][k]].size
  {
    SlotIsFree(v.mem, v.heads, v.lists, v.free, i, k);
    hide ListsAgree, TagsExcept;
    forall b | b in v'.tiles && b != v'.start && b != v'.last
      ensures b in v'.mem && HoldsClass(v'.mem[b]) && SnugRec(v'.mem[b])
    {
      if b != v.lists[i][k] { assert HoldsClass(v.mem[b]) && SnugRec(v.mem[b]); }
    }
  }

  /** The head of an exact list, taken whole. */
  lemma PopHands(v: View, i: int, v': View)
    requires Inv(v) && ClassOk(v) && Snug(v) && 0 <= i < OTHER_INDEX && v.heads[i] != NULL
    requires v.heads[i] in v.mem
    requires v' == v.(heads := v.heads[i := v.mem[v.heads[i]].link], free := v.free - {v.heads[i]},
                      lists := v.lists[i := if v.lists[i] == [] then [] else Without(v.lists[i], 0)])
    ensures Handed(v, v', v.heads[i], ALL_SIZES[i], i)
  {
    SlotIsFree(v.mem, v.heads, v.lists, v.free, i, 0);
    var f := v.heads[i];
    SizeHeld(v, f, i);
    assert v.mem[f := v.mem[f].(index := i)] == v.mem;
    hide ClassOk, Snug, Handed, TilesOk, TagsExcept, ListsAgree;
    TakeHands(v, i, 0, ALL_SIZES[i], i, v');
  }

  lemma HandedAfterCoalescing(u: View, v: View, w: View, a: int, size: int, index: int)
    requires TilesOk(u) && TilesOk(v) && Coalesced(u, v) && Handed(v, w, a, size, index)
    ensures Handed(u, w, a, size, index)
  {
    CoalescedThenCarved(u, v, w, a);
  }

  lemma SealHanded(u: View, v: View, a: int, size: int, index: int, owner: int, w: View)
    requires TilesOk(u) && Handed(u, v, a, size, index) && w == Seal(v, a, owner)
    ensures a in v.mem && a + HEADER + v.mem[a].size in v.mem && w == v.(mem := SealMem(v.mem, a, owner))
    ensures a > 0 && w.mem[a].link == owner && w.mem[a].size == v.mem[a].size && w.mem[a].index == index
    ensures Inv(w) && ClassOk(w) && Snug(w) && Carved(u, w, a)
  {
    hide ListsAgree, TagsExcept, TilesOk, ClassOk, Snug, Carved;
    SealKeepsInv(v, a, owner);
    SealCarves(u, v, a, owner);
    SealKeepsClass(v, a, owner, w);
    PendingShape(v, a);
  }

  lemma SealKeepsClass(v: View, a: int, owner: int, w: View)
    requires Pending(v, a) && ClassOk(v) && Snug(v) && w == Seal(v, a, owner)
    ensures ClassOk(w) && Snug(w) && w.mem[a].link == owner
  {
    assert Next(v, a) in v.tiles;
    hide ListsAgree, TagsExcept;
    forall b | b in w.tiles && b != w.start && b != w.last ensures b in w.mem && HoldsClass(w.mem[b]) && SnugRec(w.mem[b]) {
      assert HoldsClass(v.mem[b]) && SnugRec(v.mem[b]);
    }
  }

  lemma ReleaseKeepsClass(v: View, a: int)
    requires Inv(v) && ClassOk(v) && Snug(v) && a in Busy(v) && 0 <= v.mem[a].index < COUNT
    ensures ClassOk(Release(v, a)) && Snug(Release(v, a))
  {
    var w := Release(v, a);
    assert Next(v, a) in v.tiles;
    hide ListsAgree, TagsExcept;
    forall b | b in w.tiles && b != w.start && b != w.last ensures b in w.mem && HoldsClass(w.mem[b]) && SnugRec(w.mem[b]) {
      assert HoldsClass(v.mem[b]) && SnugRec(v.mem[b]);
    }
  }

  /** The bytes a request for `n` bytes really asks for: aligned up, then up to its class. */
  function Rounded(n: int): (r: int)
    requires 0 < n < ADDRESS_SPACE - WORD
    ensures r > n
  {
    BlockAlignRoundsUp(n);
    var size := BlockAlign(n);
    RoundedUp(size, SizeClass(size))
  }

  /** Neither the request's own exact list nor the catch-all list can serve it as they stand. */
  ghost predicate NeedsCoalescing(v: View, n: int)
    requires TilesOk(v) && |v.heads| == COUNT && 0 < n < ADDRESS_SPACE - WORD
  {
    BlockAlignRoundsUp(n);
    var c := SizeClass(BlockAlign(n));
    (c == OTHER_INDEX || v.heads[c] == NULL) && NothingFits(v, Rounded(n))
  }

  /**
   * Block `a` of `size` bytes ends where free block `f` of `room` bytes ended. It is exactly as long as
   * needed, or all of `f` when what would be left over could not hold the smallest block.
   */
  ghost predicate CutOff(f: int, room: int, a: int, size: int, need: int) {
    && room >= need && a + size == f + room
    && if room < need + HEADER + ALL_SIZES[0] then a == f else size == need
  }

  /** Position `k` is the first in the catch-all list with a block of `need` bytes. */
  ghost predicate FirstAt(v: View, k: int, need: int) {
    && |v.lists| == COUNT && 0 <= k < |v.lists[OTHER_INDEX]|
    && v.lists[OTHER_INDEX][k] in v.mem && v.mem[v.lists[OTHER_INDEX][k]].size >= need
    && forall j :: 0 <= j < k ==> v.lists[OTHER_INDEX][j] in v.mem && v.mem[v.lists[OTHER_INDEX][j]].size < need
  }

  ghost predicate CutAt(v: View, k: int, a: int, size: int, need: int) {
    FirstAt(v, k, need) && var f := v.lists[OTHER_INDEX][k]; CutOff(f, v.mem[f].size, a, size, need)
  }

  /** Cut off the first block of the catch-all list that is long enough. */
  ghost predicate OffFirst(v: View, a: int, size: int, need: int) {
    exists k :: CutAt(v, k, a, size, need)
  }

  /** Cut off a run of free blocks that coalescing leaves in the catch-all list. */
  ghost predicate OffRun(v: View, a: int, size: int, need: int)
    requires TilesOk(v)
  {
    exists f :: f in v.free && v.mem[f].prev == MAGIC && FiledUnder(v, f) == OTHER_INDEX && CutOff(f, RunSize(v, f), a, size, need)
  }

  /** Where a block of class `c` comes from: its exact list, else the catch-all list, else that list after coalescing. */
  ghost predicate ComesFrom(v: View, c: int, a: int, size: int, need: int)
    requires TilesOk(v) && |v.heads| == COUNT && 0 <= c < COUNT
  {
    if c != OTHER_INDEX && v.heads[c] != NULL then a == v.heads[c] && a in v.mem && size == v.mem[a].size
    else if !NothingFits(v, need) then OffFirst(v, a, size, need)
    else OffRun(v, a, size, need)
  }

  /** What the search after coalescing cuts off was a run before. */
  lemma OffFirstIsOffRun(v: View, w: View, a: int, size: int, need: int)
    requires Inv(v) && Inv(w) && Compacted(v, w) && OffFirst(w, a, size, need)
    ensures OffRun(v, a, size, need)
  {
    var k :| CutAt(w, k, a, size, need);
    SlotIsFree(w.mem, w.heads, w.lists, w.free, OTHER_INDEX, k);
    var f := w.lists[OTHER_INDEX][k];
    hide Inv, TilesOk;
    assert f in w.free && w.mem[f].size == RunSize(v, f);
  }

  /** A request the heap never answers: no list serves it as it stands, and coalescing spins. */
  ghost predicate Hangs(v: View, n: int)
    requires Inv(v) && 0 < n < ADDRESS_SPACE - WORD
  {
    NeedsCoalescing(v, n) && CoalescingSpins(v)
  }

  /** A request answered with NULL: coalescing ends, and the catch-all list is left without room for it. */
  ghost predicate OutOfMemory(v: View, n: int)
    requires Inv(v) && 0 < n < ADDRESS_SPACE - WORD
  {
    NeedsCoalescing(v, n) && !CoalescingSpins(v) && Unservable(v, Rounded(n))
  }

  /**
   * A request answered with block `a`: carved out of free space, adequate, labelled with its class, and
   * beyond what was needed too short for another block.
   */
  ghost predicate Served(v: View, v': View, a: int, n: int)
    requires Inv(v) && TilesOk(v') && 0 < n < ADDRESS_SPACE - WORD
  {
    BlockAlignRoundsUp(n);
    var c := SizeClass(BlockAlign(n));
    && Carved(v, v', a) && v'.mem[a].index == c
    && n < Rounded(n) <= v'.mem[a].size < Rounded(n) + HEADER + ALL_SIZES[0]
    && ComesFrom(v, c, a, v'.mem[a].size, Rounded(n))
  }

  /** The head of an exact list can hold its class. */
  lemma SizeHeld(v: View, f: int, i: int)
    requires Inv(v) && ClassOk(v) && 0 <= i < OTHER_INDEX && f in v.free && v.mem[f].index == i
    ensures ALL_SIZES[i] <= v.mem[f].size && (Snug(v) ==> v.mem[f].size < ALL_SIZES[i] + HEADER + ALL_SIZES[0])
  {
    assert HoldsClass(v.mem[f]) && (Snug(v) ==> SnugRec(v.mem[f]));
  }

  /** What a request is rounded to is adequate for it, and the least class that is when one is. */
  lemma RequestShape(v: View, n: int)
    requires Inv(v) && 0 < n < ADDRESS_SPACE - WORD
    ensures var size := BlockAlign(n); var index := SizeClass(size);
            && n < size <= n + WORD && size < ADDRESS_SPACE && Aligned(size) && 0 <= index < COUNT && size <= ALL_SIZES[index]
            && (forall j :: 0 <= j < index ==> ALL_SIZES[j] <= n)
            && Rounded(n) == if index < OTHER_INDEX then ALL_SIZES[index] else size
  {
    BlockAlignRoundsUp(n);
    AlignedIsMultiple(BlockAlign(n));
    var size := BlockAlign(n);
    forall j | 0 <= j < SizeClass(size) ensures ALL_SIZES[j] <= n { ClassBelow(size, j); }
  }

  /** Class sizes are whole words: one below a rounded size is below it by a word. */
  lemma ClassBelow(size: int, j: int)
    requires 0 < size < ADDRESS_SPACE && size % WORD == 0 && 0 <= j < SizeClass(size)
    ensures SizeClass(size) <= OTHER_INDEX && ALL_SIZES[j] <= size - WORD
  {
    hide SizeClass;
    assert j < OTHER_INDEX ==> ALL_SIZES[j] == ALL_SIZES[j] / WORD * WORD;
    BelowClass(size, j);
  }

  lemma BelowClass(size: int, j: int)
    requires 0 < size < ADDRESS_SPACE && 0 <= j < SizeClass(size)
    ensures SizeClass(size) <= OTHER_INDEX && ALL_SIZES[j] < size
  {
  }

  /** The definitions of `Rounded` and `NeedsCoalescing`, for where these are hidden. */
  lemma RequestNeeds(v: View, n: int)
    requires Inv(v) && 0 < n < ADDRESS_SPACE - WORD
    ensures var size := BlockAlign(n); var index := SizeClass(size);
            && 0 <= index < COUNT && Rounded(n) == RoundedUp(size, index)
            && (NeedsCoalescing(v, n) <==>
                (index == OTHER_INDEX || v.heads[index] == NULL) && NothingFits(v, Rounded(n)))
  {
    BlockAlignRoundsUp(n);
  }

  lemma HandedIsPending(u: View, v: View, a: int, size: int, index: int)
    requires TilesOk(u) && Handed(u, v, a, size, index)
    ensures Pending(v, a)
  {
  }

  lemma HandedSize(u: View, v: View, a: int, size: int, index: int)
    requires TilesOk(u) && Handed(u, v, a, size, index)
    ensures a in v.mem && size <= v.mem[a].size < size + HEADER + ALL_SIZES[0]
  {
  }

  /** Freeing in full: the words written, and what they keep. */
  lemma ReleaseIs(v: View, a: int)
    requires Inv(v) && ClassOk(v) && Snug(v) && a in Busy(v)
    ensures a in v.mem && 0 <= v.mem[a].index < COUNT == |v.heads| == |v.lists| && Next(v, a) in v.mem
    ensures var i := v.mem[a].index; var m := PushMem(v.mem, a, v.heads[i], i);
            Release(v, a) == v.(mem := m[Next(v, a) := m[Next(v, a)].(prev := v.mem[a].size)],
                                heads := v.heads[i := a], free := v.free + {a},
                                lists := v.lists[i := [a] + v.lists[i]])
    ensures Inv(Release(v, a)) && ClassOk(Release(v, a)) && Snug(Release(v, a)) && Returned(v, Release(v, a), a)
  {
    assert HoldsClass(v.mem[a]) && Next(v, a) in v.tiles;
    ReleaseKeepsInv(v, a);
    ReleaseReturns(v, a);
    ReleaseKeepsClass(v, a);
  }

  lemma PendingShape(v: View, a: int)
    requires Pending(v, a)
    ensures a > 0 && a in v.mem && a + HEADER + v.mem[a].size in v.mem
  {
    assert Next(v, a) in v.tiles;
  }
}
