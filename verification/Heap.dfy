/** The heap object: the methods of `heap_t` on header memory, proved against the view steps. */
module Heap {
  import opened SizeClasses
  import opened HeapInvariant
  import opened HeapSteps
  import opened HeapTheorems
  import opened HeapForecast
  import opened HeapAllocation

  /** An allocation returns a pointer (NULL when out of memory), or its coalescing never ends. */
  datatype Allocation = Pointer(ptr: int) | NeverReturns

  class Heap {
    var mem: map<int, Rec>
    var heads: seq<int>
    var startAddress: int
    var endAddress: int
    var nullMalloc: int
    const self: int
    ghost var tiles: set<int>
    ghost var free: set<int>
    ghost var lists: seq<seq<int>>

    ghost function V(): View
      reads this
    {
      View(startAddress, endAddress - HEADER, mem, heads, tiles, free, lists)
    }

    /** What holds also between the passes of coalescing. */
    ghost predicate Sound()
      reads this
    {
      Inv(V()) && ClassOk(V()) && nullMalloc == startAddress
    }

    ghost predicate Valid()
      reads this
    {
      Sound() && Snug(V())
    }

    /** `init`: a null-allocation marker, one free block, an end marker. Other memory is left as it was. */
    constructor (start: int, end: int, memory: map<int, Rec>, owner: int)
      requires 0 < start && start + 3 * HEADER <= end <= ADDRESS_SPACE && (end - start) % WORD == 0
      ensures Valid()
      ensures startAddress == start && endAddress == end
      ensures NewArena(V())
      ensures forall x :: x !in tiles ==> (x in mem <==> x in memory) && (x in memory ==> mem[x] == memory[x])
    {
      var rec, last := start + HEADER, end - HEADER;
      var size := end - start - 3 * HEADER;
      var end_link := if last in memory then memory[last].link else NULL;
      startAddress, endAddress, nullMalloc, self := start, end, start, owner;
      heads := seq(COUNT, i => if i == OTHER_INDEX then rec else NULL);
      mem := memory[start := Rec(MAGIC, 0, -1, owner)][rec := Rec(MAGIC, size, OTHER_INDEX, NULL)]
                   [last := Rec(size, 0, 0, end_link)];
      tiles, free := {start, rec, last}, {rec};
      lists := seq(COUNT, i => if i == OTHER_INDEX then [rec] else []);
      new;
      hide Inv, ClassOk, Snug;
      NewArenaIsValid(V());
    }

    /** Where the loops of the two passes stand: the pointer is at position `k` of list `i`. */
    ghost predicate At(ptr: Slot, block: int, i: int, k: nat)
      reads this
    {
      && |heads| == |lists| == COUNT && 0 <= i < COUNT && k <= |lists[i]|
      && ptr == SlotAt(lists[i], i, k)
      && (block == NULL <==> k == |lists[i]|)
      && (k < |lists[i]| ==> block == lists[i][k] && block in mem && mem[block].index == i)
    }

    /** `free_block = *ptr` */
    method Fetch(ptr: Slot, ghost i: int, ghost k: nat) returns (block: int)
      requires Inv(V()) && 0 <= i < COUNT && k <= |lists[i]| && ptr == SlotAt(lists[i], i, k)
      ensures At(ptr, block, i, k)
    {
      SlotIsFree(mem, heads, lists, free, i, k);
      block := Load(mem, heads, ptr);
    }

    /** One swallow of the merge pass: `before->size += ...; after->prev = ...; *ptr = block->next`. */
    method MergeBlock(ptr: Slot, block: int, ghost i: int, ghost k: nat)
      requires Inv(V()) && At(ptr, block, i, k) && block != NULL && mem[block].prev != MAGIC
      modifies this`mem, this`heads, this`tiles, this`free, this`lists
      ensures V() == Merge(old(V()), i, k)
      ensures lists == old(lists)[i := Without(old(lists)[i], k)]
    {
      SlotIsFree(mem, heads, lists, free, i, k);
      TagLeadsBack(V(), block);
      var before := block - HEADER - mem[block].prev;
      // The sanity check of the source: its panic branch cannot be taken.
      assert before + HEADER + mem[before].size == block;
      var after := block + HEADER + mem[block].size;
      assert after == Next(V(), block);
      mem := MergeMem(mem, before, block, after);
      var next := mem[block].link;
      mem, heads := StoreMem(mem, ptr, next), StoreHeads(heads, ptr, next);
      tiles, free, lists := tiles - {block}, free - {block}, lists[i := Without(lists[i], k)];
    }

    /** What holds between turns of the merge pass over list `i`, started in state `v0`. */
    ghost predicate MergePass(ptr: Slot, block: int, i: int, k: nat, v0: View)
      requires TilesOk(v0)
      reads this
    {
      && Sound() && Coalesced(v0, V()) && Merging(v0, V())
      && At(ptr, block, i, k) && Settled(V(), i, k)
      && |v0.lists| == COUNT && lists == v0.lists[i := lists[i]]
    }

    /** One turn of the merge pass. */
    method MergeTurnAt(ptr: Slot, block: int, ghost i: int, ghost k: nat, ghost v0: View)
      returns (ptr': Slot, block': int, ghost k': nat)
      requires TilesOk(v0) && MergePass(ptr, block, i, k, v0) && block != NULL
      modifies this`mem, this`heads, this`tiles, this`free, this`lists
      ensures MergePass(ptr', block', i, k', v0)
      ensures |lists[i]| - k' == |old(lists)[i]| - k - 1
    {
      hide TilesOk, TagsExcept, ListsAgree, ClassOk, Coalesced, Merging, Merge;
      ptr', k' := ptr, k;
      if mem[block].prev != MAGIC {
        MergeTurnForecast(v0, V(), i, k, Merge(V(), i, k));
        MergeBlock(ptr, block, i, k);
      } else {
        ptr', k' := NextOf(block), k + 1;
      }
      block' := Fetch(ptr', i, k');
    }

    /** `coalesce_merge_blocks`: swallow every block of the list whose predecessor is free. */
    method CoalesceMergeBlocks(index: int)
      requires Sound() && 0 <= index < COUNT
      modifies this`mem, this`heads, this`tiles, this`free, this`lists
      ensures Sound() && Coalesced(old(V()), V()) && Merging(old(V()), V())
      ensures |lists| == |old(lists)| == COUNT && Settled(V(), index, |lists[index]|)
      ensures lists == old(lists)[index := lists[index]]
    {
      ghost var v0 := V();
      ghost var k := 0;
      var ptr := Head(index);
      var block := Fetch(ptr, index, k);
      CoalescedReflexive(v0);
      MergingReflexive(v0);
      while block != NULL
        invariant TilesOk(v0) && MergePass(ptr, block, index, k, v0)
        decreases |lists[index]| - k
      {
        ptr, block, k := MergeTurnAt(ptr, block, index, k, v0);
      }
    }

    /** One refiling of the move pass. The class found is overridden: the block goes to the catch-all. */
    method MoveBlock(ptr: Slot, block: int, ghost i: int, ghost k: nat)
      requires Inv(V()) && At(ptr, block, i, k) && block != NULL
      modifies this`mem, this`heads, this`lists
      ensures V() == Move(old(V()), i, k)
      ensures |lists| == COUNT && |lists[i]| == |old(lists)[i]| - if i == OTHER_INDEX then 0 else 1
      ensures i == OTHER_INDEX && k > 0 ==> k < |lists[i]| && lists[i][k] == old(lists)[i][k - 1]
      ensures k > 0 && i != OTHER_INDEX ==> lists[i][k - 1] == old(lists)[i][k - 1]
    {
      SlotIsFree(mem, heads, lists, free, i, k);
      var next := mem[block].link;
      mem, heads := StoreMem(mem, ptr, next), StoreHeads(heads, ptr, next);
      mem := PushMem(mem, block, heads[OTHER_INDEX], OTHER_INDEX);
      heads := heads[OTHER_INDEX := block];
      lists := lists[i := Without(lists[i], k)];
      lists := lists[OTHER_INDEX := [block] + lists[OTHER_INDEX]];
    }

    /** What holds between turns of the move pass over list `i`, started in state `v0`. */
    ghost predicate MovePass(ptr: Slot, block: int, i: int, k: nat, v0: View)
      reads this
    {
      Inv(v0) && Sound() && Coalesced(v0, V()) && At(ptr, block, i, k) && Moving(v0, V(), i, k)
    }

    /** A refiling turn of the move pass, away from the head of the catch-all list. */
    method RefileTurnAt(ptr: Slot, block: int, ghost i: int, ghost k: nat, ghost v0: View)
      returns (block': int, ghost k': nat)
      requires MovePass(ptr, block, i, k, v0) && block != NULL && Misfit(V(), i, k)
      requires i == OTHER_INDEX ==> k > 0
      modifies this`mem, this`heads, this`lists
      ensures MovePass(ptr, block', i, k', v0) && (i == OTHER_INDEX ==> k' > 0)
      ensures |lists[i]| - k' == |old(lists)[i]| - k - 1
    {
      hide Inv, TilesOk, TagsExcept, ListsAgree, ClassOk, Coalesced, Move, Moving, Misfit;
      MoveTurnKeeps(v0, V(), i, k, Move(V(), i, k));
      MoveBlock(ptr, block, i, k);
      k' := if i == OTHER_INDEX then k + 1 else k;
      assert SlotAt(lists[i], i, k') == ptr;
      block' := Fetch(ptr, i, k');
    }

    /** A turn of the move pass that leaves the block where it is. */
    method StepOverAt(block: int, ghost i: int, ghost k: nat, ghost v0: View)
      returns (ptr': Slot, block': int, ghost k': nat)
      requires |lists| == COUNT && 0 <= i < COUNT && k < |lists[i]|
      requires MovePass(SlotAt(lists[i], i, k), block, i, k, v0) && !Misfit(V(), i, k)
      ensures MovePass(ptr', block', i, k', v0) && k' == k + 1
    {
      hide Inv, TilesOk, TagsExcept, ListsAgree, ClassOk, Coalesced, Moving, Misfit;
      MovingPasses(v0, V(), i, k);
      ptr', k' := NextOf(block), k + 1;
      block' := Fetch(ptr', i, k');
    }

    /** One turn of the move pass that is not stuck on the head of the catch-all list. */
    method MoveTurnAt(ptr: Slot, block: int, i: int, ghost k: nat, ghost v0: View)
      returns (ptr': Slot, block': int, ghost k': nat, spins: bool)
      requires MovePass(ptr, block, i, k, v0) && block != NULL
      modifies this`mem, this`heads, this`lists
      ensures spins <==> i == OTHER_INDEX && k == 0 && HeadSpins(v0, i)
      ensures spins ==> V() == v0
      ensures !spins ==> MovePass(ptr', block', i, k', v0) && (i == OTHER_INDEX ==> k' > 0)
      ensures !spins ==> |lists[i]| - k' == |old(lists)[i]| - k - 1
    {
      ghost var v := V();
      SlotIsFree(mem, heads, lists, free, i, k);
      SizeBound(v, block);
      MovingAtStart(v0, v, i, k);
      hide Inv, TilesOk, TagsExcept, ListsAgree, ClassOk, Coalesced, Move, Moving;
      ptr', block', k', spins := ptr, block, k, false;
      var newIndex := FindIndex(mem[block].size);
      if newIndex != mem[block].index {
        if ptr == Head(OTHER_INDEX) {
          // The block would be unlinked from and relinked at the place the pointer designates.
          spins := true;
          return;
        }
        block', k' := RefileTurnAt(ptr, block, i, k, v0);
      } else {
        ptr', block', k' := StepOverAt(block, i, k, v0);
      }
    }

    /** `coalesce_move_blocks`, or the news that its loop never ends. */
    method CoalesceMoveBlocks(index: int) returns (spins: bool)
      requires Sound() && 0 <= index < COUNT
      modifies this`mem, this`heads, this`lists
      ensures spins <==> HeadSpins(old(V()), index)
      ensures spins ==> V() == old(V())
      ensures Sound() && Coalesced(old(V()), V())
      ensures !spins ==> |lists| == COUNT && Moving(old(V()), V(), index, |lists[index]|)
    {
      ghost var v0 := V();
      ghost var k := 0;
      var ptr := Head(index);
      var block := Fetch(ptr, index, k);
      CoalescedReflexive(v0);
      MovingStarts(v0, index);
      spins := false;
      while block != NULL
        invariant MovePass(ptr, block, index, k, v0)
        invariant HeadSpins(v0, index) ==> k == 0
        decreases |lists[index]| - k
      {
        ptr, block, k, spins := MoveTurnAt(ptr, block, index, k, v0);
        if spins { return; }
      }
    }

    /** The first half of `coalesce`: the merge pass over every list. */
    method MergeAll()
      requires Sound()
      modifies this`mem, this`heads, this`tiles, this`free, this`lists
      ensures Sound() && Coalesced(old(V()), V()) && NoFreeNeighbours(V()) && Merging(old(V()), V())
    {
      hide TilesOk, TagsExcept, ListsAgree, ClassOk, Coalesced, SettledBelow, NoFreeNeighbours, Merging;
      ghost var v0 := V();
      InvLayout(v0);
      CoalescedReflexive(v0);
      MergingReflexive(v0);
      NothingSettled(v0);
      for index := 0 to COUNT
        invariant Inv(v0) && Sound() && Coalesced(v0, V()) && SettledBelow(V(), index) && Merging(v0, V())
      {
        ghost var v := V();
        CoalesceMergeBlocks(index);
        CoalescedTransitive(v0, v, V());
        MergingTransitive(v0, v, V());
        SettledBelowGrows(v, index, V());
      }
      SettledEverywhere(V());
    }

    /** The second half of `coalesce`: the move pass over every list, or the news that it never ends. */
    method MoveAll() returns (spins: bool)
      requires Sound() && NoFreeNeighbours(V())
      modifies this`mem, this`heads, this`lists
      ensures Sound() && Coalesced(old(V()), V()) && NoFreeNeighbours(V())
      ensures spins <==> MovePassesSpin(old(V()))
      ensures MovedBelow(old(V()), V(), if spins then OTHER_INDEX else COUNT)
    {
      hide TilesOk, TagsExcept, ListsAgree, ClassOk, Coalesced, MovedBelow, NoFreeNeighbours, MovePassesSpin, Moving;
      ghost var merged := V();
      InvLayout(merged);
      CoalescedReflexive(merged);
      MovedNothing(merged);
      for index := 0 to COUNT
        invariant Inv(merged) && NoFreeNeighbours(merged)
        invariant Sound() && Coalesced(merged, V()) && MovedBelow(merged, V(), index)
        invariant index == COUNT ==> !MovePassesSpin(merged)
      {
        ghost var v := V();
        if index == OTHER_INDEX { SpinsAsPredicted(merged, v); }
        spins := CoalesceMoveBlocks(index);
        CoalescedTransitive(merged, v, V());
        if spins {
          MovedKeepsNeighbours(merged, V(), index);
          OnlyOtherSpins(v, index);
          return;
        }
        MovedBelowGrows(merged, v, index, V());
      }
      spins := false;
      MovedKeepsNeighbours(merged, V(), COUNT);
    }

    /**
     * `coalesce`: merge over all lists, then refile over all lists. The state before the call decides
     * whether the second half ever ends, and where every block is left.
     */
    method Coalesce() returns (spins: bool)
      requires Valid()
      modifies this`mem, this`heads, this`tiles, this`free, this`lists
      ensures spins <==> CoalescingSpins(old(V()))
      ensures Valid() && Coalesced(old(V()), V()) && NoFreeNeighbours(V())
      ensures !spins ==> Compacted(old(V()), V())
    {
      hide TilesOk, TagsExcept, ListsAgree, ClassOk, Coalesced, MovedBelow, NoFreeNeighbours, MovePassesSpin,
           Merging, CoalescingSpins, Compacted, Snug;
      ghost var v0 := V();
      InvLayout(v0);
      MergeAll();
      ghost var merged := V();
      SpinsAsForecast(v0, merged);
      spins := MoveAll();
      CoalescedTransitive(v0, merged, V());
      SnugAfterMoves(v0, merged, V(), if spins then OTHER_INDEX else COUNT);
      if !spins { CompactedAsForecast(v0, merged, V()); }
    }

    /** The search loop of `get_new_block_internal`: the first block of the catch-all list that fits. */
    method FirstFit(size: int) returns (ptr: Slot, block: int, ghost k: nat)
      requires Valid()
      ensures At(ptr, block, OTHER_INDEX, k)
      ensures block == NULL <==> NothingFits(V(), size)
      ensures block != NULL ==> FirstAt(V(), k, size)
    {
      k := 0;
      ptr := Head(OTHER_INDEX);
      block := Fetch(ptr, OTHER_INDEX, k);
      while block != NULL && mem[block].size < size
        invariant At(ptr, block, OTHER_INDEX, k)
        invariant forall j :: 0 <= j < k ==> lists[OTHER_INDEX][j] in mem && mem[lists[OTHER_INDEX][j]].size < size
        decreases |lists[OTHER_INDEX]| - k
      {
        ptr, k := NextOf(block), k + 1;
        block := Fetch(ptr, OTHER_INDEX, k);
      }
    }

    /** Cut `size` bytes off the tail of a fitting block, or take it whole when too little would remain. */
    method CarveFrom(ptr: Slot, found: int, ghost k: nat, size: int, index: int) returns (block: int)
      requires Valid() && 0 < size && Aligned(size)
      requires 0 <= index < COUNT && (index < OTHER_INDEX ==> size == ALL_SIZES[index])
      requires At(ptr, found, OTHER_INDEX, k) && found != NULL && mem[found].size >= size
      modifies this`mem, this`heads, this`tiles, this`free, this`lists
      ensures block != NULL && Handed(old(V()), V(), block, size, index)
      ensures found in old(mem) && block in mem && CutOff(found, old(mem)[found].size, block, mem[block].size, size)
    {
      SlotIsFree(mem, heads, lists, free, OTHER_INDEX, k);
      if mem[found].size - size >= MIN_FRAG {
        block := SplitBlock(found, size, index);
      } else {
        block := found;
        TakeFitting(ptr, block, OTHER_INDEX, k, size, index);
      }
    }

    /** Carve the tail off `found`; the pieces get their sizes, label and tag. */
    method SplitBlock(found: int, size: int, index: int) returns (block: int)
      requires Valid() && CanSplit(V(), found, size) && found in mem && mem[found].index == OTHER_INDEX
      requires 0 <= index < COUNT && (index < OTHER_INDEX ==> size == ALL_SIZES[index])
      modifies this`mem, this`tiles
      ensures block != NULL && Handed(old(V()), V(), block, size, index)
      ensures block == found + old(mem)[found].size - size && block in mem && mem[block].size == size
    {
      hide Handed, Inv, ClassOk, Snug, TilesOk, TagsExcept, ListsAgree, CanSplit;
      SplitHands(V(), found, size, index, Split(V(), found, size, index));
      block := found + mem[found].size - size;
      mem, tiles := SplitMem(mem, found, size, index), tiles + {block};
    }

    /** Take a fitting block whole. */
    method TakeFitting(ptr: Slot, block: int, ghost i: int, ghost k: nat, ghost size: int, index: int)
      requires Valid() && At(ptr, block, i, k) && block != NULL
      requires size <= mem[block].size < size + HEADER + ALL_SIZES[0]
      requires 0 <= index < COUNT && (index < OTHER_INDEX ==> size == ALL_SIZES[index])
      modifies this`mem, this`heads, this`free, this`lists
      ensures Handed(old(V()), V(), block, size, index)
      ensures block in old(mem) && block in mem && mem[block].size == old(mem)[block].size
    {
      TakeHands(V(), i, k, size, index, Take(V(), i, k, index));
      TakeKeepsClass(V(), i, k, index, Take(V(), i, k, index));
      hide Handed, ClassOk, Snug, TilesOk;
      TakeBlock(ptr, block, i, k, index);
    }

    /** `get_new_block_internal` */
    method GetNewBlockInternal(size: int, index: int) returns (block: int)
      requires Valid() && 0 < size && Aligned(size)
      requires 0 <= index < COUNT && (index < OTHER_INDEX ==> size == ALL_SIZES[index])
      modifies this`mem, this`heads, this`tiles, this`free, this`lists
      ensures block == NULL <==> NothingFits(old(V()), size)
      ensures block == NULL ==> V() == old(V())
      ensures block != NULL ==> Handed(old(V()), V(), block, size, index)
      ensures block != NULL ==> block in mem && OffFirst(old(V()), block, mem[block].size, size)
    {
      hide Inv, ClassOk, Snug, Handed, NothingFits, CutOff;
      ghost var k, v := 0, V();
      var ptr, found;
      ptr, found, k := FirstFit(size);
      block := found;
      if block != NULL {
        block := CarveFrom(ptr, found, k, size, index);
        assert CutAt(v, k, block, mem[block].size, size);
      }
    }

    /** `block->index = index; *ptr = block->next` */
    method TakeBlock(ptr: Slot, block: int, ghost i: int, ghost k: nat, index: int)
      requires Inv(V()) && At(ptr, block, i, k) && block != NULL
      modifies this`mem, this`heads, this`free, this`lists
      ensures V() == Take(old(V()), i, k, index)
    {
      SlotIsFree(mem, heads, lists, free, i, k);
      mem := mem[block := mem[block].(index := index)];
      var next := mem[block].link;
      mem, heads := StoreMem(mem, ptr, next), StoreHeads(heads, ptr, next);
      free, lists := free - {block}, lists[i := Without(lists[i], k)];
    }

    /** `get_new_block`: search, coalesce, search again. */
    method GetNewBlock(size: int, index: int) returns (block: int, spins: bool)
      requires Valid() && 0 < size < ADDRESS_SPACE && Aligned(size)
      requires 0 <= index < COUNT && (index < OTHER_INDEX ==> size <= ALL_SIZES[index])
      modifies this`mem, this`heads, this`tiles, this`free, this`lists
      ensures spins <==> NothingFits(old(V()), RoundedUp(size, index)) && CoalescingSpins(old(V()))
      ensures block == NULL <==>
        NothingFits(old(V()), RoundedUp(size, index)) && (CoalescingSpins(old(V())) || Unservable(old(V()), RoundedUp(size, index)))
      ensures block == NULL ==> Valid() && Coalesced(old(V()), V()) && NoFreeNeighbours(V())
      ensures block == NULL && !spins ==> Compacted(old(V()), V())
      ensures block != NULL ==> Handed(old(V()), V(), block, RoundedUp(size, index), index)
      ensures block != NULL ==> block in mem && TilesOk(old(V()))
      ensures block != NULL && !NothingFits(old(V()), RoundedUp(size, index)) ==>
        OffFirst(old(V()), block, mem[block].size, RoundedUp(size, index))
      ensures block != NULL && NothingFits(old(V()), RoundedUp(size, index)) ==>
        OffRun(old(V()), block, mem[block].size, RoundedUp(size, index))
    {
      hide OffFirst, OffRun, Snug, TilesOk, TagsExcept, ListsAgree, Inv, ClassOk, NothingFits, CoalescingSpins,
           Unservable, Coalesced, NoFreeNeighbours,
           Compacted, Handed;
      var size := if index != OTHER_INDEX then ALL_SIZES[index] else size;
      ClassSizesAligned(index);
      ghost var v := V();
      InvSizes(v);
      spins := false;
      block := GetNewBlockInternal(size, index);
      if block == NULL {
        spins := Coalesce();
        if !spins {
          ghost var w := V();
          InvLayout(w);
          NothingFitsAsForecast(v, w, size);
          block := GetNewBlockInternal(size, index);
          if block != NULL {
            HandedAfterCoalescing(v, w, V(), block, size, index);
            OffFirstIsOffRun(v, w, block, mem[block].size, size);
          }
        }
      }
    }

    /** The block for a request: off its exact list when that has one, else from the catch-all list. */
    method Reserve(size: int, index: int, ghost need: int) returns (block: int, spins: bool)
      requires Valid() && |heads| == COUNT && 0 < size < ADDRESS_SPACE && Aligned(size) && 0 <= index < COUNT
      requires size <= ALL_SIZES[index] && need == RoundedUp(size, index)
      modifies this`mem, this`heads, this`tiles, this`free, this`lists
      ensures spins <==>
        (index == OTHER_INDEX || old(heads[index]) == NULL) && NothingFits(old(V()), need) && CoalescingSpins(old(V()))
      ensures block == NULL <==>
        (index == OTHER_INDEX || old(heads[index]) == NULL) && NothingFits(old(V()), need)
        && (CoalescingSpins(old(V())) || Unservable(old(V()), need))
      ensures block == NULL ==> Valid() && Coalesced(old(V()), V()) && NoFreeNeighbours(V())
      ensures block == NULL && !spins ==> Compacted(old(V()), V())
      ensures block != NULL ==> Handed(old(V()), V(), block, need, index)
      ensures block != NULL ==>
        block in mem && TilesOk(old(V())) && ComesFrom(old(V()), index, block, mem[block].size, need)
    {
      hide Inv, Handed, NothingFits, TilesOk, ClassOk, Snug, Coalesced, NoFreeNeighbours, CoalescingSpins, Unservable, Compacted,
           OffFirst, OffRun;
      InvSizes(V());
      block := heads[index];
      if block == NULL || index == OTHER_INDEX {
        block, spins := GetNewBlock(size, index);
      } else {
        spins := false;
        PopClass(block, index, need);
      }
    }

    /** `allocate` for a request of at least one byte. */
    method AllocateSome(request: int) returns (p: int, spins: bool)
      requires Valid() && 0 < request < ADDRESS_SPACE - WORD
      modifies this`mem, this`heads, this`tiles, this`free, this`lists
      ensures Valid()
      ensures spins <==> NeedsCoalescing(old(V()), request) && CoalescingSpins(old(V()))
      ensures p == NULL <==>
        NeedsCoalescing(old(V()), request) && (CoalescingSpins(old(V())) || Unservable(old(V()), Rounded(request)))
      ensures p == NULL ==> Coalesced(old(V()), V()) && NoFreeNeighbours(V())
      ensures p == NULL && !spins ==> Compacted(old(V()), V())
      ensures p != NULL ==> Served(old(V()), V(), p - HEADER, request)
    {
      hide Snug, ComesFrom, BlockAlign, SizeClass, Rounded, RoundedUp, NeedsCoalescing, CoalescingSpins, Unservable, Compacted,
           Inv, Handed, Carved, NothingFits, TilesOk, ClassOk, Coalesced, NoFreeNeighbours;
      RequestShape(V(), request);
      RequestNeeds(V(), request);
      InvSizes(V());
      var size := BlockAlign(request);
      var index := FindIndex(size);
      ghost var v0 := V();
      p, spins := Reserve(size, index, Rounded(request));
      if p != NULL {
        HandedSize(v0, V(), p, Rounded(request), index);
        p := MarkBusy(p, v0, Rounded(request), index);
      }
    }

    /**
     * `allocate`. Everything is told from the state before the call: the request never returns
     * exactly when no list can serve it as it stands and coalescing spins; it returns NULL exactly
     * when coalescing ends without leaving the catch-all list a large enough block.
     */
    method Allocate(request: int) returns (r: Allocation)
      requires Valid() && 0 <= request < ADDRESS_SPACE - WORD
      modifies this`mem, this`heads, this`tiles, this`free, this`lists
      ensures Valid()
      ensures request == 0 ==> r == Pointer(nullMalloc) && V() == old(V())
      ensures request > 0 ==> (r.NeverReturns? <==> Hangs(old(V()), request))
      ensures request > 0 ==> (r == Pointer(NULL) <==> OutOfMemory(old(V()), request))
      ensures request > 0 && (r.NeverReturns? || r.ptr == NULL) ==> Coalesced(old(V()), V()) && NoFreeNeighbours(V())
      ensures request > 0 && r == Pointer(NULL) ==> Compacted(old(V()), V())
      ensures request > 0 && r.Pointer? && r.ptr != NULL ==> Served(old(V()), V(), r.ptr - HEADER, request)
    {
      hide Snug, Inv, TilesOk, ClassOk, Served, Coalesced, NeedsCoalescing, CoalescingSpins, Unservable, Compacted,
           Rounded, NoFreeNeighbours;
      if request == 0 {
        r := Pointer(nullMalloc);
      } else {
        var p, spins := AllocateSome(request);
        r := if spins then NeverReturns else Pointer(p);
      }
    }

    /** `blocks[index] = block->next`: the fast path through an exact list. */
    method PopClass(block: int, index: int, ghost size: int)
      requires Valid() && 0 <= index < OTHER_INDEX && block == heads[index] && block != NULL
      requires size == ALL_SIZES[index]
      modifies this`mem, this`heads, this`free, this`lists
      ensures Handed(old(V()), V(), block, size, index)
      ensures block in old(mem) && block in mem && mem[block].size == old(mem)[block].size
    {
      hide Inv, ListsAgree, TagsExcept, TilesOk, ClassOk, Snug, Handed, Without;
      InvSizes(V());
      HeadIsThere(V(), index);
      ghost var v := V();
      heads := heads[index := mem[block].link];
      free, lists := free - {block}, lists[index := Without(lists[index], 0)];
      PopHands(v, index, V());
    }

    /** `block->heap = this; next_block(block)->prev = HEAP_MAGIC`, and the pointer past the header. */
    method MarkBusy(block: int, ghost v0: View, ghost size: int, ghost index: int) returns (p: int)
      requires TilesOk(v0) && Handed(v0, V(), block, size, index) && nullMalloc == startAddress
      modifies this`mem
      ensures Valid() && p == Payload(block) && p != NULL
      ensures Carved(v0, V(), block) && mem[block].index == index && mem[block].link == self
      ensures block in old(mem) && mem[block].size == old(mem)[block].size
    {
      hide Inv, Pending, ListsAgree, TagsExcept, ClassOk, Snug, Handed, Carved, TilesOk, Seal;
      HandedIsPending(v0, V(), block, size, index);
      SealHanded(v0, V(), block, size, index, self, Seal(V(), block, self));
      mem := SealMem(mem, block, self);
      p := block + HEADER;
    }

    /** `free`, on NULL, the null marker, or a live pointer. */
    method Free(p: int)
      requires Valid() && (p == NULL || p == nullMalloc || p - HEADER in Busy(V()))
      modifies this`mem, this`heads, this`free, this`lists
      ensures Valid()
      ensures p == NULL || p == nullMalloc ==> V() == old(V())
      ensures p != NULL && p != nullMalloc ==> Returned(old(V()), V(), p - HEADER)
    {
      if p == NULL || p == nullMalloc { return; }
      hide Inv, ListsAgree, TagsExcept, ClassOk, Snug, Returned, TilesOk, Release, Busy;
      var block := p - HEADER;
      ReleaseIs(V(), block);
      var index, next := mem[block].index, block + HEADER + mem[block].size;
      mem := PushMem(mem, block, heads[index], index);
      heads := heads[index := block];
      mem := mem[next := mem[next].(prev := mem[block].size)];
      free, lists := free + {block}, lists[index := [block] + lists[index]];
    }
  }
}
