/** What coalescing will do, told from the state before it: which blocks stay, their sizes, their lists. */
module HeapForecast {
  import opened SizeClasses
  import opened HeapInvariant
  import opened HeapSteps
  import opened HeapTheorems

  /** Bytes of the block that the run of free blocks from `f` on makes when merged into one. */
  ghost function RunSize(v: View, f: int): (r: int)
    requires TilesOk(v) && f in v.free
    ensures r >= v.mem[f].size && f + HEADER + r <= v.last
    decreases v.last - f
  {
    var n := Next(v, f);
    assert n in v.tiles;
    if n in v.free then v.mem[f].size + HEADER + RunSize(v, n) else v.mem[f].size
  }

  /** The blocks of a list with a busy block before them, in the list's order. */
  ghost function Keep(mem: map<int, Rec>, l: seq<int>): seq<int> {
    if l == [] then []
    else if l[0] in mem && mem[l[0]].prev == MAGIC then [l[0]] + Keep(mem, l[1..])
    else Keep(mem, l[1..])
  }

  /** The headers as the merge passes leave them: each free block grown to the run it starts. */
  ghost function Grown(v: View): map<int, Rec>
    requires TilesOk(v)
  {
    map a | a in v.free :: v.mem[a].(size := RunSize(v, a))
  }

  /**
   * The last block, over the exact lists below `n`, that starts a run of another class than its
   * list's; without one, the first block of the catch-all list that starts a run.
   */
  ghost function LastOutgrown(v: View, n: nat): int
    requires Inv(v) && n <= OTHER_INDEX
  {
    if n == 0 then Succ(Keep(v.mem, v.lists[OTHER_INDEX]), -1)
    else LastMisfitIn(Grown(v), Keep(v.mem, v.lists[n - 1]), n - 1, LastOutgrown(v, n - 1))
  }

  /** Coalescing from here never ends: the block it will find heading the catch-all list is too small. */
  ghost predicate CoalescingSpins(v: View)
    requires Inv(v)
  {
    var h := LastOutgrown(v, OTHER_INDEX);
    h in v.free && RunSize(v, h) <= LARGE_LIMIT
  }

  /** Where coalescing leaves a block: in its exact list as long as its run is of that class. */
  ghost function FiledUnder(v: View, a: int): int
    requires TilesOk(v) && a in v.free
  {
    if SizeClass(RunSize(v, a)) == v.mem[a].index then v.mem[a].index else OTHER_INDEX
  }

  /** Every run of free blocks became its first block, filed where `FiledUnder` says. */
  ghost predicate Compacted(v: View, v': View)
    requires TilesOk(v)
  {
    && (forall a :: a in v'.free <==> a in v.free && v.mem[a].prev == MAGIC)
    && forall a :: a in v'.free ==>
         a in v'.mem && v'.mem[a].size == RunSize(v, a) && v'.mem[a].index == FiledUnder(v, a)
  }

  /** No block of the catch-all list can hold `size` bytes. */
  ghost predicate NothingFits(v: View, size: int) {
    |v.lists| == COUNT && forall j :: 0 <= j < |v.lists[OTHER_INDEX]| ==>
      v.lists[OTHER_INDEX][j] in v.mem && v.mem[v.lists[OTHER_INDEX][j]].size < size
  }

  /** No run that coalescing will leave in the catch-all list has `size` bytes. */
  ghost predicate Unservable(v: View, size: int)
    requires TilesOk(v)
  {
    forall a :: a in v.free && v.mem[a].prev == MAGIC && FiledUnder(v, a) == OTHER_INDEX ==> RunSize(v, a) < size
  }

  lemma InvSizes(v: View)
    requires Inv(v)
    ensures TilesOk(v) && |v.heads| == |v.lists| == COUNT
  {
  }

  /** A heap nothing was asked of yet: one free block in the catch-all list, between the two markers. */
  ghost predicate NewArena(v: View) {
    var block := v.start + HEADER;
    && v.tiles == {v.start, block, v.last} && v.free == {block}
    && block in v.mem && v.mem[block] == Rec(MAGIC, v.last - v.start - 2 * HEADER, OTHER_INDEX, NULL)
    && v.lists == seq(COUNT, i => if i == OTHER_INDEX then [block] else [])
  }

  /** The three records that `init` writes make a valid heap. */
  lemma NewArenaIsValid(v: View)
    requires NewArena(v) && 0 < v.start && v.start + 2 * HEADER <= v.last && v.last + HEADER <= ADDRESS_SPACE
    requires v.start in v.mem && v.mem[v.start].prev == MAGIC && v.mem[v.start].size == 0
    requires v.last in v.mem && v.mem[v.last].size == 0 && v.mem[v.last].prev == v.last - v.start - 2 * HEADER
    requires (v.last - v.start) % WORD == 0
    requires v.heads == seq(COUNT, i => if i == OTHER_INDEX then v.start + HEADER else NULL)
    ensures Inv(v) && ClassOk(v) && Snug(v)
  {
    var block := v.start + HEADER;
    AlignedIsMultiple(v.last - v.start - 2 * HEADER);
    assert Next(v, v.start) == block && Next(v, block) == v.last;
    assert TilesOk(v);
    forall a | a in v.tiles && a != v.last ensures TagOk(v, a) {}
    forall i | 0 <= i < COUNT ensures ListOk(v.mem, v.heads[i], v.lists[i], v.free, i) {}
  }

  // ---- what merging keeps ----

  /** Merging from `v0` on: runs keep their sizes and labels, lists the blocks that start a run. */
  ghost predicate Merging(v0: View, v: View)
    requires TilesOk(v0) && TilesOk(v)
  {
    && (forall a :: a in v.free ==> a in v0.free && RunSize(v, a) == RunSize(v0, a) && v.mem[a].index == v0.mem[a].index)
    && (forall a :: a in v0.free && v0.mem[a].prev == MAGIC ==> a in v.free)
    && |v.lists| == |v0.lists|
    && forall i :: 0 <= i < |v.lists| ==> Keep(v.mem, v.lists[i]) == Keep(v0.mem, v0.lists[i])
  }

  lemma MergingReflexive(v: View)
    requires TilesOk(v)
    ensures Merging(v, v)
  {
  }

  lemma MergingTransitive(u: View, v: View, w: View)
    requires TilesOk(u) && TilesOk(v) && TilesOk(w) && Merging(u, v) && Merging(v, w) && Coalesced(u, v)
    ensures Merging(u, w)
  {
  }

  /** Swallowing a block leaves every other run as large as it was. */
  lemma {:induction false} SwallowKeepsRuns(v: View, v': View, b: int, f: int, a: int)
    requires TilesOk(v) && TilesOk(v') && Swallowed(v, v', b, f) && a in v'.free
    ensures RunSize(v', a) == RunSize(v, a)
    decreases v.last - a
  {
    var n := Next(v', a);
    assert n in v'.tiles;
    if a == b {
      assert n == Next(v, f);
      assert RunSize(v, b) == v.mem[b].size + HEADER + RunSize(v, f);
    } else if Next(v, a) == f {
      NextInjective(v, a, b);
    }
    if n in v'.free { SwallowKeepsRuns(v, v', b, f, n); }
  }

  lemma {:induction false} KeepSame(mem: map<int, Rec>, mem': map<int, Rec>, l: seq<int>)
    requires forall a :: a in l ==> a in mem && a in mem' && (mem'[a].prev == MAGIC <==> mem[a].prev == MAGIC)
    ensures Keep(mem', l) == Keep(mem, l)
    decreases |l|
  {
    if l != [] {
      var first := l[0];
      assert first in l && forall a :: a in l[1..] ==> a in l;
      KeepSame(mem, mem', l[1..]);
    }
  }

  lemma {:induction false} KeepWithout(mem: map<int, Rec>, l: seq<int>, k: nat)
    requires k < |l| && !(l[k] in mem && mem[l[k]].prev == MAGIC)
    ensures Keep(mem, Without(l, k)) == Keep(mem, l)
    decreases k
  {
    if k == 0 {
      assert Without(l, 0) == l[1..];
    } else {
      assert Without(l, k)[0] == l[0] && Without(l, k)[1..] == Without(l[1..], k - 1);
      KeepWithout(mem, l[1..], k - 1);
    }
  }

  lemma {:induction false} KeepMembers(mem: map<int, Rec>, l: seq<int>, a: int)
    ensures a in Keep(mem, l) <==> a in l && a in mem && mem[a].prev == MAGIC
    decreases |l|
  {
    if l != [] {
      assert a in l <==> a == l[0] || a in l[1..];
      KeepMembers(mem, l[1..], a);
    }
  }

  lemma {:induction false} KeepAll(mem: map<int, Rec>, l: seq<int>)
    requires forall a :: a in l ==> a in mem && mem[a].prev == MAGIC
    ensures Keep(mem, l) == l
    decreases |l|
  {
    if l != [] {
      var first := l[0];
      assert first in l && l == [first] + l[1..] && forall a :: a in l[1..] ==> a in l;
      KeepAll(mem, l[1..]);
    }
  }

  /** One merge keeps, in every list, the blocks that start a run. */
  lemma MergeKeepsStarts(v: View, i: int, k: nat, v': View, j: int)
    requires Inv(v) && 0 <= i < COUNT && k < |v.lists[i]| && 0 <= j < COUNT
    requires v.lists[i][k] in v.mem && v.mem[v.lists[i][k]].prev != MAGIC
    requires v' == Merge(v, i, k) && Inv(v') && Coalesced(v, v') && v'.free == v.free - {v.lists[i][k]}
    requires v'.lists == v.lists[i := Without(v.lists[i], k)]
    ensures Keep(v'.mem, v'.lists[j]) == Keep(v.mem, v.lists[j])
  {
    assert ListOk(v'.mem, v'.heads[j], v'.lists[j], v'.free, j);
    hide Merge, TagsExcept, ListsAgree;
    KeepSame(v.mem, v'.mem, v'.lists[j]);
    if j == i { KeepWithout(v.mem, v.lists[i], k); }
  }

  lemma MergeMerges(v: View, i: int, k: nat, v': View)
    requires Inv(v) && 0 <= i < COUNT && k < |v.lists[i]|
    requires v.lists[i][k] in v.mem && v.mem[v.lists[i][k]].prev != MAGIC
    requires v' == Merge(v, i, k) && Inv(v') && Coalesced(v, v')
    ensures Merging(v, v')
  {
    hide *;
    InvSizes(v);
    InvSizes(v');
    MergeSwallows(v, i, k);
    MergeWrites(v, i, k);
    MergeLists(v, i, k, v');
    var f := v.lists[i][k];
    forall j | 0 <= j < COUNT ensures Keep(v'.mem, v'.lists[j]) == Keep(v.mem, v.lists[j]) {
      MergeKeepsStarts(v, i, k, v', j);
    }
    SwallowMerges(v, v', f - HEADER - v.mem[f].prev, f);
  }

  lemma MergeLists(v: View, i: int, k: nat, v': View)
    requires Inv(v) && 0 <= i < COUNT && k < |v.lists[i]|
    requires v.lists[i][k] in v.mem && v.mem[v.lists[i][k]].prev != MAGIC && v' == Merge(v, i, k)
    ensures v'.lists == v.lists[i := Without(v.lists[i], k)] && v'.free == v.free - {v.lists[i][k]}
    ensures COUNT == OTHER_INDEX + 1
  {
  }

  lemma SwallowMerges(v: View, v': View, b: int, f: int)
    requires TilesOk(v) && TilesOk(v') && Swallowed(v, v', b, f) && |v.lists| == |v'.lists| == COUNT
    requires f in v.mem && v.mem[f].prev != MAGIC
    requires forall a :: a in v.tiles - {f} ==> a in v'.mem && v'.mem[a].index == v.mem[a].index
    requires forall j :: 0 <= j < COUNT ==> Keep(v'.mem, v'.lists[j]) == Keep(v.mem, v.lists[j])
    ensures Merging(v, v')
  {
    forall a | a in v'.free ensures RunSize(v', a) == RunSize(v, a) { SwallowKeepsRuns(v, v', b, f, a); }
    hide TilesOk;
  }

  /** What one merging turn of the merge pass maintains, forecast included. */
  lemma MergeTurnForecast(v0: View, v: View, i: int, k: nat, v': View)
    requires TilesOk(v0) && Inv(v) && ClassOk(v) && Coalesced(v0, v) && Merging(v0, v)
    requires 0 <= i < COUNT && k < |v.lists[i]| && Settled(v, i, k)
    requires v.lists[i][k] in v.mem && v.mem[v.lists[i][k]].prev != MAGIC
    requires v' == Merge(v, i, k)
    ensures Inv(v') && ClassOk(v') && Coalesced(v0, v') && Settled(v', i, k) && Merging(v0, v')
  {
    hide Inv, TilesOk, TagsExcept, ListsAgree, ClassOk, Coalesced, Merging, Settled, Merge;
    MergeTurn(v0, v, i, k, v');
    MergeCoalesces(v, i, k, v');
    MergeMerges(v, i, k, v');
    InvLayout(v);
    InvLayout(v');
    MergingTransitive(v0, v, v');
  }

  // ---- from the state before merging to the state after it ----

  lemma RunsAreBlocks(v: View, a: int)
    requires TilesOk(v) && NoFreeNeighbours(v) && a in v.free
    ensures RunSize(v, a) == v.mem[a].size
  {
  }

  /** After merging, each list is what it kept, and each block the run it started. */
  lemma MergedLists(v0: View, v: View, i: int)
    requires TilesOk(v0) && Inv(v) && Merging(v0, v) && NoFreeNeighbours(v) && 0 <= i < COUNT == |v0.lists|
    ensures v.lists[i] == Keep(v0.mem, v0.lists[i])
    ensures forall a :: a in v.lists[i] ==> a in v.mem && a in Grown(v0) && v.mem[a].size == Grown(v0)[a].size
  {
    MagicMeansNoFreeNeighbours(v);
    assert ListOk(v.mem, v.heads[i], v.lists[i], v.free, i);
    KeepAll(v.mem, v.lists[i]);
    forall a | a in v.lists[i] ensures v.mem[a].size == Grown(v0)[a].size { RunsAreBlocks(v, a); }
  }

  lemma HeadOf(v: View, i: int)
    requires Inv(v) && 0 <= i < COUNT
    ensures |v.heads| == |v.lists| == COUNT && v.heads[i] == Succ(v.lists[i], -1)
  {
    SlotIsFree(v.mem, v.heads, v.lists, v.free, i, 0);
  }

  lemma HeadIsThere(v: View, i: int)
    requires Inv(v) && 0 <= i < COUNT
    ensures |v.heads| == |v.lists| == COUNT && (v.heads[i] != NULL ==> v.lists[i] != [] && v.heads[i] in v.mem)
  {
    SlotIsFree(v.mem, v.heads, v.lists, v.free, i, 0);
  }

  lemma {:induction false} OutgrownIsMisfit(v0: View, v: View, n: nat)
    requires Inv(v0) && Inv(v) && Merging(v0, v) && NoFreeNeighbours(v) && n <= OTHER_INDEX
    ensures LastOutgrown(v0, n) == LastMisfit(v, n)
    decreases n
  {
    hide Inv, TilesOk, Merging, NoFreeNeighbours, Grown, Keep;
    InvSizes(v0);
    InvSizes(v);
    if n == 0 {
      MergedLists(v0, v, OTHER_INDEX);
      HeadOf(v, OTHER_INDEX);
    } else {
      OutgrownIsMisfit(v0, v, n - 1);
      MergedLists(v0, v, n - 1);
      LastMisfitSame(Grown(v0), v.mem, v.lists[n - 1], n - 1, LastMisfit(v, n - 1));
    }
  }

  lemma {:induction false} MisfitIsMisfiled(mem: map<int, Rec>, l: seq<int>, i: int, other: int)
    ensures var h := LastMisfitIn(mem, l, i, other); h == other || (h in l && Misfiled(mem, h, i))
    decreases |l|
  {
    if l != [] {
      assert l[|l| - 1] in l && forall a :: a in l[..|l| - 1] ==> a in l;
      MisfitIsMisfiled(mem, l[..|l| - 1], i, other);
    }
  }

  lemma {:induction false} MisfitIsFree(v: View, n: nat)
    requires Inv(v) && n <= OTHER_INDEX
    ensures LastMisfit(v, n) == NULL || LastMisfit(v, n) in v.free
    decreases n
  {
    if n == 0 {
      SlotIsFree(v.mem, v.heads, v.lists, v.free, OTHER_INDEX, 0);
    } else {
      MisfitIsFree(v, n - 1);
      ListSizes(v, n - 1);
      MisfitIsMisfiled(v.mem, v.lists[n - 1], n - 1, LastMisfit(v, n - 1));
    }
  }

  /** Whether the move passes spin was decided by the state before merging. */
  lemma SpinsAsForecast(v0: View, v: View)
    requires Inv(v0) && Inv(v) && Merging(v0, v) && NoFreeNeighbours(v)
    ensures MovePassesSpin(v) <==> CoalescingSpins(v0)
  {
    OutgrownIsMisfit(v0, v, OTHER_INDEX);
    MisfitIsFree(v, OTHER_INDEX);
    var h := LastMisfit(v, OTHER_INDEX);
    hide LastMisfit, LastOutgrown;
    if h in v.free { RunsAreBlocks(v, h); } else { NotNull(v0); }
  }

  /** After all passes every block is where the state before merging said it would be. */
  lemma CompactedAsForecast(v0: View, v: View, w: View)
    requires Inv(v0) && Inv(v) && Inv(w) && Merging(v0, v) && Coalesced(v0, v) && NoFreeNeighbours(v)
    requires MovedBelow(v, w, COUNT)
    ensures Compacted(v0, w)
  {
    MagicMeansNoFreeNeighbours(v);
    hide TagsExcept, ListsAgree;
    forall a | a in w.free ensures w.mem[a].size == RunSize(v0, a) && w.mem[a].index == FiledUnder(v0, a) {
      RunsAreBlocks(v, a);
      EndsFiled(v, w, a);
    }
  }

  /** A block the move passes left in an exact list is of its class, and only misfits left theirs. */
  lemma EndsFiled(v: View, w: View, a: int)
    requires Inv(v) && Inv(w) && MovedBelow(v, w, COUNT) && a in v.free
    ensures a in v.mem && a in w.mem && 0 <= v.mem[a].size < ADDRESS_SPACE
    ensures w.mem[a].index == if SizeClass(v.mem[a].size) == v.mem[a].index then v.mem[a].index else OTHER_INDEX
  {
    SizeBound(v, a);
    var i := w.mem[a].index;
    assert a in w.lists[i] && Filed(w, i, |w.lists[i]|);
    var j :| 0 <= j < |w.lists[i]| && w.lists[i][j] == a;
  }

  /** Once the exact lists are done, blocks are again no larger than their lists allow. */
  lemma SnugAfterMoves(v0: View, v: View, w: View, n: nat)
    requires Inv(v0) && Inv(v) && Inv(w) && Snug(v0) && Coalesced(v0, w)
    requires MovedBelow(v, w, n) && n >= OTHER_INDEX
    ensures Snug(w)
  {
    forall a | a in w.tiles && a != w.start && a != w.last ensures a in w.mem && SnugRec(w.mem[a]) {
      if a in w.free {
        InListSnug(v, w, a, n);
      } else {
        assert SnugRec(v0.mem[a]);
      }
    }
  }

  lemma InListSnug(v: View, w: View, a: int, n: nat)
    requires Inv(v) && Inv(w) && MovedBelow(v, w, n) && n >= OTHER_INDEX && a in w.free
    ensures a in w.mem && SnugRec(w.mem[a])
  {
    SizeBound(w, a);
    var i := w.mem[a].index;
    var j :| 0 <= j < |w.lists[i]| && w.lists[i][j] == a;
    if i < OTHER_INDEX {
      assert Filed(w, i, |w.lists[i]|);
      ClassHolds(w.mem[a].size, i);
    }
  }

  lemma ClassHolds(size: int, i: int)
    requires 0 <= size < ADDRESS_SPACE && SizeClass(size) == i < OTHER_INDEX
    ensures 0 <= i && size <= ALL_SIZES[i]
  {
  }

  /** What the search after coalescing finds, told from the state before it. */
  lemma NothingFitsAsForecast(v0: View, w: View, size: int)
    requires Inv(v0) && Inv(w) && Compacted(v0, w)
    ensures NothingFits(w, size) <==> Unservable(v0, size)
  {
    var l := w.lists[OTHER_INDEX];
    assert ListOk(w.mem, w.heads[OTHER_INDEX], l, w.free, OTHER_INDEX);
    if NothingFits(w, size) {
      forall a | a in w.free && FiledUnder(v0, a) == OTHER_INDEX ensures RunSize(v0, a) < size {
        assert a in l;
        var j :| 0 <= j < |l| && l[j] == a;
      }
    }
    if Unservable(v0, size) {
      forall j | 0 <= j < |l| ensures w.mem[l[j]].size < size { assert l[j] in l; }
    }
  }

  /** When coalescing spins, it is on a run it takes out of an exact list or finds in the catch-all. */
  lemma {:induction false} OutgrownIsRefiled(v: View, n: nat)
    requires Inv(v) && n <= OTHER_INDEX
    ensures var h := LastOutgrown(v, n);
            h == NULL || (h in v.free && v.mem[h].prev == MAGIC && FiledUnder(v, h) == OTHER_INDEX)
    decreases n
  {
    var i := if n == 0 then OTHER_INDEX else n - 1;
    var l := v.lists[i];
    assert ListOk(v.mem, v.heads[i], l, v.free, i);
    var h := LastOutgrown(v, n);
    hide TilesOk, TagsExcept, ListsAgree;
    KeepMembers(v.mem, l, h);
    if n > 0 {
      OutgrownIsRefiled(v, n - 1);
      MisfitIsMisfiled(Grown(v), Keep(v.mem, l), i, LastOutgrown(v, n - 1));
    }
  }

  lemma NotNull(v: View)
    requires TilesOk(v)
    ensures NULL !in v.free
  {
  }
}
