/** What the heap's agreeing views mean for its users, and how whole coalescing passes behave. */
module HeapTheorems {
  import opened SizeClasses
  import opened HeapInvariant
  import opened HeapSteps

  lemma CoalescedTransitive(u: View, v: View, w: View)
    requires TilesOk(u) && TilesOk(v) && TilesOk(w)
    requires Coalesced(u, v) && Coalesced(v, w)
    ensures Coalesced(u, w)
  {
    forall x ensures FreeByte(w, x) <==> FreeByte(u, x) {
      assert FreeByte(w, x) <==> FreeByte(v, x);
    }
  }

  lemma CoalescedReflexive(v: View)
    requires TilesOk(v)
    ensures Coalesced(v, v)
  {
  }

  /** Coalescing grows blocks or files them under the catch-all: they stay adequate for their label. */
  lemma ClassCarries(v: View, v': View)
    requires TilesOk(v) && TilesOk(v') && ClassOk(v) && Coalesced(v, v')
    ensures ClassOk(v')
  {
    forall a | a in v'.tiles && a != v.start && a != v.last ensures HoldsClass(v'.mem[a]) {
      assert HoldsClass(v.mem[a]);
    }
  }

  lemma SizeBound(v: View, a: int)
    requires TilesOk(v) && a in v.tiles
    ensures 0 <= v.mem[a].size < ADDRESS_SPACE
  {
    if a != v.last { assert Next(v, a) in v.tiles; }
  }

  /** The first `k` blocks of list `i` have a busy block before them. */
  ghost predicate Settled(v: View, i: int, k: nat) {
    0 <= i < |v.lists| && k <= |v.lists[i]| &&
    forall j :: 0 <= j < k ==> v.lists[i][j] in v.mem && v.mem[v.lists[i][j]].prev == MAGIC
  }

  /** What one merging turn of the merge pass maintains. */
  lemma MergeTurn(v0: View, v: View, i: int, k: nat, v': View)
    requires TilesOk(v0) && Inv(v) && ClassOk(v) && Coalesced(v0, v)
    requires 0 <= i < COUNT && k < |v.lists[i]| && Settled(v, i, k)
    requires v.lists[i][k] in v.mem && v.mem[v.lists[i][k]].prev != MAGIC
    requires v' == Merge(v, i, k)
    ensures Inv(v') && ClassOk(v') && Coalesced(v0, v') && Settled(v', i, k)
  {
    MergeCoalesces(v, i, k, v');
    CoalescedTransitive(v0, v, v');
    ClassCarries(v, v');
    assert v'.lists[i] == Without(v.lists[i], k);
    SettledCarries(v, v', i, k);
  }

  lemma SettledCarries(v: View, v': View, i: int, k: nat)
    requires Inv(v) && Inv(v') && Coalesced(v, v') && Settled(v, i, k) && 0 <= i < COUNT
    requires k <= |v'.lists[i]| && v'.lists[i][..k] == v.lists[i][..k]
    ensures Settled(v', i, k)
  {
    forall j | 0 <= j < k ensures v'.lists[i][j] in v'.mem && v'.mem[v'.lists[i][j]].prev == MAGIC {
      assert v'.lists[i][j] == v'.lists[i][..k][j] == v.lists[i][j];
      SlotIsFree(v'.mem, v'.heads, v'.lists, v'.free, i, j);
    }
  }

  /** A pointer handed to the user is just past a header. */
  function Payload(a: int): int { a + HEADER }

  /** Payloads of different busy blocks are disjoint, lie inside the arena, and meet no header. */
  lemma PayloadsDisjoint(v: View, a: int, b: int)
    requires Inv(v) && a in Busy(v) && b in v.tiles && a != b
    ensures v.start < Payload(a) && Payload(a) + v.mem[a].size <= v.last
    ensures Payload(a) + v.mem[a].size <= b || Next(v, b) <= Payload(a) - HEADER
  {
    assert Next(v, a) in v.tiles && (b < a ==> Next(v, b) <= a);
  }

  /** The record at `t` is the same in both memories. */
  ghost predicate SameRecord(mem: map<int, Rec>, mem': map<int, Rec>, t: int) {
    (t in mem' <==> t in mem) && (t in mem ==> mem'[t] == mem[t])
  }

  /**
   * A step that writes only headers current before or after it, and keeps block `a` busy and in
   * place, writes no byte of that block's payload: a record at `t` covers `t .. t + HEADER`.
   */
  lemma PayloadUntouched(v: View, v': View, a: int, t: int)
    requires Inv(v) && Inv(v') && Untouched(v, v')
    requires a in Busy(v) && a in Busy(v') && v'.mem[a].size == v.mem[a].size
    requires Payload(a) < t + HEADER && t < Payload(a) + v.mem[a].size
    ensures SameRecord(v.mem, v'.mem, t)
  {
    if t in v.tiles { PayloadsDisjoint(v, a, t); }
    if t in v'.tiles { PayloadsDisjoint(v', a, t); }
  }

  /** No two neighbouring blocks are both free. */
  ghost predicate NoFreeNeighbours(v: View)
    requires TilesOk(v)
  {
    forall a {:trigger Next(v, a)} :: a in v.free ==> Next(v, a) !in v.free
  }

  /** All free blocks carry the magic before them exactly when no two neighbours are free. */
  lemma MagicMeansNoFreeNeighbours(v: View)
    requires Inv(v)
    ensures (forall a :: a in v.free ==> v.mem[a].prev == MAGIC) <==> NoFreeNeighbours(v)
  {
    if forall a :: a in v.free ==> v.mem[a].prev == MAGIC {
      forall a | a in v.free ensures Next(v, a) !in v.free { MagicMeansBusy(v, a); }
    }
    if NoFreeNeighbours(v) {
      forall a | a in v.free ensures v.mem[a].prev == MAGIC {
        var p := Predecessor(v, a);
        MagicMeansBusy(v, p);
      }
    }
  }

  /** With everything freed and merged, the arena is one block between its two markers. */
  lemma AllFreedIsOneBlock(v: View)
    requires Inv(v) && NoFreeNeighbours(v) && Busy(v) == {}
    requires v.start + 2 * HEADER <= v.last
    ensures v.free == {v.start + HEADER}
    ensures v.mem[v.start + HEADER].size == (v.last + HEADER - v.start) - 3 * HEADER
  {
    forall b | b in v.tiles ensures b in v.free || b == v.start || b == v.last {
      assert b !in Busy(v);
    }
    var a := Next(v, v.start);
    assert a in v.tiles && a in v.free;
    var n := Next(v, a);
    assert n in v.tiles && n !in v.free;
    forall b | b in v.free ensures b == a {
      assert b < a || b == a || n <= b;
    }
  }

  // ---- the move pass as an iteration, and exactly when it ends ----

  ghost predicate Misfit(v: View, i: int, k: nat)
    requires Inv(v) && 0 <= i < COUNT && k < |v.lists[i]|
  {
    SlotIsFree(v.mem, v.heads, v.lists, v.free, i, k);
    SizeBound(v, v.lists[i][k]);
    SizeClass(v.mem[v.lists[i][k]].size) != i
  }

  /**
   * One turn of the move loop over list `i` with the pointer at position `k`. A misfit is refiled at
   * the head of the catch-all list; when that is the list being scanned, the pointer's position
   * shifts by one, unless the pointer is the list head itself.
   */
  ghost function MoveTurn(v: View, i: int, k: nat): (View, nat)
    requires Inv(v) && 0 <= i < COUNT && k < |v.lists[i]|
  {
    if Misfit(v, i, k) then (Move(v, i, k), if i == OTHER_INDEX && k > 0 then k + 1 else k) else (v, k + 1)
  }

  /** The loop reaches the end of list `i` within `n` turns. */
  ghost predicate EndsWithin(v: View, i: int, k: nat, n: nat)
    requires Inv(v) && 0 <= i < COUNT && k <= |v.lists[i]|
    decreases n
  {
    if k == |v.lists[i]| then true
    else if n == 0 then false
    else
      var (v', k') := MoveTurn(v, i, k);
      MoveKeepsInv(v, i, k);
      EndsWithin(v', i, k', n - 1)
  }

  ghost predicate HeadSpins(v: View, i: int)
    requires Inv(v) && 0 <= i < COUNT
  {
    i == OTHER_INDEX && v.lists[i] != [] && Misfit(v, i, 0)
  }

  /** Refiling the head of the catch-all list gives back the very same heap. */
  lemma MoveOfOtherHeadIsIdentity(v: View)
    requires Inv(v) && v.lists[OTHER_INDEX] != []
    ensures Move(v, OTHER_INDEX, 0) == v
  {
    var l := v.lists[OTHER_INDEX];
    SlotIsFree(v.mem, v.heads, v.lists, v.free, OTHER_INDEX, 0);
    assert [l[0]] + Without(l, 0) == l;
    var v' := Move(v, OTHER_INDEX, 0);
    assert v'.mem == v.mem;
    assert v'.heads == v.heads;
    assert v'.lists == v.lists;
  }

  lemma {:induction false} SpinsForever(v: View, n: nat)
    requires Inv(v) && HeadSpins(v, OTHER_INDEX)
    ensures !EndsWithin(v, OTHER_INDEX, 0, n)
  {
    if n > 0 {
      MoveOfOtherHeadIsIdentity(v);
      SpinsForever(v, n - 1);
    }
  }

  /** Each turn leaves one block fewer ahead of the pointer, except on a spinning head. */
  lemma TurnAdvances(v: View, i: int, k: nat)
    requires Inv(v) && 0 <= i < COUNT && k < |v.lists[i]|
    requires k == 0 ==> !HeadSpins(v, i)
    ensures var (v', k') := MoveTurn(v, i, k);
            Inv(v') && k' <= |v'.lists[i]| && |v'.lists[i]| - k' == |v.lists[i]| - k - 1
    ensures var (v', k') := MoveTurn(v, i, k); Inv(v') && (k' == 0 ==> !HeadSpins(v', i))
  {
    MoveKeepsInv(v, i, k);
    assert |Without(v.lists[i], k)| == |v.lists[i]| - 1;
  }

  lemma EndsAtOnce(v: View, i: int, k: nat)
    requires Inv(v) && 0 <= i < COUNT && k == |v.lists[i]|
    ensures EndsWithin(v, i, k, 0)
  {
  }

  lemma TurnEnds(v: View, i: int, k: nat, n: nat)
    requires Inv(v) && 0 <= i < COUNT && k < |v.lists[i]| && n > 0
    requires var (v', k') := MoveTurn(v, i, k); Inv(v') && k' <= |v'.lists[i]| && EndsWithin(v', i, k', n - 1)
    ensures EndsWithin(v, i, k, n)
  {
  }

  lemma {:induction false} EndsOtherwise(v: View, i: int, k: nat, n: nat)
    requires Inv(v) && 0 <= i < COUNT && k <= |v.lists[i]| && n == |v.lists[i]| - k
    requires k == 0 ==> !HeadSpins(v, i)
    ensures EndsWithin(v, i, k, n)
    decreases n
  {
    hide *;
    if n == 0 {
      EndsAtOnce(v, i, k);
    } else {
      TurnAdvances(v, i, k);
      var t := MoveTurn(v, i, k);
      EndsOtherwise(t.0, i, t.1, n - 1);
      TurnEnds(v, i, k, n);
    }
  }

  lemma HeadSpinsIff(v: View, i: int)
    requires Inv(v) && 0 <= i < COUNT
    ensures HeadSpins(v, i) <==>
            i == OTHER_INDEX && v.heads[i] != NULL && v.heads[i] in v.mem && v.mem[v.heads[i]].size <= LARGE_LIMIT
  {
    SlotIsFree(v.mem, v.heads, v.lists, v.free, i, 0);
    if v.lists[i] != [] {
      SizeBound(v, v.lists[i][0]);
      OtherMeansLarge(v.mem[v.lists[i][0]].size);
    }
  }

  /**
   * The move pass over a list ends unless that list is the catch-all and its head block is no larger
   * than the largest exact class; then it runs forever without changing anything.
   */
  lemma MovePassEndsIff(v: View, i: int)
    requires Inv(v) && 0 <= i < COUNT
    ensures (exists n: nat :: EndsWithin(v, i, 0, n)) <==>
            !(i == OTHER_INDEX && v.heads[i] != NULL && v.heads[i] in v.mem && v.mem[v.heads[i]].size <= LARGE_LIMIT)
  {
    HeadSpinsIff(v, i);
    if HeadSpins(v, i) {
      forall n: nat ensures !EndsWithin(v, i, 0, n) { SpinsForever(v, n); }
    } else {
      var n: nat := |v.lists[i]|;
      EndsOtherwise(v, i, 0, n);
      assert EndsWithin(v, i, 0, n);
      assert exists n: nat :: EndsWithin(v, i, 0, n);
      assert !(i == OTHER_INDEX && v.heads[i] != NULL && v.heads[i] in v.mem && v.mem[v.heads[i]].size <= LARGE_LIMIT);
    }
  }

  // ---- where the move passes leave the head of the catch-all list ----

  ghost predicate Misfiled(mem: map<int, Rec>, a: int, i: int) {
    a in mem && 0 <= mem[a].size < ADDRESS_SPACE && SizeClass(mem[a].size) != i
  }

  /** Last block of `l` filed under the wrong class `i`, or `other` when all fit. */
  ghost function LastMisfitIn(mem: map<int, Rec>, l: seq<int>, i: int, other: int): int {
    if l == [] then other
    else if Misfiled(mem, l[|l| - 1], i) then l[|l| - 1]
    else LastMisfitIn(mem, l[..|l| - 1], i, other)
  }

  /** Last misfit over the exact lists below `n`, or the head of the catch-all list. */
  ghost function LastMisfit(v: View, n: nat): int
    requires Inv(v) && n <= OTHER_INDEX
  {
    if n == 0 then v.heads[OTHER_INDEX]
    else LastMisfitIn(v.mem, v.lists[n - 1], n - 1, LastMisfit(v, n - 1))
  }

  lemma ListSizes(v: View, i: int)
    requires Inv(v) && 0 <= i < COUNT
    ensures forall a {:trigger a in v.lists[i]} :: a in v.lists[i] ==> a in v.free && a in v.mem && 0 <= v.mem[a].size < ADDRESS_SPACE
  {
    assert ListOk(v.mem, v.heads[i], v.lists[i], v.free, i);
    forall a | a in v.lists[i] ensures 0 <= v.mem[a].size < ADDRESS_SPACE { SizeBound(v, a); }
  }

  /**
   * Given the heap between the merge and the move passes: the move passes never end exactly when
   * the block they leave at the head of the catch-all list before scanning it is no larger than the
   * largest exact class.
   */
  ghost predicate MovePassesSpin(v: View)
    requires Inv(v)
  {
    var h := LastMisfit(v, OTHER_INDEX);
    h != NULL && h in v.mem && v.mem[h].size <= LARGE_LIMIT
  }

  lemma {:induction false} LastMisfitSame(mem: map<int, Rec>, mem': map<int, Rec>, l: seq<int>, i: int, other: int)
    requires forall a :: a in l ==> a in mem && a in mem' && mem[a].size == mem'[a].size
    ensures LastMisfitIn(mem, l, i, other) == LastMisfitIn(mem', l, i, other)
  {
    if l != [] {
      assert l[|l| - 1] in l && forall a :: a in l[..|l| - 1] ==> a in l;
      LastMisfitSame(mem, mem', l[..|l| - 1], i, other);
    }
  }

  /** The first `k` blocks of the exact list `i` belong to class `i`. */
  ghost predicate Filed(v: View, i: int, k: nat) {
    0 <= i < |v.lists| && k <= |v.lists[i]| &&
    (i < OTHER_INDEX ==> forall j :: 0 <= j < k ==>
      v.lists[i][j] in v.mem && !Misfiled(v.mem, v.lists[i][j], i))
  }

  /**
   * Of the old list `l0`, the blocks from position `k` of `l` on are still to be scanned, and the
   * catch-all head is the last misfit among the others.
   */
  ghost predicate Scanned(mem: map<int, Rec>, l0: seq<int>, i: int, head0: int, l: seq<int>, k: nat, head: int) {
    && k <= |l| && |l| - k <= |l0|
    && l[k..] == l0[|l0| - (|l| - k)..]
    && head == LastMisfitIn(mem, l0[..|l0| - (|l| - k)], i, head0)
  }

  /** Refiling since `v0` went to the catch-all list only, and took only blocks of another class than their list's. */
  ghost predicate OnlyMisfitsRefiled(v0: View, v: View) {
    forall a :: a in v0.free ==>
      && a in v0.mem && a in v.mem
      && (v.mem[a].index != v0.mem[a].index ==> v.mem[a].index == OTHER_INDEX && Misfiled(v0.mem, a, v0.mem[a].index))
  }

  /** How far the move pass over list `i`, started in `v0`, has come when its pointer is at `k`. */
  ghost predicate Moving(v0: View, v: View, i: int, k: nat) {
    && 0 <= i < COUNT == |v.lists| == |v0.lists| == |v.heads| == |v0.heads|
    && k <= |v.lists[i]| && |v.lists[i]| - k <= |v0.lists[i]|
    && v.free == v0.free && SameLayout(v0, v) && OnlyMisfitsRefiled(v0, v)
    && v.lists == v0.lists[i := v.lists[i]][OTHER_INDEX := v.lists[OTHER_INDEX]]
    && Filed(v, i, k)
    && (i < OTHER_INDEX ==>
         Scanned(v0.mem, v0.lists[i], i, v0.heads[OTHER_INDEX], v.lists[i], k, v.heads[OTHER_INDEX]))
    && (i == OTHER_INDEX && k == 0 ==> v == v0)
  }

  lemma ScanStep(l0: seq<int>, l: seq<int>, k: nat)
    requires k < |l| && |l| - k <= |l0| && l[k..] == l0[|l0| - (|l| - k)..]
    ensures var done := |l0| - (|l| - k);
            && l0[done] == l[k] && l[k + 1..] == l0[done + 1..] && l0[..done + 1][..done] == l0[..done]
    ensures Without(l, k)[k..] == l[k + 1..] && Without(l, k)[..k] == l[..k]
  {
    assert l[k..][0] == l0[|l0| - (|l| - k)..][0];
    assert l[k + 1..] == l[k..][1..];
  }

  lemma FiledCarries(v: View, v': View, i: int, k: nat)
    requires Inv(v) && SameLayout(v, v') && Filed(v, i, k) && 0 <= i < COUNT == |v'.lists|
    requires i < OTHER_INDEX ==> k <= |v'.lists[i]| && v'.lists[i][..k] == v.lists[i][..k]
    requires k <= |v'.lists[i]|
    ensures Filed(v', i, k)
  {
    if i < OTHER_INDEX {
      forall j | 0 <= j < k ensures v'.lists[i][j] in v'.mem && !Misfiled(v'.mem, v'.lists[i][j], i) {
        assert v'.lists[i][j] == v'.lists[i][..k][j] == v.lists[i][j];
        SlotIsFree(v.mem, v.heads, v.lists, v.free, i, j);
      }
    }
  }

  lemma ScannedMisfit(mem: map<int, Rec>, l0: seq<int>, i: int, head0: int, l: seq<int>, k: nat, head: int)
    requires Scanned(mem, l0, i, head0, l, k, head) && k < |l| && Misfiled(mem, l[k], i)
    ensures Scanned(mem, l0, i, head0, Without(l, k), k, l[k]) && Without(l, k)[..k] == l[..k]
  {
    ScanStep(l0, l, k);
  }

  lemma ScannedFit(mem: map<int, Rec>, l0: seq<int>, i: int, head0: int, l: seq<int>, k: nat, head: int)
    requires Scanned(mem, l0, i, head0, l, k, head) && k < |l| && !Misfiled(mem, l[k], i)
    ensures Scanned(mem, l0, i, head0, l, k + 1, head)
  {
    ScanStep(l0, l, k);
  }

  /** A refiling turn over an exact list. */
  lemma MovingRefilesExact(v0: View, v: View, i: int, k: nat, v': View)
    requires Inv(v0) && Inv(v) && Moving(v0, v, i, k) && k < |v.lists[i]| && i < OTHER_INDEX
    requires v' == Move(v, i, k) && Misfit(v, i, k)
    ensures Inv(v') && Moving(v0, v', i, k)
  {
    hide Inv, Move, Misfit, TilesOk, TagsExcept, ListsAgree, Filed, Scanned, Misfiled, SameLayout, Without, OnlyMisfitsRefiled;
    MoveKeepsInv(v, i, k);
    MoveOutOfExact(v0, v, i, k, v');
    FiledCarriesMove(v, i, k, v');
    SameLayoutTransitive(v0, v, v');
    RefiledCarries(v0, v, i, k, v');
    ScannedMisfit(v0.mem, v0.lists[i], i, v0.heads[OTHER_INDEX], v.lists[i], k, v.heads[OTHER_INDEX]);
  }

  lemma FiledCarriesMove(v: View, i: int, k: nat, v': View)
    requires Inv(v) && 0 <= i < OTHER_INDEX && k < |v.lists[i]| && Filed(v, i, k)
    requires |v'.lists| == COUNT && v'.lists[i] == Without(v.lists[i], k) && SameLayout(v, v')
    ensures Filed(v', i, k)
  {
    assert v'.lists[i][..k] == v.lists[i][..k];
    FiledCarries(v, v', i, k);
  }

  lemma SameLayoutTransitive(u: View, v: View, w: View)
    requires SameLayout(u, v) && SameLayout(v, w)
    ensures SameLayout(u, w)
  {
  }

  /** Where a misfit of an exact list goes. */
  lemma MoveOutOfExact(v0: View, v: View, i: int, k: nat, v': View)
    requires Inv(v) && 0 <= i < OTHER_INDEX && k < |v.lists[i]|
    requires SameLayout(v0, v) && v' == Move(v, i, k) && Misfit(v, i, k)
    ensures |v'.heads| == |v'.lists| == COUNT && v'.free == v.free
    ensures v'.heads[OTHER_INDEX] == v.lists[i][k] && Misfiled(v0.mem, v.lists[i][k], i)
    ensures v'.lists == v.lists[i := Without(v.lists[i], k)][OTHER_INDEX := [v.lists[i][k]] + v.lists[OTHER_INDEX]]
  {
    SlotIsFree(v.mem, v.heads, v.lists, v.free, i, k);
    SizeBound(v, v.lists[i][k]);
  }

  /** A refiling turn over the catch-all list, away from its head. */
  lemma MovingRefilesOther(v0: View, v: View, k: nat, v': View)
    requires Inv(v0) && Inv(v) && Moving(v0, v, OTHER_INDEX, k) && 0 < k < |v.lists[OTHER_INDEX]|
    requires v' == Move(v, OTHER_INDEX, k)
    ensures Inv(v') && Moving(v0, v', OTHER_INDEX, k + 1)
  {
    MoveKeepsInv(v, OTHER_INDEX, k);
    SlotIsFree(v.mem, v.heads, v.lists, v.free, OTHER_INDEX, k);
    FiledTrivially(v', OTHER_INDEX, k + 1);
    RefiledCarries(v0, v, OTHER_INDEX, k, v');
    hide TilesOk, TagsExcept, ListsAgree, Filed, OnlyMisfitsRefiled;
  }

  lemma RefiledCarries(v0: View, v: View, i: int, k: nat, v': View)
    requires Inv(v0) && Inv(v) && SameLayout(v0, v) && v.free == v0.free && OnlyMisfitsRefiled(v0, v)
    requires 0 <= i < COUNT && k < |v.lists[i]| && v' == Move(v, i, k) && (i == OTHER_INDEX || Misfit(v, i, k))
    ensures OnlyMisfitsRefiled(v0, v')
  {
    SlotIsFree(v.mem, v.heads, v.lists, v.free, i, k);
    SizeBound(v, v.lists[i][k]);
    hide TagsExcept, ListsAgree;
  }

  lemma RefiledTransitive(u: View, v: View, w: View)
    requires SameLayout(u, v) && u.free == v.free && TilesOk(u)
    requires OnlyMisfitsRefiled(u, v) && OnlyMisfitsRefiled(v, w)
    ensures OnlyMisfitsRefiled(u, w)
  {
  }

  lemma FiledTrivially(v: View, i: int, k: nat)
    requires i == OTHER_INDEX < |v.lists| && k <= |v.lists[i]|
    ensures Filed(v, i, k)
  {
  }

  /** A turn of the move pass that leaves a block where it is. */
  lemma MovingPasses(v0: View, v: View, i: int, k: nat)
    requires Inv(v0) && Inv(v) && Moving(v0, v, i, k) && k < |v.lists[i]|
    requires !Misfit(v, i, k)
    ensures Moving(v0, v, i, k + 1)
  {
    SlotIsFree(v.mem, v.heads, v.lists, v.free, i, k);
    if i < OTHER_INDEX {
      ScannedFit(v0.mem, v0.lists[i], i, v0.heads[OTHER_INDEX], v.lists[i], k, v.heads[OTHER_INDEX]);
    }
  }

  lemma MovingStarts(v: View, i: int)
    requires Inv(v) && 0 <= i < COUNT
    ensures Moving(v, v, i, 0)
  {
    assert v.lists[i := v.lists[i]] == v.lists;
    assert v.lists[OTHER_INDEX := v.lists[OTHER_INDEX]] == v.lists;
  }

  lemma MoveTurnKeeps(v0: View, v: View, i: int, k: nat, v': View)
    requires Inv(v0) && Inv(v) && ClassOk(v) && Coalesced(v0, v)
    requires Moving(v0, v, i, k) && k < |v.lists[i]| && Misfit(v, i, k)
    requires i == OTHER_INDEX ==> k > 0
    requires v' == Move(v, i, k)
    ensures Inv(v') && ClassOk(v') && Coalesced(v0, v')
    ensures Moving(v0, v', i, if i == OTHER_INDEX then k + 1 else k)
  {
    MoveKeepsInv(v, i, k);
    MoveCoalesces(v, i, k);
    hide Move, Misfit, ListsAgree, TagsExcept;
    CoalescedTransitive(v0, v, v');
    ClassCarries(v, v');
    hide *;
    if i == OTHER_INDEX { MovingRefilesOther(v0, v, k, v'); } else { MovingRefilesExact(v0, v, i, k, v'); }
  }

  lemma MovingAtStart(v0: View, v: View, i: int, k: nat)
    requires Inv(v0) && Inv(v) && Moving(v0, v, i, k) && k < |v.lists[i]|
    ensures i == OTHER_INDEX && k == 0 ==> v == v0 && (HeadSpins(v0, i) <==> Misfit(v, i, k))
  {
  }

  // ---- the two passes over all lists ----

  /** The merge pass is done with the lists below `n`. */
  ghost predicate SettledBelow(v: View, n: nat) {
    |v.lists| == COUNT && n <= COUNT && forall j {:trigger v.lists[j]} :: 0 <= j < n ==> Settled(v, j, |v.lists[j]|)
  }

  lemma SettledBelowGrows(v: View, n: nat, v': View)
    requires Inv(v) && Inv(v') && Coalesced(v, v') && n < COUNT
    requires SettledBelow(v, n) && Settled(v', n, |v'.lists[n]|) && v'.lists == v.lists[n := v'.lists[n]]
    ensures SettledBelow(v', n + 1)
  {
    forall j | 0 <= j < n ensures Settled(v', j, |v'.lists[j]|) {
      assert v'.lists[j] == v.lists[j];
      SettledCarries(v, v', j, |v.lists[j]|);
    }
  }

  /** After the merge pass over all lists no two neighbours are free. */
  lemma SettledEverywhere(v: View)
    requires Inv(v) && SettledBelow(v, COUNT)
    ensures NoFreeNeighbours(v)
  {
    forall a | a in v.free ensures v.mem[a].prev == MAGIC {
      var i := v.mem[a].index;
      assert a in v.lists[i] && Settled(v, i, |v.lists[i]|);
    }
    MagicMeansNoFreeNeighbours(v);
  }

  /** The move passes are done with the lists below `n`; `v0` is the state after merging. */
  ghost predicate MovedBelow(v0: View, v: View, n: nat)
    requires Inv(v0)
  {
    && SameLayout(v0, v) && v.free == v0.free && |v.lists| == |v.heads| == COUNT && n <= COUNT
    && OnlyMisfitsRefiled(v0, v)
    && (forall j :: n <= j < OTHER_INDEX ==> v.lists[j] == v0.lists[j])
    && (forall j {:trigger v.lists[j]} :: 0 <= j < n ==> Filed(v, j, |v.lists[j]|))
    && (n <= OTHER_INDEX ==> v.heads[OTHER_INDEX] == LastMisfit(v0, n))
  }

  lemma MovedHead(v0: View, v: View, n: nat, v': View)
    requires Inv(v0) && Inv(v) && n < OTHER_INDEX
    requires MovedBelow(v0, v, n) && |v'.lists| == COUNT && Moving(v, v', n, |v'.lists[n]|)
    ensures v'.heads[OTHER_INDEX] == LastMisfit(v0, n + 1)
  {
    var l := v.lists[n];
    assert l[..|l|] == l;
    ListSizes(v, n);
    LastMisfitSame(v0.mem, v.mem, l, n, v.heads[OTHER_INDEX]);
  }

  lemma MovedBelowGrows(v0: View, v: View, n: nat, v': View)
    requires Inv(v0) && Inv(v) && Inv(v') && n < COUNT
    requires MovedBelow(v0, v, n) && Moving(v, v', n, |v'.lists[n]|)
    ensures MovedBelow(v0, v', n + 1)
  {
    SameLayoutTransitive(v0, v, v');
    RefiledTransitive(v0, v, v');
    if n < OTHER_INDEX { MovedHead(v0, v, n, v'); }
    forall j | 0 <= j < n + 1 ensures Filed(v', j, |v'.lists[j]|) {
      if j < n {
        assert Filed(v, j, |v.lists[j]|);
        assert v'.lists[j] == v.lists[j];
        FiledCarries(v, v', j, |v.lists[j]|);
      }
    }
  }

  lemma MovedKeepsNeighbours(v0: View, v: View, n: nat)
    requires Inv(v0) && Inv(v) && MovedBelow(v0, v, n) && NoFreeNeighbours(v0)
    ensures NoFreeNeighbours(v)
  {
    forall a | a in v.free ensures Next(v, a) !in v.free {
      assert Next(v0, a) == Next(v, a);
    }
  }

  lemma SpinsAsPredicted(v0: View, v: View)
    requires Inv(v0) && Inv(v) && MovedBelow(v0, v, OTHER_INDEX)
    ensures HeadSpins(v, OTHER_INDEX) <==> MovePassesSpin(v0)
  {
    HeadSpinsIff(v, OTHER_INDEX);
    SlotIsFree(v.mem, v.heads, v.lists, v.free, OTHER_INDEX, 0);
  }

  lemma OnlyOtherSpins(v: View, i: int)
    requires Inv(v) && 0 <= i < COUNT && HeadSpins(v, i)
    ensures i == OTHER_INDEX
  {
  }

  lemma MovedNothing(v: View)
    requires Inv(v)
    ensures MovedBelow(v, v, 0)
  {
  }

  /** Bytes really asked of the catch-all list: a whole class, when there is one. */
  function RoundedUp(size: int, index: int): int
    requires 0 <= index < COUNT
  {
    if index != OTHER_INDEX then ALL_SIZES[index] else size
  }

  lemma ClassSizesAligned(index: int)
    requires 0 <= index < COUNT
    ensures index < OTHER_INDEX ==> Aligned(ALL_SIZES[index])
  {
    if index < OTHER_INDEX {
      assert ALL_SIZES[index] == ALL_SIZES[index] / WORD * WORD;
      AlignedIsMultiple(ALL_SIZES[index]);
    }
  }

  lemma NothingSettled(v: View)
    requires Inv(v)
    ensures SettledBelow(v, 0)
  {
  }
}
