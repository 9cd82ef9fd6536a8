/** The single steps of the kernel heap as functions on views, and what each of them keeps. */
module HeapSteps {
  import opened SizeClasses
  import opened HeapInvariant

  /** Byte `x` belongs to a free block, header included. */
  ghost predicate FreeByte(v: View, x: int)
    requires TilesOk(v)
  {
    exists a :: a in v.free && a <= x < Next(v, a)
  }

  /**
   * What coalescing may do: drop headers, grow free blocks, refile them. Busy blocks keep their
   * size, index and owner, no other memory is written, and the free bytes are the same bytes.
   */
  ghost predicate Coalesced(v: View, v': View)
    requires TilesOk(v) && TilesOk(v')
  {
    && v'.start == v.start && v'.last == v.last
    && v'.tiles <= v.tiles
    && v'.tiles - v'.free == v.tiles - v.free
    && (forall a :: a in v.tiles - v.free ==> v'.mem[a] == v.mem[a].(prev := v'.mem[a].prev))
    && (forall a :: a in v'.tiles ==> v.mem[a].size <= v'.mem[a].size)
    && (forall a :: a in v'.tiles ==> v'.mem[a].index == v.mem[a].index || v'.mem[a].index == OTHER_INDEX)
    && (forall a :: a in v'.tiles ==> (v'.mem[a].prev == MAGIC <==> v.mem[a].prev == MAGIC))
    && Untouched(v, v')
    && (forall x :: FreeByte(v', x) <==> FreeByte(v, x))
  }

  /** Only headers that are current before or after the step are written. */
  ghost predicate Untouched(v: View, v': View) {
    forall x :: x !in v.tiles && x !in v'.tiles ==>
      (x in v'.mem <==> x in v.mem) && (x in v.mem ==> v'.mem[x] == v.mem[x])
  }

  // ---- merging a free block into the free block before it ----

  /** `before->size += block->size + header; after->prev = before->size` */
  function MergeMem(mem: map<int, Rec>, b: int, f: int, after: int): map<int, Rec>
    requires b in mem && f in mem && after in mem
  {
    var grown := mem[b].size + mem[f].size + HEADER;
    var m := mem[b := mem[b].(size := grown)];
    m[after := m[after].(prev := grown)]
  }

  ghost function Merge(v: View, i: int, k: nat): View
    requires Inv(v) && 0 <= i < COUNT && k < |v.lists[i]|
    requires v.lists[i][k] in v.mem && v.mem[v.lists[i][k]].prev != MAGIC
  {
    var f := v.lists[i][k];
    SlotIsFree(v.mem, v.heads, v.lists, v.free, i, k);
    TagLeadsBack(v, f);
    var s := SlotAt(v.lists[i], i, k);
    v.(mem := StoreMem(MergeMem(v.mem, f - HEADER - v.mem[f].prev, f, Next(v, f)), s, v.mem[f].link),
       heads := StoreHeads(v.heads, s, v.mem[f].link),
       tiles := v.tiles - {f}, free := v.free - {f}, lists := v.lists[i := Without(v.lists[i], k)])
  }

  /** Layout half of a merge: sizes and tags after `f` is swallowed by the block `b` before it. */
  ghost predicate Swallowed(v: View, v': View, b: int, f: int)
    requires TilesOk(v)
  {
    && b in v.free && f in v.free && Next(v, b) == f
    && v'.start == v.start && v'.last == v.last && v'.tiles == v.tiles - {f} && v'.free == v.free - {f}
    && (forall a :: a in v'.tiles ==> a in v'.mem)
    && (forall a :: a in v'.tiles && a != b ==> v'.mem[a].size == v.mem[a].size)
    && v'.mem[b].size == v.mem[b].size + v.mem[f].size + HEADER
    && Next(v, f) in v'.tiles
    && (forall a :: a in v'.tiles && a != Next(v, f) ==> v'.mem[a].prev == v.mem[a].prev)
    && v'.mem[Next(v, f)].prev == v'.mem[b].size
  }

  lemma SwallowKeepsTiles(v: View, v': View, b: int, f: int)
    requires TilesOk(v) && Swallowed(v, v', b, f)
    ensures TilesOk(v')
  {
    AlignedSum(v.mem[b].size, v.mem[f].size);
    forall a, c | a in v'.tiles && c in v'.tiles && a < c ensures Next(v', a) <= c {
      assert Next(v, a) <= c && (a == b ==> Next(v, f) <= c);
    }
    forall a | a in v'.tiles && a != v'.last ensures Next(v', a) in v'.tiles {
      if a != b && Next(v, a) == f { NextInjective(v, a, b); }
    }
  }

  lemma SwallowKeepsTags(v: View, v': View, b: int, f: int)
    requires TilesOk(v) && TagsOk(v) && Swallowed(v, v', b, f)
    ensures TilesOk(v') && TagsOk(v')
  {
    SwallowKeepsTiles(v, v', b, f);
    forall a | a in v'.tiles && a != v'.last ensures TagOk(v', a) {
      assert TagOk(v, a);
      if a != b && Next(v, a) == Next(v, f) { NextInjective(v, a, f); }
    }
  }

  lemma SwallowKeepsBytes(v: View, v': View, b: int, f: int, x: int)
    requires TilesOk(v) && TilesOk(v') && Swallowed(v, v', b, f)
    ensures FreeByte(v', x) <==> FreeByte(v, x)
  {
    if a :| a in v'.free && a <= x < Next(v', a) {
      var c := if a == b && f <= x then f else a;
      assert c in v.free && c <= x < Next(v, c);
    }
    if a :| a in v.free && a <= x < Next(v, a) {
      var c := if a == f then b else a;
      assert c in v'.free && c <= x < Next(v', c);
    }
  }

  lemma MergeSwallows(v: View, i: int, k: nat)
    requires Inv(v) && 0 <= i < COUNT && k < |v.lists[i]|
    requires v.mem[v.lists[i][k]].prev != MAGIC
    ensures var f := v.lists[i][k]; Swallowed(v, Merge(v, i, k), f - HEADER - v.mem[f].prev, f)
  {
    SlotIsFree(v.mem, v.heads, v.lists, v.free, i, k);
    TagLeadsBack(v, v.lists[i][k]);
  }

  lemma MergeKeepsLists(v: View, i: int, k: nat)
    requires Inv(v) && 0 <= i < COUNT && k < |v.lists[i]|
    requires v.lists[i][k] in v.mem && v.mem[v.lists[i][k]].prev != MAGIC
    ensures var v' := Merge(v, i, k); ListsAgree(v'.mem, v'.heads, v'.lists, v'.free)
  {
    var v', f := Merge(v, i, k), v.lists[i][k];
    SlotIsFree(v.mem, v.heads, v.lists, v.free, i, k);
    TagLeadsBack(v, f);
    UnlinkKeepsLists(v.mem, v.heads, v.lists, v.free, i, k);
    var s := SlotAt(v.lists[i], i, k);
    FrameLists(StoreMem(v.mem, s, v.mem[f].link), v'.mem, v'.heads, v'.lists, v'.free);
  }

  /** A merge keeps all three views in agreement. */
  lemma MergeKeepsInv(v: View, i: int, k: nat)
    requires Inv(v) && 0 <= i < COUNT && k < |v.lists[i]|
    requires v.lists[i][k] in v.mem && v.mem[v.lists[i][k]].prev != MAGIC
    ensures Inv(Merge(v, i, k))
  {
    var f := v.lists[i][k];
    MergeSwallows(v, i, k);
    SwallowKeepsTags(v, Merge(v, i, k), f - HEADER - v.mem[f].prev, f);
    MergeKeepsLists(v, i, k);
  }

  /** A swallow that writes nothing but the two headers, the next tag and link words only coalesces. */
  lemma SwallowCoalesces(v: View, v': View, b: int, f: int)
    requires TilesOk(v) && TagsOk(v) && TilesOk(v') && TagsOk(v') && Swallowed(v, v', b, f)
    requires forall a :: a in v.tiles - v.free ==> v'.mem[a] == v.mem[a].(prev := v'.mem[a].prev)
    requires forall a :: a in v'.tiles ==> v'.mem[a].index == v.mem[a].index
    requires Untouched(v, v')
    ensures Coalesced(v, v')
  {
    MagicMeansBusy(v, f);
    AlignedSum(v'.mem[b].size, 0);
    forall x ensures FreeByte(v', x) <==> FreeByte(v, x) { SwallowKeepsBytes(v, v', b, f, x); }
  }

  /** A merge writes the two headers, the tag after them and one link word of a free block. */
  lemma MergeWrites(v: View, i: int, k: nat)
    requires Inv(v) && 0 <= i < COUNT && k < |v.lists[i]|
    requires v.lists[i][k] in v.mem && v.mem[v.lists[i][k]].prev != MAGIC
    ensures Untouched(v, Merge(v, i, k))
    ensures forall a :: a in v.tiles - v.free ==>
      a in Merge(v, i, k).mem && Merge(v, i, k).mem[a] == v.mem[a].(prev := Merge(v, i, k).mem[a].prev)
    ensures forall a :: a in v.tiles - {v.lists[i][k]} ==>
      a in Merge(v, i, k).mem && Merge(v, i, k).mem[a].index == v.mem[a].index
  {
    SlotIsFree(v.mem, v.heads, v.lists, v.free, i, k);
    TagLeadsBack(v, v.lists[i][k]);
    assert Next(v, v.lists[i][k]) in v.tiles;
  }

  lemma InvLayout(v: View)
    requires Inv(v)
    ensures TilesOk(v) && TagsOk(v)
  {
  }

  /** A merge keeps all three views in agreement and only coalesces. */
  lemma MergeCoalesces(v: View, i: int, k: nat, v': View)
    requires Inv(v) && 0 <= i < COUNT && k < |v.lists[i]|
    requires v.lists[i][k] in v.mem && v.mem[v.lists[i][k]].prev != MAGIC
    requires v' == Merge(v, i, k)
    ensures Inv(v') && Coalesced(v, v')
  {
    var f := v.lists[i][k];
    var before := f - HEADER - v.mem[f].prev;
    hide *;
    MergeKeepsInv(v, i, k);
    MergeSwallows(v, i, k);
    MergeWrites(v, i, k);
    InvLayout(v);
    InvLayout(v');
    SwallowCoalesces(v, v', before, f);
  }

  // ---- steps that leave sizes and tags alone ----

  ghost predicate SameLayout(v: View, v': View) {
    && v'.start == v.start && v'.last == v.last && v'.tiles == v.tiles
    && (forall a :: a in v.tiles ==> a in v.mem && a in v'.mem)
    && (forall a :: a in v.tiles ==> v'.mem[a].size == v.mem[a].size && v'.mem[a].prev == v.mem[a].prev)
  }

  /** Same tiles, sizes and tags, and the same free blocks but perhaps `x`: the tags still agree. */
  lemma SameLayoutKeepsTags(v: View, v': View, x: int)
    requires TilesOk(v) && TagsOk(v) && SameLayout(v, v')
    requires v'.free <= v.free && v.free - {x} == v'.free - {x}
    ensures TilesOk(v') && TagsExcept(v', x) && (v'.free == v.free ==> TagsOk(v'))
  {
    SameSizes(v, v');
    forall a | a in v'.tiles && a != v'.last && (a != x || v'.free == v.free) ensures TagOk(v', a) {
      assert TagOk(v, a);
      assert a in v.free - {x} <==> a in v'.free - {x};
    }
  }

  /** `block->next = blocks[i]; blocks[i] = block; block->index = i` */
  function PushMem(mem: map<int, Rec>, f: int, head: int, i: int): map<int, Rec>
    requires f in mem
  {
    mem[f := mem[f].(link := head, index := i)]
  }

  /** Refile the block at position `k` of list `i` at the head of the catch-all list. */
  ghost function Move(v: View, i: int, k: nat): View
    requires Inv(v) && 0 <= i < COUNT && k < |v.lists[i]|
  {
    SlotIsFree(v.mem, v.heads, v.lists, v.free, i, k);
    var f, s := v.lists[i][k], SlotAt(v.lists[i], i, k);
    var heads := StoreHeads(v.heads, s, v.mem[f].link);
    var lists := v.lists[i := Without(v.lists[i], k)];
    v.(mem := PushMem(StoreMem(v.mem, s, v.mem[f].link), f, heads[OTHER_INDEX], OTHER_INDEX),
       heads := heads[OTHER_INDEX := f],
       lists := lists[OTHER_INDEX := [f] + lists[OTHER_INDEX]])
  }

  lemma MoveKeepsLists(v: View, i: int, k: nat)
    requires Inv(v) && 0 <= i < COUNT && k < |v.lists[i]|
    ensures var v' := Move(v, i, k); ListsAgree(v'.mem, v'.heads, v'.lists, v'.free)
  {
    var f, s := v.lists[i][k], SlotAt(v.lists[i], i, k);
    SlotIsFree(v.mem, v.heads, v.lists, v.free, i, k);
    UnlinkKeepsLists(v.mem, v.heads, v.lists, v.free, i, k);
    PushKeepsLists(StoreMem(v.mem, s, v.mem[f].link), StoreHeads(v.heads, s, v.mem[f].link),
                   v.lists[i := Without(v.lists[i], k)], v.free - {f}, OTHER_INDEX, f);
    assert v.free - {f} + {f} == v.free;
  }

  /** A refiling keeps all three views in agreement. */
  lemma MoveKeepsInv(v: View, i: int, k: nat)
    requires Inv(v) && 0 <= i < COUNT && k < |v.lists[i]|
    ensures Inv(Move(v, i, k)) && SameLayout(v, Move(v, i, k))
  {
    SlotIsFree(v.mem, v.heads, v.lists, v.free, i, k);
    MoveKeepsLists(v, i, k);
    hide ListsAgree, TagsExcept;
    assert SameLayout(v, Move(v, i, k));
    SameLayoutKeepsTags(v, Move(v, i, k), NULL);
  }

  lemma MoveCoalesces(v: View, i: int, k: nat)
    requires Inv(v) && 0 <= i < COUNT && k < |v.lists[i]|
    requires TilesOk(Move(v, i, k)) && SameLayout(v, Move(v, i, k))
    ensures Coalesced(v, Move(v, i, k))
  {
    var v' := Move(v, i, k);
    SlotIsFree(v.mem, v.heads, v.lists, v.free, i, k);
    forall x ensures FreeByte(v', x) <==> FreeByte(v, x) {
      if a :| a in v'.free && a <= x < Next(v', a) { assert a <= x < Next(v, a); }
      if a :| a in v.free && a <= x < Next(v, a) { assert a <= x < Next(v', a); }
    }
  }

  // ---- taking a whole free block ----

  /** Unlink the block at position `k` of list `i` and label it `index`. */
  ghost function Take(v: View, i: int, k: nat, index: int): View
    requires Inv(v) && 0 <= i < COUNT && k < |v.lists[i]|
  {
    SlotIsFree(v.mem, v.heads, v.lists, v.free, i, k);
    var f, s := v.lists[i][k], SlotAt(v.lists[i], i, k);
    var m := v.mem[f := v.mem[f].(index := index)];
    v.(mem := StoreMem(m, s, v.mem[f].link), heads := StoreHeads(v.heads, s, v.mem[f].link),
       free := v.free - {f}, lists := v.lists[i := Without(v.lists[i], k)])
  }

  lemma TakeIsPending(v: View, i: int, k: nat, index: int)
    requires Inv(v) && 0 <= i < COUNT && k < |v.lists[i]|
    ensures Pending(Take(v, i, k, index), v.lists[i][k])
    ensures SameLayout(v, Take(v, i, k, index))
  {
    var v', f, s := Take(v, i, k, index), v.lists[i][k], SlotAt(v.lists[i], i, k);
    SlotIsFree(v.mem, v.heads, v.lists, v.free, i, k);
    hide ListsAgree;
    SameLayoutKeepsTags(v, v', f);
    UnlinkKeepsLists(v.mem, v.heads, v.lists, v.free, i, k);
    FrameLists(StoreMem(v.mem, s, v.mem[f].link), v'.mem, v'.heads, v'.lists, v'.free);
  }

  // ---- splitting a free block from its tail ----

  /** Cut `size` bytes plus a header off the end of `f`; the cut block starts at the result's new tile. */
  function SplitMem(mem: map<int, Rec>, f: int, size: int, index: int): map<int, Rec>
    requires f in mem
  {
    var a, rest := f + mem[f].size - size, mem[f].size - size - HEADER;
    var link := if a in mem then mem[a].link else NULL;
    mem[f := mem[f].(size := rest)][a := Rec(rest, size, index, link)]
  }

  ghost function Split(v: View, f: int, size: int, index: int): View
    requires f in v.mem
  {
    v.(mem := SplitMem(v.mem, f, size, index), tiles := v.tiles + {f + v.mem[f].size - size})
  }

  ghost predicate CanSplit(v: View, f: int, size: int)
    requires TilesOk(v)
  {
    f in v.free && 0 < size && Aligned(size) && v.mem[f].size - size >= MIN_FRAG
  }

  /** Layout half of a split: `f` shrinks and the new tile `a` takes over the rest of its bytes. */
  ghost predicate Cut(v: View, v': View, f: int, a: int)
    requires TilesOk(v)
  {
    && f in v.free && f + HEADER <= a
    && v'.start == v.start && v'.last == v.last && v'.tiles == v.tiles + {a} && v'.free == v.free
    && (forall b :: b in v'.tiles ==> b in v'.mem)
    && (forall b :: b in v.tiles && b != f && b != a ==> v'.mem[b].size == v.mem[b].size)
    && Next(v', f) == a && Next(v', a) == Next(v, f)
    && v'.mem[a].size >= 0 && Aligned(v'.mem[a].size) && Aligned(v'.mem[f].size)
  }

  lemma CutIsNew(v: View, v': View, f: int, a: int)
    requires TilesOk(v) && Cut(v, v', f, a)
    ensures a !in v.tiles && f < a < Next(v, f) <= v.last
  {
    assert Next(v, f) in v.tiles;
  }

  lemma CutKeepsTiles(v: View, v': View, f: int, a: int)
    requires TilesOk(v) && Cut(v, v', f, a)
    ensures TilesOk(v') && a in Busy(v')
  {
    CutIsNew(v, v', f, a);
    var end := Next(v, f);
    forall b, c | b in v'.tiles && c in v'.tiles && b < c ensures Next(v', b) <= c {
      if b == a || b == f {
        assert Next(v, f) <= c || c == a;
      } else if c == a {
        assert Next(v, b) <= f || end <= b;
      } else {
        assert Next(v, b) <= c;
      }
    }
    forall b | b in v'.tiles && b != v'.last ensures Next(v', b) in v'.tiles {
      assert Next(v, f) in v.tiles && (b != a ==> Next(v, b) in v.tiles);
    }
  }

  lemma SplitCuts(v: View, f: int, size: int, index: int)
    requires TilesOk(v) && CanSplit(v, f, size)
    ensures Cut(v, Split(v, f, size, index), f, f + v.mem[f].size - size)
  {
    AlignedSum(v.mem[f].size, size);
  }

  lemma CutKeepsTags(v: View, v': View, f: int, a: int)
    requires TilesOk(v) && TagsOk(v) && Cut(v, v', f, a)
    requires forall b :: b in v.tiles ==> v'.mem[b].prev == v.mem[b].prev
    requires v'.mem[a].prev == v'.mem[f].size
    ensures TilesOk(v') && TagsExcept(v', a)
  {
    CutIsNew(v, v', f, a);
    CutKeepsTiles(v, v', f, a);
    forall b | b in v'.tiles && b != v'.last && b != a ensures TagOk(v', b) {
      assert TagOk(v, b);
    }
  }

  /** The block cut off a free block is busy in every view but its successor's tag. */
  lemma SplitIsPending(v: View, f: int, size: int, index: int)
    requires Inv(v) && CanSplit(v, f, size)
    ensures var v', a := Split(v, f, size, index), f + v.mem[f].size - size;
            a !in v.tiles && TilesOk(v') && Next(v', a) == Next(v, f) && Pending(v', a)
  {
    var v', a := Split(v, f, size, index), f + v.mem[f].size - size;
    SplitCuts(v, f, size, index);
    CutIsNew(v, v', f, a);
    CutKeepsTiles(v, v', f, a);
    CutKeepsTags(v, v', f, a);
    FrameLists(v.mem, v'.mem, v.heads, v.lists, v.free);
  }

  // ---- marking a block busy, and freeing one ----

  /** `block->heap = owner; next_block(block)->prev = HEAP_MAGIC` */
  function SealMem(mem: map<int, Rec>, a: int, owner: int): map<int, Rec>
    requires a in mem && a + HEADER + mem[a].size in mem
  {
    var m := mem[a := mem[a].(link := owner)];
    var n := a + HEADER + mem[a].size;
    m[n := m[n].(prev := MAGIC)]
  }

  ghost function Seal(v: View, a: int, owner: int): View
    requires Pending(v, a)
  {
    assert Next(v, a) in v.tiles;
    v.(mem := SealMem(v.mem, a, owner))
  }

  lemma SealKeepsInv(v: View, a: int, owner: int)
    requires Pending(v, a)
    ensures Inv(Seal(v, a, owner))
    ensures TilesOk(Seal(v, a, owner)) && BusyBut(v, Seal(v, a, owner), a)
  {
    var v' := Seal(v, a, owner);
    assert Next(v, a) in v.tiles;
    SameSizes(v, v');
    forall b | b in v'.tiles && b != v'.last ensures TagOk(v', b) {
      if b != a {
        assert TagOk(v, b);
        if Next(v, b) == Next(v, a) { NextInjective(v, a, b); }
      }
    }
    FrameLists(v.mem, v'.mem, v.heads, v.lists, v.free);
  }

  /** Tiles that keep their sizes keep tiling, whatever happens to tags, labels and links. */
  lemma SameSizes(v: View, v': View)
    requires TilesOk(v) && v'.start == v.start && v'.last == v.last && v'.tiles == v.tiles
    requires v'.free <= v'.tiles - {v'.start, v'.last}
    requires forall a :: a in v.tiles ==> a in v'.mem && v'.mem[a].size == v.mem[a].size
    ensures TilesOk(v') && forall a {:trigger Next(v', a)} :: a in v.tiles ==> Next(v', a) == Next(v, a)
  {
    forall a, b | a in v'.tiles && b in v'.tiles && a < b ensures Next(v', a) <= b {
      assert Next(v, a) <= b;
    }
    forall a | a in v'.tiles && a != v'.last ensures Next(v', a) in v'.tiles {
      assert Next(v, a) in v.tiles;
    }
  }

  /** Every busy block but `a` (and the two markers) keeps its place, size, label and owner. */
  ghost predicate BusyBut(v: View, v': View, a: int)
    requires TilesOk(v) && TilesOk(v')
  {
    && v'.start == v.start && v'.last == v.last
    && v'.tiles - v'.free - {a} == v.tiles - v.free - {a}
    && forall b :: b in v.tiles - v.free - {a} ==> v'.mem[b] == v.mem[b].(prev := v'.mem[b].prev)
  }

  /** `block->next = blocks[block->index]; blocks[block->index] = block; next_block(block)->prev = block->size` */
  ghost function Release(v: View, a: int): View
    requires Inv(v) && a in Busy(v) && 0 <= v.mem[a].index < COUNT
  {
    assert Next(v, a) in v.tiles;
    var i, n := v.mem[a].index, Next(v, a);
    var m := PushMem(v.mem, a, v.heads[i], i);
    v.(mem := m[n := m[n].(prev := v.mem[a].size)], heads := v.heads[i := a],
       free := v.free + {a}, lists := v.lists[i := [a] + v.lists[i]])
  }

  lemma ReleaseKeepsInv(v: View, a: int)
    requires Inv(v) && a in Busy(v) && 0 <= v.mem[a].index < COUNT
    ensures Inv(Release(v, a)) && BusyBut(v, Release(v, a), a)
  {
    var v', i := Release(v, a), v.mem[a].index;
    assert Next(v, a) in v.tiles;
    SameSizes(v, v');
    forall b | b in v'.tiles && b != v'.last ensures TagOk(v', b) {
      assert TagOk(v, b);
      if b != a && Next(v, b) == Next(v, a) { NextInjective(v, a, b); }
    }
    PushKeepsLists(v.mem, v.heads, v.lists, v.free, i, a);
    FrameLists(PushMem(v.mem, a, v.heads[i], i), v'.mem, v'.heads, v'.lists, v'.free);
  }
}
