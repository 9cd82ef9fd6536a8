/** Whole runs of the heap: any sequence of allocations and frees, from a fresh arena on. */
module HeapSession {
  import opened SizeClasses
  import opened HeapInvariant
  import opened HeapSteps
  import opened HeapTheorems
  import opened HeapForecast
  import opened HeapAllocation
  import H = Heap

  datatype Request = Allocate(size: int) | Free(ptr: int)

  /** What a request returns: a pointer, or nothing. */
  datatype Reply = Got(ptr: int) | Done

  ghost predicate Askable(req: Request) {
    req.Allocate? ==> 0 <= req.size < ADDRESS_SPACE - WORD
  }

  /**
   * `reply` and the state `v'` answer the request in state `v`. Freeing anything but an outstanding
   * block, NULL or the null marker is the caller's mistake; such requests are passed over.
   */
  ghost predicate Answers(v: View, req: Request, reply: Reply, v': View)
    requires Inv(v) && Inv(v') && Askable(req)
  {
    match req
    case Allocate(n) =>
      && reply.Got?
      && (n == 0 ==> reply.ptr == v.start && v' == v)
      && (n > 0 ==> !Hangs(v, n) && (reply.ptr == NULL <==> OutOfMemory(v, n)))
      && (n > 0 && reply.ptr == NULL ==> Coalesced(v, v') && Compacted(v, v'))
      && (n > 0 && reply.ptr != NULL ==> Served(v, v', reply.ptr - HEADER, n))
    case Free(p) =>
      reply.Done? && if p - HEADER in Busy(v) then Returned(v, v', p - HEADER) else v' == v
  }

  ghost predicate Turn(views: seq<View>, requests: seq<Request>, replies: seq<Reply>, n: nat)
    requires n < |replies| <= |requests| && |replies| < |views|
  {
    && Inv(views[n]) && Inv(views[n + 1]) && Askable(requests[n])
    && Answers(views[n], requests[n], replies[n], views[n + 1])
  }

  /** `views` are the states of a fresh heap that gave `replies` to the first of the requests. */
  ghost predicate IsRun(views: seq<View>, requests: seq<Request>, replies: seq<Reply>) {
    && |replies| <= |requests| && |views| == |replies| + 1
    && Inv(views[0]) && NewArena(views[0])
    && forall n :: 0 <= n < |replies| ==> Turn(views, requests, replies, n)
  }

  /** The outstanding allocations, header to size asked for, once a request has its reply. */
  function After(live: map<int, int>, req: Request, reply: Reply): map<int, int> {
    match req
    case Allocate(size) =>
      if size > 0 && reply.Got? && reply.ptr != NULL then live[reply.ptr - HEADER := size] else live
    case Free(p) => live - {p - HEADER}
  }

  /** The allocations outstanding after the first `n` requests, told from requests and replies alone. */
  ghost function Outstanding(requests: seq<Request>, replies: seq<Reply>, n: nat): map<int, int>
    requires n <= |replies| <= |requests|
  {
    if n == 0 then map[] else After(Outstanding(requests, replies, n - 1), requests[n - 1], replies[n - 1])
  }

  /** The outstanding allocations are exactly the heap's busy blocks, each as large as asked at least. */
  ghost predicate Serves(v: View, live: map<int, int>)
    requires TilesOk(v)
  {
    live.Keys == Busy(v) && forall a :: a in live ==> v.mem[a].size >= live[a] > 0
  }

  lemma BusyParts(v: View)
    ensures Busy(v) == (v.tiles - v.free) - {v.start, v.last}
  {
  }

  lemma CoalescedServes(v: View, v': View, live: map<int, int>)
    requires TilesOk(v) && TilesOk(v') && Coalesced(v, v') && Serves(v, live)
    ensures Serves(v', live)
  {
    BusyParts(v); BusyParts(v');
    forall a | a in live ensures v'.mem[a].size >= live[a] > 0 { assert a in v.tiles - v.free; }
  }

  lemma CarvedServes(v: View, v': View, live: map<int, int>, a: int, size: int)
    requires TilesOk(v) && TilesOk(v') && Carved(v, v', a) && Serves(v, live)
    requires v'.mem[a].size >= size > 0
    ensures Serves(v', live[a := size]) && a !in live
  {
    BusyParts(v); BusyParts(v');
    assert v.start in v.tiles - v.free && v.last in v.tiles - v.free;
    assert live[a := size].Keys == live.Keys + {a};
    forall b | b in live ensures v'.mem[b].size >= live[b] > 0 { assert b in v.tiles - v.free; }
  }

  lemma ReturnedServes(v: View, v': View, live: map<int, int>, a: int)
    requires TilesOk(v) && TilesOk(v') && Returned(v, v', a) && Serves(v, live)
    ensures Serves(v', live - {a}) && a in live
  {
    BusyParts(v); BusyParts(v');
    forall b | b in live - {a} ensures v'.mem[b].size >= live[b] > 0 { assert b in v'.tiles - v'.free; }
  }

  /** One more request: the heap goes on serving exactly what is outstanding, and hands out no block twice. */
  lemma AnswerServes(v: View, req: Request, reply: Reply, v': View, live: map<int, int>)
    requires Inv(v) && Inv(v') && Askable(req) && Answers(v, req, reply, v') && Serves(v, live)
    ensures v'.start == v.start && v'.last == v.last
    ensures Serves(v', After(live, req, reply))
    ensures req.Allocate? && After(live, req, reply) != live ==> reply.ptr - HEADER !in live
  {
    hide Inv, TilesOk, Serves, Busy, Carved, Coalesced, Returned, Hangs, OutOfMemory, Compacted, ComesFrom, NeedsCoalescing;
    InvLayout(v); InvLayout(v');
    Bounds(v, v');
    match req
    case Allocate(n) =>
      if n > 0 {
        if reply.ptr == NULL {
          CoalescedServes(v, v', live);
        } else {
          CarvedServes(v, v', live, reply.ptr - HEADER, n);
        }
      }
    case Free(p) =>
      if p - HEADER in Busy(v) {
        ReturnedServes(v, v', live, p - HEADER);
      } else {
        NotServed(v, live, p - HEADER);
      }
  }

  lemma NotServed(v: View, live: map<int, int>, a: int)
    requires TilesOk(v) && Serves(v, live) && a !in Busy(v)
    ensures live - {a} == live
  {
  }

  /** No step moves the arena. */
  lemma Bounds(v: View, v': View)
    requires TilesOk(v) && TilesOk(v')
    ensures Coalesced(v, v') ==> v'.start == v.start && v'.last == v.last
    ensures forall a {:trigger Carved(v, v', a)} :: Carved(v, v', a) ==> v'.start == v.start && v'.last == v.last
    ensures forall a {:trigger Returned(v, v', a)} :: Returned(v, v', a) ==> v'.start == v.start && v'.last == v.last
  {
  }

  // ---- what holds along any run ----

  /** At every point of a run the busy blocks are the outstanding allocations, each as large as asked. */
  lemma {:induction false} RunServes(views: seq<View>, requests: seq<Request>, replies: seq<Reply>, n: nat)
    requires IsRun(views, requests, replies) && n <= |replies|
    ensures Inv(views[n]) && views[n].start == views[0].start && views[n].last == views[0].last
    ensures Serves(views[n], Outstanding(requests, replies, n))
    decreases n
  {
    if n == 0 {
      assert Busy(views[0]) == {};
    } else {
      RunServes(views, requests, replies, n - 1);
      assert Turn(views, requests, replies, n - 1);
      AnswerServes(views[n - 1], requests[n - 1], replies[n - 1], views[n], Outstanding(requests, replies, n - 1));
    }
  }

  /** Outstanding allocations lie inside the arena and never overlap. */
  lemma RunServesDisjointly(views: seq<View>, requests: seq<Request>, replies: seq<Reply>, n: nat, a: int, b: int)
    requires IsRun(views, requests, replies) && n <= |replies|
    requires a in Outstanding(requests, replies, n) && b in Outstanding(requests, replies, n) && a != b
    ensures var live := Outstanding(requests, replies, n);
            && views[0].start < Payload(a) && Payload(a) + live[a] <= views[0].last
            && (Payload(a) + live[a] <= Payload(b) || Payload(b) + live[b] <= Payload(a))
  {
    RunServes(views, requests, replies, n);
    assert a in Busy(views[n]) && b in Busy(views[n]);
    PayloadsDisjoint(views[n], a, b);
    PayloadsDisjoint(views[n], b, a);
  }

  lemma OutstandingIsBusy(views: seq<View>, requests: seq<Request>, replies: seq<Reply>, n: nat, a: int)
    requires IsRun(views, requests, replies) && n <= |replies| && a in Outstanding(requests, replies, n)
    ensures |replies| <= |requests| && |views| == |replies| + 1 && Inv(views[n]) && a in Busy(views[n])
    ensures a in views[n].mem && views[n].mem[a].size >= Outstanding(requests, replies, n)[a]
  {
    RunServes(views, requests, replies, n);
    hide TagsExcept, ListsAgree;
  }

  lemma RunTurns(views: seq<View>, requests: seq<Request>, replies: seq<Reply>, n: nat)
    requires IsRun(views, requests, replies) && n < |replies|
    ensures Turn(views, requests, replies, n)
  {
  }

  lemma AnswerKeepsPayload(v: View, req: Request, reply: Reply, v': View, a: int, t: int)
    requires Inv(v) && Inv(v') && Askable(req) && Answers(v, req, reply, v')
    requires a in Busy(v) && a in Busy(v')
    requires Payload(a) < t + HEADER && t < Payload(a) + v.mem[a].size
    ensures SameRecord(v.mem, v'.mem, t) && v'.mem[a].size == v.mem[a].size
  {
    hide TagsExcept, ListsAgree, Hangs, OutOfMemory, Compacted, FreeByte, ComesFrom, NeedsCoalescing;
    assert a in v.tiles - v.free && a in v'.tiles - v'.free;
    if v' != v { PayloadUntouched(v, v', a, t); }
  }

  /**
   * From the request that got an allocation to the one that frees it, the heap writes no record that
   * covers a byte of what was asked for: user data stays as the user left it.
   */
  lemma {:induction false} RunKeepsPayload(views: seq<View>, requests: seq<Request>, replies: seq<Reply>,
                                           m: nat, n: nat, a: int, t: int)
    requires IsRun(views, requests, replies) && m <= n <= |replies|
    requires forall k {:trigger Outstanding(requests, replies, k)} :: m <= k <= n ==> a in Outstanding(requests, replies, k)
    requires Payload(a) < t + HEADER && t < Payload(a) + Outstanding(requests, replies, m)[a]
    ensures SameRecord(views[m].mem, views[n].mem, t)
    ensures a in views[m].mem && a in views[n].mem && views[n].mem[a].size == views[m].mem[a].size
    decreases n
  {
    hide Inv, TilesOk, IsRun, Serves, Outstanding, After, Busy, Answers;
    OutstandingIsBusy(views, requests, replies, m, a);
    OutstandingIsBusy(views, requests, replies, n, a);
    if m < n {
      OutstandingIsBusy(views, requests, replies, n - 1, a);
      RunKeepsPayload(views, requests, replies, m, n - 1, a, t);
      assert Turn(views, requests, replies, n - 1) by { RunTurns(views, requests, replies, n - 1); }
      AnswerKeepsPayload(views[n - 1], requests[n - 1], replies[n - 1], views[n], a, t);
    }
  }

  // ---- running the object ----

  /**
   * Runs the requests on a fresh heap until they are used up or one never returns. `views` are the
   * states in between; the run stops early only in front of a request that hangs.
   */
  method Run(start: int, end: int, memory: map<int, Rec>, owner: int, requests: seq<Request>)
    returns (heap: H.Heap, live: map<int, int>, replies: seq<Reply>, ghost views: seq<View>)
    requires 0 < start && start + 3 * HEADER <= end <= ADDRESS_SPACE && (end - start) % WORD == 0
    requires forall i :: 0 <= i < |requests| ==> Askable(requests[i])
    ensures IsRun(views, requests, replies) && views[0].start == start && views[0].last == end - HEADER
    ensures heap.Valid() && live == Outstanding(requests, replies, |replies|) && Serves(heap.V(), live)
    ensures |replies| == |requests| ==> heap.V() == views[|replies|]
    ensures |replies| < |requests| ==>
      && requests[|replies|].Allocate? && Askable(requests[|replies|]) && requests[|replies|].size > 0
      && Inv(views[|replies|])
      && Hangs(views[|replies|], requests[|replies|].size)
      && Coalesced(views[|replies|], heap.V())
  {
    heap := new H.Heap(start, end, memory, owner);
    live, replies, views := map[], [], [heap.V()];
    for i := 0 to |requests|
      invariant fresh(heap) && heap.Valid() && i == |replies| && IsRun(views, requests, replies)
      invariant views[0].start == start && views[0].last == end - HEADER
      invariant heap.V() == views[i] && live == Outstanding(requests, replies, i)
    {
      RunServes(views, requests, replies, i);
      var hangs, reply := Ask(heap, requests[i], live);
      if hangs {
        CoalescedServes(views[i], heap.V(), live);
        return;
      }
      RunGrows(views, requests, replies, reply, heap.V());
      live, replies, views := After(live, requests[i], reply), replies + [reply], views + [heap.V()];
    }
    RunServes(views, requests, replies, |requests|);
  }

  lemma RunGrows(views: seq<View>, requests: seq<Request>, replies: seq<Reply>, reply: Reply, v: View)
    requires IsRun(views, requests, replies) && |replies| < |requests| && Inv(views[|replies|]) && Inv(v)
    requires Askable(requests[|replies|]) && Answers(views[|replies|], requests[|replies|], reply, v)
    ensures IsRun(views + [v], requests, replies + [reply])
    ensures Outstanding(requests, replies + [reply], |replies| + 1) ==
            After(Outstanding(requests, replies, |replies|), requests[|replies|], reply)
  {
    hide Inv, Answers, NewArena;
    var views', replies' := views + [v], replies + [reply];
    forall n | 0 <= n < |replies'| ensures Turn(views', requests, replies', n) {
      if n < |replies| { assert Turn(views, requests, replies, n); }
    }
    SamePrefix(requests, replies, replies', |replies|);
  }

  lemma {:induction false} SamePrefix(requests: seq<Request>, replies: seq<Reply>, replies': seq<Reply>, n: nat)
    requires n <= |replies| <= |replies'| <= |requests| && replies'[..|replies|] == replies
    ensures Outstanding(requests, replies', n) == Outstanding(requests, replies, n)
    decreases n
  {
    if n > 0 {
      assert replies'[n - 1] == replies'[..|replies|][n - 1];
      SamePrefix(requests, replies, replies', n - 1);
    }
  }

  /** One request put to the object. */
  method Ask(heap: H.Heap, req: Request, live: map<int, int>) returns (hangs: bool, reply: Reply)
    requires heap.Valid() && Askable(req) && Serves(heap.V(), live)
    modifies heap`mem, heap`heads, heap`tiles, heap`free, heap`lists
    ensures heap.Valid()
    ensures hangs <==> req.Allocate? && req.size > 0 && Hangs(old(heap.V()), req.size)
    ensures hangs ==> Coalesced(old(heap.V()), heap.V())
    ensures !hangs ==> Answers(old(heap.V()), req, reply, heap.V())
  {
    hide Inv, ClassOk, Hangs, OutOfMemory, Compacted, Coalesced, Served, Returned, ComesFrom, NeedsCoalescing;
    match req
    case Allocate(size) =>
      var r := heap.Allocate(size);
      hangs := r.NeverReturns?;
      reply := if hangs then Done else Got(r.ptr);
    case Free(p) =>
      hangs, reply := false, Done;
      InvLayout(heap.V());
      MarkersAreNotBusy(heap.V());
      if p - HEADER in live || p == NULL || p == heap.nullMalloc { heap.Free(p); }
  }

  lemma MarkersAreNotBusy(v: View)
    requires TilesOk(v)
    ensures NULL - HEADER !in Busy(v) && v.start - HEADER !in Busy(v)
  {
  }

  // ---- requests that hang, and NULL with room to spare ----

  /** On a fresh arena of at most the largest exact class, any request that does not fit hangs. */
  lemma FirstRequest(v: View, n: int)
    requires Inv(v) && NewArena(v) && 0 < n < ADDRESS_SPACE - WORD
    ensures var room := v.last - v.start - 2 * HEADER;
            && (Hangs(v, n) <==> room < Rounded(n) && room <= LARGE_LIMIT)
            && (OutOfMemory(v, n) <==> LARGE_LIMIT < room < Rounded(n))
  {
    var block, c := v.start + HEADER, SizeClass(BlockAlign(n));
    RequestNeeds(v, n);
    HeadOf(v, c);
    assert v.lists[OTHER_INDEX] == [block];
    FreshLastOutgrown(v, OTHER_INDEX);
    assert RunSize(v, block) == v.mem[block].size;
    hide Rounded;
    assert NothingFits(v, Rounded(n)) <==> v.mem[block].size < Rounded(n) by {
      assert v.lists[OTHER_INDEX][0] == block;
    }
  }

  lemma {:induction false} FreshLastOutgrown(v: View, n: nat)
    requires Inv(v) && NewArena(v) && n <= OTHER_INDEX
    ensures LastOutgrown(v, n) == v.start + HEADER
    decreases n
  {
    if n > 0 { FreshLastOutgrown(v, n - 1); }
  }

  /** The smallest step to a hang: a fresh heap of 256 bytes is asked for 1000. */
  method HangsAtOnce(memory: map<int, Rec>, owner: int) returns (r: H.Allocation)
    ensures r.NeverReturns?
  {
    var heap := new H.Heap(16, 272, memory, owner);
    FirstRequest(heap.V(), 1000);
    r := heap.Allocate(1000);
  }

  /**
   * Blocks that stay in their exact lists are never searched for a larger class: however large they
   * are, a request of another class is refused.
   */
  lemma ExactListsAreNotSearched(v: View, n: int)
    requires Inv(v) && 0 < n < ADDRESS_SPACE - WORD && NeedsCoalescing(v, n)
    requires forall a :: a in v.free && v.mem[a].prev == MAGIC ==> FiledUnder(v, a) != OTHER_INDEX
    ensures OutOfMemory(v, n)
  {
    OutgrownIsRefiled(v, OTHER_INDEX);
    NotNull(v);
  }

  lemma ClassIs(n: int, size: int, i: int)
    requires 0 < n < ADDRESS_SPACE - WORD && size == BlockAlign(n) > 0
    requires 0 <= i < OTHER_INDEX && size == ALL_SIZES[i]
    ensures SizeClass(BlockAlign(n)) == i && SizeClass(size) == i && Rounded(n) == size
  {
    forall j | 0 <= j < i ensures ALL_SIZES[j] < size { SizesIncrease(j, i); }
    LeastAdequateIsUnique(size, i);
  }

  /** A block as large as all a fresh heap has is all it has. */
  lemma TookEverything(v: View, v': View, a: int)
    requires Inv(v) && NewArena(v) && Inv(v') && Carved(v, v', a)
    requires v'.mem[a].size >= v.last - v.start - 2 * HEADER
    ensures a == v.start + HEADER && v'.mem[a].size == v.last - v.start - 2 * HEADER
    ensures v'.free == {} && a in Busy(v')
  {
    var end := Next(v', a);
    assert FreeByte(v, a) && FreeByte(v, end - 1);
    assert forall x :: FreeByte(v, x) ==> a <= x < end;
    NoFreeBytes(v');
  }

  lemma NoFreeBytes(v: View)
    requires TilesOk(v) && forall x :: !FreeByte(v, x)
    ensures v.free == {}
  {
    assert forall a :: a in v.free ==> a <= a < Next(v, a);
    assert forall a :: a in v.free ==> FreeByte(v, a);
    assert forall a :: a !in v.free;
  }

  /** The one free block is of an exact class, and a class without blocks is asked for. */
  lemma OneBlockOfAClass(v: View, a: int, n: int)
    requires Inv(v) && v.free == {a} && 0 < n < ADDRESS_SPACE - WORD
    requires 0 <= v.mem[a].size < ADDRESS_SPACE && v.mem[a].index == SizeClass(v.mem[a].size) < OTHER_INDEX
    requires SizeClass(BlockAlign(n)) != v.mem[a].index
    ensures OutOfMemory(v, n) && v.mem[a].prev == MAGIC && RunSize(v, a) == v.mem[a].size
  {
    RequestNeeds(v, n);
    var c := SizeClass(BlockAlign(n));
    SlotIsFree(v.mem, v.heads, v.lists, v.free, c, 0);
    SlotIsFree(v.mem, v.heads, v.lists, v.free, OTHER_INDEX, 0);
    assert NoFreeNeighbours(v);
    MagicMeansNoFreeNeighbours(v);
    hide ListsAgree, TagsExcept;
    ExactListsAreNotSearched(v, n);
  }

  lemma AllocatedAll(v: View, v': View, a: int)
    requires Inv(v) && NewArena(v) && v.start == 16 && v.last == 200 && Inv(v') && Served(v, v', a, 150)
    ensures a == 32 && v'.free == {} && a in Busy(v') && v'.mem[a].size == 152 && v'.mem[a].index == 16
  {
    hide SizeClass, Rounded, TagsExcept, ListsAgree, Carved, Busy, NewArena;
    ClassIs(150, 152, 16);
    TookEverything(v, v', a);
  }

  lemma FreedAll(v: View, v': View)
    requires Inv(v) && v.free == {} && 32 in Busy(v) && v.mem[32].size == 152 && v.mem[32].index == 16
    requires Inv(v') && Returned(v, v', 32)
    ensures v'.free == {32} && v'.mem[32].size == 152 && v'.mem[32].index == 16
  {
    hide TagsExcept, ListsAgree, FreeByte;
  }

  lemma StaysInItsList(v: View, w: View)
    requires Inv(v) && v.free == {32} && v.mem[32].size == 152 && v.mem[32].index == 16
    ensures OutOfMemory(v, 100)
    ensures Compacted(v, w) ==> w.free == {32} && 32 in w.mem && w.mem[32].size == 152
  {
    hide SizeClass, Rounded, OutOfMemory, TagsExcept, ListsAgree, FiledUnder;
    ClassIs(100, 104, 12);
    ClassIs(150, 152, 16);
    OneBlockOfAClass(v, 32, 100);
    if Compacted(v, w) { assert forall a :: a in w.free <==> a in {32}; }
  }

  /** A heap with all its 152 bytes free answers a request for 100 bytes with NULL. */
  method NullWithRoom(memory: map<int, Rec>, owner: int) returns (heap: H.Heap, r: H.Allocation)
    ensures heap.Valid() && heap.free == {32} && 32 in heap.mem && heap.mem[32].size == 152
    ensures r == H.Pointer(NULL)
  {
    hide Inv, NewArena, Hangs, OutOfMemory, Served, Returned, Compacted, Coalesced, NoFreeNeighbours, Rounded, Busy, TilesOk;
    heap := new H.Heap(16, 216, memory, owner);
    ghost var empty := heap.V();
    ClassIs(150, 152, 16);
    FirstRequest(empty, 150);
    r := heap.Allocate(150);
    ghost var full := heap.V();
    AllocatedAll(empty, full, r.ptr - HEADER);
    heap.Free(r.ptr);
    ghost var freed := heap.V();
    FreedAll(full, freed);
    r := heap.Allocate(100);
    StaysInItsList(freed, heap.V());
  }
}
