/** In-order travel: which keys a subtree holds, in which order, and at least how many. */
module BTreeTravel {
  import opened BTreeShape

  /** A key in the open interval of a node is held no higher than that node. */
  lemma {:induction false} KeyNotAbove(s: Store, root: Node?, m: int, o: Node, p: Node, k: int)
    requires Shape(s, root, m, null) && o in s && p in s && k in s[o].data && InRange(s[p], k)
    ensures s[o].height <= s[p].height
    decreases if root in s then s[root].height - s[p].height else 0
  {
    if s[p].height < s[o].height {
      assert NodeOk(s, root, m, null, o) && NodeOk(s, root, m, null, p);
      IntervalNests(s, root, m, null, p, k);
      var q := s[p].parent;
      assert NodeOk(s, root, m, null, q);
      if s[q].height < s[o].height {
        KeyNotAbove(s, root, m, o, q, k);
      } else {
        KeyInRange(s, root, m, null, o, k);
        OnePerLevel(s, root, m, null, o, q, k);
        var i :| 0 <= i < |s[q].child| && s[q].child[i] == p;
        assert KidOk(s, q, s[q], i, p);
        BetweenKeys(s[q], i, k);
      }
    }
  }

  /** A child's interval holds none of the parent's keys. */
  lemma BetweenKeys(r: Rec, i: nat, k: int)
    requires Local(r) && i <= |r.data| && Above(LoAt(r, i), k) && Below(k, HiAt(r, i))
    ensures k !in r.data && InRange(r, k)
    ensures forall j :: 0 <= j < |r.data| ==> (r.data[j] < k <==> j < i)
  {
    forall j | 0 <= j < |r.data| ensures r.data[j] != k && (r.data[j] < k <==> j < i) {
      if j < i { assert r.data[j] <= r.data[i - 1]; } else { assert r.data[i] <= r.data[j]; }
    }
    assert i > 0 ==> InRange(r, r.data[i - 1]);
    assert i < |r.data| ==> InRange(r, r.data[i]);
  }

  /** In a leaf's interval lie only the leaf's keys. */
  lemma LeafHoldsRange(s: Store, root: Node?, m: int, p: Node, k: int)
    requires Shape(s, root, m, null) && p in s && s[p].height == 0 && InRange(s[p], k)
    ensures k in Keys(s) <==> k in s[p].data
  {
    if k in Keys(s) {
      var o: Node :| o in s && k in s[o].data;
      KeyNotAbove(s, root, m, o, p, k);
      KeyInRange(s, root, m, null, o, k);
      OnePerLevel(s, root, m, null, o, p, k);
    }
  }

  /** The keys the traversal of `p` has visited after its first `i` children and keys. */
  ghost predicate Visited(s: Store, p: Node, i: nat, k: int)
    requires p in s
  {
    k in Keys(s) && InRange(s[p], k) && i > 0 && i <= |s[p].data| && k <= s[p].data[i - 1]
  }

  /** The keys a traversal of the `i`-th child of `p` visits. */
  ghost predicate InKid(s: Store, p: Node, i: nat, k: int)
    requires p in s
  {
    k in Keys(s) && Above(LoAt(s[p], i), k) && Below(k, HiAt(s[p], i)) && s[p].height > 0
  }

  /** Visiting child `i` and key `i` extends the visited keys by exactly those. */
  lemma VisitStep(s: Store, root: Node?, m: int, p: Node, i: nat, k: int)
    requires Shape(s, root, m, null) && p in s && i < |s[p].data|
    ensures Visited(s, p, i + 1, k) <==> Visited(s, p, i, k) || InKid(s, p, i, k) || k == s[p].data[i]
  {
    assert NodeOk(s, root, m, null, p);
    var r := s[p];
    assert InRange(r, r.data[i]) && r.data[i] in r.data;
    assert i > 0 ==> InRange(r, r.data[i - 1]) && r.data[i - 1] < r.data[i];
    if s[p].height == 0 && InRange(r, k) {
      LeafHoldsRange(s, root, m, p, k);
      if k in r.data { var j :| 0 <= j < |r.data| && r.data[j] == k; }
    }
  }

  /** Visiting the last child completes the node's interval. */
  lemma VisitLast(s: Store, root: Node?, m: int, p: Node, k: int)
    requires Shape(s, root, m, null) && p in s
    ensures k in Keys(s) && InRange(s[p], k) <==> Visited(s, p, |s[p].data|, k) || InKid(s, p, |s[p].data|, k)
  {
    assert NodeOk(s, root, m, null, p);
    var r, n := s[p], |s[p].data|;
    assert InRange(r, r.data[n - 1]);
    if s[p].height == 0 && InRange(r, k) {
      LeafHoldsRange(s, root, m, p, k);
      if k in r.data { var j :| 0 <= j < n && r.data[j] == k; }
    }
  }

  /** What is visited before a child is below what the child holds, and both are below its key. */
  lemma KidAfterVisited(s: Store, root: Node?, m: int, p: Node, i: nat)
    requires Shape(s, root, m, null) && p in s && i <= |s[p].data|
    ensures forall x, y :: Visited(s, p, i, x) && InKid(s, p, i, y) ==> x < y
    ensures i < |s[p].data| ==> forall x :: Visited(s, p, i, x) || InKid(s, p, i, x) ==> x < s[p].data[i]
  {
    assert NodeOk(s, root, m, null, p);
    assert 0 < i < |s[p].data| ==> s[p].data[i - 1] < s[p].data[i];
  }

  lemma SortedAppend(a: seq<int>, b: seq<int>)
    requires Sorted(a) && Sorted(b) && forall x, y :: x in a && y in b ==> x < y
    ensures Sorted(a + b)
  {
    forall i, j | 0 <= i < j < |a + b| ensures (a + b)[i] < (a + b)[j] {
      if i < |a| <= j { assert a[i] in a && b[j - |a|] in b; }
    }
  }

  lemma OneSorted(x: int)
    ensures Sorted([x])
  {
  }

  /** The visit of child `i` and key `i`, in order and complete. */
  lemma VisitMore(s: Store, root: Node?, m: int, p: Node, i: nat, out: seq<int>, below: seq<int>)
    requires Shape(s, root, m, null) && p in s && i < |s[p].data|
    requires Sorted(out) && forall k :: k in out <==> Visited(s, p, i, k)
    requires Sorted(below) && forall k :: k in below <==> InKid(s, p, i, k)
    ensures Sorted(out + below + [s[p].data[i]])
    ensures forall k :: k in out + below + [s[p].data[i]] <==> Visited(s, p, i + 1, k)
  {
    hide Shape, Visited, InKid, Sorted;
    KidAfterVisited(s, root, m, p, i);
    OneSorted(s[p].data[i]);
    SortedAppend(out, below);
    SortedAppend(out + below, [s[p].data[i]]);
    forall k ensures k in out + below + [s[p].data[i]] <==> Visited(s, p, i + 1, k) {
      VisitStep(s, root, m, p, i, k);
      assert k in out + below + [s[p].data[i]] <==> k in out || k in below || k == s[p].data[i];
    }
  }

  /** The visit of the last child completes the node's interval. */
  lemma VisitRest(s: Store, root: Node?, m: int, p: Node, out: seq<int>, below: seq<int>)
    requires Shape(s, root, m, null) && p in s
    requires Sorted(out) && forall k :: k in out <==> Visited(s, p, |s[p].data|, k)
    requires Sorted(below) && forall k :: k in below <==> InKid(s, p, |s[p].data|, k)
    ensures Sorted(out + below)
    ensures forall k :: k in out + below <==> k in Keys(s) && InRange(s[p], k)
  {
    hide Shape, Visited, InKid, Sorted, Keys, InRange;
    KidAfterVisited(s, root, m, p, |s[p].data|);
    SortedAppend(out, below);
    forall k ensures k in out + below <==> k in Keys(s) && InRange(s[p], k) {
      VisitLast(s, root, m, p, k);
      assert k in out + below <==> k in out || k in below;
    }
  }

  lemma NothingVisited(s: Store, root: Node?, m: int, p: Node)
    requires Shape(s, root, m, null) && p in s
    ensures Sorted([]) && forall k :: !Visited(s, p, 0, k)
    ensures |s[p].child| == |s[p].data| + 1 && |s[p].data| >= 1 && m >= 3
  {
    assert NodeOk(s, root, m, null, p);
  }

  // ---- how many keys a subtree holds at least ----

  function Pow(b: nat, e: nat): nat {
    if e == 0 then 1 else b * Pow(b, e - 1)
  }

  /** Fewest children of an inner node other than the root. */
  function Fanout(m: int): nat
    requires m >= 3
  {
    (m - 1) / 2 + 1
  }

  /** A non-root node's count implies the full count for its level. */
  lemma LevelCount(m: int, keys: nat, h: nat, count: int)
    requires m >= 3 && (m - 1) / 2 <= keys && count >= (keys + 1) * Pow(Fanout(m), h) - 1
    ensures count >= Pow(Fanout(m), h + 1) - 1
  {
    MulMono(Fanout(m), keys + 1, Pow(Fanout(m), h));
  }

  lemma MulMono(a: nat, b: nat, c: nat)
    requires a <= b
    ensures a * c <= b * c
  {
  }
}
