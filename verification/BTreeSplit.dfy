/** The changes insertion makes to a B-tree, as functions on snapshots, and that they keep the shape. */
module BTreeSplit {
  import opened BTreeShape

  function InsertAt<T>(a: seq<T>, i: nat, x: T): seq<T>
    requires i <= |a|
  {
    a[..i] + [x] + a[i..]
  }

  /** `i` is where the scan `while a[i] < k` stops in a sorted vector without `k`. */
  ghost predicate IsSlot(a: seq<int>, k: int, i: nat) {
    i <= |a| && (forall j :: 0 <= j < i ==> a[j] < k) && (forall j :: i <= j < |a| ==> k < a[j])
  }

  // ---- inserting a key in a leaf ----

  ghost function LeafInsert(s: Store, n: Node, i: nat, k: int): Store
    requires n in s && i <= |s[n].data| && i <= |s[n].child|
  {
    s[n := s[n].(data := InsertAt(s[n].data, i, k), child := InsertAt(s[n].child, i, null))]
  }

  lemma InsertedSorted(a: seq<int>, k: int, i: nat)
    requires Sorted(a) && IsSlot(a, k, i)
    ensures Sorted(InsertAt(a, i, k))
    ensures forall x :: x in InsertAt(a, i, k) <==> x == k || x in a
  {
    var b := InsertAt(a, i, k);
    forall x | x in a ensures x in b {
      var j :| 0 <= j < |a| && a[j] == x;
      assert b[if j < i then j else j + 1] == x;
    }
  }

  lemma InsertedLocal(r: Rec, r': Rec, k: int, i: nat, c: Node?, ci: nat)
    requires Local(r) && InRange(r, k) && IsSlot(r.data, k, i) && ci <= |r.child|
    requires r' == r.(data := InsertAt(r.data, i, k), child := InsertAt(r.child, ci, c))
    ensures Local(r')
  {
    InsertedSorted(r.data, k, i);
    forall j | 0 <= j < |r'.data| ensures InRange(r', r'.data[j]) {
      assert r'.data[j] == k || r'.data[j] in r.data;
      if r'.data[j] != k {
        var h :| 0 <= h < |r.data| && r.data[h] == r'.data[j];
        assert InRange(r, r.data[h]);
      }
    }
  }

  lemma LeafInsertNode(s: Store, root: Node?, m: int, n: Node, i: nat, k: int, x: Node)
    requires Shape(s, root, m, null) && n in s && s[n].height == 0 && x in s
    requires InRange(s[n], k) && IsSlot(s[n].data, k, i) && |s[n].child| == |s[n].data| + 1
    ensures NodeOk(LeafInsert(s, n, i, k), root, m, n, x)
  {
    var s' := LeafInsert(s, n, i, k);
    assert NodeOk(s, root, m, null, x) && NodeOk(s, root, m, null, n);
    if x == n {
      InsertedLocal(s[n], s'[n], k, i, null, i);
    } else {
      forall j | 0 <= j < |s'[x].child|
        ensures if s'[x].height == 0 then s'[x].child[j] == null
                else s'[x].child[j] != null && KidOk(s', x, s'[x], j, s'[x].child[j])
      {
        assert s[x].height > 0 ==> KidOk(s, x, s[x], j, s[x].child[j]);
      }
    }
    if x != root {
      var p := s[x].parent;
      assert p != n;
    }
  }

  lemma LeafInsertKeys(s: Store, n: Node, i: nat, k: int)
    requires n in s && Sorted(s[n].data) && IsSlot(s[n].data, k, i) && |s[n].child| == |s[n].data| + 1
    ensures Keys(LeafInsert(s, n, i, k)) == Keys(s) + {k}
  {
    var s' := LeafInsert(s, n, i, k);
    InsertedSorted(s[n].data, k, i);
    forall x ensures x in Keys(s') <==> x in Keys(s) + {k} {
      if x in Keys(s') {
        var o: Node :| o in s' && x in s'[o].data;
        if o != n { assert o in s && x in s[o].data; } else { assert n in s && (x == k || x in s[n].data); }
      }
      if x in Keys(s) {
        var o: Node :| o in s && x in s[o].data;
        assert o in s' && x in s'[o].data;
      }
      if x == k { assert n in s' && x in s'[n].data; }
    }
  }

  /** A missing key put in its place in its leaf adds that key; only the leaf's count may overflow. */
  lemma LeafInsertKeeps(s: Store, root: Node?, m: int, n: Node, i: nat, k: int)
    requires Shape(s, root, m, null) && n in s && s[n].height == 0
    requires InRange(s[n], k) && IsSlot(s[n].data, k, i) && |s[n].child| == |s[n].data| + 1
    ensures Shape(LeafInsert(s, n, i, k), root, m, n)
    ensures Keys(LeafInsert(s, n, i, k)) == Keys(s) + {k}
  {
    forall x: Node | x in s ensures NodeOk(LeafInsert(s, n, i, k), root, m, n, x) {
      LeafInsertNode(s, root, m, n, i, k, x);
    }
    assert NodeOk(s, root, m, null, n);
    LeafInsertKeys(s, n, i, k);
  }

  // ---- splitting a full node ----

  /** A child pointer followed: its record, when it is not null. */
  ghost predicate Moves(r: Rec, x: Node) {
    |r.data| >= 1 && |r.child| == |r.data| + 1 && x in r.child[|r.data| / 2 + 1..]
  }

  /** Fields after the right half of `n` moved to the new node `w` and the middle key was taken out. */
  ghost function Split(s: Store, n: Node, w: Node): Store
    requires n in s && |s[n].data| >= 1 && |s[n].child| == |s[n].data| + 1
  {
    var r, at := s[n], |s[n].data| / 2;
    map x: Node | x in s.Keys + {w} ::
      if x == n then r.(data := r.data[..at], child := r.child[..at + 1], hi := At(r.data[at]))
      else if x == w then Rec(r.data[at + 1..], r.child[at + 1..], r.parent, r.height, At(r.data[at]), r.hi)
      else if Moves(r, x) then s[x].(parent := w)
      else s[x]
  }

  ghost function Middle(s: Store, n: Node): int
    requires n in s && |s[n].data| >= 1
  {
    s[n].data[|s[n].data| / 2]
  }

  /** The middle key goes up into the parent at position `i`, and the new node beside the old one. */
  ghost function SplitInto(s: Store, n: Node, w: Node, q: Node, i: nat): Store
    requires n in s && |s[n].data| >= 1 && |s[n].child| == |s[n].data| + 1
    requires q in s && i <= |s[q].data| && i + 1 <= |s[q].child|
  {
    Split(s, n, w)[q := s[q].(data := InsertAt(s[q].data, i, Middle(s, n)), child := InsertAt(s[q].child, i + 1, w))]
  }

  /** The middle key becomes a new root over the two halves. */
  ghost function SplitRoot(s: Store, n: Node, w: Node, top: Node): Store
    requires n in s && |s[n].data| >= 1 && |s[n].child| == |s[n].data| + 1
  {
    var t := Split(s, n, w);
    t[n := t[n].(parent := top)][w := t[w].(parent := top)]
     [top := Rec([Middle(s, n)], [n, w], null, s[n].height + 1, NegInf, PosInf)]
  }

  /** A full node, with its parent when it has one. */
  ghost predicate Splittable(s: Store, root: Node?, m: int, n: Node, w: Node) {
    && Shape(s, root, m, n) && n in s && w !in s && NodeOk(s, root, m, n, n)
    && |s[n].data| == m && |s[n].child| == m + 1
  }

  lemma HalvesLocal(s: Store, root: Node?, m: int, n: Node, w: Node)
    requires Splittable(s, root, m, n, w)
    ensures var t := Split(s, n, w);
            Local(t[n]) && Local(t[w]) && (m - 1) / 2 <= |t[n].data| <= m - 1 && (m - 1) / 2 <= |t[w].data| <= m - 1
  {
    var r, at := s[n], m / 2;
    assert InRange(r, r.data[at]);
    forall j | 0 <= j < at ensures InRange(r, r.data[j]) && r.data[j] < r.data[at] {}
    forall j | at < j < m ensures InRange(r, r.data[j]) && r.data[at] < r.data[j] {}
  }

  /** Children that move are those of `n` alone: they are neither `n`, nor its parent, nor other nodes' children. */
  lemma MovedAreOwn(s: Store, root: Node?, m: int, n: Node, w: Node, x: Node)
    requires Splittable(s, root, m, n, w) && x in s && x in s[n].child
    ensures s[x].parent == n && s[x].height + 1 == s[n].height && x != n && x != root
  {
    var i :| 0 <= i < |s[n].child| && s[n].child[i] == x;
    assert KidOk(s, n, s[n], i, x);
    assert Linked(s, root, n);
  }

  /** The left half keeps the first children of the split node. */
  lemma LeftKids(s: Store, root: Node?, m: int, n: Node, w: Node)
    requires Splittable(s, root, m, n, w)
    ensures Kids(Split(s, n, w), n)
  {
    var t, r, at := Split(s, n, w), s[n], m / 2;
    if r.height > 0 {
      forall j | 0 <= j < |t[n].child| ensures t[n].child[j] != null && KidOk(t, n, t[n], j, t[n].child[j]) {
        var c := r.child[j];
        assert KidOk(s, n, r, j, c);
        var moved := r.child[at + 1..];
        forall h | 0 <= h < |moved| ensures moved[h] != c {
          ChildrenDiffer(s, n, j, at + 1 + h);
        }
      }
    }
  }

  /** The new node owns the last children of the split node. */
  lemma RightKids(s: Store, root: Node?, m: int, n: Node, w: Node)
    requires Splittable(s, root, m, n, w)
    ensures Kids(Split(s, n, w), w)
  {
    var t, r, at := Split(s, n, w), s[n], m / 2;
    if r.height > 0 {
      forall j | 0 <= j < |t[w].child| ensures t[w].child[j] != null && KidOk(t, w, t[w], j, t[w].child[j]) {
        var c := r.child[at + 1 + j];
        assert KidOk(s, n, r, at + 1 + j, c);
        assert r.child[at + 1..][j] == c;
      }
    }
  }

  lemma ChildrenDiffer(s: Store, n: Node, i: nat, j: nat)
    requires n in s && Local(s[n]) && Kids(s, n) && s[n].height > 0 && i < j < |s[n].child|
    ensures s[n].child[i] != s[n].child[j]
  {
    var r := s[n];
    assert KidOk(s, n, r, i, r.child[i]) && KidOk(s, n, r, j, r.child[j]);
    IntervalsFollow(r, i, j);
  }

  // ---- a split below the root keeps the shape ----

  /** A full node below the root, its parent, the middle key's slot there, and a fresh node. */
  ghost predicate Ascends(s: Store, root: Node?, m: int, n: Node, w: Node, q: Node, i: nat) {
    && Splittable(s, root, m, n, w) && n != root && s[n].parent == q && q in s
    && NodeOk(s, root, m, n, q) && IsSlot(s[q].data, Middle(s, n), i)
  }

  /** The middle key's slot in the parent is where the split node hangs. */
  lemma SlotIsPlace(s: Store, root: Node?, m: int, n: Node, w: Node, q: Node, i: nat)
    requires Ascends(s, root, m, n, w, q, i)
    ensures s[q].child[i] == n && InRange(s[q], Middle(s, n)) && q != n && s[q].height > 0
  {
    var k := Middle(s, n);
    assert InRange(s[n], s[n].data[m / 2]);
    IntervalNests(s, root, m, n, n, k);
    var j :| 0 <= j < |s[q].child| && s[q].child[j] == n;
    assert KidOk(s, q, s[q], j, n);
    ChildIndexUnique(s[q], i, j, k);
  }

  /** Parents aside, the split and the insertion above it leave every other node's fields alone. */
  lemma SplitIntoFields(s: Store, root: Node?, m: int, n: Node, w: Node, q: Node, i: nat, x: Node)
    requires Ascends(s, root, m, n, w, q, i) && x in s && x != n
    ensures var u := SplitInto(s, n, w, q, i);
            && x in u && u[x].height == s[x].height && u[x].lo == s[x].lo && u[x].hi == s[x].hi
            && u[x].parent == (if Moves(s[n], x) then w else s[x].parent)
            && (x != q ==> u[x].data == s[x].data && u[x].child == s[x].child)
    ensures Moves(s[n], x) ==> s[x].parent == n
  {
    SlotIsPlace(s, root, m, n, w, q, i);
    if Moves(s[n], x) {
      assert x in s[n].child;
      MovedAreOwn(s, root, m, n, w, x);
    }
  }

  lemma HalfKidsInto(s: Store, root: Node?, m: int, n: Node, w: Node, q: Node, i: nat, x: Node)
    requires Ascends(s, root, m, n, w, q, i) && (x == n || x == w)
    ensures Kids(SplitInto(s, n, w, q, i), x)
  {
    var t, u := Split(s, n, w), SplitInto(s, n, w, q, i);
    SlotIsPlace(s, root, m, n, w, q, i);
    LeftKids(s, root, m, n, w);
    RightKids(s, root, m, n, w);
    assert Kids(t, x) && u[x] == t[x];
    NotMoved(s, root, m, n, w, q);
    if u[x].height > 0 {
      forall j | 0 <= j < |u[x].child| ensures u[x].child[j] != null && KidOk(u, x, u[x], j, u[x].child[j]) {
        assert KidOk(t, x, t[x], j, t[x].child[j]);
      }
    }
  }

  lemma NotMoved(s: Store, root: Node?, m: int, n: Node, w: Node, q: Node)
    requires Splittable(s, root, m, n, w) && q in s && s[q].height > s[n].height
    ensures !Moves(s[n], q) && Split(s, n, w)[q] == s[q]
  {
    if Moves(s[n], q) {
      assert q in s[n].child;
      MovedAreOwn(s, root, m, n, w, q);
    }
  }

  lemma ParentKidsInto(s: Store, root: Node?, m: int, n: Node, w: Node, q: Node, i: nat)
    requires Ascends(s, root, m, n, w, q, i)
    ensures Kids(SplitInto(s, n, w, q, i), q)
  {
    var u := SplitInto(s, n, w, q, i);
    forall j | 0 <= j < |u[q].child| ensures u[q].child[j] != null && KidOk(u, q, u[q], j, u[q].child[j]) {
      if j < i {
        SideKidInto(s, root, m, n, w, q, i, j, j);
      } else if j > i + 1 {
        SideKidInto(s, root, m, n, w, q, i, j - 1, j);
      } else {
        HalvesInto(s, root, m, n, w, q, i);
      }
    }
  }

  /** Away from the place of insertion children and their bounds are where they were, or one further. */
  lemma InsertShifts(r: Rec, r': Rec, i: nat, k: int, w: Node, j: nat)
    requires |r.child| == |r.data| + 1 && i <= |r.data| && r' == r.(data := InsertAt(r.data, i, k), child := InsertAt(r.child, i + 1, w))
    ensures j < i ==> r'.child[j] == r.child[j] && LoAt(r', j) == LoAt(r, j) && HiAt(r', j) == HiAt(r, j)
    ensures i + 1 < j < |r'.child| ==>
      r'.child[j] == r.child[j - 1] && LoAt(r', j) == LoAt(r, j - 1) && HiAt(r', j) == HiAt(r, j - 1)
  {
  }

  /** A child of the parent other than the split one stays a proper child, at its place or one further. */
  lemma SideKidInto(s: Store, root: Node?, m: int, n: Node, w: Node, q: Node, i: nat, j: nat, j': nat)
    requires Ascends(s, root, m, n, w, q, i) && j < |s[q].child| && j != i && j' == if j < i then j else j + 1
    ensures var u := SplitInto(s, n, w, q, i);
            j' < |u[q].child| && u[q].child[j'] != null && KidOk(u, q, u[q], j', u[q].child[j'])
  {
    var c := s[q].child[j];
    SlotIsPlace(s, root, m, n, w, q, i);
    assert KidOk(s, q, s[q], j, c);
    if j < i { ChildrenDiffer(s, q, j, i); } else { ChildrenDiffer(s, q, i, j); }
    SplitIntoFields(s, root, m, n, w, q, i, c);
    InsertShifts(s[q], SplitInto(s, n, w, q, i)[q], i, Middle(s, n), w, j');
    hide InsertAt, LoAt, HiAt, Split, Shape, Splittable, IsSlot;
  }

  lemma HalvesInto(s: Store, root: Node?, m: int, n: Node, w: Node, q: Node, i: nat)
    requires Ascends(s, root, m, n, w, q, i)
    ensures var u := SplitInto(s, n, w, q, i);
            forall j :: i <= j <= i + 1 ==> u[q].child[j] != null && KidOk(u, q, u[q], j, u[q].child[j])
  {
    SlotIsPlace(s, root, m, n, w, q, i);
    assert KidOk(s, q, s[q], i, n);
  }

  lemma OtherKidsInto(s: Store, root: Node?, m: int, n: Node, w: Node, q: Node, i: nat, x: Node)
    requires Ascends(s, root, m, n, w, q, i) && x in s && x != n && x != q
    ensures Kids(SplitInto(s, n, w, q, i), x)
  {
    var u := SplitInto(s, n, w, q, i);
    assert NodeOk(s, root, m, n, x);
    SplitIntoFields(s, root, m, n, w, q, i, x);
    if s[x].height > 0 {
      forall j | 0 <= j < |u[x].child| ensures u[x].child[j] != null && KidOk(u, x, u[x], j, u[x].child[j]) {
        var c := s[x].child[j];
        assert KidOk(s, x, s[x], j, c);
        SplitIntoFields(s, root, m, n, w, q, i, c);
      }
    }
  }

  lemma InsertKeepsMembers<T>(a: seq<T>, i: nat, x: T, y: T)
    requires i <= |a| && y in a
    ensures y in InsertAt(a, i, x)
  {
    var j :| 0 <= j < |a| && a[j] == y;
    assert InsertAt(a, i, x)[if j < i then j else j + 1] == y;
  }

  lemma LinkedInto(s: Store, root: Node?, m: int, n: Node, w: Node, q: Node, i: nat, x: Node)
    requires Ascends(s, root, m, n, w, q, i) && x in s.Keys + {w}
    ensures Linked(SplitInto(s, n, w, q, i), root, x)
  {
    var u, at := SplitInto(s, n, w, q, i), m / 2;
    SlotIsPlace(s, root, m, n, w, q, i);
    assert NodeOk(s, root, m, n, n);
    InsertKeepsMembers(s[q].child, i + 1, w, n);
    assert u[q].child[i + 1] == w;
    SplitIntoFields(s, root, m, n, w, q, i, q);
    if root != n && root != null { SplitIntoFields(s, root, m, n, w, q, i, root); }
    if x != n && x != w {
      assert NodeOk(s, root, m, n, x);
      SplitIntoFields(s, root, m, n, w, q, i, x);
      var p := s[x].parent;
      if p == n {
        var j :| 0 <= j < |s[n].child| && s[n].child[j] == x;
        assert j <= at ==> s[n].child[..at + 1][j] == x;
        assert j > at ==> s[n].child[at + 1..][j - at - 1] == x;
      } else if p == q {
        InsertKeepsMembers(s[q].child, i + 1, w, x);
      } else if p != null && p in s {
        SplitIntoFields(s, root, m, n, w, q, i, p);
      }
    }
  }

  lemma NodeInto(s: Store, root: Node?, m: int, n: Node, w: Node, q: Node, i: nat, x: Node)
    requires Ascends(s, root, m, n, w, q, i) && x in s.Keys + {w}
    ensures NodeOk(SplitInto(s, n, w, q, i), root, m, q, x)
  {
    hide Kids;
    var u := SplitInto(s, n, w, q, i);
    SlotIsPlace(s, root, m, n, w, q, i);
    NotMoved(s, root, m, n, w, q);
    LinkedInto(s, root, m, n, w, q, i, x);
    HalvesLocal(s, root, m, n, w);
    if x == n || x == w {
      HalfKidsInto(s, root, m, n, w, q, i, x);
    } else if x == q {
      ParentKidsInto(s, root, m, n, w, q, i);
      InsertedLocal(s[q], u[q], Middle(s, n), i, w, i + 1);
    } else {
      OtherKidsInto(s, root, m, n, w, q, i, x);
      SplitIntoFields(s, root, m, n, w, q, i, x);
      assert NodeOk(s, root, m, n, x) && Local(u[x]);
    }
  }

  lemma SplitKeys(s: Store, n: Node, w: Node)
    requires n in s && |s[n].data| >= 1 && |s[n].child| == |s[n].data| + 1 && w !in s
    ensures Keys(Split(s, n, w)) + {Middle(s, n)} == Keys(s)
  {
    var t, at, d := Split(s, n, w), |s[n].data| / 2, s[n].data;
    assert d == d[..at] + [d[at]] + d[at + 1..];
    forall k ensures k in Keys(t) + {Middle(s, n)} <==> k in Keys(s) {
      if k in Keys(t) {
        var o: Node :| o in t && k in t[o].data;
        var o' := if o == w then n else o;
        assert o' in s && k in s[o'].data;
      }
      if k == d[at] { assert n in s && k in s[n].data; }
      if k in Keys(s) {
        var o: Node :| o in s && k in s[o].data;
        if o != n {
          assert o in t && k in t[o].data;
        } else {
          assert n in t && w in t && (k in t[n].data || k == d[at] || k in t[w].data);
        }
      }
    }
  }

  lemma SplitIntoKeys(s: Store, root: Node?, m: int, n: Node, w: Node, q: Node, i: nat)
    requires Ascends(s, root, m, n, w, q, i)
    ensures Keys(SplitInto(s, n, w, q, i)) == Keys(s)
  {
    var t, u, k := Split(s, n, w), SplitInto(s, n, w, q, i), Middle(s, n);
    SlotIsPlace(s, root, m, n, w, q, i);
    NotMoved(s, root, m, n, w, q);
    SplitKeys(s, n, w);
    InsertedSorted(s[q].data, k, i);
    forall x ensures x in Keys(u) <==> x in Keys(t) + {k} {
      if x in Keys(u) {
        var o: Node :| o in u && x in u[o].data;
        assert x == k || (o in t && x in t[o].data);
      }
      if x in Keys(t) {
        var o: Node :| o in t && x in t[o].data;
        assert o in u && x in u[o].data;
      }
      if x == k { assert q in u && x in u[q].data; }
    }
  }

  /**
   * Splitting a full node below the root keeps the tree well formed, with the fullness passed to
   * the parent, and keeps exactly the same keys.
   */
  lemma SplitIntoKeeps(s: Store, root: Node?, m: int, n: Node, w: Node, q: Node, i: nat)
    requires Ascends(s, root, m, n, w, q, i)
    ensures Shape(SplitInto(s, n, w, q, i), root, m, q)
    ensures Keys(SplitInto(s, n, w, q, i)) == Keys(s)
  {
    var u := SplitInto(s, n, w, q, i);
    forall x: Node | x in u ensures NodeOk(u, root, m, q, x) { NodeInto(s, root, m, n, w, q, i, x); }
    SplitIntoKeys(s, root, m, n, w, q, i);
    assert NodeOk(s, root, m, n, n);
    SplitIntoFields(s, root, m, n, w, q, i, root);
    forall x: Node | x in s && x in s[n].child ensures x != root { MovedAreOwn(s, root, m, n, w, x); }
  }

  // ---- a split of the root ----

  /** A full root and two fresh nodes, the right half and the new root. */
  ghost predicate Crowns(s: Store, root: Node?, m: int, n: Node, w: Node, top: Node) {
    Splittable(s, root, m, n, w) && n == root && top !in s && top != w
  }

  lemma SplitRootFields(s: Store, root: Node?, m: int, n: Node, w: Node, top: Node, x: Node)
    requires Crowns(s, root, m, n, w, top) && x in s && x != n
    ensures SplitRoot(s, n, w, top)[x] == s[x].(parent := if Moves(s[n], x) then w else s[x].parent)
    ensures Moves(s[n], x) ==> s[x].parent == n
  {
    if Moves(s[n], x) {
      assert x in s[n].child;
      MovedAreOwn(s, root, m, n, w, x);
    }
  }

  lemma KidsRoot(s: Store, root: Node?, m: int, n: Node, w: Node, top: Node, x: Node)
    requires Crowns(s, root, m, n, w, top) && x in s.Keys + {w, top}
    ensures Kids(SplitRoot(s, n, w, top), x)
  {
    if x == n || x == w {
      HalfKidsRoot(s, root, m, n, w, top, x);
    } else if x != top {
      OtherKidsRoot(s, root, m, n, w, top, x);
    }
  }

  lemma HalfKidsRoot(s: Store, root: Node?, m: int, n: Node, w: Node, top: Node, x: Node)
    requires Crowns(s, root, m, n, w, top) && (x == n || x == w)
    ensures Kids(SplitRoot(s, n, w, top), x)
  {
    var t, u := Split(s, n, w), SplitRoot(s, n, w, top);
    LeftKids(s, root, m, n, w);
    RightKids(s, root, m, n, w);
    if u[x].height > 0 {
      forall j | 0 <= j < |u[x].child| ensures u[x].child[j] != null && KidOk(u, x, u[x], j, u[x].child[j]) {
        assert KidOk(t, x, t[x], j, t[x].child[j]);
        assert t[x].child[j] != n && t[x].child[j] != w;
      }
    }
  }

  lemma OtherKidsRoot(s: Store, root: Node?, m: int, n: Node, w: Node, top: Node, x: Node)
    requires Crowns(s, root, m, n, w, top) && x in s && x != n
    ensures Kids(SplitRoot(s, n, w, top), x)
  {
    var u := SplitRoot(s, n, w, top);
    assert NodeOk(s, root, m, n, x);
    SplitRootFields(s, root, m, n, w, top, x);
    if s[x].height > 0 {
      forall j | 0 <= j < |u[x].child| ensures u[x].child[j] != null && KidOk(u, x, u[x], j, u[x].child[j]) {
        var c := s[x].child[j];
        assert KidOk(s, x, s[x], j, c) && NodeOk(s, root, m, n, n);
        SplitRootFields(s, root, m, n, w, top, c);
      }
    }
  }

  lemma LinkedRoot(s: Store, root: Node?, m: int, n: Node, w: Node, top: Node, x: Node)
    requires Crowns(s, root, m, n, w, top) && x in s.Keys + {w, top}
    ensures Linked(SplitRoot(s, n, w, top), top, x)
  {
    var u, at := SplitRoot(s, n, w, top), m / 2;
    assert u[top].child[0] == n && u[top].child[1] == w;
    if x in s && x != n {
      SplitRootFields(s, root, m, n, w, top, x);
      assert NodeOk(s, root, m, n, x);
      var p := s[x].parent;
      if p == n {
        var j :| 0 <= j < |s[n].child| && s[n].child[j] == x;
        assert j <= at ==> s[n].child[..at + 1][j] == x;
        assert j > at ==> s[n].child[at + 1..][j - at - 1] == x;
      } else {
        SplitRootFields(s, root, m, n, w, top, p);
      }
    }
  }

  lemma NodeRoot(s: Store, root: Node?, m: int, n: Node, w: Node, top: Node, x: Node)
    requires Crowns(s, root, m, n, w, top) && x in s.Keys + {w, top}
    ensures NodeOk(SplitRoot(s, n, w, top), top, m, null, x)
  {
    hide Kids, Linked;
    KidsRoot(s, root, m, n, w, top, x);
    LinkedRoot(s, root, m, n, w, top, x);
    HalvesLocal(s, root, m, n, w);
    if x in s && x != n {
      SplitRootFields(s, root, m, n, w, top, x);
      assert NodeOk(s, root, m, n, x);
    }
  }

  lemma SplitRootKeys(s: Store, root: Node?, m: int, n: Node, w: Node, top: Node)
    requires Crowns(s, root, m, n, w, top)
    ensures Keys(SplitRoot(s, n, w, top)) == Keys(s)
  {
    var t, u := Split(s, n, w), SplitRoot(s, n, w, top);
    SplitKeys(s, n, w);
    forall x ensures x in Keys(u) <==> x in Keys(t) + {Middle(s, n)} {
      if x in Keys(u) {
        var o: Node :| o in u && x in u[o].data;
        assert o == top || (o in t && x in t[o].data);
      }
      if x in Keys(t) {
        var o: Node :| o in t && x in t[o].data;
        assert o in u && x in u[o].data;
      }
      if x == Middle(s, n) { assert top in u && x in u[top].data; }
    }
  }

  /** Splitting a full root grows the tree by one level, ends the overflow, and keeps the same keys. */
  lemma SplitRootKeeps(s: Store, root: Node?, m: int, n: Node, w: Node, top: Node)
    requires Crowns(s, root, m, n, w, top)
    ensures Shape(SplitRoot(s, n, w, top), top, m, null)
    ensures Keys(SplitRoot(s, n, w, top)) == Keys(s)
  {
    var u := SplitRoot(s, n, w, top);
    forall x: Node | x in u ensures NodeOk(u, top, m, null, x) { NodeRoot(s, root, m, n, w, top, x); }
    SplitRootKeys(s, root, m, n, w, top);
  }

  /** A node that did not overflow needs no split. */
  lemma Settle(s: Store, root: Node?, m: int, n: Node)
    requires Shape(s, root, m, n) && n in s && |s[n].data| < m
    ensures Shape(s, root, m, null)
  {
    forall x: Node | x in s ensures NodeOk(s, root, m, null, x) { assert NodeOk(s, root, m, n, x); }
  }

  /** Every child is null or a node other than its parent. */
  ghost predicate OwnKids(s: Store, n: Node)
    requires n in s
  {
    forall j {:trigger s[n].child[j]} :: 0 <= j < |s[n].child| ==>
      s[n].child[j] == null || (s[n].child[j] in s && s[n].child[j] != n)
  }

  lemma AllOwnKids(s: Store, root: Node?, m: int, n: Node)
    requires Shape(s, root, m, n) && n in s
    ensures OwnKids(s, n)
  {
    assert NodeOk(s, root, m, n, n);
    forall j | 0 <= j < |s[n].child| && s[n].child[j] != null ensures s[n].child[j] in s && s[n].child[j] != n {
      assert s[n].height > 0 ==> KidOk(s, n, s[n], j, s[n].child[j]);
    }
  }

  /** The middle key is not yet in the parent, whose fields the split did not change. */
  lemma MiddleIsNew(s: Store, root: Node?, m: int, n: Node, w: Node, q: Node)
    requires Splittable(s, root, m, n, w) && n != root && s[n].parent == q && q in s && NodeOk(s, root, m, n, q)
    ensures Middle(s, n) !in s[q].data && Split(s, n, w)[q] == s[q] && q != n
  {
    var k := Middle(s, n);
    assert InRange(s[n], s[n].data[m / 2]);
    NotMoved(s, root, m, n, w, q);
    var j :| 0 <= j < |s[q].child| && s[q].child[j] == n;
    assert KidOk(s, q, s[q], j, n);
    forall h | 0 <= h < |s[q].data| ensures s[q].data[h] != k {
      assert h < j ==> s[q].data[h] <= s[q].data[j - 1];
      assert h >= j ==> s[q].data[j] <= s[q].data[h];
    }
  }

  /** What the split loop may rely on at a full node. */
  lemma FullNode(s: Store, root: Node?, m: int, n: Node)
    requires Shape(s, root, m, n) && n in s && |s[n].data| >= m
    ensures NodeOk(s, root, m, n, n) && OwnKids(s, n) && |s[n].data| == m >= 3 && |s[n].child| == m + 1
    ensures n != root ==> var q := s[n].parent;
      q != null && q in s && NodeOk(s, root, m, n, q) && s[q].height == s[n].height + 1 && q != n
    ensures root != null && root in s && s[n].height <= s[root].height
  {
    assert NodeOk(s, root, m, n, n);
    AllOwnKids(s, root, m, n);
    if n != root { assert NodeOk(s, root, m, n, s[n].parent); }
  }
}
