/** What a well-formed B-tree is, as a snapshot of its nodes' fields, and what follows from it. */
module BTreeShape {

  class Node {
    var data: seq<int>
    var child: seq<Node?>
    var parent: Node?
    ghost var height: nat
    ghost var lo: Bound
    ghost var hi: Bound

    constructor (parent: Node?)
      ensures data == [] && child == [] && this.parent == parent
    {
      this.data, this.child, this.parent := [], [], parent;
    }
  }

  /** An end of the open key interval a subtree is confined to. */
  datatype Bound = NegInf | At(key: int) | PosInf

  ghost predicate Above(lo: Bound, k: int) { lo.NegInf? || (lo.At? && lo.key < k) }

  ghost predicate Below(k: int, hi: Bound) { hi.PosInf? || (hi.At? && k < hi.key) }

  /** The fields of a node: keys, children, parent; and its height above the leaves and key interval. */
  datatype Rec = Rec(data: seq<int>, child: seq<Node?>, parent: Node?, height: nat, lo: Bound, hi: Bound)

  type Store = map<Node, Rec>

  ghost predicate Sorted(a: seq<int>) {
    forall i, j :: 0 <= i < j < |a| ==> a[i] < a[j]
  }

  ghost predicate InRange(r: Rec, k: int) { Above(r.lo, k) && Below(k, r.hi) }

  /** Keys ascend strictly inside the node's interval, with one more child than keys. */
  ghost predicate Local(r: Rec) {
    && |r.data| >= 1 && |r.child| == |r.data| + 1
    && Sorted(r.data)
    && forall i :: 0 <= i < |r.data| ==> InRange(r, r.data[i])
  }

  /** The interval of the `i`-th child lies between the neighbouring keys. */
  ghost function LoAt(r: Rec, i: int): Bound {
    if 0 < i <= |r.data| then At(r.data[i - 1]) else r.lo
  }

  ghost function HiAt(r: Rec, i: int): Bound {
    if 0 <= i < |r.data| then At(r.data[i]) else r.hi
  }

  ghost predicate KidOk(s: Store, n: Node, r: Rec, i: int, c: Node) {
    && c in s && s[c].parent == n && s[c].height + 1 == r.height
    && s[c].lo == LoAt(r, i) && s[c].hi == HiAt(r, i)
  }

  /** Leaves have null children only; the children of an inner node point back and split its interval. */
  ghost predicate Kids(s: Store, n: Node)
    requires n in s
  {
    var r := s[n];
    forall i {:trigger r.child[i]} :: 0 <= i < |r.child| ==>
      if r.height == 0 then r.child[i] == null
      else r.child[i] != null && KidOk(s, n, r, i, r.child[i])
  }

  /** A node other than the root hangs in its parent; no node but the root is as high as the root. */
  ghost predicate Linked(s: Store, root: Node?, n: Node)
    requires n in s
  {
    && root != null && root in s && s[n].height <= s[root].height
    && (s[n].height == s[root].height ==> n == root)
    && (n != root ==> s[n].parent != null && s[n].parent in s && n in s[s[n].parent].child
                      && s[s[n].parent].height == s[n].height + 1)
  }

  /** Key counts for order `m`; node `over` may hold one key too many, waiting to be split. */
  ghost predicate Counted(s: Store, root: Node?, m: int, over: Node?, n: Node)
    requires n in s
  {
    && (n != root ==> (m - 1) / 2 <= |s[n].data|)
    && |s[n].data| <= if n == over then m else m - 1
  }

  ghost predicate NodeOk(s: Store, root: Node?, m: int, over: Node?, n: Node)
    requires n in s
  {
    Local(s[n]) && Kids(s, n) && Linked(s, root, n) && Counted(s, root, m, over, n)
  }

  ghost predicate Shape(s: Store, root: Node?, m: int, over: Node?) {
    && m >= 3
    && (root == null <==> s == map[])
    && (root != null ==> root in s && s[root].parent == null && s[root].lo == NegInf && s[root].hi == PosInf)
    && forall n {:trigger NodeOk(s, root, m, over, n)} :: n in s ==> NodeOk(s, root, m, over, n)
  }

  ghost function Keys(s: Store): set<int> {
    set n, k | n in s && k in s[n].data :: k
  }

  /** A node's interval lies inside its parent's. */
  lemma IntervalNests(s: Store, root: Node?, m: int, over: Node?, n: Node, k: int)
    requires Shape(s, root, m, over) && n in s && n != root && InRange(s[n], k)
    ensures s[n].parent != null && s[n].parent in s && InRange(s[s[n].parent], k)
  {
    assert NodeOk(s, root, m, over, n);
    var p := s[n].parent;
    assert NodeOk(s, root, m, over, p);
    var i :| 0 <= i < |s[p].child| && s[p].child[i] == n;
    assert KidOk(s, p, s[p], i, n);
  }

  /** A later child's interval begins no lower than an earlier one's ends, and ends elsewhere. */
  lemma IntervalsFollow(r: Rec, i: int, j: int)
    requires Local(r) && 0 <= i < j <= |r.data|
    ensures HiAt(r, i).At? && LoAt(r, j).At? && HiAt(r, i).key <= LoAt(r, j).key
    ensures HiAt(r, i) != HiAt(r, j)
  {
    if j < |r.data| {
      assert r.data[i] < r.data[j];
    } else {
      assert InRange(r, r.data[i]);
    }
  }

  /** At most one child interval of a node contains a key. */
  lemma ChildIndexUnique(r: Rec, i: int, j: int, k: int)
    requires Local(r) && 0 <= i <= |r.data| && 0 <= j <= |r.data|
    requires Above(LoAt(r, i), k) && Below(k, HiAt(r, i))
    requires Above(LoAt(r, j), k) && Below(k, HiAt(r, j))
    ensures i == j
  {
    if i < j {
      IntervalsFollow(r, i, j);
    } else if j < i {
      IntervalsFollow(r, j, i);
    }
  }

  /** At each height the intervals are disjoint: only one node's interval contains a given key. */
  lemma {:induction false} OnePerLevel(s: Store, root: Node?, m: int, over: Node?, n: Node, o: Node, k: int)
    requires Shape(s, root, m, over) && n in s && o in s && s[n].height == s[o].height
    requires InRange(s[n], k) && InRange(s[o], k)
    ensures n == o
    decreases if root in s then s[root].height - s[n].height else 0
  {
    assert NodeOk(s, root, m, over, n) && NodeOk(s, root, m, over, o);
    if n != root && o != root {
      IntervalNests(s, root, m, over, n, k);
      IntervalNests(s, root, m, over, o, k);
      var p, q := s[n].parent, s[o].parent;
      assert NodeOk(s, root, m, over, p) && NodeOk(s, root, m, over, q);
      OnePerLevel(s, root, m, over, p, q, k);
      var i :| 0 <= i < |s[p].child| && s[p].child[i] == n;
      var j :| 0 <= j < |s[p].child| && s[p].child[j] == o;
      assert KidOk(s, p, s[p], i, n) && KidOk(s, p, s[p], j, o);
      ChildIndexUnique(s[p], i, j, k);
    }
  }

  /** A key of a node lies in the node's interval. */
  lemma KeyInRange(s: Store, root: Node?, m: int, over: Node?, n: Node, k: int)
    requires Shape(s, root, m, over) && n in s && k in s[n].data
    ensures InRange(s[n], k)
  {
    assert NodeOk(s, root, m, over, n);
  }

  /** No node above height `h` holds `k`. */
  ghost predicate NotAbove(s: Store, h: int, k: int) {
    forall n: Node :: n in s && s[n].height > h ==> k !in s[n].data
  }

  lemma Highest(s: Store, root: Node, m: int, k: int)
    requires Shape(s, root, m, null)
    ensures NotAbove(s, s[root].height, k)
  {
    forall n: Node | n in s ensures s[n].height <= s[root].height { assert NodeOk(s, root, m, null, n); }
  }

  /** If the one node of its level that may hold `k` does not, no node of that level does. */
  lemma OnlyHere(s: Store, root: Node?, m: int, p: Node, k: int)
    requires Shape(s, root, m, null) && p in s && InRange(s[p], k) && k !in s[p].data
    requires NotAbove(s, s[p].height, k)
    ensures NotAbove(s, s[p].height - 1, k)
  {
    forall n: Node | n in s && s[n].height == s[p].height ensures k !in s[n].data {
      if k in s[n].data {
        KeyInRange(s, root, m, null, n, k);
        OnePerLevel(s, root, m, null, n, p, k);
      }
    }
  }

  lemma KeyOf(s: Store, n: Node, k: int)
    requires n in s && k in s[n].data
    ensures k in Keys(s)
  {
  }

  lemma NowhereMeansNoKey(s: Store, k: int)
    ensures k in Keys(s) <==> !NotAbove(s, -1, k)
  {
    if !NotAbove(s, -1, k) {
      var n: Node :| n in s && s[n].height > -1 && k in s[n].data;
    }
  }
}
