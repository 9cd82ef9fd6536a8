/** The B-tree object: search, in-order travel and insertion over linked nodes. */
module BTree {
  import opened BTreeShape
  import opened BTreeSplit
  import opened BTreeTravel

  class BTree {
    const order: int
    var root: Node?
    var searchResult: Node?
    ghost var nodes: set<Node>

    ghost function Snap(): Store
      reads this, nodes
    {
      map n: Node | n in nodes :: Rec(n.data, n.child, n.parent, n.height, n.lo, n.hi)
    }

    ghost predicate Valid()
      reads this, nodes
    {
      Shape(Snap(), root, order, null)
    }

    constructor (order: int)
      requires order >= 3
      ensures Valid() && root == null && nodes == {} && this.order == order
      ensures Keys(Snap()) == {}
    {
      this.order, root, searchResult, nodes := order, null, null, {};
    }

    /** The binary search inside one node: the key's index, or the last index probed. */
    static method Probe(data: seq<int>, t: int) returns (mid: nat, found: bool)
      requires Sorted(data) && data != []
      ensures mid < |data| && (found <==> t in data)
      ensures found ==> data[mid] == t
      ensures !found ==> data[mid] != t && IsSlot(data, t, if data[mid] > t then mid else mid + 1)
    {
      var first, last := 0, |data| - 1;
      mid := (first + last) / 2;
      while first <= last
        invariant 0 <= first <= last + 1 <= |data| && mid < |data|
        invariant forall j :: 0 <= j < first ==> data[j] < t
        invariant forall j :: last < j < |data| ==> t < data[j]
        invariant first > last ==> mid == if data[mid] > t then first else last
        decreases last - first
      {
        mid := (first + last) / 2;
        if data[mid] == t { return mid, true; }
        if data[mid] > t { last := mid - 1; } else { first := mid + 1; }
      }
      found := false;
    }

    /**
     * `Search`: a node holding the key exactly when some node does; otherwise `searchResult` is the
     * leaf whose interval contains the key.
     */
    method Search(t: int) returns (p: Node?)
      requires Valid()
      modifies this`searchResult
      ensures Valid() && nodes == old(nodes) && Snap() == old(Snap())
      ensures p != null <==> t in Keys(Snap())
      ensures p != null ==> p in nodes && t in p.data
      ensures p == null && root != null ==>
        searchResult != null && searchResult in nodes && searchResult.height == 0 && InRange(Snap()[searchResult], t)
    {
      hide NodeOk, Sorted, NotAbove, InRange, IsSlot, Keys;
      p := root;
      RootRange(t);
      ghost var s, h := Snap(), if root == null then -1 else root.height;
      NowhereMeansNoKey(s, t);
      while p != null
        invariant Shape(s, root, order, null) && Snap() == s && nodes == old(nodes)
        invariant p != null ==> p in nodes && p.height == h && InRange(s[p], t)
        invariant p == null ==> h == -1
        invariant p == null && root != null ==>
          searchResult != null && searchResult in nodes && searchResult.height == 0 && InRange(s[searchResult], t)
        invariant NotAbove(s, h, t)
        decreases h + 1
      {
        searchResult := p;
        KeysAscend(s, root, order, p);
        var mid, found := Probe(p.data, t);
        if found {
          KeyOf(s, p, t);
          assert Snap() == s;
          return p;
        }
        var i := if p.data[mid] > t then mid else mid + 1;
        Descend(s, root, order, p, i, t);
        p, h := p.child[i], h - 1;
      }
    }

    lemma RootRange(t: int)
      requires Valid()
      ensures root == null ==> NotAbove(Snap(), -1, t)
      ensures root != null ==> root in nodes && InRange(Snap()[root], t) && NotAbove(Snap(), root.height, t)
    {
      if root != null {
        Highest(Snap(), root, order, t);
      }
    }

    /** The child in whose place the key would be is where the key is, if anywhere at or below this level. */
    static lemma Descend(s: Store, root: Node?, m: int, p: Node, i: nat, t: int)
      requires Shape(s, root, m, null) && p in s && InRange(s[p], t) && NotAbove(s, s[p].height, t)
      requires t !in s[p].data && IsSlot(s[p].data, t, i)
      ensures i < |s[p].child| && NotAbove(s, s[p].height - 1, t)
      ensures var c := s[p].child[i];
        if s[p].height == 0 then c == null else c != null && c in s && s[c].height == s[p].height - 1 && InRange(s[c], t)
    {
      assert NodeOk(s, root, m, null, p);
      OnlyHere(s, root, m, p, t);
      if s[p].height > 0 {
        assert KidOk(s, p, s[p], i, s[p].child[i]);
      }
    }

    static lemma KeysAscend(s: Store, root: Node?, m: int, p: Node)
      requires Shape(s, root, m, null) && p in s
      ensures Sorted(s[p].data) && s[p].data != []
    {
      assert NodeOk(s, root, m, null, p);
    }

    /** The scan for the first key not below `k`. */
    static method Slot(data: seq<int>, k: int) returns (i: nat)
      requires Sorted(data) && k !in data
      ensures IsSlot(data, k, i)
    {
      i := 0;
      while i < |data| && data[i] < k
        invariant i <= |data| && forall j :: 0 <= j < i ==> data[j] < k
      {
        i := i + 1;
      }
      assert i < |data| ==> data[i] in data;
      assert forall j :: i <= j < |data| ==> data[i] <= data[j];
    }

    /** `Insertion`: adds a missing key, refuses a present one, and keeps the tree well formed. */
    method Insertion(t: int) returns (added: bool)
      requires Valid()
      modifies this`root, this`searchResult, this`nodes, nodes
      ensures Valid() && fresh(nodes - old(nodes)) && old(nodes) <= nodes
      ensures added <==> t !in old(Keys(Snap()))
      ensures Keys(Snap()) == old(Keys(Snap())) + {t}
    {
      var p := Search(t);
      if p != null {
        return false;
      }
      added := true;
      if root == null {
        Plant(t);
      } else {
        var n := searchResult;
        Graft(n, t);
        SplitInsert(n);
      }
    }

    /** A missing key goes to its place in the leaf where it belongs. */
    method Graft(n: Node, t: int)
      requires Valid() && root != null && n in nodes && n.height == 0 && InRange(Snap()[n], t) && t !in Keys(Snap())
      modifies n
      ensures Shape(Snap(), root, order, n) && Keys(Snap()) == old(Keys(Snap())) + {t}
    {
      ghost var s := Snap();
      assert NodeOk(s, root, order, null, n);
      assert t !in n.data by { if t in s[n].data { KeyOf(s, n, t); } }
      var i := Slot(n.data, t);
      LeafInsertKeeps(s, root, order, n, i, t);
      hide NodeOk, Keys, Shape;
      n.data := InsertAt(n.data, i, t);
      n.child := InsertAt(n.child, i, null);
      assert Snap() == LeafInsert(s, n, i, t);
    }

    /** The first key of an empty tree. */
    method Plant(t: int)
      requires Valid() && root == null
      modifies this`root, this`nodes
      ensures Valid() && fresh(nodes - old(nodes)) && old(nodes) <= nodes && Keys(Snap()) == {t}
    {
      var n := new Node(null);
      n.data, n.child := [t], [null, null];
      n.height, n.lo, n.hi := 0, NegInf, PosInf;
      root, nodes := n, nodes + {n};
      assert forall x: Node :: x in old(nodes) ==> x in old(Snap());
      assert nodes == {n};
      assert NodeOk(Snap(), root, order, null, n);
      assert t in Snap()[n].data;
    }

    /** `Split_insert`: while the node is too full, split it and pass its middle key to its parent. */
    method SplitInsert(start: Node)
      requires Shape(Snap(), root, order, start) && start in nodes
      modifies this`root, this`nodes, nodes
      ensures Valid() && fresh(nodes - old(nodes)) && old(nodes) <= nodes
      ensures Keys(Snap()) == old(Keys(Snap()))
    {
      hide Shape, Keys;
      var n := start;
      ShapeBounds(Snap(), root, order, n);
      while |n.data| >= order
        invariant n in nodes && fresh(nodes - old(nodes)) && old(nodes) <= nodes
        invariant Shape(Snap(), root, order, n)
        invariant Keys(Snap()) == old(Keys(Snap()))
        invariant root != null && root in nodes && n.height <= root.height
        decreases root.height - n.height
      {
        if n == root {
          SplitTop(n);
          return;
        }
        n := SplitBelow(n);
      }
      Settle(Snap(), root, order, n);
    }

    static lemma ShapeBounds(s: Store, root: Node?, m: int, n: Node)
      requires Shape(s, root, m, n) && n in s
      ensures root != null && root in s && s[n].height <= s[root].height
    {
      assert NodeOk(s, root, m, n, n);
    }

    /** Splitting the root: its halves get a new root, and the tree is valid again. */
    method SplitTop(n: Node)
      requires Shape(Snap(), root, order, n) && n in nodes && |n.data| >= order && n == root
      modifies this`root, this`nodes, nodes
      ensures Valid() && fresh(nodes - old(nodes)) && old(nodes) <= nodes
      ensures Keys(Snap()) == old(Keys(Snap()))
    {
      hide Shape, Keys, NodeOk, Split, OwnKids;
      ghost var s := Snap();
      FullNode(s, root, order, n);
      var w, up := MoveRightHalf(n);
      Crown(n, w, up, s);
    }

    /** Splitting another node: its parent gets the middle key, and only it may be too full now. */
    method SplitBelow(n: Node) returns (q: Node)
      requires Shape(Snap(), root, order, n) && n in nodes && |n.data| >= order && n != root && root != null
      modifies this`nodes, nodes
      ensures q in nodes && fresh(nodes - old(nodes)) && old(nodes) <= nodes
      ensures Shape(Snap(), root, order, q) && Keys(Snap()) == old(Keys(Snap()))
      ensures root in nodes && old(n.height) < q.height <= root.height == old(root.height)
    {
      hide Shape, Keys, NodeOk, Split, OwnKids;
      ghost var s := Snap();
      FullNode(s, root, order, n);
      q := n.parent;
      var w, up := MoveRightHalf(n);
      Ascend(n, w, up, q, s);
      ShapeBounds(Snap(), root, order, q);
    }

    /**
     * Halfway through moving the right half of `n` to `w`: the keys and children from `at + 1` up to
     * `i` have moved, and `kids` of them already point to their new parent.
     */
    ghost predicate Half(s: Store, n: Node, w: Node, at: nat, i: nat, kids: nat)
      reads this, nodes, n, w
    {
      && s.Keys == nodes && n in s && w !in s
      && at < i <= kids <= i + 1 && i <= |s[n].data| && kids <= |s[n].child| && |s[n].child| == |s[n].data| + 1
      && n.data == s[n].data[..at + 1] + s[n].data[i..] && n.child == s[n].child[..at + 1] + s[n].child[kids..]
      && w.data == s[n].data[at + 1..i] && w.child == s[n].child[at + 1..kids]
      && w.parent == s[n].parent && w.height == s[n].height && w.lo == At(s[n].data[at]) && w.hi == s[n].hi
      && n.height == s[n].height && n.lo == s[n].lo && n.hi == s[n].hi
      && (forall x: Node :: x in s && x != n ==> Kept(s, x))
      && (forall x: Node :: x in s ==> x.parent == if x in s[n].child[at + 1..kids] then w else s[x].parent)
    }

    static ghost predicate Kept(s: Store, x: Node)
      requires x in s
      reads x
    {
      x.height == s[x].height && x.lo == s[x].lo && x.hi == s[x].hi && x.data == s[x].data && x.child == s[x].child
    }

    /** `w.child.push_back(n.child[at + 1])`, that child's new parent, and the erasure from `n`. */
    method MoveKid(n: Node, w: Node, at: nat, ghost i: nat, ghost s: Store)
      requires Half(s, n, w, at, i, i) && OwnKids(s, n)
      modifies n, w, nodes
      ensures Half(s, n, w, at, i, i + 1)
    {
      var kid := n.child[at + 1];
      KidSlices(s[n].child, at, i);
      w.child := w.child + [kid];
      if kid != null { kid.parent := w; }
      n.child := n.child[..at + 1] + n.child[at + 2..];
    }

    /** `w.data.push_back(n.data[at + 1])` and the erasure from `n`. */
    method MoveKey(n: Node, w: Node, at: nat, ghost i: nat, ghost s: Store)
      requires Half(s, n, w, at, i, i + 1) && i < |s[n].data|
      modifies n, w
      ensures Half(s, n, w, at, i + 1, i + 1)
    {
      KidSlices(s[n].data, at, i);
      w.data := w.data + [n.data[at + 1]];
      n.data := n.data[..at + 1] + n.data[at + 2..];
    }

    static lemma KidSlices<T>(c: seq<T>, at: nat, i: nat)
      requires at < i < |c|
      ensures (c[..at + 1] + c[i..])[at + 1] == c[i]
      ensures (c[..at + 1] + c[i..])[..at + 1] + (c[..at + 1] + c[i..])[at + 2..] == c[..at + 1] + c[i + 1..]
      ensures c[at + 1..i] + [c[i]] == c[at + 1..i + 1]
    {
    }

    /** Move the keys and children right of the middle into a new node, and take the middle key out. */
    method MoveRightHalf(n: Node) returns (w: Node, up: int)
      requires n in nodes && |n.data| >= 1 && |n.child| == |n.data| + 1 && OwnKids(Snap(), n)
      modifies this`nodes, nodes
      ensures fresh(w) && w !in old(nodes) && nodes == old(nodes) + {w}
      ensures up == Middle(old(Snap()), n)
      ensures Snap() == Split(old(Snap()), n, w)
      ensures forall x: Node :: x in old(nodes) ==> x.height == old(x.height)
    {
      ghost var s := Snap();
      var at := |n.data| / 2;
      w := new Node(n.parent);
      w.height, w.lo, w.hi := n.height, At(n.data[at]), n.hi;
      HalfStarts(s[n], at);
      MoveAll(n, w, at, s);
      up := TakeMiddle(n, w, at, s);
    }

    /** The copying loop, and the one child more than keys after it. */
    method MoveAll(n: Node, w: Node, at: nat, ghost s: Store)
      requires Half(s, n, w, at, at + 1, at + 1) && OwnKids(s, n) && n.data == s[n].data
      modifies n, w, nodes
      ensures Half(s, n, w, at, |s[n].data|, |s[n].child|)
    {
      var total := |n.data|;
      for i := at + 1 to total
        invariant Half(s, n, w, at, i, i)
      {
        MoveKid(n, w, at, i, s);
        MoveKey(n, w, at, i, s);
      }
      MoveKid(n, w, at, total, s);
    }

    /** Take the middle key out of `n`, give `w` its parent, and count `w` among the nodes. */
    method TakeMiddle(n: Node, w: Node, at: nat, ghost s: Store) returns (up: int)
      requires n in s && OwnKids(s, n) && at == |s[n].data| / 2 < |s[n].data|
      requires Half(s, n, w, at, |s[n].data|, |s[n].child|)
      modifies this`nodes, n, w
      ensures nodes == s.Keys + {w} && up == Middle(s, n) && Snap() == Split(s, n, w)
      ensures forall x: Node :: x in s ==> x.height == s[x].height
    {
      HalfEnds(s[n], at);
      up := n.data[at];
      n.data := n.data[..at];
      w.parent := n.parent;
      n.hi := At(up);
      nodes := nodes + {w};
      SplitFields(s, Snap(), n, w);
    }

    static lemma HalfStarts(r: Rec, at: nat)
      requires at < |r.data| && |r.child| == |r.data| + 1
      ensures r.data[..at + 1] + r.data[at + 1..] == r.data && r.child[..at + 1] + r.child[at + 1..] == r.child
      ensures r.data[at + 1..at + 1] == [] && r.child[at + 1..at + 1] == []
    {
    }

    static lemma HalfEnds(r: Rec, at: nat)
      requires at < |r.data| && |r.child| == |r.data| + 1
      ensures var d := r.data[..at + 1] + r.data[|r.data|..]; d[at] == r.data[at] && d[..at] == r.data[..at]
      ensures r.child[..at + 1] + r.child[|r.child|..] == r.child[..at + 1]
      ensures r.data[at + 1..|r.data|] == r.data[at + 1..] && r.child[at + 1..|r.child|] == r.child[at + 1..]
    {
    }

    static lemma SplitFields(s: Store, t: Store, n: Node, w: Node)
      requires n in s && w !in s && t.Keys == s.Keys + {w} && n !in s[n].child
      requires |s[n].data| >= 1 && |s[n].child| == |s[n].data| + 1
      requires t[n] == Split(s, n, w)[n] && t[w] == Split(s, n, w)[w]
      requires forall x: Node :: x in s && x != n ==> t[x] == s[x].(parent := if Moves(s[n], x) then w else s[x].parent)
      ensures t == Split(s, n, w)
    {
    }

    /** Put a new root over the two halves of the old one. */
    method Crown(n: Node, w: Node, up: int, ghost s: Store)
      requires order >= 3 && Splittable(s, root, order, n, w) && n == root && up == Middle(s, n)
      requires n in nodes && w in nodes && Snap() == Split(s, n, w) && n.height == s[n].height
      modifies this`root, this`nodes, n, w
      ensures Valid() && fresh(nodes - old(nodes)) && old(nodes) <= nodes
      ensures Keys(Snap()) == Keys(s)
    {
      var top := Raise(n, w, up);
      SplitRootKeeps(s, n, order, n, w, top);
    }

    /** The two halves under a new root that holds their middle key. */
    static ghost function Topped(t: Store, n: Node, w: Node, top: Node, up: int): Store
      requires n in t && w in t
    {
      var high := Rec([up], [n, w], null, t[n].height + 1, NegInf, PosInf);
      t[n := t[n].(parent := top)][w := t[w].(parent := top)][top := high]
    }

    /** The new root with its one key and two children, and their new parent. */
    method Raise(n: Node, w: Node, up: int) returns (top: Node)
      requires n in nodes && w in nodes && n != w
      modifies this`root, this`nodes, n, w
      ensures fresh(top) && nodes == old(nodes) + {top} && root == top
      ensures Snap() == Topped(old(Snap()), n, w, top, up)
    {
      hide Topped;
      ghost var t := Snap();
      top := NewRoot(n, w, up);
      root := top;
      n.parent, w.parent := top, top;
      nodes := nodes + {top};
      ToppedFields(t, Snap(), n, w, top, up, top.data, top.child);
    }

    static method NewRoot(n: Node, w: Node, up: int) returns (top: Node)
      ensures fresh(top) && top.data == [up] && top.child == [n, w] && top.parent == null
      ensures top.height == n.height + 1 && top.lo == NegInf && top.hi == PosInf
    {
      top := new Node(null);
      top.data, top.child := [up], [n, w];
      top.height, top.lo, top.hi := n.height + 1, NegInf, PosInf;
    }

    static lemma ToppedFields(t: Store, u: Store, n: Node, w: Node, top: Node, up: int, keys: seq<int>, kids: seq<Node?>)
      requires n in t && w in t && n != w && top !in t && u.Keys == t.Keys + {top}
      requires u[n] == t[n].(parent := top) && u[w] == t[w].(parent := top)
      requires keys == [up] && kids == [n, w] && u[top] == Rec(keys, kids, null, t[n].height + 1, NegInf, PosInf)
      requires forall x: Node :: x in t && x != n && x != w ==> u[x] == t[x]
      ensures u == Topped(t, n, w, top, up)
    {
    }

    /** Put the middle key and the new node into the parent. */
    method Ascend(n: Node, w: Node, up: int, q: Node, ghost s: Store)
      requires Splittable(s, root, order, n, w) && n != root && up == Middle(s, n)
      requires s[n].parent == q && q in s && NodeOk(s, root, order, n, q)
      requires q in nodes && Snap() == Split(s, n, w)
      modifies q
      ensures Shape(Snap(), root, order, q) && Keys(Snap()) == Keys(s) && q.height == old(q.height)
    {
      MiddleIsNew(s, root, order, n, w, q);
      assert q.data == Snap()[q].data && q.child == Snap()[q].child;
      var i := Slot(q.data, up);
      q.data := InsertAt(q.data, i, up);
      q.child := InsertAt(q.child, i + 1, w);
      assert Snap() == SplitInto(s, n, w, q, i);
      SplitIntoKeeps(s, root, order, n, w, q, i);
    }

    /**
     * `travel`: visits, in strictly increasing order, exactly the tree's keys in the node's interval,
     * and at least as many as the order and height demand.
     */
    method Travel(p: Node?) returns (out: seq<int>)
      requires Valid() && (p != null ==> p in nodes)
      ensures Sorted(out)
      ensures p == null ==> out == []
      ensures p != null ==> forall k :: k in out <==> k in Keys(Snap()) && InRange(Snap()[p], k)
      ensures p != null ==> |out| >= (|p.data| + 1) * Pow(Fanout(order), p.height) - 1
      decreases if p == null then 0 else p.height + 1, 0
    {
      out := [];
      if p == null { return; }
      ghost var s := Snap();
      var n := |p.child| - 1;
      ghost var unit := Pow(Fanout(order), p.height);
      hide Shape, NodeOk, Visited, InKid, InRange, Keys, Pow, Sorted;
      NothingVisited(s, root, order, p);
      for i := 0 to n
        invariant Snap() == s && p in s && Sorted(out)
        invariant forall k :: k in out <==> Visited(s, p, i, k)
        invariant |out| >= i * unit
      {
        var below := TravelKid(p, i);
        VisitMore(s, root, order, p, i, out, below);
        out := out + below + [p.data[i]];
      }
      var below := TravelKid(p, n);
      VisitRest(s, root, order, p, out, below);
      out := out + below;
    }

    /** The traversal of one child, null or not. */
    method TravelKid(p: Node, i: nat) returns (out: seq<int>)
      requires Valid() && p in nodes && i < |p.child| && |p.child| == |p.data| + 1
      ensures Sorted(out)
      ensures forall k :: k in out <==> InKid(Snap(), p, i, k)
      ensures |out| >= Pow(Fanout(order), p.height) - 1
      decreases p.height, 1
    {
      ghost var s := Snap();
      assert NodeOk(s, root, order, null, p);
      var c := p.child[i];
      if p.height > 0 {
        assert KidOk(s, p, s[p], i, c);
        assert NodeOk(s, root, order, null, c);
      }
      out := Travel(c);
      if p.height > 0 { LevelCount(order, |c.data|, c.height, |out|); }
    }

    /** `print`: every key of the tree, once, in increasing order. */
    method Contents() returns (out: seq<int>)
      requires Valid()
      ensures Sorted(out) && forall k :: k in out <==> k in Keys(Snap())
      ensures root != null ==> |out| >= 2 * Pow(Fanout(order), root.height) - 1
    {
      out := Travel(root);
      if root != null {
        assert NodeOk(Snap(), root, order, null, root);
        forall k | k in Keys(Snap()) ensures InRange(Snap()[root], k) {}
        MulMono(2, |root.data| + 1, Pow(Fanout(order), root.height));
      }
    }
  }
}
