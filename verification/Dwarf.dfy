/** The tree builder: entries as linked objects, with parents, made while the bytes are walked. */
module Dwarf {
  import opened Bytes
  import opened Leb128
  import opened DwarfAbbrev
  import opened DwarfTree
  import DwarfForms

  /** `die_t` */
  class DieNode {
    var abbrevCode: nat
    var nodeAttributes: Attrs
    var offs: nat
    var tag: nat
    var hasChildren: Byte
    var parent: DieNode?
    var children: seq<DieNode>

    constructor ()
      ensures abbrevCode == 0 && nodeAttributes == map[] && parent == null && children == []
    {
      abbrevCode, nodeAttributes, tag, parent, children := 0, map[], 0, null, [];
      offs, hasChildren := 0, 0;
    }

    /** `die_t::decode` */
    method Decode(s: seq<Byte>, at: nat, table: AbbrevTable) returns (g: Got<bool>)
      requires WellRead(table.abbrevs) && nodeAttributes == map[]
      modifies this
      ensures parent == old(parent) && children == old(children) && offs == at
      ensures var h := ReadHead(s, at, table.abbrevs);
        && (g.Undefined? <==> h.Undefined?)
        && (g.Got? ==> g.next == h.next)
        && (g.Got? && h.value.NullEntry? ==> abbrevCode == 0)
        && (g.Got? && h.value.Head? ==> abbrevCode != 0 && Shows(h.value))
    {
      hide ReadUnsigned, ReadAttrValues;
      offs := at;
      var code := DecodeUnsigned(s, at);
      if code.Undefined? {
        return Undefined;
      }
      abbrevCode := code.value;
      if abbrevCode == 0 {
        return Got(false, code.next);
      }
      var f := table.FindAbbrev(abbrevCode);
      if f.Missing? {
        return Undefined;
      }
      var abbrev := f.abbrev;
      tag := abbrev.tag;
      hasChildren := abbrev.hasChildren;
      g := DecodeAttributes(s, code.next, abbrev.attributes[..|abbrev.attributes| - 1]);
    }

    ghost predicate Shows(h: Head)
      reads this
    {
      h.Head? && abbrevCode == h.code && tag == h.tag && hasChildren == h.hasChildren && nodeAttributes == h.attrs
    }

    /** The loop of `decode` over the attributes of the abbreviation. */
    method DecodeAttributes(s: seq<Byte>, at: nat, attrs: seq<Attr>) returns (g: Got<bool>)
      modifies this`nodeAttributes
      ensures var r := ReadAttrValues(s, at, attrs, old(nodeAttributes));
        && (g.Undefined? <==> r.Undefined?)
        && (g.Got? ==> nodeAttributes == r.value && g.next == r.next)
    {
      hide DwarfForms.ReadValue;
      var offset := at;
      assert attrs[0..] == attrs;
      for i := 0 to |attrs|
        invariant ReadAttrValues(s, offset, attrs[i..], nodeAttributes) == ReadAttrValues(s, at, attrs, old(nodeAttributes))
      {
        assert attrs[i..][1..] == attrs[i + 1..];
        var v := DwarfForms.DecodeValue(s, offset, attrs[i].form);
        if v.Undefined? {
          return Undefined;
        }
        nodeAttributes := nodeAttributes[attrs[i].name := v.value];
        offset := v.next;
      }
      return Got(true, offset);
    }

    /** What follows an entry's own bytes: its children, if its abbreviation says so. */
    method Complete(s: seq<Byte>, at: nat, table: AbbrevTable, ghost h: Head) returns (g: Got<bool>, ghost made: set<DieNode>)
      requires WellRead(table.abbrevs) && Shows(h) && children == []
      modifies this`children
      ensures this in made && fresh(made - {this})
      ensures var kids := if h.hasChildren != 0 then ReadSiblings(s, at, table.abbrevs) else Got([], at);
        && (g.Undefined? <==> kids.Undefined?)
        && (g.Got? ==> g.next == kids.next && Is(this, Entry(offs, h, kids.value), made))
      decreases |s| - at, 1
    {
      hide ReadSiblings, Are, Is;
      made := {};
      if hasChildren != 0 {
        g, made := BuildTreeRecurse(s, at, table);
      } else {
        g := Got(true, at);
        NoneAre(this, made);
      }
      if g.Got? {
        ghost var kids := if h.hasChildren != 0 then ReadSiblings(s, at, table.abbrevs).value else [];
        AreGrow(this, children, kids, made, made + {this});
        NodeIs(this, h, kids, made + {this});
      }
      made := made + {this};
    }

    /**
     * `build_tree_recurse`: the siblings at `at`, each with its own subtree, become the children of this node.
     * `made` are the nodes made on the way.
     */
    method BuildTreeRecurse(s: seq<Byte>, at: nat, table: AbbrevTable) returns (g: Got<bool>, ghost made: set<DieNode>)
      requires WellRead(table.abbrevs) && children == []
      modifies this`children
      ensures fresh(made)
      ensures var r := ReadSiblings(s, at, table.abbrevs);
        && (g.Undefined? <==> r.Undefined?)
        && (g.Got? ==> g.next == r.next && Are(this, children, r.value, made))
      decreases |s| - at, 0
    {
      hide ReadTree, ReadSiblings, ReadHead, Are, Extends, Is;
      made := {};
      var offset := at;
      ghost var ds: seq<Die>, all := [], ReadSiblings(s, at, table.abbrevs);
      ExtendsNone(all);
      NoneAre(this, made);
      while true
        invariant fresh(made) && this !in made && at <= offset
        invariant Are(this, children, ds, made)
        invariant Extends(ds, ReadSiblings(s, offset, table.abbrevs), all)
        decreases |s| - offset
      {
        ghost var h, t := ReadHead(s, offset, table.abbrevs), ReadTree(s, offset, table.abbrevs);
        TreeUnfolds(s, offset, table.abbrevs);
        var child := new DieNode();
        var head := child.Decode(s, offset, table);
        if head.Undefined? {
          SiblingsFail(s, offset, table.abbrevs, ds, all);
          return Undefined, made;
        }
        if child.abbrevCode == 0 {
          SiblingsEnd(s, offset, table.abbrevs, ds, all);
          return Got(true, head.next), made;
        }
        child.parent := this;
        ghost var before := children;
        children := children + [child];
        var body, below := child.Complete(s, head.next, table, h.value);
        if body.Undefined? {
          SiblingsFail(s, offset, table.abbrevs, ds, all);
          return Undefined, made;
        }
        SiblingsGoOn(s, offset, table.abbrevs, ds, all);
        AreGrow(this, before, ds, made, made + below);
        IsGrows(child, t.value.die, below, made + below);
        AreAppend(this, before, ds, made + below, child, t.value.die);
        made, ds, offset := made + below, ds + [t.value.die], body.next;
      }
    }
  }

  /** `build_tree` */
  method BuildTree(s: seq<Byte>, at: nat, table: AbbrevTable)
    returns (g: Got<bool>, root: DieNode?, ghost made: set<DieNode>)
    requires WellRead(table.abbrevs)
    ensures fresh(made)
    ensures var r := ReadTree(s, at, table.abbrevs);
      && (g.Undefined? <==> r.Undefined?)
      && (g.Got? ==> g.next == r.next)
      && (g.Got? && r.value.Degenerate? ==> root == null)
      && (g.Got? && r.value.Root? ==> root != null && Is(root, r.value.die, made) && root.parent == null)
  {
    hide ReadTree, ReadSiblings, ReadHead, Is;
    TreeUnfolds(s, at, table.abbrevs);
    ghost var h := ReadHead(s, at, table.abbrevs);
    made := {};
    var node := new DieNode();
    var head := node.Decode(s, at, table);
    if head.Undefined? {
      return Undefined, null, made;
    }
    if node.abbrevCode == 0 {
      return Got(true, head.next), null, made;
    }
    g, made := node.Complete(s, head.next, table, h.value);
    root := node;
  }

  // ---- one turn of the loop over siblings ----

  lemma TreeUnfolds(s: seq<Byte>, at: nat, table: seq<Abbrev>)
    requires WellRead(table)
    ensures var h := ReadHead(s, at, table);
      ReadTree(s, at, table) ==
      if h.Undefined? then Undefined
      else if h.value.NullEntry? then Got(Degenerate, h.next)
      else
        var kids := if h.value.hasChildren != 0 then ReadSiblings(s, h.next, table) else Got([], h.next);
        if kids.Undefined? then Undefined else Got(Root(Entry(at, h.value, kids.value)), kids.next)
  {
  }

  lemma SiblingsFail(s: seq<Byte>, at: nat, table: seq<Abbrev>, ds: seq<Die>, all: Got<seq<Die>>)
    requires WellRead(table) && ReadTree(s, at, table).Undefined? && Extends(ds, ReadSiblings(s, at, table), all)
    ensures all == Undefined
  {
  }

  lemma SiblingsEnd(s: seq<Byte>, at: nat, table: seq<Abbrev>, ds: seq<Die>, all: Got<seq<Die>>)
    requires WellRead(table) && ReadTree(s, at, table).Got? && ReadTree(s, at, table).value.Degenerate?
    requires Extends(ds, ReadSiblings(s, at, table), all)
    ensures all == Got(ds, ReadTree(s, at, table).next)
  {
    assert ds + [] == ds;
  }

  lemma SiblingsGoOn(s: seq<Byte>, at: nat, table: seq<Abbrev>, ds: seq<Die>, all: Got<seq<Die>>)
    requires WellRead(table) && ReadTree(s, at, table).Got? && ReadTree(s, at, table).value.Root?
    requires Extends(ds, ReadSiblings(s, at, table), all)
    ensures var t := ReadTree(s, at, table); Extends(ds + [t.value.die], ReadSiblings(s, t.next, table), all)
  {
    var t := ReadTree(s, at, table);
    ExtendsOne(ds, t.value.die, ReadSiblings(s, t.next, table), all);
  }

  /** `n` and the nodes below it, all in `made`, are the entry `d`, and each child points back to its parent. */
  ghost predicate Is(n: DieNode, d: Die, made: set<DieNode>)
    reads made
    decreases d
  {
    && n in made
    && n.offs == d.offs && n.abbrevCode == d.code && n.tag == d.tag && n.hasChildren == d.hasChildren
    && n.nodeAttributes == d.attrs
    && |n.children| == |d.children|
    && forall i :: 0 <= i < |d.children| ==> n.children[i] in made && n.children[i].parent == n && Is(n.children[i], d.children[i], made)
  }

  ghost predicate Are(parent: DieNode, ns: seq<DieNode>, ds: seq<Die>, made: set<DieNode>)
    reads made
  {
    && |ns| == |ds|
    && forall i :: 0 <= i < |ns| ==> ns[i] in made && ns[i].parent == parent && Is(ns[i], ds[i], made)
  }

  lemma NoneAre(parent: DieNode, made: set<DieNode>)
    ensures Are(parent, [], [], made)
  {
  }

  lemma {:induction false} IsGrows(n: DieNode, d: Die, made: set<DieNode>, more: set<DieNode>)
    requires made <= more && Is(n, d, made)
    ensures Is(n, d, more)
    decreases d
  {
    forall i | 0 <= i < |d.children| ensures Is(n.children[i], d.children[i], more) {
      IsGrows(n.children[i], d.children[i], made, more);
    }
  }

  lemma AreGrow(parent: DieNode, ns: seq<DieNode>, ds: seq<Die>, made: set<DieNode>, more: set<DieNode>)
    requires made <= more && Are(parent, ns, ds, made)
    ensures Are(parent, ns, ds, more)
  {
    hide Is;
    forall i | 0 <= i < |ns| ensures Is(ns[i], ds[i], more) {
      IsGrows(ns[i], ds[i], made, more);
    }
  }

  lemma AreAppend(parent: DieNode, ns: seq<DieNode>, ds: seq<Die>, made: set<DieNode>, n: DieNode, d: Die)
    requires Are(parent, ns, ds, made) && n in made && n.parent == parent && Is(n, d, made)
    ensures Are(parent, ns + [n], ds + [d], made)
  {
    hide Is;
  }

  lemma NodeIs(n: DieNode, h: Head, kids: seq<Die>, made: set<DieNode>)
    requires n.Shows(h) && n in made && Are(n, n.children, kids, made)
    ensures Is(n, Entry(n.offs, h, kids), made)
  {
  }

  /** `find_by_offset`: the node found is the entry the decoded tree has at that offset. */
  method FindNode(n: DieNode, offset: nat, ghost d: Die, ghost made: set<DieNode>) returns (r: DieNode?)
    requires Is(n, d, made)
    ensures r == null <==> FindByOffset(d, offset).None?
    ensures r != null ==> r in made && Is(r, FindByOffset(d, offset).value, made) && r.offs == offset
    decreases d
  {
    if n.offs == offset {
      return n;
    }
    assert d.children[0..] == d.children;
    for i := 0 to |n.children|
      invariant FindAmong(d.children[i..], offset) == FindAmong(d.children, offset)
    {
      assert d.children[i..][1..] == d.children[i + 1..];
      var c := FindNode(n.children[i], offset, d.children[i], made);
      if c != null {
        return c;
      }
    }
    return null;
  }
}
