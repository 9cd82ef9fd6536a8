/** Debugging entries and their trees: sections 2.3 and 7.5.2 of DWARF version 3. */
module DwarfTree {
  import opened Bytes
  import opened Leb128
  import opened DwarfAbbrev
  import DwarfForms

  /** A decoded entry: where it starts, what its abbreviation says, its attributes by name, and its children. */
  datatype Die = Die(offs: nat, code: nat, tag: nat, hasChildren: Byte, attrs: map<nat, DwarfForms.Value>, children: seq<Die>)

  datatype Head = NullEntry | Head(code: nat, tag: nat, hasChildren: Byte, attrs: map<nat, DwarfForms.Value>)

  datatype Root = Degenerate | Root(die: Die)

  type Attrs = map<nat, DwarfForms.Value>

  // ---- reading ----

  function ReadAttrValues(s: seq<Byte>, at: nat, attrs: seq<Attr>, sofar: Attrs): (g: Got<Attrs>)
    ensures g.Got? && at <= |s| ==> at <= g.next <= |s|
    decreases |attrs|
  {
    if attrs == [] then Got(sofar, at) else
    var v := DwarfForms.ReadValue(s, at, attrs[0].form);
    if v.Undefined? then Undefined
    else ReadAttrValues(s, v.next, attrs[1..], sofar[attrs[0].name := v.value])
  }

  /** `die_t::decode`; for a code without an abbreviation the source leaves the entry half undefined. */
  function ReadHead(s: seq<Byte>, at: nat, table: seq<Abbrev>): (g: Got<Head>)
    requires WellRead(table)
    ensures g.Got? ==> at < g.next <= |s|
  {
    var code := ReadUnsigned(s, at);
    if code.Undefined? then Undefined
    else if code.value == 0 then Got(NullEntry, code.next)
    else
      var f := Find(table, code.value);
      if f.Missing? then Undefined else
      var a := f.abbrev;
      var i := ReadAttrValues(s, code.next, a.attributes[..|a.attributes| - 1], map[]);
      if i.Undefined? then Undefined else Got(Head(code.value, a.tag, a.hasChildren, i.value), i.next)
  }

  function Entry(at: nat, h: Head, kids: seq<Die>): Die
    requires h.Head?
  {
    Die(at, h.code, h.tag, h.hasChildren, h.attrs, kids)
  }

  /** An entry and, if its abbreviation says so, its children; or a null entry. */
  function ReadTree(s: seq<Byte>, at: nat, table: seq<Abbrev>): (g: Got<Root>)
    requires WellRead(table)
    ensures g.Got? ==> at < g.next <= |s|
    decreases |s| - at, 0
  {
    var h := ReadHead(s, at, table);
    if h.Undefined? then Undefined
    else if h.value.NullEntry? then Got(Degenerate, h.next)
    else
      var kids := if h.value.hasChildren != 0 then ReadSiblings(s, h.next, table) else Got([], h.next);
      if kids.Undefined? then Undefined else Got(Root(Entry(at, h.value, kids.value)), kids.next)
  }

  /** A chain of siblings up to its null entry. */
  function ReadSiblings(s: seq<Byte>, at: nat, table: seq<Abbrev>): (g: Got<seq<Die>>)
    requires WellRead(table)
    ensures g.Got? ==> at < g.next <= |s|
    decreases |s| - at, 1
  {
    var first := ReadTree(s, at, table);
    if first.Undefined? then Undefined
    else if first.value.Degenerate? then Got([], first.next)
    else
      var more := ReadSiblings(s, first.next, table);
      if more.Undefined? then Undefined else Got([first.value.die] + more.value, more.next)
  }

  // ---- writing ----

  /** An entry as a producer has it: an abbreviation code, a value for each of its attributes, and children. */
  datatype Source = Source(code: nat, values: seq<DwarfForms.Value>, children: seq<Source>)

  predicate WellFormed(t: Source, table: seq<Abbrev>) {
    && 0 < t.code < WORD
    && Find(table, t.code).Found?
    && Carries(t, Find(table, t.code).abbrev)
    && AllWellFormed(t.children, table)
  }

  predicate Carries(t: Source, a: Abbrev) {
    && |a.attributes| == |t.values| + 1
    && (forall i :: 0 <= i < |t.values| ==> DwarfForms.Fits(a.attributes[i].form, t.values[i]))
    && (a.hasChildren == 0 ==> t.children == [])
  }

  predicate AllWellFormed(ts: seq<Source>, table: seq<Abbrev>) {
    ts != [] ==> WellFormed(ts[0], table) && AllWellFormed(ts[1..], table)
  }

  function Forms(t: Source, table: seq<Abbrev>): (attrs: seq<Attr>)
    requires WellFormed(t, table)
    ensures |attrs| == |t.values|
    ensures forall i :: 0 <= i < |attrs| ==> DwarfForms.Fits(attrs[i].form, t.values[i])
  {
    Find(table, t.code).abbrev.attributes[..|t.values|]
  }

  function WriteValues(attrs: seq<Attr>, values: seq<DwarfForms.Value>): seq<Byte>
    requires |attrs| == |values| && forall i :: 0 <= i < |attrs| ==> DwarfForms.Fits(attrs[i].form, values[i])
  {
    if attrs == [] then []
    else DwarfForms.WriteValue(attrs[0].form, values[0]) + WriteValues(attrs[1..], values[1..])
  }

  function WriteHead(t: Source, table: seq<Abbrev>): seq<Byte>
    requires WellFormed(t, table)
  {
    EncodeUnsigned(t.code) + WriteValues(Forms(t, table), t.values)
  }

  predicate Nests(t: Source, table: seq<Abbrev>)
    requires WellFormed(t, table)
  {
    Find(table, t.code).abbrev.hasChildren != 0
  }

  function WriteDie(t: Source, table: seq<Abbrev>): seq<Byte>
    requires WellFormed(t, table)
  {
    WriteHead(t, table) + if Nests(t, table) then WriteAll(t.children, table) else []
  }

  /** Siblings and the null entry that closes them. */
  function WriteAll(ts: seq<Source>, table: seq<Abbrev>): seq<Byte>
    requires AllWellFormed(ts, table)
  {
    if ts == [] then EncodeUnsigned(0) else WriteDie(ts[0], table) + WriteAll(ts[1..], table)
  }

  // ---- the entries that were written ----

  function AttrMap(attrs: seq<Attr>, values: seq<DwarfForms.Value>, sofar: Attrs): Attrs
    requires |attrs| == |values|
  {
    if attrs == [] then sofar else AttrMap(attrs[1..], values[1..], sofar[attrs[0].name := values[0]])
  }

  function Placed(t: Source, at: nat, table: seq<Abbrev>): Die
    requires WellFormed(t, table)
  {
    var a := Find(table, t.code).abbrev;
    Die(at, t.code, a.tag, a.hasChildren, AttrMap(Forms(t, table), t.values, map[]),
        PlacedAll(t.children, at + |WriteHead(t, table)|, table))
  }

  function PlacedAll(ts: seq<Source>, at: nat, table: seq<Abbrev>): seq<Die>
    requires AllWellFormed(ts, table)
  {
    if ts == [] then []
    else [Placed(ts[0], at, table)] + PlacedAll(ts[1..], at + |WriteDie(ts[0], table)|, table)
  }

  /** With distinct names an entry's attributes are exactly the values written, each under its name. */
  lemma {:induction false} AttrMapIs(attrs: seq<Attr>, values: seq<DwarfForms.Value>, sofar: Attrs)
    requires |attrs| == |values|
    requires forall i, j :: 0 <= i < j < |attrs| ==> attrs[i].name != attrs[j].name
    requires forall i :: 0 <= i < |attrs| ==> attrs[i].name !in sofar
    ensures var m := AttrMap(attrs, values, sofar);
      && (forall i :: 0 <= i < |attrs| ==> attrs[i].name in m && m[attrs[i].name] == values[i])
      && (forall x :: x in sofar ==> x in m && m[x] == sofar[x])
      && (forall x :: x in m ==> x in sofar || exists i :: 0 <= i < |attrs| && attrs[i].name == x)
    decreases |attrs|
  {
    if attrs != [] {
      var rest := attrs[1..];
      assert forall i :: 0 <= i < |rest| ==> rest[i] == attrs[i + 1] && values[1..][i] == values[i + 1];
      AttrMapIs(rest, values[1..], sofar[attrs[0].name := values[0]]);
      var m := AttrMap(attrs, values, sofar);
      forall i | 0 <= i < |attrs| ensures attrs[i].name in m && m[attrs[i].name] == values[i] {
        if i > 0 {
          assert rest[i - 1].name in m;
        }
      }
    }
  }

  // ---- round trip ----

  lemma {:induction false} ValuesRoundTrip(s: seq<Byte>, at: nat, attrs: seq<Attr>, values: seq<DwarfForms.Value>, sofar: Attrs)
    requires |attrs| == |values| && forall i :: 0 <= i < |attrs| ==> DwarfForms.Fits(attrs[i].form, values[i])
    requires At(s, at, WriteValues(attrs, values))
    ensures ReadAttrValues(s, at, attrs, sofar) == Got(AttrMap(attrs, values, sofar), at + |WriteValues(attrs, values)|)
    decreases |attrs|
  {
    hide DwarfForms.WriteValue, DwarfForms.ReadValue, DwarfForms.Fits;
    if attrs != [] {
      var head := DwarfForms.WriteValue(attrs[0].form, values[0]);
      AtParts(s, at, head, WriteValues(attrs[1..], values[1..]));
      DwarfForms.ValueRoundTrip(s, at, attrs[0].form, values[0]);
      ValuesRoundTrip(s, at + |head|, attrs[1..], values[1..], sofar[attrs[0].name := values[0]]);
    }
  }

  lemma HeadRoundTrip(s: seq<Byte>, at: nat, t: Source, table: seq<Abbrev>)
    requires WellRead(table) && WellFormed(t, table) && At(s, at, WriteHead(t, table))
    ensures var a := Find(table, t.code).abbrev;
      ReadHead(s, at, table) ==
      Got(Head(t.code, a.tag, a.hasChildren, AttrMap(Forms(t, table), t.values, map[])), at + |WriteHead(t, table)|)
  {
    hide EncodeUnsigned, ReadUnsigned, WriteValues, ReadAttrValues, DwarfForms.Fits, AllWellFormed;
    var code := EncodeUnsigned(t.code);
    AtParts(s, at, code, WriteValues(Forms(t, table), t.values));
    UnsignedRoundTrip(s, at, t.code);
    ValuesRoundTrip(s, at + |code|, Forms(t, table), t.values, map[]);
  }

  lemma NullEntryIsRead(s: seq<Byte>, at: nat, table: seq<Abbrev>)
    requires WellRead(table) && At(s, at, EncodeUnsigned(0))
    ensures ReadTree(s, at, table) == Got(Degenerate, at + |EncodeUnsigned(0)|)
  {
    UnsignedRoundTrip(s, at, 0);
  }

  /** Siblings written one after the other and closed are read as such. */
  lemma {:induction false} SiblingsRoundTrip(s: seq<Byte>, at: nat, ts: seq<Source>, table: seq<Abbrev>)
    requires WellRead(table) && AllWellFormed(ts, table) && At(s, at, WriteAll(ts, table))
    ensures ReadSiblings(s, at, table) == Got(PlacedAll(ts, at, table), at + |WriteAll(ts, table)|)
    decreases ts
  {
    hide EncodeUnsigned, ReadUnsigned, WriteDie, Placed, WellFormed, ReadTree, At, WellRead;
    if ts == [] {
      NullEntryIsRead(s, at, table);
    } else {
      AtParts(s, at, WriteDie(ts[0], table), WriteAll(ts[1..], table));
      TreeRoundTrip(s, at, ts[0], table);
      SiblingsRoundTrip(s, at + |WriteDie(ts[0], table)|, ts[1..], table);
    }
  }

  /**
   * Any finite tree that fits the abbreviations, written anywhere, is rebuilt entry for entry, each knowing the
   * offset it was written at, and reading stops right after its last byte.
   */
  lemma {:induction false} TreeRoundTrip(s: seq<Byte>, at: nat, t: Source, table: seq<Abbrev>)
    requires WellRead(table) && WellFormed(t, table) && At(s, at, WriteDie(t, table))
    ensures ReadTree(s, at, table) == Got(Root(Placed(t, at, table)), at + |WriteDie(t, table)|)
    decreases t
  {
    hide EncodeUnsigned, ReadUnsigned, WriteHead, Find, Forms, ReadSiblings, ReadHead, AttrMap, WriteAll,
         DwarfForms.Fits, At, WellRead;
    var head, body := WriteHead(t, table), if Nests(t, table) then WriteAll(t.children, table) else [];
    AtParts(s, at, head, body);
    HeadRoundTrip(s, at, t, table);
    if Nests(t, table) {
      SiblingsRoundTrip(s, at + |head|, t.children, table);
    }
  }

  // ---- offsets ----

  /** The entries of a tree, each before its children. */
  function Nodes(d: Die): (ds: seq<Die>)
    ensures |ds| > 0 && ds[0] == d
  {
    [d] + AllNodes(d.children)
  }

  function AllNodes(ds: seq<Die>): seq<Die> {
    if ds == [] then [] else Nodes(ds[0]) + AllNodes(ds[1..])
  }

  /** Offsets between two bounds, strictly increasing. */
  ghost predicate Rising(ds: seq<Die>, lo: nat, hi: nat) {
    && (forall i :: 0 <= i < |ds| ==> lo <= ds[i].offs < hi)
    && (forall i, j :: 0 <= i < j < |ds| ==> ds[i].offs < ds[j].offs)
  }

  lemma RisingAppends(a: seq<Die>, b: seq<Die>, lo: nat, mid: nat, hi: nat)
    requires Rising(a, lo, mid) && Rising(b, mid, hi) && lo <= mid <= hi
    ensures Rising(a + b, lo, hi)
  {
  }

  /** Whatever the bytes, the offsets of the entries read rise strictly in preorder and lie in the bytes read. */
  lemma {:induction false} TreeRises(s: seq<Byte>, at: nat, table: seq<Abbrev>)
    requires WellRead(table) && ReadTree(s, at, table).Got? && ReadTree(s, at, table).value.Root?
    ensures Rising(Nodes(ReadTree(s, at, table).value.die), at, ReadTree(s, at, table).next)
    decreases |s| - at, 0
  {
    hide ReadSiblings, ReadHead, Rising;
    var h := ReadHead(s, at, table);
    var d := ReadTree(s, at, table).value.die;
    RisingOne(d, at);
    if h.value.hasChildren != 0 {
      SiblingsRise(s, h.next, table);
      RisingFrom(AllNodes(d.children), at + 1, h.next, ReadTree(s, at, table).next);
      RisingAppends([d], AllNodes(d.children), at, at + 1, ReadTree(s, at, table).next);
    } else {
      assert Nodes(d) == [d];
      RisingFrom([d], at, at, at + 1);
      RisingTo([d], at, at + 1, ReadTree(s, at, table).next);
    }
  }

  lemma RisingOne(d: Die, at: nat)
    requires d.offs == at
    ensures Rising([d], at, at + 1)
  {
  }

  lemma RisingFrom(ds: seq<Die>, lo: nat, from: nat, hi: nat)
    requires lo <= from && Rising(ds, from, hi)
    ensures Rising(ds, lo, hi)
  {
  }

  lemma RisingTo(ds: seq<Die>, lo: nat, to: nat, hi: nat)
    requires to <= hi && Rising(ds, lo, to)
    ensures Rising(ds, lo, hi)
  {
  }

  lemma {:induction false} SiblingsRise(s: seq<Byte>, at: nat, table: seq<Abbrev>)
    requires WellRead(table) && ReadSiblings(s, at, table).Got?
    ensures Rising(AllNodes(ReadSiblings(s, at, table).value), at, ReadSiblings(s, at, table).next)
    decreases |s| - at, 1
  {
    hide ReadTree, ReadHead, Nodes, Rising;
    var first := ReadTree(s, at, table);
    if first.value.Root? {
      var d, more := first.value.die, ReadSiblings(s, first.next, table);
      TreeRises(s, at, table);
      SiblingsRise(s, first.next, table);
      assert ([d] + more.value)[1..] == more.value;
      RisingAppends(Nodes(d), AllNodes(more.value), at, first.next, more.next);
    } else {
      NoneRise(at, first.next);
    }
  }

  lemma NoneRise(lo: nat, hi: nat)
    ensures Rising([], lo, hi)
  {
  }

  datatype Option<T> = Some(value: T) | None

  /** `die_t::find_by_offset` */
  function FindByOffset(d: Die, offset: nat): Option<Die> {
    if d.offs == offset then Some(d) else FindAmong(d.children, offset)
  }

  function FindAmong(ds: seq<Die>, offset: nat): Option<Die> {
    if ds == [] then None else
    var first := FindByOffset(ds[0], offset);
    if first.Some? then first else FindAmong(ds[1..], offset)
  }

  /** What is found is the first entry in preorder that starts there. */
  ghost predicate IsFirst(ds: seq<Die>, offset: nat, found: Option<Die>) {
    match found
    case None => forall i :: 0 <= i < |ds| ==> ds[i].offs != offset
    case Some(d) =>
      exists k :: 0 <= k < |ds| && ds[k] == d && d.offs == offset && forall i :: 0 <= i < k ==> ds[i].offs != offset
  }

  lemma {:induction false} FindIsFirst(d: Die, offset: nat)
    ensures IsFirst(Nodes(d), offset, FindByOffset(d, offset))
    decreases d
  {
    if d.offs != offset {
      FindAmongIsFirst(d.children, offset);
      FirstAppends([d], AllNodes(d.children), offset, None, FindAmong(d.children, offset));
    }
  }

  lemma {:induction false} FindAmongIsFirst(ds: seq<Die>, offset: nat)
    ensures IsFirst(AllNodes(ds), offset, FindAmong(ds, offset))
    decreases ds
  {
    hide IsFirst;
    if ds != [] {
      FindIsFirst(ds[0], offset);
      FindAmongIsFirst(ds[1..], offset);
      FirstAppends(Nodes(ds[0]), AllNodes(ds[1..]), offset, FindByOffset(ds[0], offset), FindAmong(ds[1..], offset));
    } else {
      NoneFirst(offset);
    }
  }

  lemma NoneFirst(offset: nat)
    ensures IsFirst([], offset, None)
  {
  }

  lemma FirstAppends(a: seq<Die>, b: seq<Die>, offset: nat, inA: Option<Die>, inB: Option<Die>)
    requires IsFirst(a, offset, inA) && IsFirst(b, offset, inB)
    ensures IsFirst(a + b, offset, if inA.Some? then inA else inB)
  {
    if inA.Some? {
      var k :| 0 <= k < |a| && a[k] == inA.value && a[k].offs == offset && forall i :: 0 <= i < k ==> a[i].offs != offset;
      assert (a + b)[k] == inA.value;
    } else if inB.Some? {
      var k :| 0 <= k < |b| && b[k] == inB.value && b[k].offs == offset && forall i :: 0 <= i < k ==> b[i].offs != offset;
      assert (a + b)[|a| + k] == inB.value;
    }
  }

  /** In a tree that was read, each entry is found by its offset and at no other: the one entry that starts there. */
  lemma FoundIffThere(s: seq<Byte>, at: nat, table: seq<Abbrev>, offset: nat, n: Die)
    requires WellRead(table) && ReadTree(s, at, table).Got? && ReadTree(s, at, table).value.Root?
    ensures var d := ReadTree(s, at, table).value.die;
      FindByOffset(d, offset) == Some(n) <==> n in Nodes(d) && n.offs == offset
  {
    hide ReadTree, Nodes, FindByOffset;
    var d := ReadTree(s, at, table).value.die;
    TreeRises(s, at, table);
    FindIsFirst(d, offset);
  }
}
