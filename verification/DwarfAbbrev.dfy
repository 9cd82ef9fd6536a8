/** Abbreviation tables: section 7.5.3 of DWARF version 3. */
module DwarfAbbrev {
  import opened Bytes
  import opened Leb128

  datatype Attr = Attr(name: nat, form: nat)

  /** As decoded: `attributes` ends with the pair (0, 0), unless the code is 0, which ends a table. */
  datatype Abbrev = Abbrev(code: nat, tag: nat, hasChildren: Byte, attributes: seq<Attr>)

  const END := Attr(0, 0)
  const LAST := Abbrev(0, 0, 0, [])

  function ReadAttr(s: seq<Byte>, at: nat): (g: Got<Attr>)
    ensures g.Got? ==> at < g.next <= |s|
  {
    var name := ReadUnsigned(s, at);
    if name.Undefined? then Undefined else
    var form := ReadUnsigned(s, name.next);
    if form.Undefined? then Undefined else Got(Attr(name.value, form.value), form.next)
  }

  function ReadAttrs(s: seq<Byte>, at: nat): (g: Got<seq<Attr>>)
    ensures g.Got? ==> at < g.next <= |s| && |g.value| > 0
    decreases |s| - at
  {
    var a := ReadAttr(s, at);
    if a.Undefined? then Undefined
    else if a.value == END then Got([END], a.next)
    else
      var more := ReadAttrs(s, a.next);
      if more.Undefined? then Undefined else Got([a.value] + more.value, more.next)
  }

  function ReadAbbrev(s: seq<Byte>, at: nat): (g: Got<Abbrev>)
    ensures g.Got? ==> at < g.next <= |s| && (g.value.code != 0 ==> |g.value.attributes| > 0)
  {
    var code := ReadUnsigned(s, at);
    if code.Undefined? then Undefined
    else if code.value == 0 then Got(LAST, code.next)
    else
      var tag := ReadUnsigned(s, code.next);
      if tag.Undefined? || tag.next >= |s| then Undefined else
      var attrs := ReadAttrs(s, tag.next + 1);
      if attrs.Undefined? then Undefined
      else Got(Abbrev(code.value, tag.value, s[tag.next], attrs.value), attrs.next)
  }

  function ReadTable(s: seq<Byte>, at: nat): (g: Got<seq<Abbrev>>)
    ensures g.Got? ==> at < g.next <= |s| && WellRead(g.value)
    decreases |s| - at
  {
    var a := ReadAbbrev(s, at);
    if a.Undefined? then Undefined
    else if a.value.code == 0 then Got([a.value], a.next)
    else
      var more := ReadTable(s, a.next);
      if more.Undefined? then Undefined else Got([a.value] + more.value, more.next)
  }

  predicate WellRead(table: seq<Abbrev>) {
    forall i :: 0 <= i < |table| && table[i].code != 0 ==> |table[i].attributes| > 0
  }

  // ---- writing ----

  /** The abbreviations a producer declares, without the pairs and the code that close them. */
  predicate Declares(decls: seq<Abbrev>) {
    forall i :: 0 <= i < |decls| ==> Declarable(decls[i])
  }

  predicate Declarable(d: Abbrev) {
    && 0 < d.code < WORD && d.tag < WORD
    && forall i :: 0 <= i < |d.attributes| ==> d.attributes[i].name < WORD && d.attributes[i].form < WORD && d.attributes[i] != END
  }

  function WriteAttrs(attrs: seq<Attr>): seq<Byte> {
    if attrs == [] then EncodeUnsigned(0) + EncodeUnsigned(0)
    else EncodeUnsigned(attrs[0].name) + EncodeUnsigned(attrs[0].form) + WriteAttrs(attrs[1..])
  }

  function WriteAbbrev(d: Abbrev): seq<Byte> {
    EncodeUnsigned(d.code) + (EncodeUnsigned(d.tag) + ([d.hasChildren] + WriteAttrs(d.attributes)))
  }

  function WriteTable(decls: seq<Abbrev>): seq<Byte> {
    if decls == [] then EncodeUnsigned(0) else WriteAbbrev(decls[0]) + WriteTable(decls[1..])
  }

  /** What decoding a declaration gives. */
  function Closed(d: Abbrev): Abbrev { d.(attributes := d.attributes + [END]) }

  function ClosedTable(decls: seq<Abbrev>): (t: seq<Abbrev>)
    ensures |t| == |decls| + 1 && t[|decls|] == LAST
    ensures forall i :: 0 <= i < |decls| ==> t[i] == Closed(decls[i])
  {
    if decls == [] then [LAST] else [Closed(decls[0])] + ClosedTable(decls[1..])
  }

  lemma AttrRoundTrip(s: seq<Byte>, at: nat, a: Attr)
    requires a.name < WORD && a.form < WORD && At(s, at, EncodeUnsigned(a.name) + EncodeUnsigned(a.form))
    ensures ReadAttr(s, at) == Got(a, at + |EncodeUnsigned(a.name) + EncodeUnsigned(a.form)|)
  {
    hide EncodeUnsigned, ReadUnsigned;
    AtParts(s, at, EncodeUnsigned(a.name), EncodeUnsigned(a.form));
    UnsignedRoundTrip(s, at, a.name);
    UnsignedRoundTrip(s, at + |EncodeUnsigned(a.name)|, a.form);
  }

  lemma {:induction false} AttrsRoundTrip(s: seq<Byte>, at: nat, attrs: seq<Attr>)
    requires forall i :: 0 <= i < |attrs| ==> attrs[i].name < WORD && attrs[i].form < WORD && attrs[i] != END
    requires At(s, at, WriteAttrs(attrs))
    ensures ReadAttrs(s, at) == Got(attrs + [END], at + |WriteAttrs(attrs)|)
    decreases |attrs|
  {
    hide EncodeUnsigned, ReadAttr;
    if attrs == [] {
      AttrRoundTrip(s, at, END);
      assert [] + [END] == [END];
    } else {
      var a := attrs[0];
      var head := EncodeUnsigned(a.name) + EncodeUnsigned(a.form);
      AtParts(s, at, head, WriteAttrs(attrs[1..]));
      AttrRoundTrip(s, at, a);
      AttrsRoundTrip(s, at + |head|, attrs[1..]);
      assert [a] + (attrs[1..] + [END]) == attrs + [END];
    }
  }

  lemma AbbrevRoundTrip(s: seq<Byte>, at: nat, d: Abbrev)
    requires Declarable(d) && At(s, at, WriteAbbrev(d))
    ensures ReadAbbrev(s, at) == Got(Closed(d), at + |WriteAbbrev(d)|)
  {
    hide EncodeUnsigned, ReadUnsigned, ReadAttrs, WriteAttrs;
    var code, tag, attrs := EncodeUnsigned(d.code), EncodeUnsigned(d.tag), WriteAttrs(d.attributes);
    AtParts(s, at, code, tag + ([d.hasChildren] + attrs));
    AtParts(s, at + |code|, tag, [d.hasChildren] + attrs);
    AtHead(s, at + |code| + |tag|, d.hasChildren, attrs);
    UnsignedRoundTrip(s, at, d.code);
    UnsignedRoundTrip(s, at + |code|, d.tag);
    AttrsRoundTrip(s, at + |code| + |tag| + 1, d.attributes);
  }

  /** Every table, written anywhere, is read back with its closing entries, and reading stops right after it. */
  lemma {:induction false} TableRoundTrip(s: seq<Byte>, at: nat, decls: seq<Abbrev>)
    requires Declares(decls) && At(s, at, WriteTable(decls))
    ensures ReadTable(s, at) == Got(ClosedTable(decls), at + |WriteTable(decls)|)
    decreases |decls|
  {
    hide EncodeUnsigned, ReadUnsigned, WriteAbbrev;
    if decls == [] {
      UnsignedRoundTrip(s, at, 0);
    } else {
      AtParts(s, at, WriteAbbrev(decls[0]), WriteTable(decls[1..]));
      AbbrevRoundTrip(s, at, decls[0]);
      TableRoundTrip(s, at + |WriteAbbrev(decls[0])|, decls[1..]);
    }
  }

  // ---- lookup ----

  datatype Found = Found(abbrev: Abbrev) | Missing

  /** The first entry with a code. */
  function Find(table: seq<Abbrev>, code: nat): (f: Found)
    ensures f.Missing? <==> forall i :: 0 <= i < |table| ==> table[i].code != code
    ensures f.Found? ==> f.abbrev in table && f.abbrev.code == code
  {
    if table == [] then Missing
    else if table[0].code == code then Found(table[0])
    else
      var f := Find(table[1..], code);
      assert forall i :: 0 <= i < |table| - 1 ==> table[1..][i] == table[i + 1];
      f
  }

  predicate Unambiguous(decls: seq<Abbrev>) {
    forall i, j :: 0 <= i < j < |decls| ==> decls[i].code != decls[j].code
  }

  lemma {:induction false} FindFirst(table: seq<Abbrev>, k: nat)
    requires k < |table| && forall i :: 0 <= i < k ==> table[i].code != table[k].code
    ensures Find(table, table[k].code) == Found(table[k])
    decreases k
  {
    if k > 0 {
      assert forall i :: 0 <= i < |table| - 1 ==> table[1..][i] == table[i + 1];
      FindFirst(table[1..], k - 1);
    }
  }

  /** In a table without two entries for one code, each declaration is found by its code. */
  lemma FindDeclared(decls: seq<Abbrev>, k: nat)
    requires Declares(decls) && Unambiguous(decls) && k < |decls|
    ensures Find(ClosedTable(decls), decls[k].code) == Found(Closed(decls[k]))
  {
    FindFirst(ClosedTable(decls), k);
  }

  /** `dwarf_debug_abbrev_t` */
  class AbbrevTable {
    var abbrevs: seq<Abbrev>

    constructor ()
      ensures abbrevs == []
    {
      abbrevs := [];
    }

    /** `load_abbrev_set` */
    method LoadAbbrevSet(s: seq<Byte>, at: nat) returns (g: Got<bool>)
      modifies this
      ensures g == (if ReadTable(s, at).Got? then Got(true, ReadTable(s, at).next) else Undefined)
      ensures g.Got? ==> abbrevs == ReadTable(s, at).value
    {
      hide ReadAbbrev;
      abbrevs := [];
      var offset := at;
      ExtendsNone(ReadTable(s, at));
      while true
        invariant Extends(abbrevs, ReadTable(s, offset), ReadTable(s, at))
        decreases |s| - offset
      {
        var a := DecodeAbbrev(s, offset);
        if a.Undefined? {
          return Undefined;
        }
        if a.value.code != 0 {
          ExtendsOne(abbrevs, a.value, ReadTable(s, a.next), ReadTable(s, at));
        }
        abbrevs := abbrevs + [a.value];
        offset := a.next;
        if a.value.code == 0 {
          return Got(true, offset);
        }
      }
    }

    /** `find_abbrev` */
    method FindAbbrev(code: nat) returns (f: Found)
      ensures f == Find(abbrevs, code)
    {
      assert abbrevs[0..] == abbrevs;
      for i := 0 to |abbrevs|
        invariant Find(abbrevs[i..], code) == Find(abbrevs, code)
      {
        assert abbrevs[i..][1..] == abbrevs[i + 1..];
        if abbrevs[i].code == code {
          return Found(abbrevs[i]);
        }
      }
      return Missing;
    }
  }

  /** What is read so far, put before what is still to read, is what there was to read. */
  ghost predicate Extends<T>(sofar: seq<T>, rest: Got<seq<T>>, all: Got<seq<T>>) {
    all == if rest.Got? then Got(sofar + rest.value, rest.next) else Undefined
  }

  lemma ExtendsNone<T>(all: Got<seq<T>>)
    ensures Extends([], all, all)
  {
    if all.Got? {
      assert [] + all.value == all.value;
    }
  }

  lemma ExtendsOne<T>(sofar: seq<T>, x: T, rest: Got<seq<T>>, all: Got<seq<T>>)
    requires Extends(sofar, if rest.Got? then Got([x] + rest.value, rest.next) else Undefined, all)
    ensures Extends(sofar + [x], rest, all)
  {
    if rest.Got? {
      assert sofar + ([x] + rest.value) == (sofar + [x]) + rest.value;
    }
  }

  /** `abbrev_attr_t::decode` */
  method DecodeAttr(s: seq<Byte>, at: nat) returns (g: Got<Attr>)
    ensures g == ReadAttr(s, at)
  {
    var name := DecodeUnsigned(s, at);
    if name.Undefined? {
      return Undefined;
    }
    var form := DecodeUnsigned(s, name.next);
    if form.Undefined? {
      return Undefined;
    }
    return Got(Attr(name.value, form.value), form.next);
  }

  /** The loop of `abbrev_declaration_t::decode`. */
  method DecodeAttrs(s: seq<Byte>, at: nat) returns (g: Got<seq<Attr>>)
    ensures g == ReadAttrs(s, at)
  {
    hide ReadAttr;
    var attributes: seq<Attr>, offset := [], at;
    ExtendsNone(ReadAttrs(s, at));
    while true
      invariant Extends(attributes, ReadAttrs(s, offset), ReadAttrs(s, at))
      decreases |s| - offset
    {
      var abbr := DecodeAttr(s, offset);
      if abbr.Undefined? {
        return Undefined;
      }
      if abbr.value != END {
        ExtendsOne(attributes, abbr.value, ReadAttrs(s, abbr.next), ReadAttrs(s, at));
      }
      attributes := attributes + [abbr.value];
      offset := abbr.next;
      if abbr.value == END {
        return Got(attributes, offset);
      }
    }
  }

  /** `abbrev_declaration_t::decode` */
  method DecodeAbbrev(s: seq<Byte>, at: nat) returns (g: Got<Abbrev>)
    ensures g == ReadAbbrev(s, at)
  {
    hide ReadAttrs, ReadUnsigned;
    var code := DecodeUnsigned(s, at);
    if code.Undefined? {
      return Undefined;
    }
    if code.value == 0 {
      return Got(LAST, code.next);
    }
    var tag := DecodeUnsigned(s, code.next);
    if tag.Undefined? || tag.next >= |s| {
      return Undefined;
    }
    var attrs := DecodeAttrs(s, tag.next + 1);
    if attrs.Undefined? {
      return Undefined;
    }
    return Got(Abbrev(code.value, tag.value, s[tag.next], attrs.value), attrs.next);
  }
}
