/** `buildboot`: the image is written part by part while `dataOffset` is advanced alongside. */
module BootImageWriter {
  import opened Bytes
  import opened BootImageFormat

  /** `stringtable_t` */
  class StringTable {
    var table: seq<Byte>

    constructor ()
      ensures table == []
    {
      table := [];
    }

    /** Appends a zero-terminated string and returns where it starts. */
    method Append(text: seq<Byte>) returns (offset: nat)
      modifies this
      ensures offset == |old(table)| && table == old(table) + (text + [0])
    {
      offset := |table|;
      table := table + text + [0];
    }
  }

  /** `module_namespace1_t` */
  class ModuleNamespace {
    var entries: seq<Raw>
    const strings: StringTable

    constructor (namespaceEntries: seq<Entry>)
      ensures fresh(strings)
      ensures Tabled(entries, strings.table) == TabledOf(namespaceEntries)
    {
      entries := [];
      strings := new StringTable();
      new;
      for i := 0 to |namespaceEntries|
        invariant fresh(strings)
        invariant Tabled(entries, strings.table) == TabledOf(namespaceEntries[..i])
      {
        assert namespaceEntries[..i + 1][..i] == namespaceEntries[..i];
        var e := namespaceEntries[i];
        var nameOff := strings.Append(e.key);
        var raw: Raw;
        match e.param {
          case Int(v) => raw := Raw(TAG_INTEGER, nameOff, v);
          case Str(text) =>
            var at := strings.Append(text);
            raw := Raw(TAG_STRING, nameOff, at);
          case Sym(symbol) => raw := Raw(TAG_SYMBOL, nameOff, symbol);
        }
        entries := entries + [raw];
      }
      assert namespaceEntries[..|namespaceEntries|] == namespaceEntries;
    }

    function Size(): nat
      reads this, strings
    {
      4 + |entries| * SIZEOF_NAMESPACE_ENTRY + |strings.table|
    }
  }

  /** The output file and the offset the writer keeps beside its write position. */
  class Writer {
    var out: seq<Byte>
    var dataOffset: nat

    constructor ()
      ensures out == Image([]) && dataOffset == |out|
    {
      out := Words([MAGIC, VERSION]);
      dataOffset := HEADER;
    }

    /** `align_output` */
    method AlignOutput()
      modifies this
      ensures out == old(out) + Zeros(NeededAlign(|old(out)|))
      ensures dataOffset == old(dataOffset) + NeededAlign(|old(out)|)
    {
      var pos := |out|;
      for i := 0 to NeededAlign(pos)
        invariant out == old(out) + Zeros(i) && dataOffset == old(dataOffset)
      {
        out := out + [0];
      }
      dataOffset := dataOffset + NeededAlign(pos);
    }

    /** `module_namespace1_t::write` */
    method WriteNamespace(ns: ModuleNamespace, ghost entries: seq<Entry>)
      requires Tabled(ns.entries, ns.strings.table) == TabledOf(entries) && dataOffset == |out|
      modifies this
      ensures out == old(out) + NamespaceBytes(entries, |old(out)|) && dataOffset == |out|
    {
      hide Words, Word, TabledOf;
      ghost var at, start := |out|, out;
      ghost var sofar: seq<int> := [|entries|];
      out := out + Word(|ns.entries|);
      dataOffset := dataOffset + (4 + |ns.entries| * SIZEOF_NAMESPACE_ENTRY);
      WordsOne(|entries|);
      for i := 0 to |ns.entries|
        invariant dataOffset == at + EntriesSize(|entries|)
        invariant sofar == [|entries|] + AllRawWords(ns.entries[..i], dataOffset)
        invariant out == start + Words(sofar)
      {
        assert ns.entries[..i + 1][..i] == ns.entries[..i];
        var entry := ns.entries[i];
        entry := entry.(nameOff := entry.nameOff + dataOffset);
        if entry.tag == TAG_STRING {
          entry := entry.(value := entry.value + dataOffset);
        }
        ghost var more := [entry.tag, entry.nameOff, entry.value];
        assert more == RawWords(ns.entries[i], dataOffset);
        WordsGrow(start, sofar, entry.tag, entry.nameOff, entry.value);
        out := out + Word(entry.tag) + Word(entry.nameOff) + Word(entry.value);
        sofar := sofar + more;
      }
      assert ns.entries[..|ns.entries|] == ns.entries;
      assert sofar == NamespaceWords(|entries|, ns.entries, dataOffset);
      out := out + ns.strings.table;
      dataOffset := dataOffset + |ns.strings.table|;
    }

    /** `write_module_header`; the sizes are those of the namespace and the file with the padding after them. */
    method WriteModuleHeader(name: seq<Byte>, inSize: nat, nsSize: nat)
      requires dataOffset == |out|
      modifies this
      ensures var at := |old(out)|; var after := at + SIZEOF_MODULE + |name| + 1;
        out == old(out) + Words([KIND_MODULE, after + nsSize + inSize - at, after + nsSize, inSize, at + SIZEOF_MODULE,
                                 if nsSize != 0 then after else 0]) + (name + [0])
      ensures dataOffset == |out|
    {
      var nameSize := |name| + 1;
      dataOffset := dataOffset + SIZEOF_MODULE;
      out := out + Words([KIND_MODULE, SIZEOF_MODULE + nameSize + nsSize + inSize, dataOffset + nameSize + nsSize, inSize,
                          dataOffset, if nsSize != 0 then dataOffset + nameSize else 0]);
      out := out + (name + [0]);
      dataOffset := dataOffset + nameSize;
    }

    /** `write_root_domain_header` */
    method WriteRootDomainHeader(name: seq<Byte>, inSize: nat, nsSize: nat)
      requires dataOffset == |out|
      modifies this
      ensures var at := |old(out)|; var after := at + SIZEOF_ROOT_DOMAIN + |name| + 1;
        out == old(out) + Words([KIND_ROOT_DOMAIN, after + nsSize + inSize - at, after + nsSize, inSize, at + SIZEOF_ROOT_DOMAIN,
                                 if nsSize != 0 then after else 0, ENTRY_POINT]) + (name + [0])
      ensures dataOffset == |out|
    {
      var nameSize := |name| + 1;
      dataOffset := dataOffset + SIZEOF_ROOT_DOMAIN;
      out := out + Words([KIND_ROOT_DOMAIN, SIZEOF_ROOT_DOMAIN + nameSize + nsSize + inSize, dataOffset + nameSize + nsSize, inSize,
                          dataOffset, if nsSize != 0 then dataOffset + nameSize else 0, ENTRY_POINT]);
      out := out + (name + [0]);
      dataOffset := dataOffset + nameSize;
    }

    /** The file, copied through a buffer of 4096 bytes. */
    method CopyFile(file: seq<Byte>)
      modifies this`out
      ensures out == old(out) + file
    {
      var done := 0;
      while done < |file|
        invariant 0 <= done <= |file| && out == old(out) + file[..done]
      {
        var bytes := if |file| - done < 4096 then |file| - done else 4096;
        assert file[..done] + file[done..done + bytes] == file[..done + bytes];
        out := out + file[done..done + bytes];
        done := done + bytes;
      }
    }

    /** Either header, with the name. */
    method WriteHead(m: Module, inSpace: nat, nsSpace: nat)
      requires dataOffset == |out| && nsSpace == NamespaceSpace(m, |out|) && inSpace == FileSpace(m, |out|)
      modifies this
      ensures out == old(out) + (Words(HeadWords(m, |old(out)|)) + (m.name + [0]))
      ensures dataOffset == |out| == NamespaceAt(m, |old(out)|)
    {
      hide Words, NamespaceSpace, FileSpace;
      ghost var at, start := |out|, out;
      HeadWordsAre(m, at);
      if m.name == ROOT_NAME {
        WriteRootDomainHeader(m.name, inSpace, nsSpace);
      } else {
        WriteModuleHeader(m.name, inSpace, nsSpace);
      }
      assert out == start + Words(HeadWords(m, at)) + (m.name + [0]);
    }

    /** The namespace, if there is one, and the padding before the file. */
    method WriteNamespacePart(namesp: ModuleNamespace, m: Module, ghost at: nat)
      requires Tabled(namesp.entries, namesp.strings.table) == TabledOf(m.entries)
      requires dataOffset == |out| == NamespaceAt(m, at)
      modifies this
      ensures out == old(out) + NamespacePart(m, at) && dataOffset == |out|
    {
      hide Words, TabledOf, Zeros, NamespaceBytes, NeededAlign, NamespaceAt;
      ghost var start := out;
      if m.entries != [] {
        WriteNamespace(namesp, m.entries);
        assert out == start + NamespaceBytes(m.entries, NamespaceAt(m, at));
      } else {
        assert out == start + [];
      }
      assert |out| == NamespaceAt(m, at) + NamespaceSize(m);
      ghost var between := out;
      AlignOutput();
      assert out == start + NamespacePart(m, at);
    }

    /** The file and the padding before the next record. */
    method WriteFilePart(m: Module, ghost at: nat)
      requires dataOffset == |out| == FileAt(m, at)
      modifies this
      ensures out == old(out) + FilePart(m, at) && dataOffset == |out|
    {
      hide Zeros, NeededAlign, FileAt;
      ghost var start := out;
      CopyFile(m.file);
      dataOffset := dataOffset + |m.file|;
      AlignOutput();
      assert out == start + FilePart(m, at);
    }

    /** `module_info::write`: the record of the module, and the two offsets still agree. */
    method WriteModule(m: Module)
      requires dataOffset == |out|
      modifies this
      ensures out == old(out) + Record(m, |old(out)|) && dataOffset == |out|
    {
      hide TabledOf, NeededAlign, HeadWords, NamespacePart, FilePart;
      ghost var start, at := out, |out|;
      var namesp := new ModuleNamespace(m.entries);
      var headerSize := if m.name == ROOT_NAME then SIZEOF_ROOT_DOMAIN else SIZEOF_MODULE;
      var nameSize := |m.name| + 1;
      var nsSize := if |m.entries| > 0 then namesp.Size() else 0;
      var nsSpace := nsSize + NeededAlign(dataOffset + headerSize + nameSize + nsSize);
      var inSpace := |m.file| + NeededAlign(dataOffset + headerSize + nameSize + nsSpace + |m.file|);
      SpacesAre(m, at, headerSize, nsSize, nsSpace, inSpace);
      WriteHead(m, inSpace, nsSpace);
      WriteNamespacePart(namesp, m, at);
      WriteFilePart(m, at);
      RecordParts(start, m, at);
    }
  }

  lemma HeadWordsAre(m: Module, at: nat)
    ensures var (ns, file, after) := (NamespaceSpace(m, at), FileSpace(m, at), NamespaceAt(m, at));
      HeadWords(m, at) ==
      if m.name == ROOT_NAME then
        [KIND_ROOT_DOMAIN, after + ns + file - at, after + ns, file, at + SIZEOF_ROOT_DOMAIN, if ns != 0 then after else 0, ENTRY_POINT]
      else
        [KIND_MODULE, after + ns + file - at, after + ns, file, at + SIZEOF_MODULE, if ns != 0 then after else 0]
  {
    hide NamespaceSpace, FileSpace;
  }

  lemma SpacesAre(m: Module, at: nat, headerSize: nat, nsSize: nat, nsSpace: nat, inSpace: nat)
    requires headerSize == HeadSize(m)
    requires nsSize == if m.entries == [] then 0 else 4 + |m.entries| * SIZEOF_NAMESPACE_ENTRY + |StringsOf(m.entries)|
    requires nsSpace == nsSize + NeededAlign(at + headerSize + (|m.name| + 1) + nsSize)
    requires inSpace == |m.file| + NeededAlign(at + headerSize + (|m.name| + 1) + nsSpace + |m.file|)
    ensures nsSpace == NamespaceSpace(m, at) && inSpace == FileSpace(m, at)
  {
    hide TabledOf, NeededAlign;
  }

  lemma RecordParts(start: seq<Byte>, m: Module, at: nat)
    ensures start + (Words(HeadWords(m, at)) + (m.name + [0])) + NamespacePart(m, at) + FilePart(m, at) == start + Record(m, at)
  {
    hide Words, HeadWords, NamespacePart, FilePart;
  }

  /** The loop of `main` over the modules: what is written is the image of them all. */
  method WriteImage(ms: seq<Module>) returns (image: seq<Byte>)
    ensures image == Image(ms)
  {
    hide Record, Words;
    var w := new Writer();
    for i := 0 to |ms|
      invariant fresh(w) && w.out == Image(ms[..i]) && w.dataOffset == |w.out|
    {
      assert ms[..i + 1] == ms[..i] + [ms[i]];
      RecordsAppend(ms[..i], ms[i], HEADER);
      w.WriteModule(ms[i]);
    }
    assert ms[..|ms|] == ms;
    return w.out;
  }

  lemma WordsOne(a: int)
    ensures Words([a]) == Word(a)
  {
    assert [a][1..] == [];
  }

  lemma WordsGrow(start: seq<Byte>, sofar: seq<int>, a: int, b: int, c: int)
    ensures start + Words(sofar) + Word(a) + Word(b) + Word(c) == start + Words(sofar + [a, b, c])
  {
    hide Words, Word;
    WordsAppend(sofar, [a]);
    WordsAppend(sofar + [a], [b]);
    WordsAppend(sofar + [a] + [b], [c]);
    WordsOne(a);
    WordsOne(b);
    WordsOne(c);
    assert sofar + [a] + [b] + [c] == sofar + [a, b, c];
  }
}
