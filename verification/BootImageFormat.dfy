/** The boot image: records one after the other, each a module with its name, namespace and file. */
module BootImageFormat {
  import opened Bytes

  const ALIGN := 4
  const HEADER := 8
  const MAGIC := 0x474d4942
  const VERSION := 1
  const SIZEOF_MODULE := 24
  const SIZEOF_ROOT_DOMAIN := 28
  const SIZEOF_NAMESPACE_ENTRY := 12
  const KIND_ROOT_DOMAIN := 0
  const KIND_MODULE := 2
  const TAG_INTEGER := 1
  const TAG_STRING := 2
  const TAG_SYMBOL := 3
  const ENTRY_POINT := 0xefbeadde

  /** "root_domain" */
  const ROOT_NAME: seq<Byte> := [114, 111, 111, 116, 95, 100, 111, 109, 97, 105, 110]

  datatype Param = Int(i: int) | Str(text: seq<Byte>) | Sym(symbol: nat)

  datatype Entry = Entry(key: seq<Byte>, param: Param)

  datatype Module = Module(name: seq<Byte>, file: seq<Byte>, entries: seq<Entry>)

  function NeededAlign(pos: nat): (n: nat)
    ensures n < ALIGN && (pos + n) % ALIGN == 0
  {
    if pos % ALIGN != 0 then ALIGN - pos % ALIGN else 0
  }

  predicate IsRoot(m: Module) { m.name == ROOT_NAME }

  function KindOf(m: Module): nat { if IsRoot(m) then KIND_ROOT_DOMAIN else KIND_MODULE }

  function HeadSize(m: Module): nat { if IsRoot(m) then SIZEOF_ROOT_DOMAIN else SIZEOF_MODULE }

  // ---- the namespace of a module ----

  /** A namespace entry as stored, with offsets into the string table. */
  datatype Raw = Raw(tag: nat, nameOff: nat, value: int)

  datatype Tabled = Tabled(raws: seq<Raw>, table: seq<Byte>)

  function AddEntry(t: Tabled, e: Entry): Tabled {
    var named := t.table + (e.key + [0]);
    match e.param
    case Int(i) => Tabled(t.raws + [Raw(TAG_INTEGER, |t.table|, i)], named)
    case Str(text) => Tabled(t.raws + [Raw(TAG_STRING, |t.table|, |named|)], named + (text + [0]))
    case Sym(symbol) => Tabled(t.raws + [Raw(TAG_SYMBOL, |t.table|, symbol)], named)
  }

  function TabledOf(entries: seq<Entry>): (t: Tabled)
    ensures |t.raws| == |entries|
  {
    if entries == [] then Tabled([], [])
    else AddEntry(TabledOf(entries[..|entries| - 1]), entries[|entries| - 1])
  }

  /** An entry with its offsets made file positions, the string table standing at `base`. */
  function RawWords(r: Raw, base: nat): (ws: seq<int>)
    ensures |ws| == 3
  {
    [r.tag, r.nameOff + base, if r.tag == TAG_STRING then r.value + base else r.value]
  }

  function AllRawWords(raws: seq<Raw>, base: nat): (ws: seq<int>)
    ensures |ws| == 3 * |raws|
  {
    if raws == [] then [] else AllRawWords(raws[..|raws| - 1], base) + RawWords(raws[|raws| - 1], base)
  }

  function NamespaceWords(n: nat, raws: seq<Raw>, base: nat): (ws: seq<int>)
    ensures |ws| == 1 + 3 * |raws|
  {
    [n] + AllRawWords(raws, base)
  }

  function EntriesSize(n: nat): (size: nat)
    ensures size == 4 + 12 * n
  {
    4 + n * SIZEOF_NAMESPACE_ENTRY
  }

  function RawsOf(entries: seq<Entry>): (raws: seq<Raw>)
    ensures |raws| == |entries|
  {
    TabledOf(entries).raws
  }

  function StringsOf(entries: seq<Entry>): seq<Byte> { TabledOf(entries).table }

  /** The count and the entries, their string table standing at `base`. */
  function EntryBytes(n: nat, raws: seq<Raw>, base: nat): (bytes: seq<Byte>)
    ensures |bytes| == EntriesSize(|raws|)
  {
    Words(NamespaceWords(n, raws, base))
  }

  function NamespaceBytes(entries: seq<Entry>, at: nat): (bytes: seq<Byte>)
    ensures |bytes| == EntriesSize(|entries|) + |StringsOf(entries)|
  {
    EntryBytes(|entries|, RawsOf(entries), at + EntriesSize(|entries|)) + StringsOf(entries)
  }

  // ---- where the parts of a record stand ----

  function NamespaceSize(m: Module): nat {
    if m.entries == [] then 0 else EntriesSize(|m.entries|) + |StringsOf(m.entries)|
  }

  function NameAt(m: Module, at: nat): nat { at + HeadSize(m) }

  function NamespaceAt(m: Module, at: nat): nat { NameAt(m, at) + |m.name| + 1 }

  function NamespaceSpace(m: Module, at: nat): nat {
    NamespaceSize(m) + NeededAlign(NamespaceAt(m, at) + NamespaceSize(m))
  }

  function FileAt(m: Module, at: nat): nat { NamespaceAt(m, at) + NamespaceSpace(m, at) }

  function FileSpace(m: Module, at: nat): nat { |m.file| + NeededAlign(FileAt(m, at) + |m.file|) }

  function RecordEnd(m: Module, at: nat): (end: nat)
    ensures at + 24 < end && end % ALIGN == 0
  {
    FileAt(m, at) + FileSpace(m, at)
  }

  function HeadWords(m: Module, at: nat): (ws: seq<int>)
    ensures 4 * |ws| == HeadSize(m)
  {
    [KindOf(m), RecordEnd(m, at) - at, FileAt(m, at), FileSpace(m, at), NameAt(m, at),
     if NamespaceSpace(m, at) != 0 then NamespaceAt(m, at) else 0]
    + if IsRoot(m) then [ENTRY_POINT] else []
  }

  function NamespacePart(m: Module, at: nat): (bytes: seq<Byte>)
    ensures |bytes| == NamespaceSpace(m, at)
  {
    (if m.entries == [] then [] else NamespaceBytes(m.entries, NamespaceAt(m, at)))
    + Zeros(NeededAlign(NamespaceAt(m, at) + NamespaceSize(m)))
  }

  function FilePart(m: Module, at: nat): (bytes: seq<Byte>)
    ensures |bytes| == FileSpace(m, at)
  {
    m.file + Zeros(NeededAlign(FileAt(m, at) + |m.file|))
  }

  /** A record written at `at`. */
  function Record(m: Module, at: nat): (bytes: seq<Byte>)
    ensures |bytes| == RecordEnd(m, at) - at
  {
    Words(HeadWords(m, at)) + ((m.name + [0]) + (NamespacePart(m, at) + FilePart(m, at)))
  }

  function Records(ms: seq<Module>, at: nat): seq<Byte> {
    if ms == [] then [] else Record(ms[0], at) + Records(ms[1..], RecordEnd(ms[0], at))
  }

  function Image(ms: seq<Module>): seq<Byte> { Words([MAGIC, VERSION]) + Records(ms, HEADER) }

  lemma {:induction false} RecordsAppend(a: seq<Module>, m: Module, at: nat)
    ensures Records(a + [m], at) == Records(a, at) + Record(m, at + |Records(a, at)|)
    decreases |a|
  {
    hide Record, RecordEnd;
    if a == [] {
      assert a + [m] == [m] && [m][1..] == [];
    } else {
      assert (a + [m])[1..] == a[1..] + [m];
      RecordsAppend(a[1..], m, RecordEnd(a[0], at));
    }
  }
}
