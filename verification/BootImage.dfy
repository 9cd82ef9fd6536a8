/** `bootimage_t`: finding records and namespace values in an image, and that it finds what was written. */
module BootImage {
  import opened Bytes
  import opened BootImageFormat

  /** `Unreadable` for a walk that leaves the image, `Endless` for one that meets a record of length 0. */
  datatype Lookup = Found(at: nat) | Absent | Unreadable | Endless

  /** `find_entry`, at `at` of the image. */
  function FindEntry(s: seq<Byte>, at: nat, kind: nat, name: seq<Byte>): (r: Lookup)
    ensures r.Found? ==> r.at < |s|
    decreases |s| - at
  {
    if at >= |s| then Absent else
    var tag, length := WordAt(s, at), WordAt(s, at + 4);
    if tag.Undefined? || length.Undefined? then Unreadable
    else if tag.value == kind && kind == KIND_ROOT_DOMAIN then Found(at)
    else
      var same := if tag.value == kind then NameIs(s, at, name) else Got(false, at);
      if same.Undefined? then Unreadable
      else if same.value then Found(at)
      else if length.value == 0 then Endless
      else FindEntry(s, at + length.value, kind, name)
  }

  /** The name a record points to is compared with the one looked for. */
  function NameIs(s: seq<Byte>, at: nat, name: seq<Byte>): Got<bool> {
    var offset := WordAt(s, at + 16);
    if offset.Undefined? then Undefined else
    var text := TextAt(s, offset.value);
    if text.Undefined? then Undefined else Got(text.value == name, at)
  }

  datatype ModInfo = ModInfo(start: nat, size: nat) | NoInfo

  /** What the two finders return for a record at `at`, the image being loaded at `location`. */
  function InfoOf(s: seq<Byte>, location: nat, r: Lookup): ModInfo {
    match r
    case Found(at) =>
      var address, size := WordAt(s, at + 8), WordAt(s, at + 12);
      if address.Undefined? || size.Undefined? then NoInfo else ModInfo(location + address.value, size.value)
    case Absent => ModInfo(0, 0)
    case _ => NoInfo
  }

  // ---- namespaces ----

  datatype Answer = Value(v: nat) | NotThere | Bad

  /** The first of the entries from the `i`-th on that has the key and the tag. */
  function LookupOnward(s: seq<Byte>, ns: nat, i: nat, n: nat, key: seq<Byte>, tag: nat): Answer
    decreases n - i
  {
    if i >= n then NotThere else
    var at := ns + 4 + 12 * i;
    var t, name, v := WordAt(s, at), WordAt(s, at + 4), WordAt(s, at + 8);
    if t.Undefined? || name.Undefined? || v.Undefined? then Bad else
    var text := TextAt(s, name.value);
    if text.Undefined? then Bad
    else if text.value == key && t.value == tag then Value(v.value)
    else LookupOnward(s, ns, i + 1, n, key, tag)
  }

  function LookupIn(s: seq<Byte>, ns: nat, key: seq<Byte>, tag: nat): Answer {
    var n := WordAt(s, ns);
    if n.Undefined? then Bad else LookupOnward(s, ns, 0, n.value, key, tag)
  }

  /** The three words and the key text of entry `i` can be read. */
  ghost predicate Readable(s: seq<Byte>, ns: nat, i: nat) {
    var at := ns + 4 + 12 * i;
    WordAt(s, at).Got? && WordAt(s, at + 4).Got? && WordAt(s, at + 8).Got? && TextAt(s, WordAt(s, at + 4).value).Got?
  }

  ghost predicate EntryHas(s: seq<Byte>, ns: nat, i: nat, key: seq<Byte>, tag: nat) {
    && Readable(s, ns, i) && WordAt(s, ns + 4 + 12 * i).value == tag
    && TextAt(s, WordAt(s, ns + 4 + 12 * i + 4).value).value == key
  }

  /** Of `n` entries the `i`-th is the first with the key and the tag, and all before it can be read. */
  ghost predicate FirstEntry(s: seq<Byte>, ns: nat, from: nat, n: nat, i: nat, key: seq<Byte>, tag: nat) {
    && from <= i < n && EntryHas(s, ns, i, key, tag)
    && forall j: nat :: from <= j < i ==> Readable(s, ns, j) && !EntryHas(s, ns, j, key, tag)
  }

  /** The lookup answers with the value word of the first entry that has both the key and the tag. */
  lemma {:induction false} LookupIsFirst(s: seq<Byte>, ns: nat, i: nat, n: nat, key: seq<Byte>, tag: nat)
    ensures var a := LookupOnward(s, ns, i, n, key, tag);
      && (forall k: nat :: FirstEntry(s, ns, i, n, k, key, tag) ==>
            WordAt(s, ns + 4 + 12 * k + 8).Got? && a == Value(WordAt(s, ns + 4 + 12 * k + 8).value))
      && (a.Value? ==> exists k: nat :: FirstEntry(s, ns, i, n, k, key, tag))
      && (a.NotThere? <==> forall k: nat :: i <= k < n ==> Readable(s, ns, k) && !EntryHas(s, ns, k, key, tag))
    decreases n - i
  {
    hide WordAt, TextAt;
    if i < n {
      LookupIsFirst(s, ns, i + 1, n, key, tag);
      var a := LookupOnward(s, ns, i, n, key, tag);
      if EntryHas(s, ns, i, key, tag) {
        assert FirstEntry(s, ns, i, n, i, key, tag);
      } else if Readable(s, ns, i) {
        forall k: nat ensures FirstEntry(s, ns, i, n, k, key, tag) <==> FirstEntry(s, ns, i + 1, n, k, key, tag) {}
        if a.Value? {
          var k: nat :| FirstEntry(s, ns, i + 1, n, k, key, tag);
          assert FirstEntry(s, ns, i, n, k, key, tag);
        }
      }
    }
  }

  function AsSigned(v: nat): int { if v < 0x8000_0000 then v else v - WORD }

  // ---- the walk over records that were written ----

  predicate Nameable(ms: seq<Module>) { forall m <- ms :: 0 !in m.name }

  predicate Matches(m: Module, kind: nat, name: seq<Byte>) {
    KindOf(m) == kind && (kind == KIND_ROOT_DOMAIN || m.name == name)
  }

  /** Where the first record that matches stands. */
  function Expected(ms: seq<Module>, at: nat, kind: nat, name: seq<Byte>): Lookup {
    if ms == [] then Absent
    else if Matches(ms[0], kind, name) then Found(at)
    else Expected(ms[1..], RecordEnd(ms[0], at), kind, name)
  }

  /** The parts of a record that was written. */
  lemma RecordHas(s: seq<Byte>, at: nat, m: Module)
    requires At(s, at, Record(m, at))
    ensures At(s, at, Words(HeadWords(m, at)))
    ensures At(s, NameAt(m, at), m.name + [0])
    ensures At(s, NamespaceAt(m, at), NamespacePart(m, at))
    ensures At(s, FileAt(m, at), m.file)
    ensures RecordEnd(m, at) <= |s|
  {
    hide At, Words, HeadWords, NamespacePart;
    var head, name, ns, file := Words(HeadWords(m, at)), m.name + [0], NamespacePart(m, at), FilePart(m, at);
    AtParts(s, at, head, name + (ns + file));
    AtParts(s, at + |head|, name, ns + file);
    AtParts(s, at + |head| + |name|, ns, file);
    AtParts(s, FileAt(m, at), m.file, Zeros(NeededAlign(FileAt(m, at) + |m.file|)));
    AtEnds(s, at, Record(m, at));
  }

  lemma AtEnds(s: seq<Byte>, at: nat, bytes: seq<Byte>)
    requires At(s, at, bytes)
    ensures at + |bytes| <= |s|
  {
  }

  /** The header words of a record that was written, as read. */
  lemma HeadIs(s: seq<Byte>, at: nat, m: Module)
    requires At(s, at, Record(m, at)) && |s| < WORD
    ensures WordAt(s, at) == Got(KindOf(m), at + 4)
    ensures WordAt(s, at + 4) == Got(RecordEnd(m, at) - at, at + 8)
    ensures WordAt(s, at + 8) == Got(FileAt(m, at), at + 12)
    ensures WordAt(s, at + 12) == Got(FileSpace(m, at), at + 16)
    ensures WordAt(s, at + 16) == Got(NameAt(m, at), at + 20)
    ensures WordAt(s, at + 20) == Got(if NamespaceSpace(m, at) != 0 then NamespaceAt(m, at) else 0, at + 24)
  {
    hide At, Words, WordAt;
    var ws := HeadWords(m, at);
    RecordHas(s, at, m);
    HeadFits(m, at);
    WordOfWords(s, at, ws, 0);
    WordOfWords(s, at, ws, 1);
    WordOfWords(s, at, ws, 2);
    WordOfWords(s, at, ws, 3);
    WordOfWords(s, at, ws, 4);
    WordOfWords(s, at, ws, 5);
  }

  lemma HeadFits(m: Module, at: nat)
    requires RecordEnd(m, at) < WORD
    ensures forall i :: 0 <= i < 6 ==> 0 <= HeadWords(m, at)[i] < WORD
    ensures forall i :: 0 <= i < 6 ==> Low(HeadWords(m, at)[i]) == HeadWords(m, at)[i]
  {
  }

  /** The walk finds the first record that matches, and ends if there is none. */
  lemma {:induction false} FindsExpected(s: seq<Byte>, at: nat, ms: seq<Module>, kind: nat, name: seq<Byte>)
    requires Nameable(ms) && |s| < WORD && At(s, at, Records(ms, at)) && at + |Records(ms, at)| == |s|
    ensures FindEntry(s, at, kind, name) == Expected(ms, at, kind, name)
    decreases |ms|
  {
    hide At, Record, RecordEnd, WordAt, TextAt;
    if ms != [] {
      var m := ms[0];
      AtParts(s, at, Record(m, at), Records(ms[1..], RecordEnd(m, at)));
      HeadIs(s, at, m);
      RecordHas(s, at, m);
      TextRoundTrip(s, NameAt(m, at), m.name);
      FindsExpected(s, RecordEnd(m, at), ms[1..], kind, name);
    }
  }

  /** A record expected is one of the modules, and it stands there. */
  lemma {:induction false} ExpectedStands(s: seq<Byte>, at: nat, ms: seq<Module>, kind: nat, name: seq<Byte>)
    requires At(s, at, Records(ms, at))
    ensures var e := Expected(ms, at, kind, name);
      && (e.Absent? <==> forall k :: 0 <= k < |ms| ==> !Matches(ms[k], kind, name))
      && (!e.Absent? ==> e.Found? && exists k ::
            && 0 <= k < |ms| && Matches(ms[k], kind, name) && At(s, e.at, Record(ms[k], e.at))
            && forall j :: 0 <= j < k ==> !Matches(ms[j], kind, name))
    decreases |ms|
  {
    hide At, Record, RecordEnd, Matches;
    if ms != [] {
      var m, rest := ms[0], ms[1..];
      assert forall k :: 0 <= k < |rest| ==> rest[k] == ms[k + 1];
      AtParts(s, at, Record(m, at), Records(rest, RecordEnd(m, at)));
      ExpectedStands(s, RecordEnd(m, at), rest, kind, name);
      var e := Expected(ms, at, kind, name);
      if !Matches(m, kind, name) {
        if e.Found? {
          var k :| 0 <= k < |rest| && Matches(rest[k], kind, name) && At(s, e.at, Record(rest[k], e.at))
                   && forall j :: 0 <= j < k ==> !Matches(rest[j], kind, name);
          assert Matches(ms[k + 1], kind, name);
        } else {
          forall k | 0 <= k < |ms| ensures !Matches(ms[k], kind, name) {
            if k > 0 {
              assert !Matches(rest[k - 1], kind, name);
            }
          }
        }
      }
    }
  }

  /** The first module of a name, and what a boot image says of it. */
  ghost predicate Answers(image: seq<Byte>, m: Module, location: nat, info: ModInfo) {
    && info.ModInfo? && location <= info.start
    && At(image, info.start - location, m.file)
    && info.size == |m.file| + NeededAlign(info.start - location + |m.file|)
    && info.start - location + info.size <= |image|
    && (info.start - location) % ALIGN == 0
  }

  lemma InfoAnswers(s: seq<Byte>, at: nat, m: Module, location: nat)
    requires At(s, at, Record(m, at)) && |s| < WORD
    ensures Answers(s, m, location, InfoOf(s, location, Found(at)))
  {
    hide At, Record, WordAt, NamespaceSpace, NeededAlign;
    HeadIs(s, at, m);
    RecordHas(s, at, m);
    FileAtAligned(m, at);
  }

  lemma FileAtAligned(m: Module, at: nat)
    ensures FileAt(m, at) % ALIGN == 0
  {
  }

  lemma ImageRecords(ms: seq<Module>)
    ensures At(Image(ms), HEADER, Records(ms, HEADER)) && HEADER + |Records(ms, HEADER)| == |Image(ms)|
  {
    assert At(Image(ms), 0, Image(ms));
    AtParts(Image(ms), 0, Words([MAGIC, VERSION]), Records(ms, HEADER));
  }

  /**
   * In the image of any modules with names free of zero bytes, a record is found exactly when one matches: a
   * module record of the name, or a root domain. What is found is the first such module's file, and the size is
   * the file's with its padding.
   */
  lemma FindIsRight(ms: seq<Module>, kind: nat, name: seq<Byte>, location: nat)
    requires Nameable(ms) && |Image(ms)| < WORD
    ensures var info := InfoOf(Image(ms), location, FindEntry(Image(ms), HEADER, kind, name));
      if exists k :: 0 <= k < |ms| && Matches(ms[k], kind, name) then
        exists k :: 0 <= k < |ms| && Matches(ms[k], kind, name) && Answers(Image(ms), ms[k], location, info)
          && forall j :: 0 <= j < k ==> !Matches(ms[j], kind, name)
      else info == ModInfo(0, 0)
  {
    hide Image, Records, FindEntry, Expected, Matches, Answers, At;
    var s := Image(ms);
    ImageRecords(ms);
    FindsExpected(s, HEADER, ms, kind, name);
    ExpectedStands(s, HEADER, ms, kind, name);
    var e := Expected(ms, HEADER, kind, name);
    if e.Found? {
      var k :| 0 <= k < |ms| && Matches(ms[k], kind, name) && At(s, e.at, Record(ms[k], e.at))
               && forall j :: 0 <= j < k ==> !Matches(ms[j], kind, name);
      InfoAnswers(s, e.at, ms[k], location);
    }
  }

  // ---- the namespace that was written ----

  function TagOf(p: Param): nat {
    match p
    case Int(_) => TAG_INTEGER
    case Str(_) => TAG_STRING
    case Sym(_) => TAG_SYMBOL
  }

  /** What 32 bits can hold, and text free of zero bytes. */
  predicate Storable(e: Entry) {
    && 0 !in e.key
    && match e.param
       case Int(i) => -0x8000_0000 <= i < 0x8000_0000
       case Str(text) => 0 !in text
       case Sym(symbol) => symbol < WORD
  }

  lemma AtWithin(s: seq<Byte>, at: nat, bytes: seq<Byte>, i: nat, part: seq<Byte>)
    requires At(s, at, bytes) && At(bytes, i, part)
    ensures At(s, at + i, part)
  {
    assert bytes == s[at..at + |bytes|];
    assert forall k :: 0 <= k < |part| ==> part[k] == bytes[i..i + |part|][k] == bytes[i + k] == s[at + i + k];
  }

  lemma AtLonger(table: seq<Byte>, more: seq<Byte>, i: nat, part: seq<Byte>)
    requires At(table, i, part)
    ensures At(table + more, i, part)
  {
    assert (table + more)[i..i + |part|] == table[i..i + |part|];
  }

  lemma AtTheEnd(table: seq<Byte>, part: seq<Byte>)
    ensures At(table + part, |table|, part)
  {
  }

  /** The entry `r` and the string table say what `e` says. */
  ghost predicate Says(r: Raw, table: seq<Byte>, e: Entry) {
    && r.tag == TagOf(e.param)
    && At(table, r.nameOff, e.key + [0])
    && match e.param
       case Int(i) => r.value == i
       case Str(text) => 0 <= r.value && At(table, r.value, text + [0])
       case Sym(symbol) => r.value == symbol
  }

  lemma SaysLonger(r: Raw, table: seq<Byte>, more: seq<Byte>, e: Entry)
    requires Says(r, table, e)
    ensures Says(r, table + more, e)
  {
    hide At;
    AtLonger(table, more, r.nameOff, e.key + [0]);
    if e.param.Str? {
      AtLonger(table, more, r.value, e.param.text + [0]);
    }
  }

  lemma AddEntrySays(t: Tabled, e: Entry)
    ensures var u := AddEntry(t, e); |u.raws| == |t.raws| + 1 && u.raws[..|t.raws|] == t.raws
    ensures var u := AddEntry(t, e); Says(u.raws[|t.raws|], u.table, e)
    ensures exists more :: AddEntry(t, e).table == t.table + more
  {
    hide At;
    var named := t.table + (e.key + [0]);
    AtTheEnd(t.table, e.key + [0]);
    match e.param {
      case Str(text) =>
        AtTheEnd(named, text + [0]);
        AtLonger(named, text + [0], |t.table|, e.key + [0]);
        assert named + (text + [0]) == t.table + ((e.key + [0]) + (text + [0]));
      case _ =>
        assert AddEntry(t, e).table == t.table + (e.key + [0]);
    }
  }

  /** Every entry of the table built for a namespace says what the namespace does. */
  lemma {:induction false} TableSays(entries: seq<Entry>, i: nat)
    requires i < |entries|
    ensures Says(RawsOf(entries)[i], StringsOf(entries), entries[i])
  {
    hide Says, AddEntry;
    var n := |entries| - 1;
    var before, e := TabledOf(entries[..n]), entries[n];
    AddEntrySays(before, e);
    var after := AddEntry(before, e);
    if i < n {
      TableSays(entries[..n], i);
      var more :| after.table == before.table + more;
      SaysLonger(before.raws[i], before.table, more, entries[i]);
      assert after.raws[i] == after.raws[..n][i];
    }
  }

  lemma {:induction false} RawWordIs(raws: seq<Raw>, base: nat, i: nat, j: nat)
    requires i < |raws| && j < 3
    ensures AllRawWords(raws, base)[3 * i + j] == RawWords(raws[i], base)[j]
  {
    if i < |raws| - 1 {
      RawWordIs(raws[..|raws| - 1], base, i, j);
    }
  }

  /** The parts of a namespace that was written. */
  lemma NamespaceHas(s: seq<Byte>, ns: nat, entries: seq<Entry>)
    requires At(s, ns, NamespaceBytes(entries, ns))
    ensures At(s, ns, EntryBytes(|entries|, RawsOf(entries), ns + EntriesSize(|entries|)))
    ensures At(s, ns + EntriesSize(|entries|), StringsOf(entries))
  {
    hide At, EntryBytes, RawsOf, StringsOf, EntriesSize;
    AtParts(s, ns, EntryBytes(|entries|, RawsOf(entries), ns + EntriesSize(|entries|)), StringsOf(entries));
  }

  lemma RawWordRead(s: seq<Byte>, ns: nat, n: nat, raws: seq<Raw>, base: nat, i: nat, j: nat)
    requires At(s, ns, EntryBytes(n, raws, base)) && i < |raws| && j < 3
    ensures WordAt(s, ns + 4 + 12 * i + 4 * j) == Got(Low(RawWords(raws[i], base)[j]), ns + 4 + 12 * i + 4 * j + 4)
  {
    hide At, Words, RawWords, AllRawWords, WordAt;
    var k := 3 * i + j;
    RawWordIs(raws, base, i, j);
    WordOfWords(s, ns, NamespaceWords(n, raws, base), k + 1);
  }

  /** What an entry's value word must be read as. */
  ghost predicate Means(s: seq<Byte>, v: nat, p: Param) {
    match p
    case Int(i) => AsSigned(v) == i
    case Str(text) => TextAt(s, v) == Got(text, v + |text| + 1)
    case Sym(symbol) => v == symbol
  }

  /** An entry that was written, as read. */
  lemma EntryIs(s: seq<Byte>, ns: nat, entries: seq<Entry>, i: nat)
    requires At(s, ns, NamespaceBytes(entries, ns)) && i < |entries| && Storable(entries[i]) && |s| < WORD
    ensures var at := ns + 4 + 12 * i; var (t, name, v) := (WordAt(s, at), WordAt(s, at + 4), WordAt(s, at + 8));
      && t.Got? && name.Got? && v.Got?
      && t.value == TagOf(entries[i].param)
      && TextAt(s, name.value).Got? && TextAt(s, name.value).value == entries[i].key
      && Means(s, v.value, entries[i].param)
  {
    hide At, WordAt, TextAt, NamespaceBytes, EntryBytes, RawsOf, StringsOf, EntriesSize, Low;
    var table, base, e := StringsOf(entries), ns + EntriesSize(|entries|), entries[i];
    var raws := RawsOf(entries);
    var r := raws[i];
    NamespaceHas(s, ns, entries);
    RawWordRead(s, ns, |entries|, raws, base, i, 0);
    RawWordRead(s, ns, |entries|, raws, base, i, 1);
    RawWordRead(s, ns, |entries|, raws, base, i, 2);
    TableSays(entries, i);
    AtWithin(s, base, table, r.nameOff, e.key + [0]);
    AtEnds(s, base + r.nameOff, e.key + [0]);
    TextRoundTrip(s, base + r.nameOff, e.key);
    LowOfSmall(base + r.nameOff);
    LowOfSmall(TagOf(e.param));
    match e.param {
      case Int(v) =>
        SignedWord(v);
      case Str(text) =>
        AtWithin(s, base, table, r.value, text + [0]);
        AtEnds(s, base + r.value, text + [0]);
        TextRoundTrip(s, base + r.value, text);
        LowOfSmall(base + r.value);
      case Sym(symbol) =>
        LowOfSmall(symbol);
    }
  }

  lemma SignedWord(i: int)
    requires -0x8000_0000 <= i < 0x8000_0000
    ensures AsSigned(Low(i)) == i
  {
  }

  predicate Has(e: Entry, key: seq<Byte>, tag: nat) { e.key == key && TagOf(e.param) == tag }

  /** The `k`-th entry is the first with the key and the tag. */
  ghost predicate FirstWith(entries: seq<Entry>, k: nat, key: seq<Byte>, tag: nat) {
    k < |entries| && Has(entries[k], key, tag) && forall j :: 0 <= j < k ==> !Has(entries[j], key, tag)
  }

  lemma EntriesRead(s: seq<Byte>, ns: nat, entries: seq<Entry>, key: seq<Byte>, tag: nat)
    requires At(s, ns, NamespaceBytes(entries, ns)) && |s| < WORD
    requires forall e <- entries :: Storable(e)
    ensures forall i: nat :: i < |entries| ==>
      && Readable(s, ns, i) && (EntryHas(s, ns, i, key, tag) <==> Has(entries[i], key, tag))
      && Means(s, WordAt(s, ns + 4 + 12 * i + 8).value, entries[i].param)
  {
    hide At, NamespaceBytes, WordAt, TextAt, Means, Storable, TagOf;
    forall i: nat | i < |entries|
      ensures Readable(s, ns, i) && (EntryHas(s, ns, i, key, tag) <==> Has(entries[i], key, tag))
      ensures Means(s, WordAt(s, ns + 4 + 12 * i + 8).value, entries[i].param)
    {
      assert entries[i] in entries;
      EntryIs(s, ns, entries, i);
    }
  }

  /**
   * A lookup in a written namespace: something is found exactly when an entry has the key and the tag, and
   * then the answer is the value of the first that has.
   */
  ghost predicate AnswersFrom(s: seq<Byte>, a: Answer, entries: seq<Entry>, key: seq<Byte>, tag: nat) {
    && (a == NotThere || a.Value?)
    && (a.Value? <==> exists i :: 0 <= i < |entries| && Has(entries[i], key, tag))
    && (forall i :: 0 <= i < |entries| && Has(entries[i], key, tag) && (forall j :: 0 <= j < i ==> !Has(entries[j], key, tag)) ==>
          a.Value? && Means(s, a.v, entries[i].param))
  }

  lemma FirstIs(s: seq<Byte>, ns: nat, entries: seq<Entry>, k: nat, key: seq<Byte>, tag: nat)
    requires forall i: nat :: i < |entries| ==> Readable(s, ns, i) && (EntryHas(s, ns, i, key, tag) <==> Has(entries[i], key, tag))
    ensures FirstEntry(s, ns, 0, |entries|, k, key, tag) <==> FirstWith(entries, k, key, tag)
  {
    hide Readable, EntryHas, Has;
  }

  lemma LookupEntries(s: seq<Byte>, ns: nat, entries: seq<Entry>, key: seq<Byte>, tag: nat)
    requires At(s, ns, NamespaceBytes(entries, ns)) && |s| < WORD
    requires forall e <- entries :: Storable(e)
    ensures AnswersFrom(s, LookupOnward(s, ns, 0, |entries|, key, tag), entries, key, tag)
    ensures !LookupOnward(s, ns, 0, |entries|, key, tag).Bad?
  {
    hide At, NamespaceBytes, WordAt, TextAt, Means, Storable, Has, Readable, EntryHas, LookupOnward, FirstEntry;
    var n, a := |entries|, LookupOnward(s, ns, 0, |entries|, key, tag);
    EntriesRead(s, ns, entries, key, tag);
    LookupIsFirst(s, ns, 0, n, key, tag);
    SomeFirst(entries, key, tag);
    forall k: nat ensures FirstEntry(s, ns, 0, n, k, key, tag) <==> FirstWith(entries, k, key, tag) {
      FirstIs(s, ns, entries, k, key, tag);
    }
    assert forall k: nat :: FirstWith(entries, k, key, tag) ==> a.Value? && Means(s, a.v, entries[k].param);
  }

  /**
   * Through the offset stored in the record of a module with a namespace, a key is found with a type exactly
   * when the namespace has it with that type, and its value is that of the first such entry.
   */
  lemma LookupIsRight(s: seq<Byte>, at: nat, m: Module, key: seq<Byte>, tag: nat)
    requires At(s, at, Record(m, at)) && |s| < WORD && m.entries != [] && forall e <- m.entries :: Storable(e)
    ensures WordAt(s, at + 20).Got?
    ensures AnswersFrom(s, LookupIn(s, WordAt(s, at + 20).value, key, tag), m.entries, key, tag)
    ensures !LookupIn(s, WordAt(s, at + 20).value, key, tag).Bad?
  {
    hide At, Record, NamespaceBytes, WordAt, TextAt, AnswersFrom, Storable, Words, LookupOnward;
    var ns := NamespaceAt(m, at);
    HeadIs(s, at, m);
    RecordHas(s, at, m);
    AtParts(s, ns, NamespaceBytes(m.entries, ns), Zeros(NeededAlign(ns + NamespaceSize(m))));
    NamespaceHas(s, ns, m.entries);
    var ws := NamespaceWords(|m.entries|, RawsOf(m.entries), ns + EntriesSize(|m.entries|));
    WordOfWords(s, ns, ws, 0);
    AtEnds(s, ns, Words(ws));
    LowOfSmall(|m.entries|);
    LookupEntries(s, ns, m.entries, key, tag);
  }

  lemma {:induction false} SomeFirst(entries: seq<Entry>, key: seq<Byte>, tag: nat)
    ensures (exists i :: 0 <= i < |entries| && Has(entries[i], key, tag)) <==> exists k: nat :: FirstWith(entries, k, key, tag)
    decreases |entries|
  {
    hide Has;
    if entries != [] {
      var n := |entries| - 1;
      SomeFirst(entries[..n], key, tag);
      if k: nat :| FirstWith(entries[..n], k, key, tag) {
        assert FirstWith(entries, k, key, tag);
      } else if Has(entries[n], key, tag) {
        assert forall j :: 0 <= j < n ==> entries[..n][j] == entries[j];
        assert FirstWith(entries, n, key, tag);
      }
    }
  }

  /** Without a namespace the stored offset is zero only if the name happens to end at a multiple of four. */
  lemma NamespaceOffsetIff(s: seq<Byte>, at: nat, m: Module)
    requires At(s, at, Record(m, at)) && |s| < WORD
    ensures WordAt(s, at + 20).Got?
    ensures WordAt(s, at + 20).value == 0 <==> m.entries == [] && NamespaceAt(m, at) % ALIGN == 0
  {
    hide At, Record, WordAt;
    HeadIs(s, at, m);
  }

  // ---- the reader ----

  /** `bootimage_t::namespace_t`: a count of entries and where they start. */
  class Namespace {
    const image: seq<Byte>
    var nEntries: nat
    var entries: nat

    constructor (image: seq<Byte>)
      ensures this.image == image
    {
      this.image := image;
      nEntries, entries := 0, 0;
    }

    ghost predicate IsAt(ns: nat)
      reads this
    {
      WordAt(image, ns).Got? && nEntries == WordAt(image, ns).value && entries == ns + 4
    }

    /** `set` */
    method Set(loc: nat) returns (ok: bool)
      modifies this
      ensures ok <==> WordAt(image, loc).Got?
      ensures ok ==> IsAt(loc)
    {
      var n := WordAt(image, loc);
      if n.Undefined? {
        return false;
      }
      nEntries, entries := n.value, loc + 4;
      return true;
    }

    /** The loop the three getters share, each with its own tag. */
    method Get(key: seq<Byte>, tag: nat, ghost ns: nat) returns (a: Answer)
      requires IsAt(ns)
      ensures a == LookupIn(image, ns, key, tag)
    {
      hide WordAt, TextAt;
      for i := 0 to nEntries
        invariant LookupOnward(image, ns, i, nEntries, key, tag) == LookupIn(image, ns, key, tag)
      {
        var at := entries + 12 * i;
        var t, name, v := WordAt(image, at), WordAt(image, at + 4), WordAt(image, at + 8);
        if t.Undefined? || name.Undefined? || v.Undefined? {
          return Bad;
        }
        var text := TextAt(image, name.value);
        if text.Undefined? {
          return Bad;
        }
        if text.value == key && t.value == tag {
          return Value(v.value);
        }
      }
      return NotThere;
    }

    /** `get_int` */
    method GetInt(key: seq<Byte>, ghost ns: nat) returns (found: bool, value: int)
      requires IsAt(ns)
      ensures found <==> LookupIn(image, ns, key, TAG_INTEGER).Value?
      ensures found ==> value == AsSigned(LookupIn(image, ns, key, TAG_INTEGER).v)
      ensures found <==> exists i: nat :: FirstEntry(image, ns, 0, nEntries, i, key, TAG_INTEGER)
      ensures forall i: nat :: FirstEntry(image, ns, 0, nEntries, i, key, TAG_INTEGER) ==>
        WordAt(image, ns + 4 + 12 * i + 8).Got? && value == AsSigned(WordAt(image, ns + 4 + 12 * i + 8).value)
    {
      hide WordAt, TextAt, FirstEntry, LookupOnward;
      LookupIsFirst(image, ns, 0, nEntries, key, TAG_INTEGER);
      var a := Get(key, TAG_INTEGER, ns);
      return a.Value?, if a.Value? then AsSigned(a.v) else 0;
    }

    /** `get_string` */
    method GetString(key: seq<Byte>, ghost ns: nat) returns (found: bool, text: Got<seq<Byte>>)
      requires IsAt(ns)
      ensures found <==> LookupIn(image, ns, key, TAG_STRING).Value?
      ensures found ==> text == TextAt(image, LookupIn(image, ns, key, TAG_STRING).v)
      ensures found <==> exists i: nat :: FirstEntry(image, ns, 0, nEntries, i, key, TAG_STRING)
      ensures forall i: nat :: FirstEntry(image, ns, 0, nEntries, i, key, TAG_STRING) ==>
        WordAt(image, ns + 4 + 12 * i + 8).Got? && text == TextAt(image, WordAt(image, ns + 4 + 12 * i + 8).value)
    {
      hide WordAt, TextAt, FirstEntry, LookupOnward;
      LookupIsFirst(image, ns, 0, nEntries, key, TAG_STRING);
      var a := Get(key, TAG_STRING, ns);
      return a.Value?, if a.Value? then TextAt(image, a.v) else Undefined;
    }

    /** `get_symbol` */
    method GetSymbol(key: seq<Byte>, ghost ns: nat) returns (found: bool, symbol: nat)
      requires IsAt(ns)
      ensures found <==> LookupIn(image, ns, key, TAG_SYMBOL).Value?
      ensures found ==> symbol == LookupIn(image, ns, key, TAG_SYMBOL).v
      ensures found <==> exists i: nat :: FirstEntry(image, ns, 0, nEntries, i, key, TAG_SYMBOL)
      ensures forall i: nat :: FirstEntry(image, ns, 0, nEntries, i, key, TAG_SYMBOL) ==>
        WordAt(image, ns + 4 + 12 * i + 8).Got? && symbol == WordAt(image, ns + 4 + 12 * i + 8).value
    {
      hide WordAt, TextAt, FirstEntry, LookupOnward;
      LookupIsFirst(image, ns, 0, nEntries, key, TAG_SYMBOL);
      var a := Get(key, TAG_SYMBOL, ns);
      return a.Value?, if a.Value? then a.v else 0;
    }
  }

  /** `find_entry`: a cursor moved from record to record by their lengths. */
  method FindEntryFrom(image: seq<Byte>, kind: nat, name: seq<Byte>) returns (r: Lookup)
    ensures r == FindEntry(image, HEADER, kind, name)
  {
    hide WordAt, TextAt;
    var generic := HEADER;
    while generic < |image|
      invariant FindEntry(image, generic, kind, name) == FindEntry(image, HEADER, kind, name)
      decreases |image| - generic
    {
      var tag, length := WordAt(image, generic), WordAt(image, generic + 4);
      if tag.Undefined? || length.Undefined? {
        return Unreadable;
      }
      if tag.value == kind {
        if kind == KIND_ROOT_DOMAIN {
          return Found(generic);
        }
        var same := NameIs(image, generic, name);
        if same.Undefined? {
          return Unreadable;
        }
        if same.value {
          return Found(generic);
        }
      }
      if length.value == 0 {
        return Endless;
      }
      generic := generic + length.value;
    }
    return Absent;
  }

  /** `find_module` */
  method FindModule(image: seq<Byte>, location: nat, name: seq<Byte>) returns (info: ModInfo)
    ensures info == InfoOf(image, location, FindEntry(image, HEADER, KIND_MODULE, name))
  {
    var r := FindEntryFrom(image, KIND_MODULE, name);
    return InfoOf(image, location, r);
  }

  /** `find_root_domain`, with the namespace set from the record. */
  method FindRootDomain(image: seq<Byte>, location: nat, namesp: Namespace) returns (info: ModInfo, ghost at: Lookup)
    requires namesp.image == image
    modifies namesp
    ensures at == FindEntry(image, HEADER, KIND_ROOT_DOMAIN, [])
    ensures info == InfoOf(image, location, at)
    ensures at.Found? && WordAt(image, at.at + 20).Got? ==>
              var ns := WordAt(image, at.at + 20).value; WordAt(image, ns).Got? ==> namesp.IsAt(ns)
  {
    hide WordAt, FindEntry;
    var r := FindEntryFrom(image, KIND_ROOT_DOMAIN, []);
    at := r;
    if r.Found? && WordAt(image, r.at + 20).Got? {
      var ok := namesp.Set(WordAt(image, r.at + 20).value);
    }
    info := InfoOf(image, location, r);
  }

  /**
   * Written, then read: the file of the first root domain is found, and a string of its namespace is the one
   * written under the key.
   */
  method RootDomainString(ms: seq<Module>, ghost k: nat, location: nat, key: seq<Byte>, image: seq<Byte>)
    returns (info: ModInfo, found: bool, text: Got<seq<Byte>>)
    requires Nameable(ms) && image == Image(ms) && |image| < WORD
    requires k < |ms| && IsRoot(ms[k]) && forall j :: 0 <= j < k ==> !IsRoot(ms[j])
    requires ms[k].entries != [] && forall e <- ms[k].entries :: Storable(e)
    ensures Answers(image, ms[k], location, info)
    ensures found <==> exists i :: 0 <= i < |ms[k].entries| && IsText(ms[k].entries[i], key)
    ensures forall i :: 0 <= i < |ms[k].entries| && IsText(ms[k].entries[i], key)
                        && (forall j :: 0 <= j < i ==> !IsText(ms[k].entries[j], key)) ==>
      text.Got? && ms[k].entries[i].param == Str(text.value)
  {
    hide AnswersFrom, IsText, FirstEntry, WordAt, TextAt, FindEntry, Image, Records, Record, Expected, At, LookupIn,
         Answers, InfoOf;
    var namesp := new Namespace(image);
    ghost var at: Lookup;
    info, at := FindRootDomain(image, location, namesp);
    ImageRecords(ms);
    FindsExpected(image, HEADER, ms, KIND_ROOT_DOMAIN, []);
    ExpectedStands(image, HEADER, ms, KIND_ROOT_DOMAIN, []);
    FirstRoot(ms, k);
    ghost var j :| 0 <= j < |ms| && Matches(ms[j], KIND_ROOT_DOMAIN, []) && At(image, at.at, Record(ms[j], at.at))
                   && forall i :: 0 <= i < j ==> !Matches(ms[i], KIND_ROOT_DOMAIN, []);
    assert j == k;
    InfoAnswers(image, at.at, ms[k], location);
    LookupIsRight(image, at.at, ms[k], key, TAG_STRING);
    LookupReads(image, WordAt(image, at.at + 20).value, key, TAG_STRING);
    found, text := namesp.GetString(key, WordAt(image, at.at + 20).value);
    TextAnswered(image, LookupIn(image, WordAt(image, at.at + 20).value, key, TAG_STRING), ms[k].entries, key, text);
  }

  lemma TextAnswered(s: seq<Byte>, a: Answer, entries: seq<Entry>, key: seq<Byte>, text: Got<seq<Byte>>)
    requires AnswersFrom(s, a, entries, key, TAG_STRING) && (a.Value? ==> text == TextAt(s, a.v))
    ensures a.Value? <==> exists i :: 0 <= i < |entries| && IsText(entries[i], key)
    ensures forall i :: 0 <= i < |entries| && IsText(entries[i], key) && (forall j :: 0 <= j < i ==> !IsText(entries[j], key)) ==>
      text.Got? && entries[i].param == Str(text.value)
  {
    hide TextAt;
    forall e: Entry ensures IsText(e, key) <==> Has(e, key, TAG_STRING) { TextTag(e, key); }
  }

  /** A string under the key. */
  predicate IsText(e: Entry, key: seq<Byte>) { e.key == key && e.param.Str? }

  lemma TextTag(e: Entry, key: seq<Byte>)
    ensures IsText(e, key) <==> Has(e, key, TAG_STRING)
    ensures IsText(e, key) ==> e.param.Str?
  {
  }

  lemma FirstRoot(ms: seq<Module>, k: nat)
    requires k < |ms| && IsRoot(ms[k])
    ensures Matches(ms[k], KIND_ROOT_DOMAIN, [])
    ensures forall i :: 0 <= i < |ms| ==> (Matches(ms[i], KIND_ROOT_DOMAIN, []) <==> IsRoot(ms[i]))
  {
  }

  lemma LookupReads(s: seq<Byte>, ns: nat, key: seq<Byte>, tag: nat)
    requires !LookupIn(s, ns, key, tag).Bad?
    ensures WordAt(s, ns).Got?
  {
    hide WordAt;
  }
}
