/** Attribute values of debugging entries: section 7.5.4 of DWARF version 3. */
module DwarfForms {
  import opened Bytes
  import opened Leb128

  /** `Unreadable` is an indirect form that names no form: the source stores no value for it and goes on. */
  datatype Value =
    | Number(n: nat)
    | Integer(i: int)
    | Block(bytes: seq<Byte>)
    | Text(bytes: seq<Byte>)
    | Indirect(form: nat, value: Value)
    | Unreadable(form: nat)

  datatype Kind = Fixed(width: nat) | Counted(width: nat) | CountedUnsigned | Terminated | Unsigned | Signed | ViaForm | None

  /** The reader `form_reader_t::create` picks. */
  function KindOf(form: nat): (k: Kind)
    ensures k.Fixed? || k.Counted? ==> k.width > 0
  {
    match form
    case 0x01 => Fixed(4)
    case 0x03 => Counted(2)
    case 0x04 => Counted(4)
    case 0x05 => Fixed(2)
    case 0x06 => Fixed(4)
    case 0x07 => Fixed(8)
    case 0x08 => Terminated
    case 0x09 => CountedUnsigned
    case 0x0a => Counted(1)
    case 0x0b => Fixed(1)
    case 0x0c => Fixed(1)
    case 0x0d => Signed
    case 0x0e => Fixed(4)
    case 0x0f => Unsigned
    case 0x10 => Fixed(4)
    case 0x11 => Fixed(1)
    case 0x12 => Fixed(2)
    case 0x13 => Fixed(4)
    case 0x14 => Fixed(8)
    case 0x15 => Unsigned
    case 0x16 => ViaForm
    case _ => None
  }

  function TakeBlock(s: seq<Byte>, at: nat, length: nat): Got<Value> {
    if at + length <= |s| then Got(Block(s[at..at + length]), at + length) else Undefined
  }

  function ReadValue(s: seq<Byte>, at: nat, form: nat): (g: Got<Value>)
    ensures g.Got? ==> at < g.next <= |s|
    decreases |s| - at
  {
    match KindOf(form)
    case Fixed(w) => if at + w <= |s| then Got(Number(Bytes.Value(s, at, w)), at + w) else Undefined
    case Counted(w) => if at + w <= |s| then TakeBlock(s, at + w, Bytes.Value(s, at, w)) else Undefined
    case CountedUnsigned =>
      var length := ReadUnsigned(s, at);
      if length.Got? then TakeBlock(s, length.next, length.value) else Undefined
    case Terminated =>
      var t := TextAt(s, at);
      if t.Got? then Got(Text(t.value), t.next) else Undefined
    case Unsigned =>
      var v := ReadUnsigned(s, at);
      if v.Got? then Got(Number(v.value), v.next) else Undefined
    case Signed =>
      var v := ReadSigned(s, at);
      if v.Got? then Got(Integer(v.value), v.next) else Undefined
    case ViaForm =>
      var f := ReadUnsigned(s, at);
      if f.Undefined? then Undefined
      else if KindOf(f.value).None? then Got(Unreadable(f.value), f.next)
      else
        var v := ReadValue(s, f.next, f.value);
        if v.Got? then Got(Indirect(f.value, v.value), v.next) else Undefined
    case None => Undefined
  }

  // The forms of section 7.5.4 by their names; DW_FORM_block1 stands for a block with a one-byte length, and so on.
  const ADDR := 0x01
  const BLOCK2 := 0x03
  const BLOCK4 := 0x04
  const DATA2 := 0x05
  const DATA4 := 0x06
  const DATA8 := 0x07
  const STRING := 0x08
  const BLOCK := 0x09
  const BLOCK1 := 0x0a
  const DATA1 := 0x0b
  const FLAG := 0x0c
  const SDATA := 0x0d
  const STRP := 0x0e
  const UDATA := 0x0f
  const REF_ADDR := 0x10
  const REF1 := 0x11
  const REF2 := 0x12
  const REF4 := 0x13
  const REF8 := 0x14
  const REF_UDATA := 0x15
  const INDIRECT := 0x16

  /** A fixed form takes that many bytes, and its value is the number they make, least significant first. */
  ghost predicate ReadsFixed(s: seq<Byte>, at: nat, form: nat, width: nat) {
    ReadValue(s, at, form) == if at + width <= |s| then Got(Number(Bytes.Value(s, at, width)), at + width) else Undefined
  }

  /** A block is as many bytes after its length as the length says. */
  ghost predicate ReadsBlock(s: seq<Byte>, at: nat, form: nat, width: nat) {
    ReadValue(s, at, form) ==
    if at + width > |s| then Undefined
    else
      var (from, n) := (at + width, Bytes.Value(s, at, width));
      if from + n > |s| then Undefined else Got(Block(s[from..from + n]), from + n)
  }

  /** What each form named by the standard is read as, on any bytes. */
  lemma FormsAre(s: seq<Byte>, at: nat, form: nat)
    ensures form in {DATA1, FLAG, REF1} ==> ReadsFixed(s, at, form, 1)
    ensures form in {DATA2, REF2} ==> ReadsFixed(s, at, form, 2)
    ensures form in {ADDR, DATA4, REF4, STRP, REF_ADDR} ==> ReadsFixed(s, at, form, 4)
    ensures form in {DATA8, REF8} ==> ReadsFixed(s, at, form, 8)
    ensures form == BLOCK1 ==> ReadsBlock(s, at, form, 1)
    ensures form == BLOCK2 ==> ReadsBlock(s, at, form, 2)
    ensures form == BLOCK4 ==> ReadsBlock(s, at, form, 4)
    ensures form in {UDATA, REF_UDATA} ==>
      var v := ReadUnsigned(s, at);
      ReadValue(s, at, form) == if v.Got? then Got(Number(v.value), v.next) else Undefined
    ensures form == SDATA ==>
      var v := ReadSigned(s, at);
      ReadValue(s, at, form) == if v.Got? then Got(Integer(v.value), v.next) else Undefined
    ensures form == STRING ==>
      var t := TextAt(s, at);
      ReadValue(s, at, form) == if t.Got? then Got(Text(t.value), t.next) else Undefined
    ensures form == BLOCK ==>
      var n := ReadUnsigned(s, at);
      ReadValue(s, at, form) ==
      if n.Undefined? || n.next + n.value > |s| then Undefined
      else Got(Block(s[n.next..n.next + n.value]), n.next + n.value)
    ensures form == 0 || form == 2 || form > INDIRECT ==> ReadValue(s, at, form) == Undefined
  {
    hide Bytes.Value, ReadUnsigned, ReadSigned, TextAt;
  }

  /** The values a form can carry. */
  predicate Fits(form: nat, v: Value)
    decreases v
  {
    match KindOf(form)
    case Fixed(w) => v.Number? && v.n < Pow256(w)
    case Counted(w) => v.Block? && |v.bytes| < Pow256(w)
    case CountedUnsigned => v.Block? && |v.bytes| < WORD
    case Terminated => v.Text? && 0 !in v.bytes
    case Unsigned => v.Number? && v.n < WORD
    case Signed => v.Integer? && -0x8000_0000 <= v.i < 0x8000_0000
    case ViaForm =>
      || (v.Indirect? && v.form < WORD && !KindOf(v.form).None? && Fits(v.form, v.value))
      || (v.Unreadable? && v.form < WORD && KindOf(v.form).None?)
    case None => false
  }

  function WriteValue(form: nat, v: Value): seq<Byte>
    requires Fits(form, v)
    decreases v
  {
    match KindOf(form)
    case Fixed(w) => Little(v.n, w)
    case Counted(w) => Little(|v.bytes|, w) + v.bytes
    case CountedUnsigned => EncodeUnsigned(|v.bytes|) + v.bytes
    case Terminated => v.bytes + [0]
    case Unsigned => EncodeUnsigned(v.n)
    case Signed => EncodeSigned(v.i)
    case ViaForm => EncodeUnsigned(v.form) + if v.Indirect? then WriteValue(v.form, v.value) else []
  }

  /** Every value a form can carry, written anywhere, is read back, and reading stops right after it. */
  lemma {:induction false} ValueRoundTrip(s: seq<Byte>, at: nat, form: nat, v: Value)
    requires Fits(form, v) && At(s, at, WriteValue(form, v))
    ensures ReadValue(s, at, form) == Got(v, at + |WriteValue(form, v)|)
    decreases v
  {
    hide KindOf, Little, Pow256, EncodeUnsigned, EncodeSigned, ReadUnsigned, ReadSigned, TextAt, Bytes.Value;
    match KindOf(form)
    case Fixed(w) => ValueOfLittle(s, at, v.n, w);
    case Counted(w) =>
      AtParts(s, at, Little(|v.bytes|, w), v.bytes);
      ValueOfLittle(s, at, |v.bytes|, w);
    case CountedUnsigned =>
      AtParts(s, at, EncodeUnsigned(|v.bytes|), v.bytes);
      UnsignedRoundTrip(s, at, |v.bytes|);
    case Terminated => TextRoundTrip(s, at, v.bytes);
    case Unsigned => UnsignedRoundTrip(s, at, v.n);
    case Signed => SignedRoundTrip(s, at, v.i);
    case ViaForm =>
      AtParts(s, at, EncodeUnsigned(v.form), if v.Indirect? then WriteValue(v.form, v.value) else []);
      UnsignedRoundTrip(s, at, v.form);
      if v.Indirect? {
        ValueRoundTrip(s, at + |EncodeUnsigned(v.form)|, v.form, v.value);
      }
  }

  /** The `decode` functions of the form readers. */
  method DecodeValue(s: seq<Byte>, at: nat, form: nat) returns (g: Got<Value>)
    ensures g == ReadValue(s, at, form)
    decreases |s| - at
  {
    match KindOf(form) {
      case Fixed(w) => g := if at + w <= |s| then Got(Number(Bytes.Value(s, at, w)), at + w) else Undefined;
      case Counted(w) => g := if at + w <= |s| then TakeBlock(s, at + w, Bytes.Value(s, at, w)) else Undefined;
      case CountedUnsigned =>
        var length := DecodeUnsigned(s, at);
        g := if length.Got? then TakeBlock(s, length.next, length.value) else Undefined;
      case Terminated => g := DecodeText(s, at);
      case Unsigned =>
        var v := DecodeUnsigned(s, at);
        g := if v.Got? then Got(Number(v.value), v.next) else Undefined;
      case Signed =>
        var v := DecodeSigned(s, at);
        g := if v.Got? then Got(Integer(v.value), v.next) else Undefined;
      case ViaForm =>
        var f := DecodeUnsigned(s, at);
        if f.Undefined? {
          return Undefined;
        }
        if KindOf(f.value).None? {
          return Got(Unreadable(f.value), f.next);
        }
        var v := DecodeValue(s, f.next, f.value);
        g := if v.Got? then Got(Indirect(f.value, v.value), v.next) else Undefined;
      case None => g := Undefined;
    }
  }

  method DecodeText(s: seq<Byte>, at: nat) returns (g: Got<Value>)
    ensures g == if TextAt(s, at).Got? then Got(Text(TextAt(s, at).value), TextAt(s, at).next) else Undefined
  {
    if at > |s| {
      return Undefined;
    }
    var offset := at;
    while offset < |s| && s[offset] != 0
      invariant at <= offset <= |s| && ZeroFrom(s, offset) == ZeroFrom(s, at)
    {
      offset := offset + 1;
    }
    return if offset < |s| then Got(Text(s[at..offset]), offset + 1) else Undefined;
  }
}
