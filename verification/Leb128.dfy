/** Variable-length integers, as section 7.6 of the DWARF Debugging Information Format, version 3, defines them. */
module Leb128 {
  import opened Bytes

  function Pow128(k: nat): (p: nat)
    ensures p > 0
  {
    if k == 0 then 1 else 128 * Pow128(k - 1)
  }

  function EncodeUnsigned(v: nat): (bytes: seq<Byte>)
    ensures |bytes| > 0
  {
    if v < 128 then [v] else [128 + v % 128] + EncodeUnsigned(v / 128)
  }

  function EncodeSigned(v: int): (bytes: seq<Byte>)
    ensures |bytes| > 0
    decreases if v < 0 then -v else v
  {
    if -64 <= v < 64 then [v % 128] else [128 + v % 128] + EncodeSigned(v / 128)
  }

  /** The value of the at most `k` bytes that end with one below 128. */
  function Unsigned(s: seq<Byte>, at: nat, k: nat): (g: Got<nat>)
    ensures g.Got? ==> at < g.next <= |s|
    decreases k
  {
    if k == 0 || at >= |s| then Undefined
    else if s[at] < 128 then Got(s[at], at + 1)
    else
      match Unsigned(s, at + 1, k - 1)
      case Got(v, next) => Got(s[at] - 128 + 128 * v, next)
      case Undefined => Undefined
  }

  /** The same with the sign taken from bit 6 of the last byte. */
  function Signed(s: seq<Byte>, at: nat, k: nat): (g: Got<int>)
    ensures g.Got? ==> at < g.next <= |s|
    decreases k
  {
    if k == 0 || at >= |s| then Undefined
    else if s[at] < 64 then Got(s[at], at + 1)
    else if s[at] < 128 then Got(s[at] as int - 128, at + 1)
    else
      match Signed(s, at + 1, k - 1)
      case Got(v, next) => Got(s[at] - 128 + 128 * v, next)
      case Undefined => Undefined
  }

  /** A number as the 32-bit signed integer with its low bits. */
  function Wrap(v: int): (w: int)
    ensures -0x8000_0000 <= w < 0x8000_0000
  {
    Low(v + 0x8000_0000) - 0x8000_0000
  }

  /** `uleb128_t::decode`: 32 bits of at most five bytes. */
  function ReadUnsigned(s: seq<Byte>, at: nat): (g: Got<nat>)
    ensures g.Got? ==> at < g.next <= |s| && g.value < WORD
  {
    match Unsigned(s, at, 5)
    case Got(v, next) => Got(Low(v), next)
    case Undefined => Undefined
  }

  /** `sleb128_t::decode` */
  function ReadSigned(s: seq<Byte>, at: nat): (g: Got<int>)
    ensures g.Got? ==> at < g.next <= |s|
  {
    match Signed(s, at, 5)
    case Got(v, next) => Got(Wrap(v), next)
    case Undefined => Undefined
  }

  // ---- round trips ----

  lemma {:induction false} UnsignedOfEncoded(s: seq<Byte>, at: nat, v: nat, k: nat)
    requires v < Pow128(k) && k > 0 && At(s, at, EncodeUnsigned(v))
    ensures Unsigned(s, at, k) == Got(v, at + |EncodeUnsigned(v)|)
    decreases k
  {
    if v >= 128 {
      assert k > 1 by { assert Pow128(1) == 128 * Pow128(0); }
      AtHead(s, at, 128 + v % 128, EncodeUnsigned(v / 128));
      UnsignedOfEncoded(s, at + 1, v / 128, k - 1);
    }
  }

  lemma ShiftBounds(v: int, q: int, h: int)
    requires 128 * q <= v < 128 * q + 128 && -128 * h <= v < 128 * h
    ensures -h <= q < h
  {
  }

  lemma SmallerShift(v: int, k: nat)
    requires -(Pow128(k) as int) <= 2 * v < Pow128(k) && k > 0 && !(-64 <= v < 64)
    ensures k > 1 && -(Pow128(k - 1) as int) <= 2 * (v / 128) < Pow128(k - 1)
  {
    assert Pow128(1) == 128 * Pow128(0);
    var q, h := v / 128, 64 * Pow128(k - 2);
    assert Pow128(k - 1) == 2 * h && Pow128(k) == 256 * h;
    assert 128 * q <= v < 128 * q + 128;
    ShiftBounds(v, q, h);
  }

  lemma {:induction false} SignedOfEncoded(s: seq<Byte>, at: nat, v: int, k: nat)
    requires -(Pow128(k) as int) <= 2 * v < Pow128(k) && k > 0 && At(s, at, EncodeSigned(v))
    ensures Signed(s, at, k) == Got(v, at + |EncodeSigned(v)|)
    decreases k
  {
    hide Pow128, At;
    if -64 <= v < 64 {
      AtHead(s, at, v % 128, []);
      assert [v % 128] + [] == [v % 128];
    } else {
      SmallerShift(v, k);
      AtHead(s, at, 128 + v % 128, EncodeSigned(v / 128));
      SignedOfEncoded(s, at + 1, v / 128, k - 1);
    }
  }

  lemma FiveBytes()
    ensures Pow128(5) == 0x8_0000_0000
  {
    assert Pow128(1) == 128 && Pow128(2) == 0x4000 && Pow128(3) == 0x20_0000 && Pow128(4) == 0x1000_0000;
  }

  /** Every unsigned 32-bit value, encoded anywhere, is read back, and reading stops right after it. */
  lemma UnsignedRoundTrip(s: seq<Byte>, at: nat, v: nat)
    requires v < WORD && At(s, at, EncodeUnsigned(v))
    ensures ReadUnsigned(s, at) == Got(v, at + |EncodeUnsigned(v)|)
  {
    FiveBytes();
    UnsignedOfEncoded(s, at, v, 5);
  }

  /** Every signed 32-bit value likewise. */
  lemma SignedRoundTrip(s: seq<Byte>, at: nat, v: int)
    requires -0x8000_0000 <= v < 0x8000_0000 && At(s, at, EncodeSigned(v))
    ensures ReadSigned(s, at) == Got(v, at + |EncodeSigned(v)|)
  {
    FiveBytes();
    SignedOfEncoded(s, at, v, 5);
  }

  // ---- the loops ----

  function Pow2(k: nat): (p: nat)
    ensures p > 0
  {
    if k == 0 then 1 else 2 * Pow2(k - 1)
  }

  lemma {:induction false} SevenBits(k: nat)
    ensures Pow2(7 * k) == Pow128(k)
  {
    if k > 0 {
      SevenBits(k - 1);
      var p := 7 * k;
      assert Pow2(p) == 2 * Pow2(p - 1) == 4 * Pow2(p - 2) == 8 * Pow2(p - 3);
      assert Pow2(p - 3) == 2 * Pow2(p - 4) == 4 * Pow2(p - 5) == 8 * Pow2(p - 6);
      assert Pow2(p - 6) == 2 * Pow2(p - 7);
    }
  }

  /** `low` of `k` groups of seven bits, then the groups of `g`. */
  function After(low: int, k: nat, g: Got<int>): Got<int> {
    match g
    case Got(v, next) => Got(low + Pow128(k) * v, next)
    case Undefined => Undefined
  }

  function AsInt(g: Got<nat>): Got<int> {
    match g
    case Got(v, next) => Got(v, next)
    case Undefined => Undefined
  }

  lemma OneMoreGroup(low: nat, k: nat, b: nat, v: int)
    ensures Pow128(k + 1) == 128 * Pow128(k)
    ensures low < Pow128(k) && b < 128 ==> low + b * Pow128(k) < Pow128(k + 1)
    ensures low + Pow128(k) * (b + 128 * v) == (low + b * Pow128(k)) + Pow128(k + 1) * v
  {
    var p := Pow128(k);
    assert p * (b + 128 * v) == p * b + p * (128 * v) == b * p + (128 * p) * v;
    if low < p && b < 128 {
      assert b * p <= 127 * p;
    }
  }

  lemma AfterGroup(s: seq<Byte>, at: nat, low: nat, k: nat)
    requires k < 5 && at < |s|
    ensures s[at] >= 128 ==>
      After(low, k, AsInt(Unsigned(s, at, 5 - k))) ==
      After(low + s[at] % 128 * Pow128(k), k + 1, AsInt(Unsigned(s, at + 1, 5 - (k + 1))))
    ensures s[at] >= 128 ==>
      After(low, k, Signed(s, at, 5 - k)) ==
      After(low + s[at] % 128 * Pow128(k), k + 1, Signed(s, at + 1, 5 - (k + 1)))
  {
    var b := s[at] % 128;
    var u, v := Unsigned(s, at + 1, 5 - (k + 1)), Signed(s, at + 1, 5 - (k + 1));
    if s[at] >= 128 {
      assert s[at] - 128 == b;
      if u.Got? {
        OneMoreGroup(low, k, b, u.value);
      }
      if v.Got? {
        OneMoreGroup(low, k, b, v.value);
      }
    }
  }

  lemma ModAdds(low: int, more: int)
    ensures Low(Low(low) + more) == Low(low + more)
  {
    assert low == low / WORD * WORD + low % WORD;
    SameLow(low % WORD + more, low / WORD);
  }

  lemma SameLow(a: int, n: int)
    ensures Low(a + n * WORD) == Low(a)
  {
  }

  /** After `k` bytes, with `low` in them, the rest still decides what the whole comes to. */
  ghost predicate Read(s: seq<Byte>, at: nat, offset: nat, low: nat, k: nat) {
    && k <= 5 && offset == at + k && low < Pow128(k)
    && After(low, k, AsInt(Unsigned(s, offset, 5 - k))) == AsInt(Unsigned(s, at, 5))
    && After(low, k, Signed(s, offset, 5 - k)) == Signed(s, at, 5)
  }

  lemma ReadNone(s: seq<Byte>, at: nat)
    ensures Read(s, at, at, 0, 0)
  {
  }

  lemma ReadFails(s: seq<Byte>, at: nat, offset: nat, low: nat, k: nat)
    requires Read(s, at, offset, low, k) && (offset >= |s| || k == 5)
    ensures ReadUnsigned(s, at) == Undefined && ReadSigned(s, at) == Undefined
  {
  }

  lemma ReadMore(s: seq<Byte>, at: nat, offset: nat, low: nat, k: nat)
    requires Read(s, at, offset, low, k) && offset < |s| && k < 5
    ensures Pow2(7 * k) == Pow128(k) && low + s[offset] % 128 * Pow128(k) < Pow128(k + 1)
    ensures s[offset] >= 128 ==> Read(s, at, offset + 1, low + s[offset] % 128 * Pow128(k), k + 1)
  {
    hide Signed, Unsigned;
    SevenBits(k);
    AfterGroup(s, offset, low, k);
    OneMoreGroup(low, k, s[offset] % 128, 0);
  }

  /** The last byte. */
  lemma ReadLast(s: seq<Byte>, at: nat, offset: nat, low: nat, k: nat)
    requires Read(s, at, offset, low, k) && offset < |s| && k < 5 && s[offset] < 128
    ensures var all := low + s[offset] * Pow128(k);
      && Unsigned(s, at, 5) == Got(all, offset + 1)
      && Signed(s, at, 5) == Got(if s[offset] < 64 then all else all - Pow128(k + 1), offset + 1)
  {
    var b := s[offset];
    assert Unsigned(s, offset, 5 - k) == Got(b, offset + 1);
    assert Signed(s, offset, 5 - k) == Got(if b < 64 then b else b as int - 128, offset + 1);
    OneMoreGroup(low, k, b, 0);
    OneMoreGroup(low, k, b, -1);
  }

  /** `uleb128_t::decode`: seven bits of each byte are put above those before them, in 32 bits. */
  method DecodeUnsigned(s: seq<Byte>, at: nat) returns (g: Got<nat>)
    ensures g == ReadUnsigned(s, at)
  {
    hide Read, Pow2, Pow128, Low, Signed, Unsigned, ReadSigned, ReadUnsigned;
    assert Low(0) == 0 by { LowOfSmall(0); }
    var data, shift, offset: nat := 0, 0, at;
    ghost var k: nat, full: nat := 0, 0;
    ReadNone(s, at);
    while true
      invariant shift == 7 * k && k <= 5 && data == Low(full) && Read(s, at, offset, full, k)
      decreases 5 - k
    {
      if offset >= |s| || shift >= 32 {
        ReadFails(s, at, offset, full, k);
        return Undefined;
      }
      var byte := s[offset];
      ReadMore(s, at, offset, full, k);
      ModAdds(full, byte % 128 * Pow2(shift));
      data := Low(data + byte % 128 * Pow2(shift));
      if byte < 128 {
        UnsignedEnds(s, at, offset, full, k);
        return Got(data, offset + 1);
      }
      full := full + byte % 128 * Pow2(shift);
      shift, offset, k := shift + 7, offset + 1, k + 1;
    }
  }

  lemma UnsignedEnds(s: seq<Byte>, at: nat, offset: nat, low: nat, k: nat)
    requires Read(s, at, offset, low, k) && offset < |s| && k < 5 && s[offset] < 128
    ensures ReadUnsigned(s, at) == Got(Low(low + s[offset] % 128 * Pow2(7 * k)), offset + 1)
  {
    hide Read, Pow2, Pow128, Low, Unsigned, Signed;
    ReadMore(s, at, offset, low, k);
    ReadLast(s, at, offset, low, k);
  }

  lemma WrapAdds(low: int, more: int)
    ensures Wrap(Wrap(low) + more) == Wrap(low + more)
  {
    ModAdds(low + 0x8000_0000, more);
  }

  /** In four bytes a value is below 2 to the 28th, and the sign bit is the one above it. */
  lemma FourBytes(k: nat, v: int)
    requires k <= 4 && -(Pow128(k) as int) <= v < Pow128(k)
    ensures Wrap(v) == v
  {
    assert Pow128(1) == 128 && Pow128(2) == 0x4000 && Pow128(3) == 0x20_0000 && Pow128(4) == 0x1000_0000;
  }

  /** The bits above 32 do not matter, the sign of a fifth byte among them. */
  lemma FifthByte(v: int)
    ensures Wrap(v - Pow128(5)) == Wrap(v)
  {
    FiveBytes();
    SameLow(v + 0x8000_0000, -8);
  }

  /** `sleb128_t::decode`: the same on a signed integer; with fewer than 32 bits read the sign is extended. */
  method DecodeSigned(s: seq<Byte>, at: nat) returns (g: Got<int>)
    ensures g == ReadSigned(s, at)
  {
    hide Read, Pow2, Pow128, Wrap, Low, Signed, Unsigned, ReadSigned, ReadUnsigned;
    var data, shift, offset: nat := 0, 0, at;
    ghost var k: nat, full: nat := 0, 0;
    ReadNone(s, at);
    assert Wrap(0) == 0 by { FourBytes(0, 0); }
    while true
      invariant shift == 7 * k && k <= 5 && data == Wrap(full) && Read(s, at, offset, full, k)
      decreases 5 - k
    {
      if offset >= |s| || shift >= 32 {
        ReadFails(s, at, offset, full, k);
        return Undefined;
      }
      var byte := s[offset];
      ReadMore(s, at, offset, full, k);
      WrapAdds(full, byte % 128 * Pow2(shift));
      data := Wrap(data + byte % 128 * Pow2(shift));
      full := full + byte % 128 * Pow2(shift);
      shift, offset, k := shift + 7, offset + 1, k + 1;
      if byte < 128 {
        SignedEnds(s, at, offset - 1, full - byte % 128 * Pow2(shift - 7), k - 1);
        if shift < 32 && byte >= 64 {
          data := data - Pow2(shift);
        }
        return Got(data, offset);
      }
    }
  }

  lemma SignedEnds(s: seq<Byte>, at: nat, offset: nat, low: nat, k: nat)
    requires Read(s, at, offset, low, k) && offset < |s| && k < 5 && s[offset] < 128
    ensures var full := Wrap(low + s[offset] % 128 * Pow2(7 * k));
      ReadSigned(s, at) ==
      Got(if 7 * (k + 1) < 32 && s[offset] >= 64 then full - Pow2(7 * (k + 1)) else full, offset + 1)
  {
    hide Read, Pow2, Pow128, Wrap, Low, Unsigned, Signed;
    SevenBits(k);
    SevenBits(k + 1);
    ReadMore(s, at, offset, low, k);
    ReadLast(s, at, offset, low, k);
    Extend(low + s[offset] * Pow128(k), k + 1);
  }

  lemma Extend(full: nat, k: nat)
    requires k <= 5 && full < Pow128(k)
    ensures k <= 4 ==> Wrap(full) == full && Wrap(full - Pow128(k)) == full - Pow128(k)
    ensures k == 5 ==> Wrap(full - Pow128(k)) == Wrap(full)
  {
    if k <= 4 {
      FourBytes(k, full);
      FourBytes(k, full - Pow128(k));
    } else {
      FifthByte(full);
    }
  }
}
