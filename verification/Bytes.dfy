/** Bytes at an offset, and unsigned integers stored least significant byte first. */
module Bytes {

  type Byte = n: nat | n < 256

  const WORD := 0x1_0000_0000

  /** A decoded value and the offset after it; `Undefined` when the source would read or shift out of range. */
  datatype Got<T> = Got(value: T, next: nat) | Undefined

  /** `bytes` stand at offset `at` of `s`. */
  predicate At(s: seq<Byte>, at: nat, bytes: seq<Byte>) {
    at + |bytes| <= |s| && s[at..at + |bytes|] == bytes
  }

  lemma AtParts(s: seq<Byte>, at: nat, a: seq<Byte>, b: seq<Byte>)
    ensures At(s, at, a + b) <==> At(s, at, a) && At(s, at + |a|, b)
  {
    if at + |a| + |b| <= |s| {
      var t := s[at..at + |a| + |b|];
      assert t[..|a|] == s[at..at + |a|] && t[|a|..] == s[at + |a|..at + |a| + |b|];
      assert (a + b)[..|a|] == a && (a + b)[|a|..] == b;
      assert t == t[..|a|] + t[|a|..];
    }
  }

  lemma AtHead(s: seq<Byte>, at: nat, b: Byte, rest: seq<Byte>)
    ensures At(s, at, [b] + rest) <==> at < |s| && s[at] == b && At(s, at + 1, rest)
  {
    AtParts(s, at, [b], rest);
  }

  function Little(n: nat, width: nat): (bytes: seq<Byte>)
    ensures |bytes| == width
  {
    if width == 0 then [] else [n % 256] + Little(n / 256, width - 1)
  }

  /** The integer in the `width` bytes at `at`. */
  function Value(s: seq<Byte>, at: nat, width: nat): nat
    requires at + width <= |s|
    decreases width
  {
    if width == 0 then 0 else s[at] + 256 * Value(s, at + 1, width - 1)
  }

  function Pow256(k: nat): (p: nat)
    ensures p > 0
  {
    if k == 0 then 1 else 256 * Pow256(k - 1)
  }

  /** What was stored is read back. */
  lemma {:induction false} ValueOfLittle(s: seq<Byte>, at: nat, n: nat, width: nat)
    requires n < Pow256(width) && At(s, at, Little(n, width))
    ensures Value(s, at, width) == n
    decreases width
  {
    if width > 0 {
      AtHead(s, at, n % 256, Little(n / 256, width - 1));
      ValueOfLittle(s, at + 1, n / 256, width - 1);
    }
  }

  /** What is read, stored again, is the same bytes. */
  lemma {:induction false} LittleOfValue(s: seq<Byte>, at: nat, width: nat)
    requires at + width <= |s|
    ensures Value(s, at, width) < Pow256(width)
    ensures Little(Value(s, at, width), width) == s[at..at + width]
    decreases width
  {
    if width > 0 {
      var rest := Value(s, at + 1, width - 1);
      LittleOfValue(s, at + 1, width - 1);
      LowByte(s[at], rest);
      assert s[at..at + width] == [s[at]] + s[at + 1..at + 1 + (width - 1)];
      hide Pow256;
      assert Little(s[at] + 256 * rest, width) == [s[at]] + Little(rest, width - 1);
      PowStep(width);
    }
  }

  lemma LowByte(b: Byte, n: nat)
    ensures (b + 256 * n) % 256 == b && (b + 256 * n) / 256 == n
  {
  }

  lemma PowStep(k: nat)
    requires k > 0
    ensures Pow256(k) == 256 * Pow256(k - 1)
  {
  }

  // ---- text up to a zero byte ----

  /** The first zero byte from `at` on, or the end. */
  function ZeroFrom(s: seq<Byte>, at: nat): (z: nat)
    requires at <= |s|
    ensures at <= z <= |s|
    ensures z < |s| ==> s[z] == 0
    ensures forall i :: at <= i < z ==> s[i] != 0
    decreases |s| - at
  {
    if at == |s| || s[at] == 0 then at else ZeroFrom(s, at + 1)
  }

  lemma {:induction false} ZeroIs(s: seq<Byte>, at: nat, bytes: seq<Byte>)
    requires At(s, at, bytes + [0]) && 0 !in bytes
    ensures ZeroFrom(s, at) == at + |bytes|
    decreases |bytes|
  {
    if bytes == [] {
      AtHead(s, at, 0, []);
    } else {
      assert bytes + [0] == [bytes[0]] + (bytes[1..] + [0]);
      AtHead(s, at, bytes[0], bytes[1..] + [0]);
      assert bytes[0] in bytes;
      ZeroIs(s, at + 1, bytes[1..]);
    }
  }

  /** Zero-terminated text and the offset after its zero. */
  function TextAt(s: seq<Byte>, at: nat): (g: Got<seq<Byte>>)
    ensures g.Got? ==> at < g.next <= |s| && 0 !in g.value
  {
    if at > |s| then Undefined else
    var z := ZeroFrom(s, at);
    if z == |s| then Undefined else Got(s[at..z], z + 1)
  }

  lemma TextRoundTrip(s: seq<Byte>, at: nat, text: seq<Byte>)
    requires 0 !in text && At(s, at, text + [0])
    ensures TextAt(s, at) == Got(text, at + |text| + 1)
  {
    ZeroIs(s, at, text);
    AtParts(s, at, text, [0]);
  }

  // ---- 32-bit words ----

  /** The low 32 bits of a number. */
  function Low(v: int): (w: nat)
    ensures w < WORD
  {
    v % WORD
  }

  lemma LowOfSmall(v: nat)
    requires v < WORD
    ensures Low(v) == v
  {
  }

  function Word(v: int): (bytes: seq<Byte>)
    ensures |bytes| == 4
  {
    Little(Low(v), 4)
  }

  function Words(ws: seq<int>): (bytes: seq<Byte>)
    ensures |bytes| == 4 * |ws|
  {
    if ws == [] then [] else Word(ws[0]) + Words(ws[1..])
  }

  function WordAt(s: seq<Byte>, at: nat): (g: Got<nat>)
    ensures g.Got? ==> at < g.next <= |s| && g.value < WORD
  {
    if at + 4 <= |s| then LittleOfValue(s, at, 4); FourBytes(); Got(Value(s, at, 4), at + 4) else Undefined
  }

  lemma FourBytes()
    ensures Pow256(4) == WORD
  {
    assert Pow256(1) == 256 && Pow256(2) == 0x1_0000 && Pow256(3) == 0x100_0000;
  }

  /** Of the words written the `i`-th is read back, in 32 bits. */
  lemma {:induction false} WordOfWords(s: seq<Byte>, at: nat, ws: seq<int>, i: nat)
    requires At(s, at, Words(ws)) && i < |ws|
    ensures WordAt(s, at + 4 * i) == Got(Low(ws[i]), at + 4 * i + 4)
    decreases i
  {
    AtParts(s, at, Word(ws[0]), Words(ws[1..]));
    if i == 0 {
      FourBytes();
      ValueOfLittle(s, at, Low(ws[0]), 4);
    } else {
      WordOfWords(s, at + 4, ws[1..], i - 1);
    }
  }

  lemma {:induction false} WordsAppend(a: seq<int>, b: seq<int>)
    ensures Words(a + b) == Words(a) + Words(b)
  {
    if a == [] {
      assert a + b == b;
    } else {
      assert (a + b)[1..] == a[1..] + b;
      WordsAppend(a[1..], b);
    }
  }

  function Zeros(n: nat): (bytes: seq<Byte>)
    ensures |bytes| == n
  {
    if n == 0 then [] else Zeros(n - 1) + [0]
  }
}
