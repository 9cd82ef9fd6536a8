/** The word operations of the Mersenne Twister against what their authors say of them. */
module MersenneWords {

  function MixBits(u: bv32, v: bv32): bv32 { (u & 0x8000_0000) | (v & 0x7fff_ffff) }

  function Magic(u: bv32): bv32 { if u & 1 != 0 then 0x9908_b0df else 0 }

  function Twist(m: bv32, s0: bv32, s1: bv32): bv32 { m ^ (MixBits(s0, s1) >> 1) ^ Magic(s1) }

  function Xor(a: bv32, b: bv32): bv32 { a ^ b }

  function Right11(y: bv32): bv32 { y >> 11 }

  function Right18(y: bv32): bv32 { y >> 18 }

  function Shake11(y: bv32): bv32 { Xor(y, Right11(y)) }

  function Shake7(y: bv32): bv32 { y ^ ((y << 7) & 0x9d2c_5680) }

  function Shake15(y: bv32): bv32 { y ^ ((y << 15) & 0xefc6_0000) }

  function Shake18(y: bv32): bv32 { Xor(y, Right18(y)) }

  function Temper(y: bv32): bv32 { Shake18(Shake15(Shake7(Shake11(y)))) }

  // ---- facts about shifts alone ----

  lemma HighAndLow(u: bv32, v: bv32, y: bv32)
    requires y >> 31 == u >> 31 && y << 1 == v << 1
    ensures (u & 0x8000_0000) | (v & 0x7fff_ffff) == y && y & 1 == v & 1
  {
  }

  lemma XorZero(a: bv32, b: bv32)
    ensures a ^ b ^ 0 == a ^ b
  {
  }

  lemma XorSelf(a: bv32)
    ensures Xor(a, a) == 0 && Xor(a, 0) == a && Xor(0, a) == a
  {
  }

  lemma XorAssociates(a: bv32, b: bv32, c: bv32)
    ensures Xor(Xor(a, b), c) == Xor(a, Xor(b, c))
  {
  }

  lemma Cancel(a: bv32, b: bv32)
    ensures Xor(Xor(a, b), b) == a && Xor(b, Xor(b, a)) == a && Xor(a, 0) == a
  {
    hide Xor;
    XorSelf(a);
    XorSelf(b);
    XorAssociates(a, b, b);
    XorAssociates(b, b, a);
  }

  lemma Rights(a: bv32, b: bv32)
    ensures Right11(Xor(a, b)) == Xor(Right11(a), Right11(b)) && Right11(Right11(Right11(a))) == 0
    ensures Right18(Xor(a, b)) == Xor(Right18(a), Right18(b)) && Right18(Right18(a)) == 0
  {
  }

  // ---- the recurrence as a matrix ----

  /**
   * With `y` the highest bit of one word and the other bits of the next: `y` times the matrix of the
   * recurrence is `y` shifted, and its last row added when the lowest bit is set.
   */
  lemma TwistIsMatrix(m: bv32, s0: bv32, s1: bv32, y: bv32)
    requires y >> 31 == s0 >> 31 && y << 1 == s1 << 1
    ensures Twist(m, s0, s1) == if y & 1 == 0 then m ^ (y >> 1) else m ^ (y >> 1) ^ 0x9908_b0df
  {
    hide Twist;
    HighAndLow(s0, s1, y);
    TwistIs(m, s0, s1, y);
    XorZero(m, y >> 1);
  }

  lemma TwistIs(m: bv32, s0: bv32, s1: bv32, y: bv32)
    requires (s0 & 0x8000_0000) | (s1 & 0x7fff_ffff) == y && y & 1 == s1 & 1
    ensures y & 1 == 0 ==> Twist(m, s0, s1) == m ^ (y >> 1) ^ 0
    ensures y & 1 != 0 ==> Twist(m, s0, s1) == m ^ (y >> 1) ^ 0x9908_b0df
  {
  }

  // ---- tempering can be undone ----

  function Undo11(y: bv32): bv32 { Xor(Xor(y, Right11(y)), Right11(Right11(y))) }

  function Undo7(y: bv32): bv32 {
    var a := y ^ ((y << 7) & 0x9d2c_5680);
    var b := y ^ ((a << 7) & 0x9d2c_5680);
    var c := y ^ ((b << 7) & 0x9d2c_5680);
    y ^ ((c << 7) & 0x9d2c_5680)
  }

  function Untemper(z: bv32): bv32 { Undo11(Undo7(Shake15(Shake18(z)))) }

  lemma Shakes11(y: bv32)
    ensures Undo11(Shake11(y)) == y && Shake11(Undo11(y)) == y
  {
    hide Xor, Right11;
    var a := Right11(y);
    var b := Right11(a);
    Rights(y, a);
    Rights(a, b);
    Rights(Xor(y, a), b);
    Cancel(b, 0);
    Cancel(Xor(a, b), 0);
    XorAssociates(y, a, Xor(a, b));
    Cancel(b, a);
    Cancel(y, b);
    XorAssociates(y, a, b);
    Cancel(y, Xor(a, b));
  }

  lemma Shakes18(y: bv32)
    ensures Shake18(Shake18(y)) == y
  {
    hide Xor, Right18;
    var a := Right18(y);
    Rights(y, a);
    Cancel(a, 0);
    Cancel(y, a);
  }

  lemma Shakes15(y: bv32)
    ensures Shake15(Shake15(y)) == y
  {
  }

  lemma Shakes7(y: bv32)
    ensures Undo7(Shake7(y)) == y && Shake7(Undo7(y)) == y
  {
  }

  /** Tempering maps the words one to one: it loses nothing and reaches every word. */
  lemma TemperRoundTrip(y: bv32)
    ensures Untemper(Temper(y)) == y && Temper(Untemper(y)) == y
  {
    hide Shake7, Shake11, Shake15, Shake18, Undo7, Undo11;
    Shakes11(y);
    Shakes7(Shake11(y));
    Shakes15(Shake7(Shake11(y)));
    Shakes18(Shake15(Shake7(Shake11(y))));
    Shakes18(y);
    Shakes15(Shake18(y));
    Shakes7(Shake15(Shake18(y)));
    Shakes11(Undo7(Shake15(Shake18(y))));
  }
}
