/** The Mersenne Twister: a block of state regenerated in place, against the unbounded recurrence. */
module MersenneTwister {
  import opened MersenneWords

  const N := 624
  const M := 397

  // ---- the recurrence of Matsumoto and Nishimura, ACM TOMACS 8(1), 1998 ----

  /** Term `j` of the unbounded sequence that starts with the words of `s`. */
  ghost function Term(s: seq<bv32>, j: nat): bv32
    requires |s| == N
  {
    if j < N then s[j] else Twist(Term(s, j - N + M), Term(s, j - N), Term(s, j - N + 1))
  }

  /** A window of the sequence started afresh continues the sequence. */
  lemma {:induction false} TermShift(s: seq<bv32>, w: seq<bv32>, b: nat, j: nat)
    requires |s| == |w| == N
    requires forall i :: 0 <= i < N ==> w[i] == Term(s, b + i)
    ensures Term(w, j) == Term(s, b + j)
  {
    if j >= N {
      TermShift(s, w, b, j - N + M);
      TermShift(s, w, b, j - N);
      TermShift(s, w, b, j - N + 1);
      assert b + j - N + M == b + (j - N + M) && b + j - N == b + (j - N) && b + j - N + 1 == b + (j - N + 1);
    }
  }

  function Half(w: bv32): bv32 { w >> 1 }

  function Previous(w: bv32): bv32 { w - 1 }

  predicate Odd(w: bv32) { w & 1 == 1 }

  /** The number a word stands for, read off its bits. */
  function Count(w: bv32): nat
    decreases w
  {
    if w == 0 then 0 else
    assert Half(w) < w;
    2 * Count(Half(w)) + if Odd(w) then 1 else 0
  }

  lemma Halves(w: bv32)
    requires w != 0
    ensures Half(w) < w
    ensures Odd(w) ==> Half(Previous(w)) == Half(w) && !Odd(Previous(w))
    ensures Odd(w) && Previous(w) == 0 ==> Half(w) == 0
    ensures !Odd(w) ==> Half(Previous(w)) == Previous(Half(w)) && Odd(Previous(w)) && Half(w) != 0 && Previous(w) != 0
  {
  }

  lemma {:induction false} CountDown(w: bv32)
    requires w != 0
    ensures Count(Previous(w)) == Count(w) - 1
    decreases w
  {
    hide Half, Previous, Odd;
    Halves(w);
    if !Odd(w) {
      CountDown(Half(w));
    }
  }

  lemma CountOfN()
    ensures Count(624) == N
  {
    assert Count(1) == 1;
    assert Count(4) == 4 by { assert Half(4) == 2 && Half(2) == 1; }
    assert Count(19) == 19 by { assert Half(19) == 9 && Half(9) == 4; }
    assert Count(78) == 78 by { assert Half(78) == 39 && Half(39) == 19; }
    assert Count(312) == 312 by { assert Half(312) == 156 && Half(156) == 78; }
    assert Half(624) == 312;
  }

  /** A counter as a 32-bit word. */
  function Word(n: nat): (w: bv32)
    requires n <= N
    ensures Count(w) == n
    decreases N - n
  {
    CountOfN();
    if n == N then 624 else var w := Word(n + 1); CountDown(w); Previous(w)
  }

  lemma SeededNext(seed: bv32, i: nat)
    requires i <= N
    ensures Seeded(seed, i) == if i == 0 then seed else SeedStep(Seeded(seed, i - 1), Word(i))
  {
  }

  function SeedStep(r: bv32, i: bv32): bv32 { 1812433253 * (r ^ (r >> 30)) + i }

  /** The state `initialize` fills in from one word. */
  function Seeded(seed: bv32, i: nat): bv32
    requires i <= N
  {
    if i == 0 then seed else SeedStep(Seeded(seed, i - 1), Word(i))
  }

  lemma {:induction false} CountIsOneToOne(a: bv32, b: bv32)
    requires Count(a) == Count(b)
    ensures a == b
    decreases a
  {
    if a != 0 && b != 0 {
      SmallerHalf(a);
      CountIsOneToOne(Half(a), Half(b));
      FromHalf(a, b);
    } else {
      CountPositive(a);
      CountPositive(b);
    }
  }

  lemma {:induction false} CountPositive(a: bv32)
    ensures a != 0 ==> Count(a) > 0
    decreases a
  {
    if a != 0 && !Odd(a) {
      Halves(a);
      CountPositive(Half(a));
    }
  }

  lemma SmallerHalf(a: bv32)
    requires a != 0
    ensures Half(a) < a
  {
  }

  lemma FromHalf(a: bv32, b: bv32)
    requires Half(a) == Half(b) && (Odd(a) <==> Odd(b))
    ensures a == b
  {
  }

  /** The first words that the seed 5489 gives are those of every published generator. */
  lemma FirstSeeds()
    ensures Seeded(5489, 1) == 1301868182 && Seeded(5489, 2) == 2938499221 && Seeded(5489, 3) == 2950281878
  {
    assert Count(1) == 1 && Count(2) == 2 && Count(3) == 3;
    CountIsOneToOne(Word(1), 1);
    CountIsOneToOne(Word(2), 2);
    CountIsOneToOne(Word(3), 3);
    hide Word, Count;
    SeededNext(5489, 1);
    SeededNext(5489, 2);
    SeededNext(5489, 3);
  }

  // ---- bounded draws ----

  /** `n` with every bit below its highest one set. */
  function Mask(n: bv32): bv32 {
    var a := n | (n >> 1);
    var b := a | (a >> 2);
    var c := b | (b >> 4);
    var d := c | (c >> 8);
    d | (d >> 16)
  }

  lemma MaskKeeps(n: bv32)
    ensures n & Mask(n) == n
  {
  }

  lemma BitsBound(a: bv32, b: bv32)
    requires a & b == a
    ensures a <= b
  {
  }

  lemma MaskIsOnes(n: bv32)
    ensures Mask(n) & (Mask(n) + 1) == 0
  {
  }

  lemma MaskIsLeast(n: bv32)
    requires n != 0
    ensures Mask(n) >> 1 < n
  {
  }

  /** The mask covers `n`, is a run of ones, and is the least such: half of it does not cover `n`. */
  lemma MaskCovers(n: bv32)
    ensures n & Mask(n) == n && n <= Mask(n)
    ensures Mask(n) & (Mask(n) + 1) == 0
    ensures n != 0 ==> Mask(n) >> 1 < n
  {
    hide Mask;
    MaskKeeps(n);
    BitsBound(n, Mask(n));
    MaskIsOnes(n);
    if n != 0 {
      MaskIsLeast(n);
    }
  }

  function Cut(d: bv32, mask: bv32): bv32 { d & mask }

  predicate AtMost(r: bv32, n: bv32) { r <= n }

  // ---- the stream ----

  /** The `k`-th draw of a generator that holds `s` and whose next word is `p`. */
  ghost function Draw(s: seq<bv32>, p: nat, k: nat): bv32
    requires |s| == N
  {
    Temper(Term(s, p + k))
  }

  /** Generator `(w, q)` goes on where `(s, p)` will be after `d` draws. */
  ghost predicate Continues(s: seq<bv32>, p: nat, w: seq<bv32>, q: nat, d: nat)
    requires |s| == |w| == N
  {
    forall k: nat :: Draw(w, q, k) == Draw(s, p, d + k)
  }

  ghost function SeedBlock(seed: bv32): (s: seq<bv32>)
    ensures |s| == N && forall i :: 0 <= i < N ==> s[i] == Seeded(seed, i)
  {
    seq(N, i requires 0 <= i < N => Seeded(seed, i))
  }

  lemma NextTerm(s: seq<bv32>, p: nat)
    requires |s| == N && p < N
    ensures Term(s, N + p) == Twist(Term(s, p + M), Term(s, p), Term(s, p + 1))
    ensures p + M < N ==> Term(s, p + M) == s[p + M]
    ensures p + 1 < N ==> Term(s, p + 1) == s[p + 1]
    ensures Term(s, p) == s[p]
  {
    hide Twist;
  }

  ghost predicate NextBlock(s: seq<bv32>, w: seq<bv32>)
    requires |s| == |w| == N
  {
    forall i :: 0 <= i < N ==> w[i] == Term(s, N + i)
  }

  /** A reload at the end of the block loses nothing of the stream. */
  lemma ReloadContinues(s: seq<bv32>, w: seq<bv32>)
    requires |s| == |w| == N && NextBlock(s, w)
    ensures Continues(s, N, w, 0, 0)
  {
    hide Twist, Temper;
    forall k: nat ensures Draw(w, 0, k) == Draw(s, N, 0 + k) {
      TermShift(s, w, N, k);
    }
  }

  lemma StepContinues(s: seq<bv32>, p: nat, w: seq<bv32>, q: nat, d: nat)
    requires |s| == |w| == N && q < N && Continues(s, p, w, q, d)
    ensures Continues(s, p, w, q + 1, d + 1)
    ensures Temper(w[q]) == Draw(s, p, d)
  {
    hide Temper, Twist;
    assert Temper(w[q]) == Draw(w, q, 0) == Draw(s, p, d + 0) by { assert Term(w, q) == w[q]; }
    ghost var q1, d1 := q + 1, d + 1;
    forall k: nat ensures Draw(w, q1, k) == Draw(s, p, d1 + k) {
      assert Draw(w, q, k + 1) == Draw(s, p, d + (k + 1));
      assert q1 + k == q + (k + 1) && d1 + k == d + (k + 1);
    }
  }

  lemma ContinuesOn(s: seq<bv32>, p: nat, w: seq<bv32>, q: nat, d: nat, x: seq<bv32>, r: nat, e: nat)
    requires |s| == |w| == |x| == N && Continues(s, p, w, q, d) && Continues(w, q, x, r, e)
    ensures Continues(s, p, x, r, d + e)
  {
    hide Draw;
    forall k: nat ensures Draw(x, r, k) == Draw(s, p, d + e + k) {
      assert Draw(x, r, k) == Draw(w, q, e + k) == Draw(s, p, d + (e + k));
      assert d + (e + k) == d + e + k;
    }
  }

  class MTRand {
    const state: array<bv32>
    var pNext: nat
    var left: nat

    ghost predicate Valid()
      reads this
    {
      state.Length == N && left <= N && pNext == N - left
    }

    constructor (seed: bv32)
      ensures Valid() && fresh(state)
      ensures Continues(SeedBlock(seed), N, state[..], pNext, 0)
    {
      state := new bv32[N];
      pNext, left := 0, N;
      new;
      Seed(seed);
    }

    /** `initialize` */
    method Initialize(seed: bv32)
      requires state.Length == N
      modifies state
      ensures state[..] == SeedBlock(seed)
    {
      hide Word, Seeded, SeedStep, Count, Half, Previous, Odd;
      state[0] := seed;
      SeededNext(seed, 0);
      for i := 1 to N
        invariant forall j :: 0 <= j < i ==> state[j] == Seeded(seed, j)
      {
        SeededNext(seed, i);
        state[i] := SeedStep(state[i - 1], Word(i));
      }
    }

    /** `reload`: each word is overwritten by the term `N` places later while others still need it. */
    method Reload()
      requires state.Length == N
      modifies this, state
      ensures Valid() && left == N && NextBlock(old(state[..]), state[..])
    {
      hide Twist, Term, Temper, Count;
      ghost var s := state[..];
      for p := 0 to N - M
        invariant forall i :: 0 <= i < p ==> state[i] == Term(s, N + i)
        invariant forall i :: p <= i < N ==> state[i] == s[i]
      {
        NextTerm(s, p);
        state[p] := Twist(state[p + M], state[p], state[p + 1]);
      }
      for p := N - M to N - 1
        invariant forall i :: 0 <= i < p ==> state[i] == Term(s, N + i)
        invariant forall i :: p <= i < N ==> state[i] == s[i]
      {
        NextTerm(s, p);
        state[p] := Twist(state[p + M - N], state[p], state[p + 1]);
      }
      NextTerm(s, N - 1);
      state[N - 1] := Twist(state[M - 1], state[N - 1], state[0]);
      left, pNext := N, 0;
    }

    /** `seed`: the stream is that of the seeded words, from the end of their block. */
    method Seed(seed: bv32)
      requires state.Length == N
      modifies this, state
      ensures Valid() && left == N
      ensures Continues(SeedBlock(seed), N, state[..], pNext, 0)
    {
      hide Term, Continues, Draw;
      Initialize(seed);
      Reload();
      ReloadContinues(SeedBlock(seed), state[..]);
    }

    /** `randInt`: the next draw of the unbounded stream, which otherwise stays the same. */
    method RandInt() returns (r: bv32)
      requires Valid()
      modifies this, state
      ensures Valid()
      ensures r == old(Draw(state[..], pNext, 0))
      ensures Continues(old(state[..]), old(pNext), state[..], pNext, 1)
    {
      hide Temper, Draw, Continues;
      ghost var s, p := state[..], pNext;
      SameStream(s, p);
      if left == 0 {
        Reload();
        ReloadContinues(s, state[..]);
      }
      left := left - 1;
      StepContinues(s, p, state[..], pNext, 0);
      var s1 := state[pNext];
      pNext := pNext + 1;
      r := Temper(s1);
    }

    static lemma SameStream(s: seq<bv32>, p: nat)
      requires |s| == N
      ensures Continues(s, p, s, p, 0)
    {
      hide Temper, Term;
    }

    /**
     * `randInt(n)`: the first draw that is at most `n` once masked. `k` names one such draw; without
     * any, the loop of the source does not end.
     */
    method RandUpTo(n: bv32, ghost k: nat) returns (r: bv32, ghost drawn: nat)
      requires Valid() && AtMost(Cut(Draw(state[..], pNext, k), Mask(n)), n)
      modifies this, state
      ensures Valid() && AtMost(r, n) && drawn <= k
      ensures r == Cut(old(Draw(state[..], pNext, drawn)), Mask(n))
      ensures forall j: nat :: j < drawn ==> !AtMost(Cut(old(Draw(state[..], pNext, j)), Mask(n)), n)
      ensures Continues(old(state[..]), old(pNext), state[..], pNext, drawn + 1)
    {
      hide Mask, Draw, Continues, Count, Cut, AtMost;
      ghost var s, p := state[..], pNext;
      var used := Mask(n);
      var i := RandInt();
      r := Cut(i, used);
      drawn := 0;
      while !AtMost(r, n)
        invariant Valid() && drawn <= k
        invariant r == Cut(Draw(s, p, drawn), used)
        invariant forall j: nat :: j < drawn ==> !AtMost(Cut(Draw(s, p, j), used), n)
        invariant Continues(s, p, state[..], pNext, drawn + 1)
        decreases k - drawn
      {
        ghost var w, q := state[..], pNext;
        i := RandInt();
        r := Cut(i, used);
        drawn := drawn + 1;
        ContinuesOn(s, p, w, q, drawn, state[..], pNext, 1);
        NowIs(s, p, w, q, drawn);
      }
    }

    static lemma NowIs(s: seq<bv32>, p: nat, w: seq<bv32>, q: nat, d: nat)
      requires |s| == |w| == N && Continues(s, p, w, q, d)
      ensures Draw(w, q, 0) == Draw(s, p, d)
    {
      hide Draw;
      assert Draw(w, q, 0) == Draw(s, p, d + 0);
    }

    /** `save`: the state words, then how many are left. */
    method Save(a: array<bv32>)
      requires Valid() && a.Length == N + 1 && a != state
      modifies a
      ensures a[..N] == state[..] && Count(a[N]) == left
    {
      for i := 0 to N
        invariant state[..] == old(state[..]) && a[..i] == state[..i]
      {
        a[i] := state[i];
      }
      a[N] := Word(left);
    }

    /** `load` */
    method Load(a: array<bv32>)
      requires state.Length == N && a.Length == N + 1 && a != state && Count(a[N]) <= N
      modifies this, state
      ensures Valid() && state[..] == a[..N] && left == Count(a[N])
    {
      for i := 0 to N
        invariant a[..] == old(a[..]) && state[..i] == a[..i]
      {
        state[i] := a[i];
      }
      left := Count(a[N]);
      pNext := N - left;
    }
  }

  /** A saved generator loaded into another one, in any state, draws the same stream from then on. */
  method SaveThenLoad(g: MTRand, h: MTRand)
    requires g.Valid() && h.Valid() && g.state != h.state && g != h
    modifies h, h.state
    ensures h.Valid() && Continues(g.state[..], g.pNext, h.state[..], h.pNext, 0)
  {
    hide Word, Count;
    var a := new bv32[N + 1];
    g.Save(a);
    h.Load(a);
    MTRand.SameStream(g.state[..], g.pNext);
  }

  /** Any number of draws from a seed: the `k`-th is the tempered `k`-th new term of the recurrence. */
  method DrawMany(seed: bv32, n: nat) returns (draws: seq<bv32>)
    ensures |draws| == n
    ensures forall k :: 0 <= k < n ==> draws[k] == Temper(Term(SeedBlock(seed), N + k))
  {
    hide Continues, Temper, Term, Seeded;
    var g := new MTRand(seed);
    ghost var s := SeedBlock(seed);
    draws := [];
    for i := 0 to n
      invariant fresh(g) && fresh(g.state) && g.Valid()
      invariant |draws| == i
      invariant forall k :: 0 <= k < i ==> draws[k] == Draw(s, N, k)
      invariant Continues(s, N, g.state[..], g.pNext, i)
    {
      MTRand.NowIs(s, N, g.state[..], g.pNext, i);
      ghost var w, q := g.state[..], g.pNext;
      var r := g.RandInt();
      ContinuesOn(s, N, w, q, i, g.state[..], g.pNext, 1);
      draws := draws + [r];
    }
  }
}
