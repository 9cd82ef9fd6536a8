/** The exception support object: its methods on the context blocks, proved against the machine. */
module ExceptionSystem {
  import opened ExceptionLanguage
  import opened ExceptionMachine
  import opened ExceptionSimulation

  /** How a call ends: back at the caller, at a setjmp, or in a panic. */
  datatype Landing = Returns | LongJmp(pc: nat) | Panic(name: string)

  /**
   * Raising on stack `p`: without a context the program panics; otherwise control goes to the innermost
   * one, which takes the exception and leaves the stack to the contexts around it.
   */
  ghost predicate Unwinds(ctxs: map<nat, Ctx>, p: Ptr, name: string, l: Landing, ctxs': map<nat, Ctx>, p': Ptr, bound: nat)
    requires Stack(ctxs, p, bound)
  {
    if p.To? then
      && l == LongJmp(ctxs[p.id].jmp) && p' == ctxs[p.id].up && Stack(ctxs', p', p.id)
      && p.id in ctxs' && ctxs'[p.id].state == Active && ctxs'[p.id].name == name
    else l == Panic(name) && p' == p
  }

  class ExceptionSupport {
    var handlers: Ptr
    var ctxs: map<nat, Ctx>
    var oddities: nat

    constructor ()
      ensures handlers == Null && ctxs == map[] && oddities == 0
    {
      handlers, ctxs, oddities := Null, map[], 0;
    }

    /** The machine configuration with this object's stack and contexts. */
    ghost function In(m: Config): Config
      reads this
    {
      m.(handlers := handlers, ctxs := ctxs, oddities := oddities)
    }

    static ghost function Land(m: Config, l: Landing): Config {
      match l
      case Returns => m
      case LongJmp(pc) => m.(pc := pc, returnedTwice := true)
      case Panic(name) => m.(status := Panicked(name))
    }

    /** `push_context`: a block newer than all on the stack goes on top of them. */
    method PushContext(c: nat)
      modifies this`handlers, this`ctxs
      ensures forall m: Config :: In(m) == Push(old(In(m)), c)
      ensures old(Stack(ctxs, handlers, c)) ==>
        handlers == To(c) && c in ctxs && ctxs[c].up == old(handlers) && Stack(ctxs, handlers, c + 1)
    {
      var jmp := if c in ctxs then ctxs[c].jmp else 0;
      ctxs := ctxs[c := Ctx(jmp, handlers, Placeholder, None, "")];
      if handlers.To? && handlers.id in ctxs && !ctxs[handlers.id].down.Null? {
        ctxs := ctxs[handlers.id := ctxs[handlers.id].(down := To(c))];
      }
      handlers := To(c);
      if old(Stack(ctxs, handlers, c)) { StackKept(old(ctxs), ctxs, old(handlers), c, c); }
    }

    /** `internal_raise`: skip used contexts, activate the first unused one and jump to it. */
    method InternalRaise(initial: bool, name: string) returns (l: Landing)
      modifies this`handlers, this`ctxs, this`oddities
      ensures forall m: Config :: Land(In(m), l) == ExceptionMachine.InternalRaise(old(In(m)), initial, name)
      ensures forall b: nat :: old(Stack(ctxs, handlers, b)) ==>
        Unwinds(old(ctxs), old(handlers), name, l, ctxs, handlers, b) && oddities == old(oddities)
    {
      var p := handlers;
      ghost var n0 := oddities;
      while p.To? && p.id in ctxs && ctxs[p.id].state != None
        invariant ctxs == old(ctxs) && handlers == old(handlers) && oddities >= n0
        invariant var (q, n) := SkipUsed(ctxs, p); var (q0, k) := SkipUsed(ctxs, handlers);
                  q0 == q && n0 + k == oddities + n
        decreases if p.To? then p.id + 1 else 0
      {
        oddities := oddities + 1;
        var up := ctxs[p.id].up;
        // Contexts are pushed under older ones; a link the other way would make the loop endless.
        if up.To? && up.id >= p.id { p := Null; break; }
        p := up;
      }
      assert SkipUsed(ctxs, p) == (p, 0);
      if p.To? && p.id in ctxs {
        var ctx := ctxs[p.id];
        ctxs := ctxs[p.id := ctx.(state := Active, name := name, down := if initial then Null else ctx.down)];
        handlers := ctx.up;
        l := LongJmp(ctx.jmp);
      } else {
        l := Panic(name);
      }
      forall b: nat | old(Stack(ctxs, handlers, b))
        ensures Unwinds(old(ctxs), old(handlers), name, l, ctxs, handlers, b) && oddities == old(oddities)
      {
        if p.To? { StackKept(old(ctxs), ctxs, old(ctxs)[p.id].up, p.id, p.id); }
      }
    }

    /** `pop_context`: pop, and pass an active exception up. */
    method PopContext(c: nat) returns (l: Landing)
      requires c in ctxs
      modifies this`handlers, this`ctxs, this`oddities
      ensures forall m: Config :: Land(In(m), l) == Pop(old(In(m)), c)
      ensures old(ctxs[c].state) != Active ==> l == Returns && handlers == old(ctxs[c].up)
      ensures forall b: nat :: b <= c && old(Stack(ctxs, ctxs[c].up, b)) ==>
        && oddities == old(oddities)
        && if old(ctxs[c].state) == Active
           then Unwinds(old(ctxs), old(ctxs[c].up), old(ctxs[c].name), l, ctxs, handlers, b)
           else Stack(ctxs, handlers, b)
    {
      var previous := ctxs[c].state;
      ctxs := ctxs[c := ctxs[c].(state := Popped)];
      handlers := ctxs[c].up;
      ghost var popped, up := ctxs, handlers;
      l := Returns;
      if previous == Active {
        l := InternalRaise(false, ctxs[c].name);
      }
      forall b: nat | b <= c && old(Stack(ctxs, ctxs[c].up, b))
        ensures oddities == old(oddities)
        ensures if previous == Active then Unwinds(old(ctxs), up, old(ctxs[c].name), l, ctxs, handlers, b) else Stack(ctxs, handlers, b)
      {
        StackKept(old(ctxs), popped, up, b, b);
        assert previous == Active ==> Unwinds(popped, up, old(ctxs[c].name), l, ctxs, handlers, b);
      }
    }

    /** The trace walk of OS_ENDTRY, which can be told from a runaway one: `safe` is exactly `Walk`. */
    method WalkDown(c: nat, bound: nat) returns (safe: bool)
      ensures safe == Walk(ctxs, c, bound)
    {
      var at := c;
      while at in ctxs && at < bound && ctxs[at].down.To? && at < ctxs[at].down.id
        invariant Walk(ctxs, c, bound) == Walk(ctxs, at, bound)
        decreases if at < bound then bound - at else 0
      {
        at := ctxs[at].down.id;
      }
      safe := at in ctxs && at < bound && ctxs[at].down.Null?;
    }
  }

  /** A context pushed and popped again leaves the stack, and the contexts on it, as they were. */
  lemma PopUndoesPush(m: Config, c: nat)
    requires Stack(m.ctxs, m.handlers, c)
    ensures var m' := Pop(Push(m, c), c);
      && m'.handlers == m.handlers && Stack(m'.ctxs, m'.handlers, c)
      && m' == m.(ctxs := m'.ctxs) && c in m'.ctxs && m'.ctxs[c].state == Popped
      && forall g :: g in m.ctxs && g != c ==> g in m'.ctxs && m'.ctxs[g] == m.ctxs[g].(down := m'.ctxs[g].down)
  {
    StackKept(m.ctxs, Pop(Push(m, c), c).ctxs, m.handlers, c, c);
  }
}
