/** The expansion run on the handler stack does what the structured program means. */
module ExceptionSimulation {
  import opened ExceptionLanguage
  import opened ExceptionMachine

  /** The handler stack: live contexts in state none, each older than the one below it. */
  ghost predicate Stack(ctxs: map<nat, Ctx>, p: Ptr, bound: nat)
    decreases bound
  {
    match p
    case Null => true
    case Placeholder => false
    case To(h) => h < bound && h in ctxs && ctxs[h].state == None && Stack(ctxs, ctxs[h].up, h)
  }

  ghost predicate Placed(code: seq<Instr>, at: nat, part: seq<Instr>) {
    at + |part| <= |code| && forall i :: 0 <= i < |part| ==> code[at + i] == part[i]
  }

  lemma PlacedSplit(code: seq<Instr>, at: nat, a: seq<Instr>, b: seq<Instr>)
    requires Placed(code, at, a + b)
    ensures Placed(code, at, a) && Placed(code, at + |a|, b)
  {
    forall i | 0 <= i < |a| ensures code[at + i] == a[i] { assert (a + b)[i] == a[i]; }
    forall i | 0 <= i < |b| ensures code[at + |a| + i] == b[i] { assert (a + b)[|a| + i] == b[i]; }
  }

  /** Contexts older than `at` keep their contents, save the `down` pointer of the innermost handler. */
  ghost predicate Kept(ctxs: map<nat, Ctx>, ctxs': map<nat, Ctx>, at: nat, top: Ptr) {
    forall g: nat :: g in ctxs && g < at ==>
      && g in ctxs' && ctxs'[g] == ctxs[g].(down := ctxs'[g].down)
      && (top != To(g) || ctxs[g].down.Null? ==> ctxs'[g].down == ctxs[g].down)
  }

  /** Normal end: control is just past the code, and the handler stack is as before. */
  ghost predicate Fell(m: Config, m': Config, at: nat, end: nat, trace: seq<int>) {
    && m'.status == Running && m'.pc == end && m'.handlers == m.handlers
    && m'.trace == m.trace + trace && m'.oddities == m.oddities
    && Kept(m.ctxs, m'.ctxs, at, m.handlers)
  }

  /**
   * Exceptional end: control is at the setjmp of the innermost enclosing context, which holds the
   * exception, is off the stack, and heads a well-founded trace; without one, the program panicked.
   */
  ghost predicate Threw(m: Config, m': Config, at: nat, end: nat, trace: seq<int>, name: string) {
    && m'.trace == m.trace + trace && m'.oddities == m.oddities
    && match m.handlers
       case Null => m'.status == Panicked(name)
       case Placeholder => false
       case To(h) =>
         && h in m.ctxs && h in m'.ctxs
         && m'.status == Running && m'.pc == m.ctxs[h].jmp && m'.returnedTwice && m'.handlers == m.ctxs[h].up
         && m'.ctxs[h] == m.ctxs[h].(state := Active, name := name, down := m'.ctxs[h].down)
         && Walk(m'.ctxs, h, end)
         && forall g: nat :: g in m.ctxs && g < at && g != h ==> g in m'.ctxs && m'.ctxs[g] == m.ctxs[g]
  }

  ghost predicate Ends(m: Config, m': Config, at: nat, end: nat, r: Result) {
    if r.outcome.Normal? then Fell(m, m', at, end, r.trace) else Threw(m, m', at, end, r.trace, r.outcome.name)
  }

  /** What code at `at` may assume when control reaches it. */
  ghost predicate Ready(m: Config, at: nat, bound: nat) {
    m.status == Running && m.pc == at && bound <= at && Stack(m.ctxs, m.handlers, bound)
  }

  // ---- frames ----

  lemma {:induction false} StackKept(ctxs: map<nat, Ctx>, ctxs': map<nat, Ctx>, p: Ptr, bound: nat, bound': nat)
    requires Stack(ctxs, p, bound) && bound <= bound'
    requires forall g: nat :: g in ctxs && g < bound ==>
      g in ctxs' && ctxs'[g].state == ctxs[g].state && ctxs'[g].up == ctxs[g].up
    ensures Stack(ctxs', p, bound')
    decreases bound
  {
    if p.To? { StackKept(ctxs, ctxs', ctxs[p.id].up, p.id, p.id); }
  }

  lemma {:induction false} WalkKept(ctxs: map<nat, Ctx>, ctxs': map<nat, Ctx>, c: nat, bound: nat, bound': nat)
    requires Walk(ctxs, c, bound) && bound <= bound'
    requires forall g: nat :: g in ctxs && c <= g < bound ==> g in ctxs' && ctxs'[g].down == ctxs[g].down
    ensures Walk(ctxs', c, bound')
    decreases bound - c
  {
    if ctxs[c].down.To? { WalkKept(ctxs, ctxs', ctxs[c].down.id, bound, bound'); }
  }

  /** A raise below a live handler reaches it at once, whatever its `down` pointer. */
  lemma RaiseThrows(m: Config, at: nat, end: nat, initial: bool, name: string, next: Config)
    requires m.status == Running && Stack(m.ctxs, m.handlers, at) && at <= end
    requires next == m.(pc := next.pc)
    requires !initial && m.handlers.To? ==> m.handlers.id in m.ctxs && Walk(m.ctxs, m.handlers.id, end)
    ensures Threw(m, InternalRaise(next, initial, name), at, end, [], name)
  {
    assert SkipUsed(m.ctxs, m.handlers) == (m.handlers, 0);
    assert m.trace + [] == m.trace;
    if m.handlers.To? && !initial {
      var h := m.handlers.id;
      WalkKept(m.ctxs, InternalRaise(next, initial, name).ctxs, h, end, end);
    }
  }

  /** Sequential composition of endings. */
  lemma FellThenEnds(m: Config, m1: Config, m2: Config, at: nat, mid: nat, end: nat, t: seq<int>, r: Result)
    requires Fell(m, m1, at, mid, t) && at <= mid && Ends(m1, m2, mid, end, r)
    requires Stack(m.ctxs, m.handlers, at)
    ensures Ends(m, m2, at, end, Result(t + r.trace, r.outcome))
  {
    assert m.trace + (t + r.trace) == m.trace + t + r.trace;
  }

  // ---- entering an OS_TRY ----

  /** The state at the first instruction of the guarded block of the OS_TRY at `c`. */
  ghost predicate Entered(m: Config, m3: Config, c: nat) {
    && m3.status == Running && m3.pc == c + 3 && m3.handlers == To(c)
    && m3.trace == m.trace && m3.oddities == m.oddities
    && Kept(m.ctxs, m3.ctxs, c, m.handlers)
    && c in m3.ctxs && m3.ctxs[c].state == None && m3.ctxs[c].up == m.handlers && m3.ctxs[c].jmp == c + 2
    && (m.handlers.To? && m.handlers.id in m3.ctxs ==> m3.ctxs[m.handlers.id].down in {Null, To(c)})
  }

  lemma Prologue(code: seq<Instr>, c: nat, target: nat)
    requires Placed(code, c, [PushContext(c), SetJmp(c), IfJumped(target)])
    ensures c + 3 <= |code| && code[c] == PushContext(c) && code[c + 1] == SetJmp(c) && code[c + 2] == IfJumped(target)
  {
    var part := [PushContext(c), SetJmp(c), IfJumped(target)];
    assert code[c + 0] == part[0] && code[c + 1] == part[1] && code[c + 2] == part[2];
  }

  lemma EnterTry(code: seq<Instr>, m: Config, c: nat, target: nat) returns (m3: Config)
    requires Ready(m, c, c) && Placed(code, c, [PushContext(c), SetJmp(c), IfJumped(target)])
    ensures Reaches(code, m, m3) && Entered(m, m3, c)
    ensures Stack(m3.ctxs, m3.handlers, c + 1)
  {
    Prologue(code, c, target);
    var m1 := Push(m.(pc := c + 1), c);
    PushLinks(m, c, m1);
    var m2 := m1.(pc := c + 2, ctxs := m1.ctxs[c := m1.ctxs[c].(jmp := c + 2)], returnedTwice := false);
    m3 := m2.(pc := c + 3);
    hide Push, Placed, Stack, Kept;
    assert Step(code, m) == m1 && Step(code, m1) == m2 && Step(code, m2) == m3;
    ReachesStep(code, m);
    ReachesStep(code, m1);
    ReachesStep(code, m2);
    ReachesTrans(code, m, m1, m2);
    ReachesTrans(code, m, m2, m3);
    JmpKeeps(m, m1, m3, c);
  }

  lemma JmpKeeps(m: Config, m1: Config, m3: Config, c: nat)
    requires Kept(m.ctxs, m1.ctxs, c, m.handlers) && c in m1.ctxs
    requires m3.ctxs == m1.ctxs[c := m1.ctxs[c].(jmp := c + 2)] && m3.handlers == To(c)
    requires m1.ctxs[c].state == None && m1.ctxs[c].up == m.handlers && Stack(m.ctxs, m.handlers, c)
    ensures Kept(m.ctxs, m3.ctxs, c, m.handlers) && Stack(m3.ctxs, m3.handlers, c + 1)
  {
    StackKept(m.ctxs, m3.ctxs, m.handlers, c, c);
  }

  lemma PushLinks(m: Config, c: nat, m1: Config)
    requires Stack(m.ctxs, m.handlers, c) && m1 == Push(m.(pc := c + 1), c)
    ensures Kept(m.ctxs, m1.ctxs, c, m.handlers)
    ensures c in m1.ctxs && m1.ctxs[c].state == None && m1.ctxs[c].up == m.handlers
    ensures m1 == m.(pc := c + 1, ctxs := m1.ctxs, handlers := To(c))
    ensures m.handlers.To? && m.handlers.id in m1.ctxs ==> m1.ctxs[m.handlers.id].down in {Null, To(c)}
  {
  }

  /**
   * After the guarded block threw, control is past the setjmp test at `target` with context `c`
   * active, off the stack, and heading a trace that stays within the guarded block.
   */
  ghost predicate Caught(m: Config, m5: Config, c: nat, target: nat, trace: seq<int>, name: string) {
    && m5.status == Running && m5.pc == target && m5.handlers == m.handlers
    && m5.trace == m.trace + trace && m5.oddities == m.oddities
    && Kept(m.ctxs, m5.ctxs, c, m.handlers)
    && c in m5.ctxs && m5.ctxs[c].state == Active && m5.ctxs[c].name == name && m5.ctxs[c].up == m.handlers
    && Walk(m5.ctxs, c, target)
    && (m.handlers.To? && m.handlers.id in m5.ctxs ==> m5.ctxs[m.handlers.id].down in {Null, To(c)})
  }

  lemma CatchJump(code: seq<Instr>, m: Config, m3: Config, m4: Config, c: nat, target: nat, end: nat, t: seq<int>, name: string)
    requires Ready(m, c, c) && Placed(code, c, [PushContext(c), SetJmp(c), IfJumped(target)])
    requires Entered(m, m3, c) && Threw(m3, m4, c + 3, end, t, name) && end <= target
    ensures Caught(m, Step(code, m4), c, target, t, name) && Reaches(code, m4, Step(code, m4))
    ensures Stack(Step(code, m4).ctxs, m.handlers, c)
  {
    Prologue(code, c, target);
    ReachesStep(code, m4);
    StackKept(m.ctxs, m4.ctxs, m.handlers, c, c);
    WalkKept(m4.ctxs, m4.ctxs, c, end, target);
  }

  // ---- leaving an OS_TRY ----

  /** OS_ENDTRY of a context that has been popped or whose exception was handled does nothing. */
  lemma EndQuietly(code: seq<Instr>, m: Config, c: nat)
    requires m.status == Running && m.pc < |code| && code[m.pc] == EndTry(c)
    requires c in m.ctxs && (m.ctxs[c].state == Popped || m.ctxs[c].state == Handled)
    ensures Step(code, m) == m.(pc := m.pc + 1) && Reaches(code, m, Step(code, m))
  {
    ReachesStep(code, m);
  }

  /** OS_ENDTRY of a context that saw no exception pops it. */
  lemma EndPops(code: seq<Instr>, m: Config, c: nat)
    requires m.status == Running && m.pc < |code| && code[m.pc] == EndTry(c)
    requires c in m.ctxs && m.ctxs[c].state == None
    ensures Reaches(code, m, Step(code, m))
    ensures Step(code, m) == m.(pc := m.pc + 1, handlers := m.ctxs[c].up,
                                ctxs := m.ctxs[c := m.ctxs[c].(state := Popped)])
  {
    ReachesStep(code, m);
  }

  /** OS_ENDTRY of a context with an unhandled exception walks its trace safely and passes it up. */
  lemma EndPropagates(code: seq<Instr>, m: Config, c: nat, end: nat)
    requires m.status == Running && m.pc < |code| && code[m.pc] == EndTry(c) && m.pc < end
    requires c in m.ctxs && m.ctxs[c].state == Active && Walk(m.ctxs, c, m.pc) && c <= end
    requires m.ctxs[c].up == m.handlers && Stack(m.ctxs, m.handlers, c)
    requires m.handlers.To? ==> m.ctxs[m.handlers.id].down in {Null, To(c)}
    ensures Reaches(code, m, Step(code, m))
    ensures Threw(m, Step(code, m), c, end, [], m.ctxs[c].name)
  {
    ReachesStep(code, m);
    WalkKept(m.ctxs, m.ctxs, c, m.pc, |code|);
    var p := m.(pc := m.pc + 1, ctxs := m.ctxs[c := m.ctxs[c].(state := Popped)], handlers := m.ctxs[c].up);
    WalkKept(m.ctxs, p.ctxs, c, m.pc, end);
    StackKept(m.ctxs, p.ctxs, m.handlers, c, c);
    RaiseThrows(p, c, end, false, m.ctxs[c].name, p);
  }

  // ---- the simulation ----

  predicate Matches(h: Handlers, name: string)
  {
    match h
    case NoMore => false
    case CatchAll(_) => true
    case Catch(n, _, rest) => n == name || Matches(rest, name)
  }

  lemma One(code: seq<Instr>, at: nat, i: Instr)
    requires Placed(code, at, [i])
    ensures at < |code| && code[at] == i
  {
    assert code[at + 0] == [i][0];
  }

  /** What an OS_RERAISE in `s` may assume about its lexical context. */
  ghost predicate Current(s: Stmt, inHandler: bool, m: Config, ctx: nat, bound: nat, current: string) {
    WellFormed(s, inHandler) && (inHandler ==> bound <= ctx && ctx in m.ctxs && m.ctxs[ctx].name == current)
  }

  /**
   * From a ready state, the code of `s` reaches the ending that `Run` prescribes. `bound` separates
   * the contexts on the handler stack from the lexical context of a handler.
   */
  lemma SimulateAct(code: seq<Instr>, at: nat, tag: int, m: Config, bound: nat) returns (m': Config)
    requires Placed(code, at, [Emit(tag)]) && Ready(m, at, bound)
    ensures Reaches(code, m, m') && Fell(m, m', at, at + 1, [tag])
  {
    One(code, at, Emit(tag));
    m' := Step(code, m);
    ReachesStep(code, m);
  }

  lemma SimulateRaise(code: seq<Instr>, at: nat, i: Instr, name: string, m: Config, bound: nat) returns (m': Config)
    requires Placed(code, at, [i]) && Ready(m, at, bound)
    requires i == DoRaise(name) || (i.DoReraise? && i.c in m.ctxs && m.ctxs[i.c].name == name)
    ensures Reaches(code, m, m') && Threw(m, m', at, at + 1, [], name)
  {
    One(code, at, i);
    m' := InternalRaise(m.(pc := m.pc + 1), true, name);
    StackKept(m.ctxs, m.ctxs, m.handlers, bound, at);
    RaiseThrows(m, at, at + 1, true, name, m.(pc := m.pc + 1));
    hide InternalRaise, Threw;
    assert Step(code, m) == m';
    ReachesStep(code, m);
  }

  /**
   * From a ready state, the code of `s` reaches the ending that `Run` prescribes. `bound` separates
   * the contexts on the handler stack from the lexical context of a handler.
   */
  lemma {:induction false} Simulate(code: seq<Instr>, s: Stmt, at: nat, ctx: nat, inHandler: bool, current: string,
                                    m: Config, bound: nat) returns (m': Config)
    requires Placed(code, at, Expand(s, at, ctx)) && Ready(m, at, bound)
    requires Current(s, inHandler, m, ctx, bound, current) && (inHandler ==> ctx < at)
    ensures Reaches(code, m, m') && Ends(m, m', at, at + Size(s), Run(s, current))
    decreases s, 1
  {
    hide Fell, Threw, Stack, Placed, Reaches;
    match s
    case Skip =>
      m' := m;
      StayPut(code, m, at, bound);
    case Act(tag) =>
      m' := SimulateAct(code, at, tag, m, bound);
    case Raise(name) =>
      m' := SimulateRaise(code, at, DoRaise(name), name, m, bound);
    case Reraise =>
      m' := SimulateRaise(code, at, DoReraise(ctx), current, m, bound);
    case Seq(a, b) =>
      m' := SimulateSeq(code, s, at, ctx, inHandler, current, m, bound);
    case TryCatch(body, handlers) =>
      m' := SimulateCatch(code, s, at, ctx, current, m, bound);
    case TryFinally(body, cleanup) =>
      m' := SimulateFinally(code, s, at, ctx, current, m, bound);
  }

  lemma StayPut(code: seq<Instr>, m: Config, at: nat, bound: nat)
    requires Ready(m, at, bound)
    ensures Reaches(code, m, m) && Fell(m, m, at, at, [])
  {
    ReachesStep(code, m);
    assert m.trace + [] == m.trace;
  }

  lemma {:induction false} SimulateSeq(code: seq<Instr>, s: Stmt, at: nat, ctx: nat, inHandler: bool,
                                       current: string, m: Config, bound: nat) returns (m': Config)
    requires s.Seq? && Placed(code, at, Expand(s, at, ctx)) && Ready(m, at, bound)
    requires Current(s, inHandler, m, ctx, bound, current) && (inHandler ==> ctx < at)
    ensures Reaches(code, m, m') && Ends(m, m', at, at + Size(s), Run(s, current))
    decreases s, 0
  {
    hide Placed, Reaches, Step;
    var Seq(a, b) := s;
    var mid, end := at + Size(a), at + Size(a) + Size(b);
    PlacedSplit(code, at, Expand(a, at, ctx), Expand(b, mid, ctx));
    var m1 := Simulate(code, a, at, ctx, inHandler, current, m, bound);
    var ra := Run(a, current);
    if ra.outcome.Raised? {
      m' := m1;
      ThrewWithin(m, m', at, mid, end, ra.trace, ra.outcome.name);
    } else {
      StackKept(m.ctxs, m1.ctxs, m.handlers, bound, bound);
      m' := Simulate(code, b, mid, ctx, inHandler, current, m1, bound);
      ReachesTrans(code, m, m1, m');
      StackKept(m.ctxs, m.ctxs, m.handlers, bound, at);
      FellThenEnds(m, m1, m', at, mid, end, ra.trace, Run(b, current));
    }
  }

  lemma ThrewWithin(m: Config, m': Config, at: nat, mid: nat, end: nat, t: seq<int>, name: string)
    requires Threw(m, m', at, mid, t, name) && mid <= end
    ensures Threw(m, m', at, end, t, name)
  {
    if m.handlers.To? { WalkKept(m'.ctxs, m'.ctxs, m.handlers.id, mid, end); }
  }

  // ---- OS_TRY with OS_CATCH ----

  /** The guarded block fell through: jump to OS_ENDTRY and pop. */
  lemma LeaveNormally(code: seq<Instr>, m: Config, m3: Config, m4: Config, c: nat, mid: nat, end: nat, t: seq<int>)
    returns (m': Config)
    requires Entered(m, m3, c) && Fell(m3, m4, c + 3, mid, t) && c <= mid < |code| && code[mid] == Goto(end)
    requires end < |code| && code[end] == EndTry(c)
    ensures Reaches(code, m4, m') && Fell(m, m', c, end + 1, t)
  {
    var m5 := m4.(pc := end);
    assert Step(code, m4) == m5;
    ReachesStep(code, m4);
    EndPops(code, m5, c);
    m' := Step(code, m5);
    ReachesTrans(code, m4, m5, m');
  }

  lemma CaughtThenThrew(m: Config, m5: Config, m6: Config, c: nat, target: nat, end: nat, end': nat,
                        t: seq<int>, t2: seq<int>, name: string, name2: string)
    requires Caught(m, m5, c, target, t, name) && Threw(m5, m6, c, end, t2, name2) && end <= end'
    requires Stack(m.ctxs, m.handlers, c)
    ensures Threw(m, m6, c, end', t + t2, name2)
  {
    assert m.trace + (t + t2) == m.trace + t + t2;
    if m.handlers.To? { WalkKept(m6.ctxs, m6.ctxs, m.handlers.id, end, end'); }
  }

  /** A clause handled the exception and fell through to OS_ENDTRY. */
  ghost predicate Cured(m: Config, m': Config, c: nat, end: nat, trace: seq<int>) {
    Fell(m, m', c, end, trace) && c in m'.ctxs && m'.ctxs[c].state == Handled
  }

  /** What the catch clauses do with the active exception of context `c`. */
  ghost predicate Dealt(m: Config, m': Config, c: nat, end: nat, h: Handlers, name: string) {
    var r := Handle(h, name);
    if !Matches(h, name) then m' == m.(pc := end)
    else if r.outcome.Normal? then Cured(m, m', c, end, r.trace)
    else Threw(m, m', c, end, r.trace, r.outcome.name)
  }

  ghost predicate Pending(m: Config, at: nat, c: nat, name: string) {
    && m.status == Running && m.pc == at && c < at
    && c in m.ctxs && m.ctxs[c].state == Active && m.ctxs[c].name == name
    && Stack(m.ctxs, m.handlers, c)
  }

  /** The handler body after its clause was chosen at `at`. */
  lemma {:induction false} SimulateHandler(code: seq<Instr>, handler: Stmt, at: nat, c: nat, name: string, m: Config)
    returns (m': Config)
    requires Placed(code, at, [SetHandled(c)]) && Placed(code, at + 1, Expand(handler, at + 1, c))
    requires Pending(m, at, c, name) && WellFormed(handler, true)
    ensures Reaches(code, m, m')
    ensures var r := Run(handler, name); var end := at + 1 + Size(handler);
            if r.outcome.Normal? then Cured(m, m', c, end, r.trace) else Threw(m, m', c, end, r.trace, r.outcome.name)
    decreases handler, 2
  {
    hide Placed, Stack, Reaches, Fell, Threw, Ends, Cured;
    var m1 := m.(pc := at + 1, ctxs := m.ctxs[c := m.ctxs[c].(state := Handled)]);
    MarkHandled(code, m, m1, at, c, name);
    m' := Simulate(code, handler, at + 1, c, true, name, m1, c);
    ReachesTrans(code, m, m1, m');
    HandledThenEnds(m, m1, m', at, c, at + 1 + Size(handler), Run(handler, name));
  }

  lemma MarkHandled(code: seq<Instr>, m: Config, m1: Config, at: nat, c: nat, name: string)
    requires Placed(code, at, [SetHandled(c)]) && Pending(m, at, c, name)
    requires m1 == m.(pc := at + 1, ctxs := m.ctxs[c := m.ctxs[c].(state := Handled)])
    ensures Reaches(code, m, m1) && Ready(m1, at + 1, c)
  {
    One(code, at, SetHandled(c));
    assert Step(code, m) == m1;
    ReachesStep(code, m);
    StackKept(m.ctxs, m1.ctxs, m.handlers, c, c);
  }

  lemma HandledThenEnds(m: Config, m1: Config, m': Config, at: nat, c: nat, end: nat, r: Result)
    requires c < at && c in m.ctxs && Stack(m.ctxs, m.handlers, c)
    requires m1 == m.(pc := at + 1, ctxs := m.ctxs[c := m.ctxs[c].(state := Handled)])
    requires Ends(m1, m', at + 1, end, r)
    ensures if r.outcome.Normal? then Cured(m, m', c, end, r.trace) else Threw(m, m', c, end, r.trace, r.outcome.name)
  {
  }

  lemma {:induction false} SimulateHandlers(code: seq<Instr>, h: Handlers, at: nat, c: nat, end: nat, name: string, m: Config)
    returns (m': Config)
    requires Placed(code, at, ExpandHandlers(h, at, c, end)) && end == at + HandlersSize(h)
    requires Pending(m, at, c, name) && WellFormedHandlers(h)
    ensures Reaches(code, m, m') && Dealt(m, m', c, end, h, name)
    decreases h, 0
  {
    match h
    case NoMore =>
      m' := m;
      ReachesStep(code, m);
    case CatchAll(handler) =>
      PlacedSplit(code, at, [SetHandled(c)], Expand(handler, at + 1, c));
      m' := SimulateHandler(code, handler, at, c, name, m);
    case Catch(n, handler, rest) =>
      m' := SimulateClause(code, h, at, c, end, name, m);
  }

  lemma {:induction false} SimulateClause(code: seq<Instr>, h: Handlers, at: nat, c: nat, end: nat, name: string, m: Config)
    returns (m': Config)
    requires h.Catch? && Placed(code, at, ExpandHandlers(h, at, c, end)) && end == at + HandlersSize(h)
    requires Pending(m, at, c, name) && WellFormedHandlers(h)
    ensures Reaches(code, m, m') && Dealt(m, m', c, end, h, name)
    decreases h, -1
  {
    hide Placed, Stack, Cured, Threw, Reaches, Step;
    var Catch(n, handler, rest) := h;
    var mid := at + 2 + Size(handler);
    var body, others := Expand(handler, at + 2, c), ExpandHandlers(rest, mid + 1, c, end);
    ClausePieces(code, at, IfNoMatch(c, n, mid + 1), SetHandled(c), body, Goto(end), others);
    var m1 := m.(pc := if n == name then at + 1 else mid + 1);
    TestClause(code, m, at, c, n, mid + 1, name);
    if n == name {
      var m2 := SimulateHandler(code, handler, at + 1, c, name, m1);
      ReachesTrans(code, m, m1, m2);
      m' := LeaveClause(code, m, m1, m2, c, mid, end, Run(handler, name));
      ReachesTrans(code, m, m2, m');
    } else {
      m' := SimulateHandlers(code, rest, mid + 1, c, end, name, m1);
      ReachesTrans(code, m, m1, m');
      DealtFromPc(m, m1, m', c, end, rest, name);
    }
  }

  lemma TestClause(code: seq<Instr>, m: Config, at: nat, c: nat, n: string, next: nat, name: string)
    requires Pending(m, at, c, name) && at < |code| && code[at] == IfNoMatch(c, n, next)
    ensures Reaches(code, m, m.(pc := if n == name then at + 1 else next))
  {
    ReachesStep(code, m);
  }

  /** A chosen handler that fell through jumps to OS_ENDTRY; one that threw is already elsewhere. */
  lemma LeaveClause(code: seq<Instr>, m: Config, m1: Config, m2: Config, c: nat, mid: nat, end: nat, r: Result)
    returns (m': Config)
    requires m1 == m.(pc := m1.pc) && mid < |code| && code[mid] == Goto(end) && mid <= end
    requires if r.outcome.Normal? then Cured(m1, m2, c, mid, r.trace) else Threw(m1, m2, c, mid, r.trace, r.outcome.name)
    ensures Reaches(code, m2, m')
    ensures if r.outcome.Normal? then Cured(m, m', c, end, r.trace) else Threw(m, m', c, end, r.trace, r.outcome.name)
  {
    ReachesStep(code, m2);
    if r.outcome.Normal? {
      m' := Step(code, m2);
    } else {
      m' := m2;
      ThrewWithin(m, m2, c, mid, end, r.trace, r.outcome.name);
    }
  }

  lemma DealtFromPc(m: Config, m1: Config, m': Config, c: nat, end: nat, h: Handlers, name: string)
    requires m1 == m.(pc := m1.pc) && Dealt(m1, m', c, end, h, name)
    ensures Dealt(m, m', c, end, h, name)
  {
  }

  lemma ClausePieces(code: seq<Instr>, at: nat, test: Instr, mark: Instr, body: seq<Instr>, leave: Instr, others: seq<Instr>)
    requires Placed(code, at, [test, mark] + body + [leave] + others)
    ensures at < |code| && code[at] == test && Placed(code, at + 1, [mark]) && Placed(code, at + 2, body)
    ensures at + 2 + |body| < |code| && code[at + 2 + |body|] == leave && Placed(code, at + 3 + |body|, others)
  {
    PlacedSplit(code, at, [test, mark] + body + [leave], others);
    PlacedSplit(code, at, [test, mark] + body, [leave]);
    PlacedSplit(code, at, [test, mark], body);
    assert [test, mark] == [test] + [mark];
    PlacedSplit(code, at, [test], [mark]);
    One(code, at, test);
    One(code, at + 2 + |body|, leave);
  }

  lemma {:induction false} SimulateCatch(code: seq<Instr>, s: Stmt, at: nat, ctx: nat, current: string,
                                         m: Config, bound: nat) returns (m': Config)
    requires s.TryCatch? && Placed(code, at, Expand(s, at, ctx)) && Ready(m, at, bound) && WellFormed(s, false)
    ensures Reaches(code, m, m') && Ends(m, m', at, at + Size(s), Run(s, current))
    decreases s, 0
  {
    hide Placed, Threw, Fell, Entered, Reaches, Kept;
    var TryCatch(body, h) := s;
    var mid := at + 3 + Size(body);
    var end := mid + 1 + HandlersSize(h);
    CatchPieces(code, at, s, ctx);
    StackKept(m.ctxs, m.ctxs, m.handlers, bound, at);
    var m3 := EnterTry(code, m, at, mid + 1);
    EnteredReady(m, m3, at);
    var m4 := Simulate(code, body, at + 3, at, false, current, m3, at + 1);
    ReachesTrans(code, m, m3, m4);
    var rb := Run(body, current);
    if rb.outcome.Normal? {
      m' := LeaveNormally(code, m, m3, m4, at, mid, end, rb.trace);
    } else {
      m' := AfterThrow(code, h, at, mid, end, m, m3, m4, rb.trace, rb.outcome.name);
    }
    ReachesTrans(code, m, m4, m');
  }

  /** The guarded block threw: the clauses, then OS_ENDTRY. */
  lemma {:induction false} AfterThrow(code: seq<Instr>, h: Handlers, at: nat, mid: nat, end: nat,
                                      m: Config, m3: Config, m4: Config, t: seq<int>, name: string) returns (m': Config)
    requires Placed(code, at, [PushContext(at), SetJmp(at), IfJumped(mid + 1)]) && at + 3 <= mid
    requires Placed(code, mid + 1, ExpandHandlers(h, mid + 1, at, end)) && end == mid + 1 + HandlersSize(h)
    requires end < |code| && code[end] == EndTry(at)
    requires Ready(m, at, at) && WellFormedHandlers(h)
    requires Entered(m, m3, at) && Threw(m3, m4, at + 3, mid, t, name)
    ensures Reaches(code, m4, m')
    ensures var rh := Handle(h, name); Ends(m, m', at, end + 1, Result(t + rh.trace, rh.outcome))
    decreases h, 1
  {
    hide Placed, Stack, Threw, Entered, Dealt, Reaches, Step, Ends, Kept, Expand, Handle, Caught;
    CatchJump(code, m, m3, m4, at, mid + 1, mid, t, name);
    var m5 := Step(code, m4);
    var m6 := SimulateHandlers(code, h, mid + 1, at, end, name, m5);
    ReachesTrans(code, m4, m5, m6);
    m' := AfterClauses(code, m, m5, m6, at, mid + 1, end, h, t, name);
    ReachesTrans(code, m4, m6, m');
  }

  lemma AfterClauses(code: seq<Instr>, m: Config, m5: Config, m6: Config, c: nat, target: nat, end: nat, h: Handlers,
                     t: seq<int>, name: string) returns (m': Config)
    requires Stack(m.ctxs, m.handlers, c) && Stack(m5.ctxs, m.handlers, c)
    requires Caught(m, m5, c, target, t, name) && Dealt(m5, m6, c, end, h, name)
    requires c < target <= end < |code| && code[end] == EndTry(c)
    ensures Reaches(code, m6, m')
    ensures var rh := Handle(h, name); Ends(m, m', c, end + 1, Result(t + rh.trace, rh.outcome))
  {
    hide Stack, Caught, Dealt, Reaches, Ends;
    if !Matches(h, name) {
      m' := AfterNoClause(code, m, m5, m6, c, target, end, h, t, name);
    } else if Handle(h, name).outcome.Normal? {
      m' := AfterQuietClause(code, m, m5, m6, c, target, end, h, t, name);
    } else {
      m' := AfterThrowingClause(code, m, m5, m6, c, target, end, h, t, name);
    }
  }

  /** No clause names the exception: OS_ENDTRY passes it up. */
  lemma AfterNoClause(code: seq<Instr>, m: Config, m5: Config, m6: Config, c: nat, target: nat, end: nat, h: Handlers,
                      t: seq<int>, name: string) returns (m': Config)
    requires Stack(m.ctxs, m.handlers, c) && Stack(m5.ctxs, m.handlers, c)
    requires Caught(m, m5, c, target, t, name) && Dealt(m5, m6, c, end, h, name)
    requires c < target <= end < |code| && code[end] == EndTry(c) && !Matches(h, name)
    ensures Reaches(code, m6, m')
    ensures var rh := Handle(h, name); Ends(m, m', c, end + 1, Result(t + rh.trace, rh.outcome))
  {
    hide Reaches;
    UnmatchedGoesOn(h, name);
    assert t + [] == t;
    WalkKept(m5.ctxs, m6.ctxs, c, target, end);
    EndPropagates(code, m6, c, end + 1);
    m' := Step(code, m6);
    CaughtThenThrew(m, m5, m', c, target, end + 1, end + 1, t, [], name, name);
  }

  /** The chosen clause fell through: OS_ENDTRY pops the context. */
  lemma AfterQuietClause(code: seq<Instr>, m: Config, m5: Config, m6: Config, c: nat, target: nat, end: nat, h: Handlers,
                         t: seq<int>, name: string) returns (m': Config)
    requires Stack(m.ctxs, m.handlers, c)
    requires Caught(m, m5, c, target, t, name) && Dealt(m5, m6, c, end, h, name)
    requires c < target <= end < |code| && code[end] == EndTry(c)
    requires Matches(h, name) && Handle(h, name).outcome.Normal?
    ensures Reaches(code, m6, m')
    ensures var rh := Handle(h, name); Ends(m, m', c, end + 1, Result(t + rh.trace, rh.outcome))
  {
    hide Reaches;
    var rh := Handle(h, name);
    assert m.trace + (t + rh.trace) == m.trace + t + rh.trace;
    EndQuietly(code, m6, c);
    m' := Step(code, m6);
  }

  /** The chosen clause threw in its turn. */
  lemma AfterThrowingClause(code: seq<Instr>, m: Config, m5: Config, m6: Config, c: nat, target: nat, end: nat, h: Handlers,
                            t: seq<int>, name: string) returns (m': Config)
    requires Stack(m.ctxs, m.handlers, c)
    requires Caught(m, m5, c, target, t, name) && Dealt(m5, m6, c, end, h, name)
    requires c < target <= end < |code|
    requires Matches(h, name) && !Handle(h, name).outcome.Normal?
    ensures Reaches(code, m6, m')
    ensures var rh := Handle(h, name); Ends(m, m', c, end + 1, Result(t + rh.trace, rh.outcome))
  {
    var rh := Handle(h, name);
    m' := m6;
    ReachesStep(code, m6);
    CaughtThenThrew(m, m5, m6, c, target, end, end + 1, t, rh.trace, name, rh.outcome.name);
  }

  lemma {:induction false} UnmatchedGoesOn(h: Handlers, name: string)
    requires !Matches(h, name)
    ensures Handle(h, name) == Result([], Raised(name))
  {
    if h.Catch? { UnmatchedGoesOn(h.rest, name); }
  }

  lemma CatchPieces(code: seq<Instr>, at: nat, s: Stmt, ctx: nat)
    requires s.TryCatch? && Placed(code, at, Expand(s, at, ctx))
    ensures var mid := at + 3 + Size(s.body); var end := mid + 1 + HandlersSize(s.handlers);
      && Placed(code, at, [PushContext(at), SetJmp(at), IfJumped(mid + 1)])
      && Placed(code, at + 3, Expand(s.body, at + 3, at))
      && mid < |code| && code[mid] == Goto(end)
      && Placed(code, mid + 1, ExpandHandlers(s.handlers, mid + 1, at, end))
      && end < |code| && code[end] == EndTry(at)
  {
    var mid := at + 3 + Size(s.body);
    var end := mid + 1 + HandlersSize(s.handlers);
    var pre := [PushContext(at), SetJmp(at), IfJumped(mid + 1)];
    var body, hs := Expand(s.body, at + 3, at), ExpandHandlers(s.handlers, mid + 1, at, end);
    PlacedSplit(code, at, pre + body + [Goto(end)] + hs, [EndTry(at)]);
    PlacedSplit(code, at, pre + body + [Goto(end)], hs);
    PlacedSplit(code, at, pre + body, [Goto(end)]);
    PlacedSplit(code, at, pre, body);
    One(code, mid, Goto(end));
    One(code, end, EndTry(at));
  }

  // ---- OS_TRY with OS_FINALLY ----

  lemma FinallyPieces(code: seq<Instr>, at: nat, s: Stmt, ctx: nat)
    requires s.TryFinally? && Placed(code, at, Expand(s, at, ctx))
    ensures var mid := at + 3 + Size(s.body); var end := mid + 1 + Size(s.cleanup);
      && Placed(code, at, [PushContext(at), SetJmp(at), IfJumped(mid)])
      && Placed(code, at + 3, Expand(s.body, at + 3, at))
      && mid < |code| && code[mid] == FinallyStart(at)
      && Placed(code, mid + 1, Expand(s.cleanup, mid + 1, at))
      && end < |code| && code[end] == EndTry(at)
  {
    var mid := at + 3 + Size(s.body);
    var end := mid + 1 + Size(s.cleanup);
    var pre := [PushContext(at), SetJmp(at), IfJumped(mid)];
    var body, cleanup := Expand(s.body, at + 3, at), Expand(s.cleanup, mid + 1, at);
    PlacedSplit(code, at, pre + body + [FinallyStart(at)] + cleanup, [EndTry(at)]);
    PlacedSplit(code, at, pre + body + [FinallyStart(at)], cleanup);
    PlacedSplit(code, at, pre + body, [FinallyStart(at)]);
    PlacedSplit(code, at, pre, body);
    One(code, mid, FinallyStart(at));
    One(code, end, EndTry(at));
  }

  /** OS_FINALLY after a quiet guarded block pops the context before the cleanup runs. */
  lemma StartQuietly(code: seq<Instr>, m: Config, m3: Config, m4: Config, c: nat, mid: nat, t: seq<int>)
    requires Entered(m, m3, c) && Fell(m3, m4, c + 3, mid, t) && c <= mid < |code| && code[mid] == FinallyStart(c)
    requires Stack(m.ctxs, m.handlers, c)
    ensures var m5 := Step(code, m4);
      && Reaches(code, m4, m5) && Fell(m, m5, c, mid + 1, t)
      && c in m5.ctxs && m5.ctxs[c].state == Popped && Stack(m5.ctxs, m5.handlers, c)
  {
    ReachesStep(code, m4);
    StackKept(m.ctxs, Step(code, m4).ctxs, m.handlers, c, c);
  }

  /** OS_FINALLY with an active exception cuts the trace of the next context up before the cleanup runs. */
  ghost predicate Cut(m: Config, m6: Config, c: nat, at: nat, trace: seq<int>, name: string) {
    && Caught(m, m6, c, at, trace, name) && Stack(m6.ctxs, m.handlers, c)
    && (m.handlers.To? && m.handlers.id in m6.ctxs ==> m6.ctxs[m.handlers.id].down == Null)
  }

  lemma StartCut(code: seq<Instr>, m: Config, m5: Config, c: nat, mid: nat, t: seq<int>, name: string)
    requires Caught(m, m5, c, mid, t, name) && Stack(m5.ctxs, m.handlers, c) && Stack(m.ctxs, m.handlers, c)
    requires mid < |code| && code[mid] == FinallyStart(c)
    ensures var m6 := Step(code, m5); Reaches(code, m5, m6) && Cut(m, m6, c, mid + 1, t, name)
  {
    var m6 := Step(code, m5);
    ReachesStep(code, m5);
    StackKept(m5.ctxs, m6.ctxs, m.handlers, c, c);
    WalkKept(m5.ctxs, m6.ctxs, c, mid, mid + 1);
  }

  lemma {:induction false} SimulateFinally(code: seq<Instr>, s: Stmt, at: nat, ctx: nat, current: string,
                                           m: Config, bound: nat) returns (m': Config)
    requires s.TryFinally? && Placed(code, at, Expand(s, at, ctx)) && Ready(m, at, bound) && WellFormed(s, false)
    ensures Reaches(code, m, m') && Ends(m, m', at, at + Size(s), Run(s, current))
    decreases s, 0
  {
    hide Placed, Threw, Fell, Entered, Reaches, Kept;
    var TryFinally(body, cleanup) := s;
    var mid := at + 3 + Size(body);
    FinallyPieces(code, at, s, ctx);
    StackKept(m.ctxs, m.ctxs, m.handlers, bound, at);
    var m3 := EnterTry(code, m, at, mid);
    EnteredReady(m, m3, at);
    var m4 := Simulate(code, body, at + 3, at, false, current, m3, at + 1);
    ReachesTrans(code, m, m3, m4);
    var rb := Run(body, current);
    if rb.outcome.Normal? {
      m' := QuietCleanup(code, s, at, ctx, current, m, m3, m4, rb.trace);
    } else {
      m' := ActiveCleanup(code, s, at, ctx, current, m, m3, m4, rb.trace, rb.outcome.name);
    }
    ReachesTrans(code, m, m4, m');
  }

  lemma EnteredReady(m: Config, m3: Config, c: nat)
    requires Entered(m, m3, c) && Stack(m3.ctxs, m3.handlers, c + 1)
    ensures Ready(m3, c + 3, c + 1)
  {
  }

  lemma {:induction false} QuietCleanup(code: seq<Instr>, s: Stmt, at: nat, ctx: nat, current: string,
                                        m: Config, m3: Config, m4: Config, t: seq<int>) returns (m': Config)
    requires s.TryFinally? && Placed(code, at, Expand(s, at, ctx)) && Ready(m, at, at) && WellFormed(s, false)
    requires Entered(m, m3, at) && Fell(m3, m4, at + 3, at + 3 + Size(s.body), t)
    ensures Reaches(code, m4, m')
    ensures var rc := Run(s.cleanup, current); Ends(m, m', at, at + Size(s), Result(t + rc.trace, rc.outcome))
    decreases s.cleanup, 2
  {
    hide Placed, Threw, Entered, Reaches, Step, Kept;
    var mid := at + 3 + Size(s.body);
    var end := mid + 1 + Size(s.cleanup);
    FinallyPieces(code, at, s, ctx);
    StartQuietly(code, m, m3, m4, at, mid, t);
    var m5 := Step(code, m4);
    var m6 := Simulate(code, s.cleanup, mid + 1, at, false, current, m5, at);
    var rc := Run(s.cleanup, current);
    ReachesTrans(code, m4, m5, m6);
    FellThenEnds(m, m5, m6, at, mid + 1, end, t, rc);
    m' := AfterQuiet(code, m, m5, m6, at, mid + 1, end, rc.trace, Result(t + rc.trace, rc.outcome));
    ReachesTrans(code, m4, m6, m');
  }

  lemma AfterQuiet(code: seq<Instr>, m: Config, m5: Config, m6: Config, c: nat, from: nat, end: nat,
                   t: seq<int>, r: Result) returns (m': Config)
    requires end < |code| && code[end] == EndTry(c) && c < from <= end
    requires Ends(m, m6, c, end, r) && c in m5.ctxs && m5.ctxs[c].state == Popped
    requires r.outcome.Normal? ==> Fell(m5, m6, from, end, t)
    ensures Reaches(code, m6, m') && Ends(m, m', c, end + 1, r)
  {
    if r.outcome.Normal? {
      EndQuietly(code, m6, c);
      m' := Step(code, m6);
    } else {
      m' := m6;
      ReachesStep(code, m6);
      ThrewWithin(m, m6, c, end, end + 1, r.trace, r.outcome.name);
    }
  }

  lemma {:induction false} ActiveCleanup(code: seq<Instr>, s: Stmt, at: nat, ctx: nat, current: string,
                                         m: Config, m3: Config, m4: Config, t: seq<int>, name: string) returns (m': Config)
    requires s.TryFinally? && Placed(code, at, Expand(s, at, ctx)) && Ready(m, at, at) && WellFormed(s, false)
    requires Entered(m, m3, at) && Threw(m3, m4, at + 3, at + 3 + Size(s.body), t, name)
    ensures Reaches(code, m4, m')
    ensures var rc := Run(s.cleanup, current);
            Ends(m, m', at, at + Size(s), Result(t + rc.trace, if rc.outcome.Raised? then rc.outcome else Raised(name)))
    decreases s.cleanup, 2
  {
    hide Placed, Threw, Fell, Entered, Reaches, Step, Kept;
    var mid := at + 3 + Size(s.body);
    var end := mid + 1 + Size(s.cleanup);
    FinallyPieces(code, at, s, ctx);
    CatchJump(code, m, m3, m4, at, mid, mid, t, name);
    var m5 := Step(code, m4);
    StartCut(code, m, m5, at, mid, t, name);
    var m6 := Step(code, m5);
    ReachesTrans(code, m4, m5, m6);
    var m7 := Simulate(code, s.cleanup, mid + 1, at, false, current, m6, at);
    ReachesTrans(code, m4, m6, m7);
    m' := AfterCleanup(code, m, m6, m7, at, mid + 1, end, t, name, Run(s.cleanup, current));
    ReachesTrans(code, m4, m7, m');
  }

  lemma AfterCleanup(code: seq<Instr>, m: Config, m6: Config, m7: Config, c: nat, from: nat, end: nat,
                     t: seq<int>, name: string, rc: Result) returns (m': Config)
    requires end < |code| && code[end] == EndTry(c) && c < from <= end
    requires Stack(m.ctxs, m.handlers, c) && Cut(m, m6, c, from, t, name) && Ends(m6, m7, from, end, rc)
    ensures Reaches(code, m7, m')
    ensures Ends(m, m', c, end + 1, Result(t + rc.trace, if rc.outcome.Raised? then rc.outcome else Raised(name)))
  {
    if rc.outcome.Raised? {
      m' := m7;
      ReachesStep(code, m7);
      ThrewEarlier(m6, m7, c, from, end, rc.trace, rc.outcome.name);
      CaughtThenThrew(m, m6, m7, c, from, end, end + 1, t, rc.trace, name, rc.outcome.name);
    } else {
      WalkKept(m6.ctxs, m7.ctxs, c, from, end);
      StackKept(m6.ctxs, m7.ctxs, m.handlers, c, c);
      EndPropagates(code, m7, c, end + 1);
      m' := Step(code, m7);
      CutThenThrew(m, m6, m7, m', c, from, end + 1, t, rc.trace, name);
    }
  }

  lemma ThrewEarlier(m: Config, m': Config, c: nat, from: nat, end: nat, t: seq<int>, name: string)
    requires Threw(m, m', from, end, t, name) && c <= from
    ensures Threw(m, m', c, end, t, name)
  {
  }

  lemma CutThenThrew(m: Config, m6: Config, m7: Config, m': Config, c: nat, from: nat, end: nat,
                     t: seq<int>, t2: seq<int>, name: string)
    requires Stack(m.ctxs, m.handlers, c) && Cut(m, m6, c, from, t, name) && Fell(m6, m7, from, m7.pc, t2) && c < from
    requires Threw(m7, m', c, end, [], name)
    ensures Threw(m, m', c, end, t + t2, name)
  {
    assert m.trace + (t + t2) == m.trace + t + t2 + [];
  }
}
