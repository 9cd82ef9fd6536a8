/** The setjmp-based runtime as a machine, and the expansion of the macros into its instructions. */
module ExceptionMachine {
  import opened ExceptionLanguage

  /** A pointer to a context: NULL, the 0x1 placeholder, or the context block of one OS_TRY. */
  datatype Ptr = Null | Placeholder | To(id: nat)

  datatype State = None | Active | Handled | Popped

  datatype Ctx = Ctx(jmp: nat, up: Ptr, down: Ptr, state: State, name: string)

  /** `BadWalk` stands for following a dangling, cyclic or placeholder `down` pointer. */
  datatype Status = Running | Panicked(name: string) | BadWalk

  /**
   * `returnedTwice` is the value of the last setjmp, `oddities` counts turns of the raise loop that
   * logs "can't happen".
   */
  datatype Config = Config(
    pc: nat, returnedTwice: bool, handlers: Ptr, ctxs: map<nat, Ctx>,
    trace: seq<int>, status: Status, oddities: nat)

  datatype Instr =
    | Emit(tag: int)
    | PushContext(c: nat)
    | SetJmp(c: nat)
    | IfJumped(target: nat)
    | Goto(target: nat)
    | IfNoMatch(c: nat, name: string, target: nat)
    | SetHandled(c: nat)
    | DoRaise(name: string)
    | DoReraise(c: nat)
    | FinallyStart(c: nat)
    | EndTry(c: nat)

  // ---- the macro expansion ----

  function Size(s: Stmt): nat
  {
    match s
    case Skip => 0
    case Act(_) => 1
    case Seq(a, b) => Size(a) + Size(b)
    case Raise(_) => 1
    case Reraise => 1
    case TryCatch(body, handlers) => 3 + Size(body) + 1 + HandlersSize(handlers) + 1
    case TryFinally(body, cleanup) => 3 + Size(body) + 1 + Size(cleanup) + 1
  }

  function HandlersSize(h: Handlers): nat
  {
    match h
    case NoMore => 0
    case CatchAll(handler) => 1 + Size(handler)
    case Catch(_, handler, rest) => 2 + Size(handler) + 1 + HandlersSize(rest)
  }

  /** Code of `s` placed at address `at`; `ctx` is the context block in lexical scope. */
  function Expand(s: Stmt, at: nat, ctx: nat): (code: seq<Instr>)
    ensures |code| == Size(s)
  {
    match s
    case Skip => []
    case Act(tag) => [Emit(tag)]
    case Seq(a, b) => Expand(a, at, ctx) + Expand(b, at + Size(a), ctx)
    case Raise(name) => [DoRaise(name)]
    case Reraise => [DoReraise(ctx)]
    case TryCatch(body, handlers) =>
      var otherwise := at + 3 + Size(body) + 1;
      var end := otherwise + HandlersSize(handlers);
      [PushContext(at), SetJmp(at), IfJumped(otherwise)] + Expand(body, at + 3, at) + [Goto(end)]
        + ExpandHandlers(handlers, otherwise, at, end) + [EndTry(at)]
    case TryFinally(body, cleanup) =>
      var finish := at + 3 + Size(body);
      [PushContext(at), SetJmp(at), IfJumped(finish)] + Expand(body, at + 3, at) + [FinallyStart(at)]
        + Expand(cleanup, finish + 1, at) + [EndTry(at)]
  }

  function ExpandHandlers(h: Handlers, at: nat, c: nat, end: nat): (code: seq<Instr>)
    ensures |code| == HandlersSize(h)
  {
    match h
    case NoMore => []
    case CatchAll(handler) => [SetHandled(c)] + Expand(handler, at + 1, c)
    case Catch(name, handler, rest) =>
      var next := at + 2 + Size(handler) + 1;
      [IfNoMatch(c, name, next), SetHandled(c)] + Expand(handler, at + 2, c) + [Goto(end)]
        + ExpandHandlers(rest, next, c, end)
  }

  // ---- the runtime ----

  /** The raise loop: skip contexts that are not in state none, counting them. */
  function SkipUsed(ctxs: map<nat, Ctx>, p: Ptr): (Ptr, nat)
    decreases if p.To? then p.id + 1 else 0
  {
    if p.To? && p.id in ctxs && ctxs[p.id].state != None then
      var up := ctxs[p.id].up;
      if up.To? && up.id >= p.id then (Null, 1)
      else var (q, n) := SkipUsed(ctxs, up); (q, n + 1)
    else (p, 0)
  }

  /** `internal_raise` */
  function InternalRaise(m: Config, initial: bool, name: string): Config
  {
    var (p, skipped) := SkipUsed(m.ctxs, m.handlers);
    if p.To? && p.id in m.ctxs then
      var ctx := m.ctxs[p.id];
      var ctx' := ctx.(state := Active, name := name, down := if initial then Null else ctx.down);
      m.(ctxs := m.ctxs[p.id := ctx'], handlers := ctx.up, pc := ctx.jmp, returnedTwice := true,
         oddities := m.oddities + skipped)
    else
      m.(status := Panicked(name), oddities := m.oddities + skipped)
  }

  /** `push_context` */
  function Push(m: Config, c: nat): Config
  {
    var jmp := if c in m.ctxs then m.ctxs[c].jmp else 0;
    var pushed := m.ctxs[c := Ctx(jmp, m.handlers, Placeholder, None, "")];
    var linked :=
      if m.handlers.To? && m.handlers.id in pushed && !pushed[m.handlers.id].down.Null?
      then pushed[m.handlers.id := pushed[m.handlers.id].(down := To(c))]
      else pushed;
    m.(ctxs := linked, handlers := To(c))
  }

  /** `pop_context`: pops, and passes an active exception up. The pc is the caller's on return. */
  function Pop(m: Config, c: nat): Config
    requires c in m.ctxs
  {
    var ctx := m.ctxs[c];
    var m' := m.(ctxs := m.ctxs[c := ctx.(state := Popped)], handlers := ctx.up);
    if ctx.state == Active then InternalRaise(m', false, ctx.name) else m'
  }

  /** The `down` pointers from `c` lead to NULL through live context blocks, each newer than the last. */
  predicate Walk(ctxs: map<nat, Ctx>, c: nat, bound: nat)
    decreases if c < bound then bound - c else 0
  {
    c in ctxs && c < bound &&
    match ctxs[c].down
    case Null => true
    case Placeholder => false
    case To(d) => c < d && Walk(ctxs, d, bound)
  }

  /** OS_FINALLY */
  function StartFinally(m: Config, c: nat): Config
    requires c in m.ctxs
  {
    var m1 := if m.ctxs[c].state == None then Pop(m, c) else m;
    if c in m1.ctxs && m1.ctxs[c].state == Active && m1.ctxs[c].up.To? && m1.ctxs[c].up.id in m1.ctxs then
      var up := m1.ctxs[c].up.id;
      m1.(ctxs := m1.ctxs[up := m1.ctxs[up].(down := Null)])
    else m1
  }

  /** OS_ENDTRY, in a program of length `bound` */
  function Finish(m: Config, c: nat, bound: nat): Config
    requires c in m.ctxs
  {
    if m.ctxs[c].state == Active && !Walk(m.ctxs, c, bound) then m.(status := BadWalk)
    else if m.ctxs[c].state == None || m.ctxs[c].state == Active then Pop(m.(pc := m.pc + 1), c)
    else m.(pc := m.pc + 1)
  }

  function Step(code: seq<Instr>, m: Config): Config
  {
    if m.status != Running || m.pc >= |code| then m
    else
      var next := m.(pc := m.pc + 1);
      match code[m.pc]
      case Emit(tag) => next.(trace := m.trace + [tag])
      case PushContext(c) => Push(next, c)
      case SetJmp(c) =>
        if c in m.ctxs then next.(ctxs := m.ctxs[c := m.ctxs[c].(jmp := m.pc + 1)], returnedTwice := false) else m
      case IfJumped(target) => if m.returnedTwice then m.(pc := target) else next
      case Goto(target) => m.(pc := target)
      case IfNoMatch(c, name, target) => if c in m.ctxs && m.ctxs[c].name != name then m.(pc := target) else next
      case SetHandled(c) => if c in m.ctxs then next.(ctxs := m.ctxs[c := m.ctxs[c].(state := Handled)]) else m
      case DoRaise(name) => InternalRaise(next, true, name)
      case DoReraise(c) => if c in m.ctxs then InternalRaise(next, true, m.ctxs[c].name) else m
      case FinallyStart(c) => if c in m.ctxs then StartFinally(next, c) else m
      case EndTry(c) => if c in m.ctxs then Finish(m, c, |code|) else m
  }

  function Steps(code: seq<Instr>, m: Config, n: nat): Config
    decreases n
  {
    if n == 0 then m else Steps(code, Step(code, m), n - 1)
  }

  ghost predicate Reaches(code: seq<Instr>, m: Config, m': Config)
  {
    exists n: nat :: Steps(code, m, n) == m'
  }

  lemma {:induction false} StepsAdd(code: seq<Instr>, m: Config, n: nat, k: nat)
    ensures Steps(code, m, n + k) == Steps(code, Steps(code, m, n), k)
    decreases n
  {
    if n > 0 { StepsAdd(code, Step(code, m), n - 1, k); }
  }

  lemma ReachesTrans(code: seq<Instr>, a: Config, b: Config, c: Config)
    requires Reaches(code, a, b) && Reaches(code, b, c)
    ensures Reaches(code, a, c)
  {
    var n: nat :| Steps(code, a, n) == b;
    var k: nat :| Steps(code, b, k) == c;
    StepsAdd(code, a, n, k);
  }

  lemma ReachesStep(code: seq<Instr>, a: Config)
    ensures Reaches(code, a, a) && Reaches(code, a, Step(code, a))
  {
    assert Steps(code, a, 0) == a;
    assert Steps(code, a, 1) == Step(code, a);
  }
}
