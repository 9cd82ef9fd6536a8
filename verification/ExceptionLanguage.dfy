/**
 * Structured exception programs and what they mean, with no handler stack in sight: the reference
 * the macro expansion is measured against.
 */
module ExceptionLanguage {

  /** Programs over OS_RAISE, OS_RERAISE, OS_TRY with OS_CATCH / OS_CATCH_ALL, and OS_TRY with OS_FINALLY. */
  datatype Stmt =
    | Skip
    | Act(tag: int)
    | Seq(first: Stmt, second: Stmt)
    | Raise(name: string)
    | Reraise
    | TryCatch(body: Stmt, handlers: Handlers)
    | TryFinally(body: Stmt, cleanup: Stmt)

  /** The chain of catch clauses of one OS_TRY; a catch-all clause can only be the last. */
  datatype Handlers =
    | NoMore
    | CatchAll(handler: Stmt)
    | Catch(name: string, handler: Stmt, rest: Handlers)

  datatype Outcome = Normal | Raised(name: string)

  /** The actions performed, in order, and how the program ended. */
  datatype Result = Result(trace: seq<int>, outcome: Outcome)

  /** `current` is the exception being handled, for OS_RERAISE. */
  function Run(s: Stmt, current: string): Result
  {
    match s
    case Skip => Result([], Normal)
    case Act(tag) => Result([tag], Normal)
    case Seq(a, b) =>
      var ra := Run(a, current);
      if ra.outcome.Raised? then ra
      else
        var rb := Run(b, current);
        Result(ra.trace + rb.trace, rb.outcome)
    case Raise(name) => Result([], Raised(name))
    case Reraise => Result([], Raised(current))
    case TryCatch(body, handlers) =>
      var rb := Run(body, current);
      if rb.outcome.Normal? then rb
      else
        var rh := Handle(handlers, rb.outcome.name);
        Result(rb.trace + rh.trace, rh.outcome)
    case TryFinally(body, cleanup) =>
      var rb := Run(body, current);
      var rc := Run(cleanup, current);
      Result(rb.trace + rc.trace, if rc.outcome.Raised? then rc.outcome else rb.outcome)
  }

  /** The first matching clause handles the exception; without one it goes on. */
  function Handle(h: Handlers, name: string): Result
  {
    match h
    case NoMore => Result([], Raised(name))
    case CatchAll(handler) => Run(handler, name)
    case Catch(n, handler, rest) => if n == name then Run(handler, name) else Handle(rest, name)
  }

  /** OS_RERAISE stands directly in a handler, not inside a further OS_TRY or a cleanup there. */
  predicate WellFormed(s: Stmt, inHandler: bool)
  {
    match s
    case Seq(a, b) => WellFormed(a, inHandler) && WellFormed(b, inHandler)
    case Reraise => inHandler
    case TryCatch(body, handlers) => WellFormed(body, false) && WellFormedHandlers(handlers)
    case TryFinally(body, cleanup) => WellFormed(body, false) && WellFormed(cleanup, false)
    case _ => true
  }

  predicate WellFormedHandlers(h: Handlers)
  {
    match h
    case NoMore => true
    case CatchAll(handler) => WellFormed(handler, true)
    case Catch(_, handler, rest) => WellFormed(handler, true) && WellFormedHandlers(rest)
  }

  // ---- which clause takes an exception ----

  /** An OS_CATCH clause: the exception it names and what it does. */
  datatype Clause = Clause(name: string, handler: Stmt)

  /** What an OS_TRY does with an exception that none of its clauses names. */
  datatype Otherwise = PassOn | Do(handler: Stmt)

  /** The clauses of an OS_TRY in the order they are written, and the catch-all clause after them, if any. */
  function Chain(clauses: seq<Clause>, other: Otherwise): Handlers {
    if clauses != [] then Catch(clauses[0].name, clauses[0].handler, Chain(clauses[1..], other))
    else match other case PassOn => NoMore case Do(handler) => CatchAll(handler)
  }

  lemma {:induction false} EveryChain(h: Handlers) returns (clauses: seq<Clause>, other: Otherwise)
    ensures h == Chain(clauses, other)
  {
    match h
    case NoMore => clauses, other := [], PassOn;
    case CatchAll(handler) => clauses, other := [], Do(handler);
    case Catch(n, handler, rest) =>
      clauses, other := EveryChain(rest);
      var tail := clauses;
      clauses := [Clause(n, handler)] + tail;
      assert clauses[1..] == tail;
  }

  /** No clause before the `k`-th names the exception. */
  ghost predicate Unnamed(clauses: seq<Clause>, k: nat, name: string) {
    k <= |clauses| && forall j :: 0 <= j < k ==> clauses[j].name != name
  }

  lemma {:induction false} FirstNamed(clauses: seq<Clause>, other: Otherwise, k: nat, name: string)
    requires Unnamed(clauses, k, name) && k < |clauses| && clauses[k].name == name
    ensures Handle(Chain(clauses, other), name) == Run(clauses[k].handler, name)
    decreases k
  {
    if k > 0 {
      assert forall j :: 0 <= j < k - 1 ==> clauses[1..][j] == clauses[j + 1];
      FirstNamed(clauses[1..], other, k - 1, name);
    }
  }

  lemma {:induction false} NoneNamed(clauses: seq<Clause>, other: Otherwise, name: string)
    requires Unnamed(clauses, |clauses|, name)
    ensures Handle(Chain(clauses, other), name) == if other.PassOn? then Result([], Raised(name)) else Run(other.handler, name)
    decreases |clauses|
  {
    if clauses != [] {
      assert forall j :: 0 <= j < |clauses| - 1 ==> clauses[1..][j] == clauses[j + 1];
      NoneNamed(clauses[1..], other, name);
    }
  }

  /**
   * OS_TRY with clauses: a body that ends normally is all that happens. The first clause that names the
   * exception of a body that raised runs after it; without one the catch-all clause; without that the
   * exception goes on.
   */
  lemma TryCatchMeans(body: Stmt, clauses: seq<Clause>, other: Otherwise, current: string)
    ensures var rb := Run(body, current); var r := Run(TryCatch(body, Chain(clauses, other)), current);
      && (rb.outcome.Normal? ==> r == rb)
      && (rb.outcome.Raised? ==>
            && (forall k: nat :: k < |clauses| && Unnamed(clauses, k, rb.outcome.name) && clauses[k].name == rb.outcome.name ==>
                  var rh := Run(clauses[k].handler, rb.outcome.name);
                  r == Result(rb.trace + rh.trace, rh.outcome))
            && (Unnamed(clauses, |clauses|, rb.outcome.name) ==>
                  if other.PassOn? then r == rb
                  else var rh := Run(other.handler, rb.outcome.name); r == Result(rb.trace + rh.trace, rh.outcome)))
  {
    var rb := Run(body, current);
    if rb.outcome.Raised? {
      var name := rb.outcome.name;
      forall k: nat | k < |clauses| && Unnamed(clauses, k, name) && clauses[k].name == name
        ensures Handle(Chain(clauses, other), name) == Run(clauses[k].handler, name)
      {
        FirstNamed(clauses, other, k, name);
      }
      if Unnamed(clauses, |clauses|, name) {
        NoneNamed(clauses, other, name);
        assert rb.trace + [] == rb.trace;
      }
    }
  }

  /** A clause that only reraises passes on the very exception that it took. */
  lemma ReraisedGoesOn(body: Stmt, clauses: seq<Clause>, other: Otherwise, k: nat, current: string)
    requires k < |clauses| && clauses[k].handler == Reraise && Unnamed(clauses, k, clauses[k].name)
    requires Run(body, current).outcome == Raised(clauses[k].name)
    ensures Run(TryCatch(body, Chain(clauses, other)), current) == Run(body, current)
  {
    TryCatchMeans(body, clauses, other, current);
    assert Run(body, current).trace + [] == Run(body, current).trace;
  }

  /** The cleanup of an OS_TRY runs after the body however that ended, and its own exception goes before the body's. */
  lemma FinallyMeans(body: Stmt, cleanup: Stmt, current: string)
    ensures var rb := Run(body, current); var rc := Run(cleanup, current);
      var r := Run(TryFinally(body, cleanup), current);
      && r.trace == rb.trace + rc.trace
      && (r.outcome.Normal? <==> rb.outcome.Normal? && rc.outcome.Normal?)
      && (rc.outcome.Raised? ==> r.outcome == rc.outcome)
      && (rc.outcome.Normal? ==> r.outcome == rb.outcome)
  {
  }
}
