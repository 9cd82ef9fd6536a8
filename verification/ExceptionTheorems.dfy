/** Whole programs under the macro expansion, from an empty handler stack. */
module ExceptionTheorems {
  import opened ExceptionLanguage
  import opened ExceptionMachine
  import opened ExceptionSimulation

  function Start(): Config {
    Config(0, false, Null, map[], [], Running, 0)
  }

  ghost predicate Halted(code: seq<Instr>, m: Config) {
    m.status != Running || m.pc >= |code|
  }

  /** The machine ended as the structured program means it to. */
  ghost predicate Agrees(code: seq<Instr>, m: Config, r: Result) {
    && m.trace == r.trace && m.oddities == 0
    && match r.outcome
       case Normal => m.status == Running && m.pc == |code| && m.handlers == Null
       case Raised(name) => m.status == Panicked(name)
  }

  /** The expansion performs the program's actions in order and ends, or panics, as the program does. */
  lemma ExpansionCorrect(s: Stmt) returns (n: nat)
    requires WellFormed(s, false)
    ensures var code := Expand(s, 0, 0); var m := Steps(code, Start(), n);
            Halted(code, m) && Agrees(code, m, Run(s, ""))
  {
    var code := Expand(s, 0, 0);
    var m := Simulate(code, s, 0, 0, false, "", Start(), 0);
    n :| Steps(code, Start(), n) == m;
    assert [] + Run(s, "").trace == Run(s, "").trace;
  }

  /** Compiled and run: an exception that no clause names panics with the body's actions performed, and no others. */
  lemma UncaughtPanics(body: Stmt, clauses: seq<Clause>, name: string) returns (n: nat)
    requires WellFormed(TryCatch(body, Chain(clauses, PassOn)), false)
    requires Run(body, "").outcome == Raised(name) && Unnamed(clauses, |clauses|, name)
    ensures var code := Expand(TryCatch(body, Chain(clauses, PassOn)), 0, 0); var m := Steps(code, Start(), n);
            Halted(code, m) && m.status == Panicked(name) && m.trace == Run(body, "").trace
  {
    TryCatchMeans(body, clauses, PassOn, "");
    n := ExpansionCorrect(TryCatch(body, Chain(clauses, PassOn)));
  }

  /** Compiled and run: the first clause that names the exception does what it says after the body, and no other clause does. */
  lemma CaughtByFirst(body: Stmt, clauses: seq<Clause>, other: Otherwise, k: nat) returns (n: nat)
    requires WellFormed(TryCatch(body, Chain(clauses, other)), false) && k < |clauses|
    requires Run(body, "").outcome == Raised(clauses[k].name) && Unnamed(clauses, k, clauses[k].name)
    ensures var code := Expand(TryCatch(body, Chain(clauses, other)), 0, 0); var m := Steps(code, Start(), n);
            var r := Run(clauses[k].handler, clauses[k].name);
            Halted(code, m) && Agrees(code, m, Result(Run(body, "").trace + r.trace, r.outcome))
  {
    TryCatchMeans(body, clauses, other, "");
    n := ExpansionCorrect(TryCatch(body, Chain(clauses, other)));
  }

  lemma {:induction false} HaltedStays(code: seq<Instr>, m: Config, n: nat)
    requires Halted(code, m)
    ensures Steps(code, m, n) == m
    decreases n
  {
    if n > 0 { HaltedStays(code, m, n - 1); }
  }

  lemma {:induction false} OddityStays(code: seq<Instr>, m: Config, n: nat)
    ensures Steps(code, m, n).oddities >= m.oddities
    ensures m.status == BadWalk ==> Steps(code, m, n) == m
    decreases n
  {
    if n > 0 {
      OddityOnce(code, m);
      OddityStays(code, Step(code, m), n - 1);
    }
  }

  lemma OddityOnce(code: seq<Instr>, m: Config)
    ensures Step(code, m).oddities >= m.oddities
  {
  }

  /**
   * At no step of any program's run does the raise loop meet a used context ("can't happen"), and
   * every trace walk of OS_ENDTRY ends at NULL without touching a placeholder or a cycle.
   */
  lemma NothingOdd(s: Stmt, k: nat)
    requires WellFormed(s, false)
    ensures var m := Steps(Expand(s, 0, 0), Start(), k); m.oddities == 0 && m.status != BadWalk
  {
    var code := Expand(s, 0, 0);
    var n := ExpansionCorrect(s);
    if k <= n {
      StepsAdd(code, Start(), k, n - k);
      OddityStays(code, Steps(code, Start(), k), n - k);
    } else {
      StepsAdd(code, Start(), n, k - n);
      HaltedStays(code, Steps(code, Start(), n), k - n);
    }
  }
}
