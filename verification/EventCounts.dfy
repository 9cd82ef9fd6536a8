/**
 * The mutex and condition variable built from event counts and sequencers, as a machine whose steps
 * are single calls on the counters, taken by any thread in any order.
 *
 * The first ticket a sequencer hands out is a parameter: the design comment of the mutex needs 1,
 * while the events module of the same repository starts a sequencer at 0 and hands out the value
 * before incrementing it.
 */
module EventCounts {

  datatype Option<T> = None | Some(value: T)

  /** Where a thread stands. A held lock is remembered by its ticket. */
  datatype Pc =
    | Idle
    | Locking(ticket: nat)                                  // in lock(), awaiting the ticket
    | Holding(ticket: nat)
    | Releasing(ticket: nat, turn: nat)                     // in wait(), condition ticket taken
    | Awaiting(turn: nat)                                   // in wait(), mutex released
    | Relocking                                             // in wait(), woken
    | Reading(held: Option<nat>, turn: nat)                 // in broadcast(), sequencer read
    | Advancing(held: Option<nat>, turn: nat, count: nat)   // in broadcast(), count read too

  /**
   * `count` and `next` are the mutex's event count and sequencer, `signals` and `turns` those of the
   * condition. `granted` logs the tickets as they get the lock; `cleared` is the largest sequencer
   * value read by a broadcast that has finished; `woken` says whether any signal or broadcast began.
   */
  datatype System = System(
    count: nat, next: nat, signals: nat, turns: nat, pcs: map<nat, Pc>,
    granted: seq<nat>, cleared: nat, woken: bool)

  datatype Action =
    | TakeTicket | Pass | Unlock                            // lock() in two steps, unlock()
    | WaitTicket | WaitUnlock | WaitPass                    // wait() up to its final lock()
    | Signal
    | ReadSequencer | ReadCount | Advance                   // broadcast() in three steps

  function Initial(first: nat, threads: set<nat>): System {
    System(1, first, 0, first, map t | t in threads :: Idle, [], 0, false)
  }

  function HeldBy(p: Pc): Option<nat> {
    match p
    case Holding(v) => Some(v)
    case Releasing(v, _) => Some(v)
    case Reading(h, _) => h
    case Advancing(h, _, _) => h
    case _ => None
  }

  function Resume(h: Option<nat>): Pc {
    match h case None => Idle case Some(v) => Holding(v)
  }

  function Max(a: nat, b: nat): nat { if a > b then a else b }

  /** One step of thread `t`; a step that is not enabled, such as an await short of its value, changes nothing. */
  function Do(s: System, t: nat, a: Action): System
  {
    if t !in s.pcs then s
    else
      match (s.pcs[t], a)
      case (Idle, TakeTicket) => s.(pcs := s.pcs[t := Locking(s.next)], next := s.next + 1)
      case (Relocking, TakeTicket) => s.(pcs := s.pcs[t := Locking(s.next)], next := s.next + 1)
      case (Locking(v), Pass) =>
        if s.count >= v then s.(pcs := s.pcs[t := Holding(v)], granted := s.granted + [v]) else s
      case (Holding(_), Unlock) => s.(pcs := s.pcs[t := Idle], count := s.count + 1)
      case (Holding(v), WaitTicket) => s.(pcs := s.pcs[t := Releasing(v, s.turns)], turns := s.turns + 1)
      case (Releasing(_, turn), WaitUnlock) => s.(pcs := s.pcs[t := Awaiting(turn)], count := s.count + 1)
      case (Awaiting(turn), WaitPass) => if s.signals >= turn then s.(pcs := s.pcs[t := Relocking]) else s
      case (Idle, Signal) => s.(signals := s.signals + 1, woken := true)
      case (Holding(_), Signal) => s.(signals := s.signals + 1, woken := true)
      case (Idle, ReadSequencer) => s.(pcs := s.pcs[t := Reading(None, s.turns)], woken := true)
      case (Holding(v), ReadSequencer) => s.(pcs := s.pcs[t := Reading(Some(v), s.turns)], woken := true)
      case (Reading(h, turn), ReadCount) => s.(pcs := s.pcs[t := Advancing(h, turn, s.signals)])
      case (Advancing(h, turn, count), Advance) =>
        s.(pcs := s.pcs[t := Resume(h)], cleared := Max(s.cleared, turn),
           signals := if turn > count + 1 then s.signals + (turn - count - 1) else s.signals)
      case _ => s
  }

  /** The state after a schedule: which thread steps, and what it does, in order. */
  function After(first: nat, threads: set<nat>, schedule: seq<(nat, Action)>): System
  {
    if schedule == [] then Initial(first, threads)
    else
      var last := schedule[|schedule| - 1];
      Do(After(first, threads, schedule[..|schedule| - 1]), last.0, last.1)
  }

  /** The mutex ticket a thread has taken and not yet given back. */
  function TicketOf(p: Pc): Option<nat> {
    if p.Locking? then Some(p.ticket) else HeldBy(p)
  }

  // ---- mutual exclusion ----

  /** Outstanding tickets are distinct and not below the count; only the count's own ticket holds. */
  ghost predicate MutexInv(s: System) {
    && 1 <= s.count <= s.next
    && (forall t :: t in s.pcs && TicketOf(s.pcs[t]).Some? ==> s.count <= TicketOf(s.pcs[t]).value < s.next)
    && (forall t, u :: t in s.pcs && u in s.pcs && t != u && TicketOf(s.pcs[t]).Some? ==>
          TicketOf(s.pcs[t]) != TicketOf(s.pcs[u]))
    && (forall t :: t in s.pcs && HeldBy(s.pcs[t]).Some? ==> HeldBy(s.pcs[t]) == Some(s.count))
  }

  /** The mutex sees four kinds of step: taking a ticket, passing, giving back, and none of these. */
  datatype Kind = Takes | Passes | Returns | Other

  ghost predicate IsKind(s: System, s': System, t: nat, k: Kind)
    requires t in s.pcs && t in s'.pcs
  {
    var had, has := TicketOf(s.pcs[t]), TicketOf(s'.pcs[t]);
    var held, holds := HeldBy(s.pcs[t]), HeldBy(s'.pcs[t]);
    match k
    case Takes => had.None? && has == Some(s.next) && s'.next == s.next + 1 && holds.None?
                  && s'.count == s.count && s'.granted == s.granted
    case Passes => has == had && held.None? && holds == had && had.Some? && had.value <= s.count
                   && s'.count == s.count && s'.next == s.next && s'.granted == s.granted + [had.value]
    case Returns => held.Some? && has.None? && s'.count == s.count + 1 && s'.next == s.next && s'.granted == s.granted
    case Other => has == had && holds == held && s'.count == s.count && s'.next == s.next && s'.granted == s.granted
  }

  lemma KindOf(s: System, t: nat, a: Action) returns (k: Kind)
    requires t in s.pcs
    ensures var s' := Do(s, t, a); s'.pcs.Keys == s.pcs.Keys && IsKind(s, s', t, k)
    ensures forall u :: u in s.pcs && u != t ==> Do(s, t, a).pcs[u] == s.pcs[u]
  {
    var s' := Do(s, t, a);
    if IsKind(s, s', t, Takes) { k := Takes; }
    else if IsKind(s, s', t, Passes) { k := Passes; }
    else if IsKind(s, s', t, Returns) { k := Returns; }
    else { k := Other; }
  }

  lemma MutexStep(s: System, t: nat, a: Action)
    requires MutexInv(s)
    ensures MutexInv(Do(s, t, a))
  {
    if t in s.pcs {
      var s' := Do(s, t, a);
      var k := KindOf(s, t, a);
      hide Do;
      assert HeldBy(s.pcs[t]).Some? ==> TicketOf(s.pcs[t]) == HeldBy(s.pcs[t]);
      assert HeldBy(s'.pcs[t]).Some? ==> TicketOf(s'.pcs[t]) == HeldBy(s'.pcs[t]);
      assert forall u :: u in s.pcs && u != t && TicketOf(s.pcs[u]).Some? ==> TicketOf(s.pcs[u]) != TicketOf(s.pcs[t]);
      assert k == Returns ==> TicketOf(s.pcs[t]) == Some(s.count);
      forall u | u in s'.pcs && TicketOf(s'.pcs[u]).Some? ensures s'.count <= TicketOf(s'.pcs[u]).value < s'.next {
        assert TicketOf(s'.pcs[u]) == Some(TicketOf(s'.pcs[u]).value);
      }
      forall u, w | u in s'.pcs && w in s'.pcs && u != w && TicketOf(s'.pcs[u]).Some?
        ensures TicketOf(s'.pcs[u]) != TicketOf(s'.pcs[w])
      {
        if u != t && w != t {
          assert TicketOf(s.pcs[u]) != TicketOf(s.pcs[w]);
        } else if u == t {
          assert TicketOf(s.pcs[t]).Some? ==> TicketOf(s.pcs[t]) != TicketOf(s.pcs[w]);
        } else {
          assert TicketOf(s.pcs[u]) != TicketOf(s.pcs[t]);
        }
      }
      assert forall u :: u in s'.pcs && HeldBy(s'.pcs[u]).Some? ==> HeldBy(s'.pcs[u]) == Some(s'.count);
    }
  }

  lemma {:induction false} MutexAlways(first: nat, threads: set<nat>, schedule: seq<(nat, Action)>)
    requires first >= 1
    ensures MutexInv(After(first, threads, schedule))
  {
    if schedule != [] {
      var last := schedule[|schedule| - 1];
      MutexAlways(first, threads, schedule[..|schedule| - 1]);
      MutexStep(After(first, threads, schedule[..|schedule| - 1]), last.0, last.1);
    }
  }

  ghost predicate Excludes(s: System) {
    forall t, u :: t in s.pcs && u in s.pcs && HeldBy(s.pcs[t]).Some? && HeldBy(s.pcs[u]).Some? ==> t == u
  }

  /** Two threads lock at once when tickets start at 0. */
  lemma ZeroAdmitsTwo()
    ensures !Excludes(After(0, {0, 1}, [(0, TakeTicket), (0, Pass), (1, TakeTicket), (1, Pass)]))
  {
    var s1 := Do(Initial(0, {0, 1}), 0, TakeTicket);
    var s2 := Do(s1, 0, Pass);
    var s3 := Do(s2, 1, TakeTicket);
    var s4 := Do(s3, 1, Pass);
    var sch: seq<(nat, Action)> := [(0, TakeTicket), (0, Pass), (1, TakeTicket), (1, Pass)];
    assert sch[..3] == [(0, TakeTicket), (0, Pass), (1, TakeTicket)];
    assert sch[..3][..2] == [(0, TakeTicket), (0, Pass)];
    assert sch[..3][..2][..1] == [(0, TakeTicket)];
    assert After(0, {0, 1}, sch[..3][..2][..1]) == s1;
    assert After(0, {0, 1}, sch[..3][..2]) == s2;
    assert After(0, {0, 1}, sch[..3]) == s3;
    assert s4.pcs[0] == Holding(0) && s4.pcs[1] == Holding(1);
  }

  /** Over all threads and interleavings, at most one holds the lock exactly when tickets start above 0. */
  lemma MutualExclusionIff(first: nat)
    ensures (forall threads: set<nat>, schedule: seq<(nat, Action)> :: Excludes(After(first, threads, schedule)))
            <==> first >= 1
  {
    if first >= 1 {
      forall threads: set<nat>, schedule: seq<(nat, Action)> ensures Excludes(After(first, threads, schedule)) {
        MutexAlways(first, threads, schedule);
      }
    } else {
      ZeroAdmitsTwo();
    }
  }

  /** A thread that asks for a free, untouched lock gets it exactly when tickets do not start above 1. */
  lemma FirstLockPassesIff(first: nat, threads: set<nat>, t: nat)
    requires t in threads
    ensures HeldBy(Do(Do(Initial(first, threads), t, TakeTicket), t, Pass).pcs[t]).Some? <==> first <= 1
  {
  }

  // ---- what giving the lock back does ----

  /** A step of the schedule by which a lock was given back: in unlock(), or in wait(). */
  ghost predicate GivesBack(s: System, step: (nat, Action)) {
    step.0 in s.pcs && ((s.pcs[step.0].Holding? && step.1 == Unlock) || (s.pcs[step.0].Releasing? && step.1 == WaitUnlock))
  }

  /** How often locks were given back in a schedule, told from its steps. */
  ghost function GivenBack(first: nat, threads: set<nat>, schedule: seq<(nat, Action)>): nat {
    if schedule == [] then 0
    else
      var before, last := schedule[..|schedule| - 1], schedule[|schedule| - 1];
      GivenBack(first, threads, before) + if GivesBack(After(first, threads, before), last) then 1 else 0
  }

  lemma {:induction false} CountIsGivenBack(first: nat, threads: set<nat>, schedule: seq<(nat, Action)>)
    ensures After(first, threads, schedule).count == 1 + GivenBack(first, threads, schedule)
  {
    if schedule != [] {
      hide Do, GivesBack;
      var before, last := schedule[..|schedule| - 1], schedule[|schedule| - 1];
      CountIsGivenBack(first, threads, before);
      GivingBackCounts(After(first, threads, before), last);
    }
  }

  lemma GivingBackCounts(s: System, step: (nat, Action))
    ensures Do(s, step.0, step.1).count == s.count + if GivesBack(s, step) then 1 else 0
  {
  }

  /** Over every interleaving a ticket gets the lock exactly when it is at most one more than the times the lock was given back. */
  lemma LockPassesIff(first: nat, threads: set<nat>, schedule: seq<(nat, Action)>, t: nat)
    requires var s := After(first, threads, schedule); t in s.pcs && s.pcs[t].Locking?
    ensures var s := After(first, threads, schedule); var ticket := s.pcs[t].ticket;
      Do(s, t, Pass).pcs[t] == if ticket <= GivenBack(first, threads, schedule) + 1 then Holding(ticket) else s.pcs[t]
  {
    hide After, GivenBack;
    CountIsGivenBack(first, threads, schedule);
  }

  // ---- grants in ticket order ----

  /** With tickets from 1: the tickets granted so far are 1, 2, 3, ... and all but a holder's are given back. */
  ghost predicate Fair(s: System) {
    && (forall i :: 0 <= i < |s.granted| ==> s.granted[i] == i + 1)
    && ((exists t :: t in s.pcs && HeldBy(s.pcs[t]).Some?) ==> |s.granted| == s.count)
    && ((forall t :: t in s.pcs ==> HeldBy(s.pcs[t]).None?) ==> |s.granted| + 1 == s.count)
  }

  lemma FairStep(s: System, t: nat, a: Action)
    requires MutexInv(s) && Fair(s)
    ensures Fair(Do(s, t, a))
  {
    if t in s.pcs {
      var s' := Do(s, t, a);
      var k := KindOf(s, t, a);
      if k != Other { NoOtherHolder(s, t, a, k); }
      hide Do, MutexInv;
      if k == Other || k == Takes {
        assert forall u :: u in s.pcs ==> HeldBy(s'.pcs[u]).Some? == HeldBy(s.pcs[u]).Some?;
      } else if k == Passes {
        assert forall u :: u in s.pcs ==> HeldBy(s.pcs[u]).None?;
        assert t in s'.pcs && HeldBy(s'.pcs[t]).Some?;
      } else {
        assert t in s.pcs && HeldBy(s.pcs[t]).Some?;
        assert forall u :: u in s.pcs ==> HeldBy(s'.pcs[u]).None?;
      }
    }
  }

  lemma NoOtherHolder(s: System, t: nat, a: Action, k: Kind)
    requires MutexInv(s) && t in s.pcs && t in Do(s, t, a).pcs && IsKind(s, Do(s, t, a), t, k)
    ensures k == Passes || k == Returns ==> forall u :: u in s.pcs && u != t ==> HeldBy(s.pcs[u]).None?
    ensures k == Passes ==> TicketOf(s.pcs[t]) == Some(s.count)
  {
    hide Do;
    if k == Passes || k == Returns {
      assert TicketOf(s.pcs[t]) == Some(s.count);
      forall u | u in s.pcs && u != t ensures HeldBy(s.pcs[u]).None? {
        assert TicketOf(s.pcs[u]) != TicketOf(s.pcs[t]);
      }
    }
  }

  /** Over every interleaving the lock is granted in the order the tickets were taken. */
  lemma {:induction false} GrantedInTicketOrder(threads: set<nat>, schedule: seq<(nat, Action)>)
    ensures Fair(After(1, threads, schedule))
  {
    if schedule != [] {
      var last := schedule[|schedule| - 1];
      var before := schedule[..|schedule| - 1];
      GrantedInTicketOrder(threads, before);
      MutexAlways(1, threads, before);
      FairStep(After(1, threads, before), last.0, last.1);
    }
  }

  // ---- the condition variable ----

  /** A broadcast under way has read values its counters have since reached or passed. */
  ghost predicate ConditionInv(s: System) {
    && s.cleared <= s.signals + 1
    && (forall t :: t in s.pcs ==>
          match s.pcs[t]
          case Releasing(_, turn) => turn < s.turns
          case Awaiting(turn) => turn < s.turns
          case Reading(_, turn) => turn <= s.turns
          case Advancing(_, turn, count) => turn <= s.turns && count <= s.signals
          case _ => true)
  }

  lemma ConditionStep(s: System, t: nat, a: Action)
    requires ConditionInv(s)
    ensures ConditionInv(Do(s, t, a)) && Do(s, t, a).signals >= s.signals && Do(s, t, a).cleared >= s.cleared
  {
    var s' := Do(s, t, a);
    forall u | u in s'.pcs && u != t ensures s'.pcs[u] == s.pcs[u] {}
  }

  lemma {:induction false} ConditionAlways(first: nat, threads: set<nat>, schedule: seq<(nat, Action)>)
    ensures ConditionInv(After(first, threads, schedule))
  {
    if schedule != [] {
      var last := schedule[|schedule| - 1];
      ConditionAlways(first, threads, schedule[..|schedule| - 1]);
      ConditionStep(After(first, threads, schedule[..|schedule| - 1]), last.0, last.1);
    }
  }

  /** The condition ticket of a thread that waits, its mutex given back or not yet. */
  function WaitsFor(p: Pc): Option<nat> {
    match p
    case Releasing(_, turn) => Some(turn)
    case Awaiting(turn) => Some(turn)
    case _ => None
  }

  /** Broadcasts of thread `b` that are under way read the sequencer at `turn` or later. */
  ghost predicate ReadSince(s: System, b: nat, turn: nat) {
    && turn <= s.turns && b in s.pcs
    && (s.pcs[b].Reading? || s.pcs[b].Advancing? ==> turn <= s.pcs[b].turn)
  }

  lemma {:induction false} ReadSinceAlways(first: nat, threads: set<nat>, past: seq<(nat, Action)>,
                                           later: seq<(nat, Action)>, b: nat, turn: nat)
    requires ReadSince(After(first, threads, past), b, turn)
    ensures ReadSince(After(first, threads, past + later), b, turn)
    decreases |later|
  {
    if later == [] {
      assert past + later == past;
    } else {
      var n := |later| - 1;
      assert (past + later)[..|past + later| - 1] == past + later[..n];
      ReadSinceAlways(first, threads, past, later[..n], b, turn);
    }
  }

  /** What a broadcast has cleared stays cleared. */
  lemma {:induction false} ClearedStays(first: nat, threads: set<nat>, past: seq<(nat, Action)>, later: seq<(nat, Action)>)
    ensures After(first, threads, past + later).cleared >= After(first, threads, past).cleared
    decreases |later|
  {
    if later == [] {
      assert past + later == past;
    } else {
      var n := |later| - 1;
      assert (past + later)[..|past + later| - 1] == past + later[..n];
      ClearedStays(first, threads, past, later[..n]);
    }
  }

  lemma AfterOne(first: nat, threads: set<nat>, past: seq<(nat, Action)>, t: nat, a: Action)
    ensures After(first, threads, past + [(t, a)]) == Do(After(first, threads, past), t, a)
  {
    assert (past + [(t, a)])[..|past + [(t, a)]| - 1] == past;
  }

  /**
   * A thread that waits when thread `b` begins a broadcast may pass once that broadcast has finished,
   * whatever any thread did while it was under way (`during`) or has done since (`later`).
   */
  lemma BroadcastReleases(first: nat, threads: set<nat>, before: seq<(nat, Action)>, b: nat,
                          during: seq<(nat, Action)>, later: seq<(nat, Action)>, t: nat)
    requires var s := After(first, threads, before); b in s.pcs && t in s.pcs && (s.pcs[b].Idle? || s.pcs[b].Holding?)
    requires var s := After(first, threads, before + [(b, ReadSequencer)] + during); b in s.pcs && s.pcs[b].Advancing?
    requires WaitsFor(After(first, threads, before).pcs[t]).Some?
    ensures var turn := WaitsFor(After(first, threads, before).pcs[t]).value;
            var s := After(first, threads, before + [(b, ReadSequencer)] + during + [(b, Advance)] + later);
            t in s.pcs && s.pcs[t] == Awaiting(turn) ==> Do(s, t, WaitPass).pcs[t] == Relocking
  {
    var s := After(first, threads, before);
    var begun, done := before + [(b, ReadSequencer)], before + [(b, ReadSequencer)] + during + [(b, Advance)];
    ConditionAlways(first, threads, before);
    ConditionAlways(first, threads, done + later);
    AfterOne(first, threads, before, b, ReadSequencer);
    NewBroadcast(s, b);
    ReadSinceAlways(first, threads, begun, during, b, s.turns);
    AfterOne(first, threads, begun + during, b, Advance);
    ClearedStays(first, threads, done, later);
  }

  /**
   * A broadcast that nothing comes in between wakes exactly the threads that took their tickets before it:
   * whoever else may pass after it could have passed before.
   */
  lemma BroadcastWakesExactly(s: System, b: nat, t: nat)
    requires b in s.pcs && (s.pcs[b].Idle? || s.pcs[b].Holding?) && t in s.pcs && s.pcs[t].Awaiting?
    ensures var s' := Do(Do(Do(s, b, ReadSequencer), b, ReadCount), b, Advance);
      && s'.pcs == s.pcs
      && (Do(s', t, WaitPass).pcs[t] == Relocking <==>
          s.pcs[t].turn < s.turns || Do(s, t, WaitPass).pcs[t] == Relocking)
  {
    var s1 := Do(s, b, ReadSequencer);
    var s2 := Do(s1, b, ReadCount);
    var s3 := Do(s2, b, Advance);
    assert s3.pcs == s.pcs;
    assert s3.signals == Max(s.signals, s.turns - if s.turns > 0 then 1 else 0);
  }

  lemma NewBroadcast(s: System, b: nat)
    requires ConditionInv(s) && b in s.pcs && (s.pcs[b].Idle? || s.pcs[b].Holding?)
    ensures ReadSince(Do(s, b, ReadSequencer), b, s.turns)
  {
  }

  // ---- what a signal does ----

  /** A step of the schedule that signals: by a thread that is not in the middle of a call. */
  ghost predicate Signals(s: System, step: (nat, Action)) {
    step.0 in s.pcs && (s.pcs[step.0].Idle? || s.pcs[step.0].Holding?) && step.1 == Signal
  }

  ghost predicate BeginsBroadcast(s: System, step: (nat, Action)) {
    step.0 in s.pcs && (s.pcs[step.0].Idle? || s.pcs[step.0].Holding?) && step.1 == ReadSequencer
  }

  /** How many signals a schedule holds, told from its steps. */
  ghost function Signalled(first: nat, threads: set<nat>, schedule: seq<(nat, Action)>): nat {
    if schedule == [] then 0
    else
      var before, last := schedule[..|schedule| - 1], schedule[|schedule| - 1];
      Signalled(first, threads, before) + if Signals(After(first, threads, before), last) then 1 else 0
  }

  ghost predicate NoBroadcast(first: nat, threads: set<nat>, schedule: seq<(nat, Action)>) {
    forall i :: 0 <= i < |schedule| ==> !BeginsBroadcast(After(first, threads, schedule[..i]), schedule[i])
  }

  /** No thread is in broadcast(). */
  ghost predicate NoneBroadcasts(s: System) {
    forall t :: t in s.pcs ==> !s.pcs[t].Reading? && !s.pcs[t].Advancing?
  }

  lemma SignalStep(s: System, step: (nat, Action))
    ensures var s' := Do(s, step.0, step.1); var n := if Signals(s, step) then 1 else 0;
      && s'.signals >= s.signals + n
      && (NoneBroadcasts(s) && !BeginsBroadcast(s, step) ==> s'.signals == s.signals + n && NoneBroadcasts(s'))
  {
    var s' := Do(s, step.0, step.1);
    assert forall u :: u in s'.pcs && u != step.0 ==> u in s.pcs && s'.pcs[u] == s.pcs[u];
  }

  lemma {:induction false} SignalsCounted(first: nat, threads: set<nat>, schedule: seq<(nat, Action)>)
    ensures var s := After(first, threads, schedule); var n := Signalled(first, threads, schedule);
      s.signals >= n && (NoBroadcast(first, threads, schedule) ==> s.signals == n && NoneBroadcasts(s))
  {
    hide Do, Signals, BeginsBroadcast, NoneBroadcasts;
    if schedule == [] {
      NoneAtFirst(first, threads);
    } else {
      var k := |schedule| - 1;
      var before, last := schedule[..k], schedule[k];
      SignalsCounted(first, threads, before);
      SignalStep(After(first, threads, before), last);
      NoBroadcastBefore(first, threads, schedule);
      hide NoBroadcast;
    }
  }

  lemma NoBroadcastBefore(first: nat, threads: set<nat>, schedule: seq<(nat, Action)>)
    requires schedule != []
    ensures NoBroadcast(first, threads, schedule) ==>
      && NoBroadcast(first, threads, schedule[..|schedule| - 1])
      && !BeginsBroadcast(After(first, threads, schedule[..|schedule| - 1]), schedule[|schedule| - 1])
  {
    hide After, BeginsBroadcast;
    var k := |schedule| - 1;
    assert forall i :: 0 <= i < k ==> schedule[..i] == schedule[..k][..i] && schedule[i] == schedule[..k][i];
  }

  lemma NoneAtFirst(first: nat, threads: set<nat>)
    ensures NoneBroadcasts(Initial(first, threads))
  {
  }

  /**
   * Over every interleaving: a waiter whose ticket is at most the number of signals may pass. Where no
   * broadcast was begun, no other waiter may.
   */
  lemma SignalsWake(first: nat, threads: set<nat>, schedule: seq<(nat, Action)>, t: nat)
    requires var s := After(first, threads, schedule); t in s.pcs && s.pcs[t].Awaiting?
    ensures var s := After(first, threads, schedule); var n := Signalled(first, threads, schedule);
      && (s.pcs[t].turn <= n ==> Do(s, t, WaitPass).pcs[t] == Relocking)
      && (NoBroadcast(first, threads, schedule) && s.pcs[t].turn > n ==> Do(s, t, WaitPass) == s)
  {
    hide After, Signalled, NoBroadcast, NoneBroadcasts;
    SignalsCounted(first, threads, schedule);
  }

  ghost predicate Quiet(s: System, first: nat) {
    && (!s.woken ==> s.signals == 0)
    && (!s.woken ==> forall t :: t in s.pcs ==> !s.pcs[t].Reading? && !s.pcs[t].Advancing?)
    && s.turns >= first
    && (forall t :: t in s.pcs ==>
          match s.pcs[t]
          case Releasing(_, turn) => turn >= first
          case Awaiting(turn) => turn >= first
          case _ => true)
  }

  lemma QuietStep(s: System, t: nat, a: Action, first: nat)
    requires Quiet(s, first)
    ensures Quiet(Do(s, t, a), first)
  {
    var s' := Do(s, t, a);
    forall u | u in s'.pcs && u != t ensures s'.pcs[u] == s.pcs[u] {}
  }

  lemma {:induction false} QuietAlways(first: nat, threads: set<nat>, schedule: seq<(nat, Action)>)
    ensures Quiet(After(first, threads, schedule), first)
  {
    if schedule != [] {
      var last := schedule[|schedule| - 1];
      QuietAlways(first, threads, schedule[..|schedule| - 1]);
      QuietStep(After(first, threads, schedule[..|schedule| - 1]), last.0, last.1, first);
    }
  }

  /** After the schedule, thread `t` can leave its wait although nobody ever signalled. */
  ghost predicate WakesUnasked(first: nat, threads: set<nat>, schedule: seq<(nat, Action)>, t: nat) {
    var s := After(first, threads, schedule);
    t in s.pcs && s.pcs[t].Awaiting? && !s.woken && Do(s, t, WaitPass).pcs[t] == Relocking
  }

  /** The first waiter walks straight through an unsignalled condition when tickets start at 0. */
  lemma ZeroDoesNotWait()
    ensures WakesUnasked(0, {0}, [(0, TakeTicket), (0, Pass), (0, WaitTicket), (0, WaitUnlock)], 0)
  {
    var s1 := Do(Initial(0, {0}), 0, TakeTicket);
    var s2 := Do(s1, 0, Pass);
    var s3 := Do(s2, 0, WaitTicket);
    var sch: seq<(nat, Action)> := [(0, TakeTicket), (0, Pass), (0, WaitTicket), (0, WaitUnlock)];
    assert sch[..3] == [(0, TakeTicket), (0, Pass), (0, WaitTicket)];
    assert sch[..3][..2] == [(0, TakeTicket), (0, Pass)];
    assert sch[..3][..2][..1] == [(0, TakeTicket)];
    assert After(0, {0}, sch[..3][..2][..1]) == s1;
    assert After(0, {0}, sch[..3][..2]) == s2;
    assert After(0, {0}, sch[..3]) == s3;
  }

  /** A wait can end without any signal or broadcast, in some interleaving, exactly when tickets start at 0. */
  lemma WaitEndsUnaskedIff(first: nat)
    ensures (exists threads: set<nat>, schedule: seq<(nat, Action)>, t: nat ::
               WakesUnasked(first, threads, schedule, t)) <==> first == 0
  {
    if first >= 1 {
      forall threads: set<nat>, schedule: seq<(nat, Action)>, t: nat
        ensures !WakesUnasked(first, threads, schedule, t)
      {
        QuietAlways(first, threads, schedule);
      }
    } else {
      ZeroDoesNotWait();
    }
  }
}
