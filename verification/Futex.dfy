/**
 The futex shim as N threads over one guest word and the node that stands for it: a mutex and a condition variable.
 The guest stores to the word without taking the mutex, waits may time out, and wakeups may be spurious.
 */
module Futex {
  import opened Wrappers

  datatype Rc = Zero | Again | TimedOut

  // Stored: the thread has written the word and has not yet called wake. Every other state names the next step.
  datatype Pc =
    | Idle | Stored
    | WaitLock(expected: nat, timed: bool) | WaitFirst(expected: nat, timed: bool)
    | WaitLoop(expected: nat, timed: bool)
    | WaitSleep(expected: nat, timed: bool) | Asleep(expected: nat, timed: bool)
    | Woken(expected: nat, timed: bool, expired: bool)
    | WaitUnlock(expected: nat, rc: Rc)
    | WakeLock(count: int) | WakeSend(count: int) | WakeUnlock(count: int)

  datatype State = State(pcs: seq<Pc>, owner: Option<nat>, word: nat)

  datatype Action =
    | Store(t: nat, value: nat) | Abandon(t: nat)
    | CallWait(t: nat, expected: nat, timed: bool) | CallWake(t: nat, count: int)
    | Run(t: nat) | Signal(t: nat, sleeper: nat) | Timeout(t: nat) | Spurious(t: nat)

  predicate Fresh(s: State) {
    s.owner == None && forall t :: 0 <= t < |s.pcs| ==> s.pcs[t] == Idle
  }

  function Goto(s: State, t: nat, pc: Pc): State
    requires t < |s.pcs|
  {
    s.(pcs := s.pcs[t := pc])
  }

  function Lock(s: State, t: nat, pc: Pc): Option<State>
    requires t < |s.pcs|
  {
    if s.owner == None then Some(Goto(s, t, pc).(owner := Some(t))) else None
  }

  function WokenPc(pc: Pc): Pc {
    if pc.Asleep? then Woken(pc.expected, pc.timed, false) else pc
  }

  function WakeAll(pcs: seq<Pc>): (r: seq<Pc>)
    ensures |r| == |pcs| && forall t :: 0 <= t < |pcs| ==> r[t] == WokenPc(pcs[t])
  {
    seq(|pcs|, t requires 0 <= t < |pcs| => WokenPc(pcs[t]))
  }

  predicate NoSleeper(pcs: seq<Pc>) {
    forall t :: 0 <= t < |pcs| ==> !pcs[t].Asleep?
  }

  function RunStep(s: State, t: nat): Option<State>
    requires t < |s.pcs|
  {
    match s.pcs[t]
    case Idle | Stored | Asleep(_, _) => None
    case WaitLock(e, timed) => Lock(s, t, WaitFirst(e, timed))
    case WaitFirst(e, timed) => Some(Goto(s, t, if s.word != e then WaitUnlock(e, Again) else WaitLoop(e, timed)))
    case WaitLoop(e, timed) => Some(Goto(s, t, if s.word == e then WaitSleep(e, timed) else WaitUnlock(e, Zero)))
    case WaitSleep(e, timed) => Some(Goto(s, t, Asleep(e, timed)).(owner := None))
    case Woken(e, timed, expired) => Lock(s, t, if expired then WaitUnlock(e, TimedOut) else WaitLoop(e, timed))
    case WaitUnlock(_, _) => Some(Goto(s, t, Idle).(owner := None))
    case WakeLock(n) => Lock(s, t, WakeSend(n))
    case WakeSend(n) =>
      if n > 1 then Some(State(WakeAll(s.pcs)[t := WakeUnlock(n)], s.owner, s.word))
      else if NoSleeper(s.pcs) then Some(Goto(s, t, WakeUnlock(n)))
      else None
    case WakeUnlock(_) => Some(Goto(s, t, Idle).(owner := None))
  }

  /** One interleaving step, or None when it is not possible. A signal (count at most 1) chooses one sleeper. */
  function Next(s: State, a: Action): Option<State> {
    if a.t >= |s.pcs| then None
    else
      var pc := s.pcs[a.t];
      match a
      case Store(t, v) => if pc.Idle? || pc.Stored? then Some(Goto(s, t, Stored).(word := v)) else None
      case Abandon(t) => if pc.Stored? then Some(Goto(s, t, Idle)) else None
      case CallWait(t, e, timed) => if pc.Idle? then Some(Goto(s, t, WaitLock(e, timed))) else None
      case CallWake(t, n) => if pc.Idle? || pc.Stored? then Some(Goto(s, t, WakeLock(n))) else None
      case Run(t) => RunStep(s, t)
      case Signal(t, u) =>
        if pc.WakeSend? && pc.count <= 1 && u < |s.pcs| && s.pcs[u].Asleep?
        then Some(Goto(Goto(s, u, WokenPc(s.pcs[u])), t, WakeUnlock(pc.count))) else None
      case Timeout(t) => if pc.Asleep? && pc.timed then Some(Goto(s, t, Woken(pc.expected, true, true))) else None
      case Spurious(t) => if pc.Asleep? then Some(Goto(s, t, WokenPc(pc))) else None
  }

  function After(s: State, run: seq<Action>): Option<State> {
    if |run| == 0 then Some(s)
    else
      match After(s, run[..|run| - 1])
      case None => None
      case Some(m) => Next(m, run[|run| - 1])
  }

  // ----- the mutex -----

  predicate HoldsMutex(pc: Pc) {
    pc.WaitFirst? || pc.WaitLoop? || pc.WaitSleep? || pc.WaitUnlock? || pc.WakeSend? || pc.WakeUnlock?
  }

  predicate MutexExclusive(s: State) {
    && (s.owner.Some? ==> s.owner.value < |s.pcs|)
    && forall t :: 0 <= t < |s.pcs| ==> (HoldsMutex(s.pcs[t]) <==> s.owner == Some(t))
  }

  lemma {:induction false} RunStepExclusive(s: State, t: nat)
    requires MutexExclusive(s) && t < |s.pcs| && RunStep(s, t).Some?
    ensures MutexExclusive(RunStep(s, t).value) && |RunStep(s, t).value.pcs| == |s.pcs|
  {
    assert HoldsMutex(s.pcs[t]) <==> s.owner == Some(t);
  }

  lemma {:induction false} StepExclusive(s: State, a: Action)
    requires MutexExclusive(s) && Next(s, a).Some?
    ensures MutexExclusive(Next(s, a).value) && |Next(s, a).value.pcs| == |s.pcs|
  {
    assert HoldsMutex(s.pcs[a.t]) <==> s.owner == Some(a.t);
    if a.Run? {
      hide RunStep;
      RunStepExclusive(s, a.t);
    }
  }

  /** Every reachable state: a thread is inside the critical section exactly when it owns the node's mutex. */
  lemma {:induction false} RunExclusive(s: State, run: seq<Action>)
    requires Fresh(s) && After(s, run).Some?
    ensures MutexExclusive(After(s, run).value) && |After(s, run).value.pcs| == |s.pcs|
    decreases |run|
  {
    hide Next, MutexExclusive;
    if |run| == 0 {
      FreshExclusive(s);
    } else {
      RunExclusive(s, run[..|run| - 1]);
      StepExclusive(After(s, run[..|run| - 1]).value, run[|run| - 1]);
    }
  }

  lemma {:induction false} FreshExclusive(s: State)
    requires Fresh(s)
    ensures MutexExclusive(s)
  {
  }

  // ----- what a return means -----

  /** The state before step j of a run. */
  function Before(s: State, run: seq<Action>, j: nat): Option<State>
    requires j <= |run|
  {
    After(s, run[..j])
  }

  ghost predicate HeldSince(s: State, run: seq<Action>, j: nat, t: nat) {
    forall k: nat :: j <= k <= |run| ==> Before(s, run, k).Some? && Before(s, run, k).value.owner == Some(t)
  }

  /** Step j is t's load of a word that differs from e; t has held the mutex from that load to the end of the run. */
  ghost predicate SawDifferent(s: State, run: seq<Action>, j: nat, t: nat, e: nat) {
    && j < |run| && run[j] == Run(t) && HeldSince(s, run, j, t)
    && Before(s, run, j).value.word != e
    && t < |Before(s, run, j).value.pcs|
    && (Before(s, run, j).value.pcs[t].WaitFirst? || Before(s, run, j).value.pcs[t].WaitLoop?)
    && Before(s, run, j).value.pcs[t].expected == e
  }

  /** A wait about to return 0 or EAGAIN has read a different word, and has not let go of the mutex since. */
  lemma {:induction false} ReturnMeansDifferent(s: State, run: seq<Action>, t: nat) returns (j: nat)
    requires Fresh(s) && After(s, run).Some? && t < |s.pcs|
    requires |After(s, run).value.pcs| == |s.pcs| && After(s, run).value.pcs[t].WaitUnlock?
    requires After(s, run).value.pcs[t].rc != TimedOut
    ensures SawDifferent(s, run, j, t, After(s, run).value.pcs[t].expected)
    decreases |run|
  {
    hide Next;
    var n := |run| - 1;
    var prior := run[..n];
    RunExclusive(s, prior);
    RunExclusive(s, run);
    assert HoldsMutex(After(s, run).value.pcs[t]);
    var m := After(s, prior).value;
    if m.pcs[t].WaitUnlock? {
      assert HoldsMutex(m.pcs[t]);
      Undisturbed(m, run[n], t);
      j := ReturnMeansDifferent(s, prior, t);
      Extends(s, run, j, t, m.pcs[t].expected);
    } else {
      j := n;
      LastStepLoads(m, run[n], t);
      assert run[..|run|] == run;
      assert HeldSince(s, run, n, t);
    }
  }

  lemma {:induction false} Undisturbed(m: State, a: Action, t: nat)
    requires MutexExclusive(m) && Next(m, a).Some? && t < |m.pcs| && |Next(m, a).value.pcs| == |m.pcs|
    requires m.pcs[t].WaitUnlock? && Next(m, a).value.pcs[t].WaitUnlock?
    ensures Next(m, a).value.pcs[t] == m.pcs[t]
  {
    assert HoldsMutex(m.pcs[a.t]) <==> m.owner == Some(a.t);
  }

  lemma {:induction false} LastStepLoads(m: State, a: Action, t: nat)
    requires MutexExclusive(m) && Next(m, a).Some? && t < |m.pcs| && |Next(m, a).value.pcs| == |m.pcs|
    requires !m.pcs[t].WaitUnlock? && Next(m, a).value.pcs[t].WaitUnlock? && Next(m, a).value.pcs[t].rc != TimedOut
    ensures a == Run(t) && m.owner == Some(t) && (m.pcs[t].WaitFirst? || m.pcs[t].WaitLoop?)
    ensures m.pcs[t].expected == Next(m, a).value.pcs[t].expected != m.word
  {
    assert HoldsMutex(m.pcs[t]) <==> m.owner == Some(t);
  }

  lemma {:induction false} Extends(s: State, run: seq<Action>, j: nat, t: nat, e: nat)
    requires |run| > 0 && SawDifferent(s, run[..|run| - 1], j, t, e)
    requires After(s, run).Some? && After(s, run).value.owner == Some(t)
    ensures SawDifferent(s, run, j, t, e)
  {
    hide After;
    var prior := run[..|run| - 1];
    forall k: nat | j <= k <= |run|
      ensures Before(s, run, k).Some? && Before(s, run, k).value.owner == Some(t)
    {
      if k < |run| {
        assert run[..k] == prior[..k];
        assert Before(s, prior, k).value.owner == Some(t);
      } else {
        assert run[..k] == run;
      }
    }
    assert run[..j] == prior[..j];
  }

  // ----- what each return code means -----

  /**
   What happened in a thread's latest wait: its arguments, whether its first load differed from the value expected,
   whether its latest later load did, and whether a timeout ended its latest sleep.
   */
  datatype History = History(expected: nat, timed: bool, first: Option<bool>, later: Option<bool>, expired: bool)

  /** Step a from m to r, as thread t's history records it. */
  function Note(h: History, m: State, a: Action, r: State, t: nat): History
    requires t < |m.pcs| == |r.pcs|
  {
    if a.CallWait? && a.t == t then History(a.expected, a.timed, None, None, false)
    else if a == Run(t) && m.pcs[t].WaitFirst? then h.(first := Some(m.word != h.expected))
    else if a == Run(t) && m.pcs[t].WaitLoop? then h.(later := Some(m.word != h.expected))
    else if m.pcs[t].Asleep? && !r.pcs[t].Asleep? then h.(expired := a == Timeout(t))
    else h
  }

  function HistoryOf(s: State, run: seq<Action>, t: nat): History
    requires After(s, run).Some? && t < |s.pcs|
    decreases |run|
  {
    if |run| == 0 then History(0, false, None, None, false)
    else
      var m, r := After(s, run[..|run| - 1]).value, After(s, run).value;
      var h := HistoryOf(s, run[..|run| - 1], t);
      if t < |m.pcs| == |r.pcs| then Note(h, m, run[|run| - 1], r, t) else h
  }

  /** A return code says what happened: 0 that the word changed later, EAGAIN at once, ETIMEDOUT that the time ended. */
  predicate RcMeans(rc: Rc, h: History) {
    && (rc == Again <==> h.first == Some(true))
    && (rc == Zero <==> h.first == Some(false) && h.later == Some(true) && !h.expired)
    && (rc == TimedOut <==> h.first == Some(false) && h.expired)
    && (rc == TimedOut ==> h.timed)
  }

  predicate Consistent(pc: Pc, h: History) {
    match pc
    case WaitLock(e, timed) => h == History(e, timed, None, None, false)
    case WaitFirst(e, timed) => h == History(e, timed, None, None, false)
    case WaitLoop(e, timed) => h.expected == e && h.timed == timed && h.first == Some(false) && !h.expired
    case WaitSleep(e, timed) => h == History(e, timed, Some(false), Some(false), false)
    case Asleep(e, timed) => h == History(e, timed, Some(false), Some(false), false)
    case Woken(e, timed, expired) =>
      h == History(e, timed, Some(false), Some(false), expired) && (expired ==> timed)
    case WaitUnlock(e, rc) => h.expected == e && RcMeans(rc, h)
    case _ => true
  }

  lemma {:induction false} StepConsistent(m: State, a: Action, t: nat, h: History)
    requires MutexExclusive(m) && Next(m, a).Some? && t < |m.pcs| == |Next(m, a).value.pcs|
    requires Consistent(m.pcs[t], h)
    ensures Consistent(Next(m, a).value.pcs[t], Note(h, m, a, Next(m, a).value, t))
  {
  }

  lemma {:induction false} RunConsistent(s: State, run: seq<Action>, t: nat)
    requires Fresh(s) && After(s, run).Some? && t < |s.pcs|
    ensures |After(s, run).value.pcs| == |s.pcs| && Consistent(After(s, run).value.pcs[t], HistoryOf(s, run, t))
    decreases |run|
  {
    hide Next, MutexExclusive, Consistent, Note;
    RunExclusive(s, run);
    if |run| > 0 {
      var prior := run[..|run| - 1];
      RunConsistent(s, prior, t);
      RunExclusive(s, prior);
      StepConsistent(After(s, prior).value, run[|run| - 1], t, HistoryOf(s, prior, t));
    } else {
      IdleConsistent(s, t);
    }
  }

  lemma {:induction false} IdleConsistent(s: State, t: nat)
    requires Fresh(s) && t < |s.pcs|
    ensures Consistent(s.pcs[t], History(0, false, None, None, false))
  {
  }

  /** In every run, a wait about to return has the code its history calls for, and no other. */
  lemma {:induction false} ReturnCodes(s: State, run: seq<Action>, t: nat)
    requires Fresh(s) && After(s, run).Some? && t < |s.pcs|
    requires t < |After(s, run).value.pcs| && After(s, run).value.pcs[t].WaitUnlock?
    ensures After(s, run).value.pcs[t].expected == HistoryOf(s, run, t).expected
    ensures RcMeans(After(s, run).value.pcs[t].rc, HistoryOf(s, run, t))
  {
    hide After, HistoryOf, RcMeans;
    RunConsistent(s, run, t);
  }

  // ----- sleepers -----

  /** Step k wakes every sleeper. */
  ghost predicate Broadcasts(s: State, run: seq<Action>, k: nat)
    requires k < |run|
  {
    && run[k].Run? && Before(s, run, k).Some?
    && (var m := Before(s, run, k).value;
        run[k].t < |m.pcs| && m.pcs[run[k].t].WakeSend? && m.pcs[run[k].t].count > 1)
  }

  /** Step j is u's load of a word equal to e, and no step from there on broadcasts. */
  ghost predicate CheckedSince(s: State, run: seq<Action>, j: nat, u: nat, e: nat) {
    && j < |run| && run[j] == Run(u) && Before(s, run, j).Some?
    && (var m := Before(s, run, j).value;
        u < |m.pcs| && m.pcs[u].WaitLoop? && m.pcs[u].expected == e == m.word && m.owner == Some(u))
    && forall k: nat :: j <= k < |run| ==> !Broadcasts(s, run, k)
  }

  predicate GoingToSleep(pc: Pc) {
    pc.WaitSleep? || pc.Asleep?
  }

  /** A sleeper found the word equal to what it expects, under the mutex, later than the latest broadcast. */
  lemma {:induction false} SleeperCheckedSince(s: State, run: seq<Action>, u: nat) returns (j: nat)
    requires Fresh(s) && After(s, run).Some? && u < |s.pcs|
    requires |After(s, run).value.pcs| == |s.pcs| && GoingToSleep(After(s, run).value.pcs[u])
    ensures CheckedSince(s, run, j, u, After(s, run).value.pcs[u].expected)
    decreases |run|
  {
    hide Next, MutexExclusive;
    var n := |run| - 1;
    var prior := run[..n];
    RunExclusive(s, prior);
    var m := After(s, prior).value;
    StillGoing(m, run[n], u);
    assert Before(s, run, n) == Some(m);
    if GoingToSleep(m.pcs[u]) {
      j := SleeperCheckedSince(s, prior, u);
      assert run[..j] == prior[..j];
      forall k: nat | j <= k < |run|
        ensures !Broadcasts(s, run, k)
      {
        if k < n {
          assert run[..k] == prior[..k];
          assert !Broadcasts(s, prior, k);
        }
      }
    } else {
      j := n;
    }
  }

  // A thread goes to sleep only by its own load, and stays asleep through any step but a broadcast.
  lemma {:induction false} StillGoing(m: State, a: Action, u: nat)
    requires MutexExclusive(m) && Next(m, a).Some? && u < |m.pcs| == |Next(m, a).value.pcs|
    requires GoingToSleep(Next(m, a).value.pcs[u])
    ensures GoingToSleep(m.pcs[u]) ==> m.pcs[u].expected == Next(m, a).value.pcs[u].expected
    ensures !GoingToSleep(m.pcs[u]) ==>
      && a == Run(u) && m.pcs[u].WaitLoop? && m.pcs[u].expected == m.word && m.owner == Some(u)
      && Next(m, a).value.pcs[u].expected == m.word
    ensures !(a.Run? && m.pcs[a.t].WakeSend? && m.pcs[a.t].count > 1)
  {
    assert HoldsMutex(m.pcs[a.t]) <==> m.owner == Some(a.t);
    assert HoldsMutex(m.pcs[u]) <==> m.owner == Some(u);
  }

  // ----- what a wake does -----

  predicate OthersKept(s: State, r: State, t: nat, woken: set<nat>) {
    |r.pcs| == |s.pcs| && forall u :: 0 <= u < |s.pcs| && u != t && u !in woken ==> r.pcs[u] == s.pcs[u]
  }

  predicate JustWoken(s: State, r: State, u: nat) {
    u < |s.pcs| == |r.pcs| && s.pcs[u].Asleep? && r.pcs[u] == Woken(s.pcs[u].expected, s.pcs[u].timed, false)
  }

  /** A wake of more than one wakes every sleeper; any other wakes exactly one, or none where nobody sleeps. */
  lemma {:induction false} WakeWakes(s: State, a: Action) returns (woken: set<nat>)
    requires a.t < |s.pcs| && s.pcs[a.t].WakeSend? && Next(s, a).Some?
    ensures var r := Next(s, a).value;
      && |r.pcs| == |s.pcs| && r.pcs[a.t] == WakeUnlock(s.pcs[a.t].count) && r.word == s.word && r.owner == s.owner
      && OthersKept(s, r, a.t, woken) && (forall u :: u in woken ==> JustWoken(s, r, u))
      && (s.pcs[a.t].count > 1 ==> forall u :: 0 <= u < |s.pcs| && s.pcs[u].Asleep? ==> u in woken)
      && (s.pcs[a.t].count <= 1 ==> |woken| == if NoSleeper(s.pcs) then 0 else 1)
  {
    woken := if a.Signal? then {a.sleeper} else set u: nat | u < |s.pcs| && s.pcs[u].Asleep?;
    if s.pcs[a.t].count <= 1 && NoSleeper(s.pcs) {
      assert woken == {};
    }
  }

  // ----- writers that always wake -----

  /** The discipline of a guest that follows each of its stores with a wake of at least so many. */
  predicate Disciplined(s: State, a: Action, least: int) {
    && !a.Abandon?
    && (a.CallWake? && a.t < |s.pcs| && s.pcs[a.t].Stored? ==> a.count >= least)
  }

  predicate DisciplinedRun(s: State, run: seq<Action>, least: int)
    requires After(s, run).Some?
    decreases |run|
  {
    |run| > 0 ==>
      && DisciplinedRun(s, run[..|run| - 1], least)
      && Disciplined(After(s, run[..|run| - 1]).value, run[|run| - 1], least)
  }

  /** A writer that has stored and has yet to broadcast. */
  predicate Owes(pc: Pc) {
    pc.Stored? || (pc.WakeLock? && pc.count > 1) || (pc.WakeSend? && pc.count > 1)
  }

  predicate Stale(s: State, u: nat)
    requires u < |s.pcs|
  {
    GoingToSleep(s.pcs[u]) && s.pcs[u].expected != s.word
  }

  /** A sleeper that waits for another value than the word holds has a writer still to wake it. */
  predicate CaughtUp(s: State) {
    (exists u: nat :: u < |s.pcs| && Stale(s, u)) ==> exists t :: 0 <= t < |s.pcs| && Owes(s.pcs[t])
  }

  lemma {:induction false} StepCaughtUp(s: State, a: Action)
    requires MutexExclusive(s) && CaughtUp(s) && Next(s, a).Some? && Disciplined(s, a, 2)
    ensures CaughtUp(Next(s, a).value)
  {
    var s' := Next(s, a).value;
    StepExclusive(s, a);
    if u: nat :| u < |s'.pcs| && Stale(s', u) {
      StillGoing(s, a, u);
      if a.Store? {
        assert Owes(s'.pcs[a.t]);
      } else {
        assert Stale(s, u);
        var t :| 0 <= t < |s.pcs| && Owes(s.pcs[t]);
        OwesStill(s, a, t);
      }
    }
  }

  lemma {:induction false} OwesStill(s: State, a: Action, t: nat)
    requires MutexExclusive(s) && Next(s, a).Some? && Disciplined(s, a, 2) && t < |s.pcs| == |Next(s, a).value.pcs|
    requires Owes(s.pcs[t]) && !(a.Run? && s.pcs[a.t].WakeSend? && s.pcs[a.t].count > 1)
    ensures Owes(Next(s, a).value.pcs[t])
  {
  }

  /** No missed wake: in every run so disciplined, a stale sleeper implies a writer that has not yet broadcast. */
  lemma {:induction false} NoMissedWake(s: State, run: seq<Action>, least: int)
    requires Fresh(s) && After(s, run).Some? && DisciplinedRun(s, run, least) && least >= 2
    ensures CaughtUp(After(s, run).value)
    decreases |run|
  {
    hide Next, CaughtUp, MutexExclusive;
    if |run| == 0 {
      FreshCaughtUp(s);
    } else {
      NoMissedWake(s, run[..|run| - 1], least);
      RunExclusive(s, run[..|run| - 1]);
      StepCaughtUp(After(s, run[..|run| - 1]).value, run[|run| - 1]);
    }
  }

  lemma {:induction false} FreshCaughtUp(s: State)
    requires Fresh(s)
    ensures CaughtUp(s)
  {
  }

  /** When nothing but sleep is left to do, every sleeper is asleep on the value the word really has. */
  lemma {:induction false} QuietSleepersAgree(s: State, run: seq<Action>, u: nat)
    requires Fresh(s) && After(s, run).Some? && DisciplinedRun(s, run, 2)
    requires forall t :: 0 <= t < |After(s, run).value.pcs| ==>
        After(s, run).value.pcs[t].Idle? || After(s, run).value.pcs[t].Asleep?
    requires u < |After(s, run).value.pcs| && After(s, run).value.pcs[u].Asleep?
    ensures After(s, run).value.pcs[u].expected == After(s, run).value.word
  {
    hide After;
    NoMissedWake(s, run, 2);
    var r := After(s, run).value;
    assert Stale(r, u) || r.pcs[u].expected == r.word;
  }

  // ----- a wake of one -----

  lemma {:induction false} Then(s: State, run: seq<Action>, m: State, a: Action)
    returns (longer: seq<Action>, next: State)
    requires After(s, run) == Some(m) && DisciplinedRun(s, run, 1) && Next(m, a).Some? && Disciplined(m, a, 1)
    ensures After(s, longer) == Some(next) == Next(m, a) && DisciplinedRun(s, longer, 1)
  {
    longer, next := run + [a], Next(m, a).value;
    assert longer[..|longer| - 1] == run;
  }

  // An idle thread that waits for the value the word holds falls asleep.
  lemma {:induction false} FallsAsleep(s: State, run: seq<Action>, m: State, t: nat)
    returns (longer: seq<Action>, next: State)
    requires After(s, run) == Some(m) && DisciplinedRun(s, run, 1)
    requires t < |m.pcs| && m.pcs[t] == Idle && m.owner == None
    ensures After(s, longer) == Some(next) && DisciplinedRun(s, longer, 1) && next == Goto(m, t, Asleep(m.word, false))
  {
    hide After, DisciplinedRun;
    longer, next := Then(s, run, m, CallWait(t, m.word, false));
    longer, next := Then(s, longer, next, Run(t));
    longer, next := Then(s, longer, next, Run(t));
    longer, next := Then(s, longer, next, Run(t));
    longer, next := Then(s, longer, next, Run(t));
  }

  lemma {:induction false} OneWake(s: State, run: seq<Action>) returns (longer: seq<Action>)
    requires After(s, run) == Some(State([Asleep(0, false), Asleep(0, false), Idle], None, 0))
    requires DisciplinedRun(s, run, 1)
    ensures After(s, longer) == Some(State([Woken(0, false, false), Asleep(0, false), Idle], None, 1))
    ensures DisciplinedRun(s, longer, 1)
  {
    hide After, DisciplinedRun;
    var m := After(s, run).value;
    longer, m := Then(s, run, m, Store(2, 1));
    longer, m := Then(s, longer, m, CallWake(2, 1));
    longer, m := Then(s, longer, m, Run(2));
    assert m == State([Asleep(0, false), Asleep(0, false), WakeSend(1)], Some(2), 1);
    longer, m := Then(s, longer, m, Signal(2, 0));
    assert m == State([Woken(0, false, false), Asleep(0, false), WakeUnlock(1)], Some(2), 1);
    longer, m := Then(s, longer, m, Run(2));
    assert m == State([Woken(0, false, false), Asleep(0, false), Idle], None, 1);
  }

  /**
   A wake of one is not enough when two threads sleep: a run of one store of 1 and one complete wake of one leaves a
   thread asleep on 0 with the word at 1 and no writer left to wake it.
   */
  lemma {:induction false} WakeOfOneLeavesOne() returns (s: State, run: seq<Action>)
    ensures Fresh(s) && After(s, run) == Some(State([Woken(0, false, false), Asleep(0, false), Idle], None, 1))
    ensures DisciplinedRun(s, run, 1) && !CaughtUp(After(s, run).value)
  {
    hide After, DisciplinedRun;
    s := State([Idle, Idle, Idle], None, 0);
    var m := s;
    run := [];
    StartsAt(s);
    run, m := FallsAsleep(s, run, m, 0);
    run, m := FallsAsleep(s, run, m, 1);
    assert m == State([Asleep(0, false), Asleep(0, false), Idle], None, 0);
    run := OneWake(s, run);
    assert Stale(State([Woken(0, false, false), Asleep(0, false), Idle], None, 1), 1);
  }

  lemma {:induction false} StartsAt(s: State)
    ensures After(s, []) == Some(s) && DisciplinedRun(s, [], 1)
  {
  }

  // ----- the exact discipline -----

  lemma {:induction false} WeakerDiscipline(s: State, run: seq<Action>, least: int, more: int)
    requires After(s, run).Some? && DisciplinedRun(s, run, more) && least <= more
    ensures DisciplinedRun(s, run, least)
    decreases |run|
  {
    if |run| > 0 {
      WeakerDiscipline(s, run[..|run| - 1], least, more);
    }
  }

  ghost predicate NeverMissed(least: int) {
    forall s, run :: Fresh(s) && After(s, run).Some? && DisciplinedRun(s, run, least) ==> CaughtUp(After(s, run).value)
  }

  /** Waking at least n after every store keeps every sleeper from being missed exactly when n is at least 2. */
  lemma {:induction false} NeverMissedIff(n: int)
    ensures NeverMissed(n) <==> n >= 2
  {
    hide CaughtUp, After, DisciplinedRun, Fresh;
    if n >= 2 {
      forall s, run | Fresh(s) && After(s, run).Some? && DisciplinedRun(s, run, n)
        ensures CaughtUp(After(s, run).value)
      {
        NoMissedWake(s, run, n);
      }
    } else {
      var s, run := WakeOfOneLeavesOne();
      WeakerDiscipline(s, run, n, 1);
    }
  }
}
