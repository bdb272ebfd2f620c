/**
 The semaphore shim as N threads over one mutex, one condition variable and one counter, a step at a time. Wakeups may
 be spurious, and the counter is a 32-bit word that wraps.
 */
module Semaphore {
  import opened Wrappers

  const WORD: nat := 0x1_0000_0000

  // Where a thread stands in sem_wait, sem_post or sem_getvalue; each state names the step it takes next.
  datatype Pc =
    | Idle
    | WaitLock | WaitCheck | Asleep | Woken | WaitTake | WaitStore | WaitUnlock
    | PostLock | PostAdd | PostStore | PostSignal | PostUnlock
    | ReadLock | ReadValue | ReadUnlock(seen: nat)

  // count is the word in the guest's sem_t. The last three fields record history: completed calls, and overflows.
  datatype State = State(pcs: seq<Pc>, owner: Option<nat>, value: nat, count: nat, initial: nat, posts: nat,
                         waits: nat, wraps: nat)

  // Run is a thread's own next step; Wake is a signal's choice of sleeper; Spurious needs no signal.
  datatype Action = CallWait(t: nat) | CallPost(t: nat) | CallRead(t: nat) | Run(t: nat) | Signal(t: nat, sleeper: nat)
    | Spurious(t: nat)

  /** sem_init has returned and no other call has begun. */
  predicate Fresh(s: State) {
    && (forall t :: 0 <= t < |s.pcs| ==> s.pcs[t] == Idle)
    && s.owner == None && s.value == s.count == s.initial < WORD && s.posts == s.waits == s.wraps == 0
  }

  function Goto(s: State, t: nat, pc: Pc): State
    requires t < |s.pcs|
  {
    s.(pcs := s.pcs[t := pc])
  }

  function Lock(s: State, t: nat, pc: Pc): Option<State>
    requires t < |s.pcs|
  {
    if s.owner == None then Some(Goto(s, t, pc).(owner := Some(t))) else None
  }

  function RunStep(s: State, t: nat): Option<State>
    requires t < |s.pcs|
  {
    match s.pcs[t]
    case Idle | Asleep => None
    case WaitLock | Woken => Lock(s, t, WaitCheck)
    case WaitCheck => Some(if s.value == 0 then Goto(s, t, Asleep).(owner := None) else Goto(s, t, WaitTake))
    case WaitTake => Some(Goto(s, t, WaitStore).(value := if s.value == 0 then WORD - 1 else s.value - 1))
    case WaitStore => Some(Goto(s, t, WaitUnlock).(count := s.value))
    case WaitUnlock => Some(Goto(s, t, Idle).(owner := None, waits := s.waits + 1))
    case PostLock => Lock(s, t, PostAdd)
    case PostAdd => Some(Goto(s, t, PostStore).(value := (s.value + 1) % WORD, wraps := s.wraps + (s.value + 1) / WORD))
    case PostStore => Some(Goto(s, t, PostSignal).(count := s.value))
    case PostSignal => if Count(s.pcs, Asleep) == 0 then Some(Goto(s, t, PostUnlock)) else None
    case PostUnlock => Some(Goto(s, t, Idle).(owner := None, posts := s.posts + 1))
    case ReadLock => Lock(s, t, ReadValue)
    case ReadValue => Some(Goto(s, t, ReadUnlock(s.value)))
    case ReadUnlock(_) => Some(Goto(s, t, Idle).(owner := None))
  }

  /** One interleaving step, or None when it is not possible. */
  function Next(s: State, a: Action): Option<State> {
    if a.t >= |s.pcs| then None
    else
      match a
      case CallWait(t) => if s.pcs[t] == Idle then Some(Goto(s, t, WaitLock)) else None
      case CallPost(t) => if s.pcs[t] == Idle then Some(Goto(s, t, PostLock)) else None
      case CallRead(t) => if s.pcs[t] == Idle then Some(Goto(s, t, ReadLock)) else None
      case Run(t) => RunStep(s, t)
      case Signal(t, u) =>
        if s.pcs[t] == PostSignal && u < |s.pcs| && s.pcs[u] == Asleep
        then Some(Goto(Goto(s, u, Woken), t, PostUnlock)) else None
      case Spurious(t) => if s.pcs[t] == Asleep then Some(Goto(s, t, Woken)) else None
  }

  // ----- counting threads -----

  function Count(pcs: seq<Pc>, pc: Pc): nat {
    if |pcs| == 0 then 0 else (if pcs[0] == pc then 1 else 0) + Count(pcs[1..], pc)
  }

  lemma {:induction false} CountUpdate(pcs: seq<Pc>, t: nat, pc: Pc, x: Pc)
    requires t < |pcs|
    ensures Count(pcs[t := x], pc) == Count(pcs, pc) - (if pcs[t] == pc then 1 else 0) + (if x == pc then 1 else 0)
    decreases |pcs|
  {
    if t == 0 {
      assert pcs[t := x][1..] == pcs[1..];
    } else {
      assert pcs[t := x][1..] == pcs[1..][t - 1 := x];
      CountUpdate(pcs[1..], t - 1, pc, x);
    }
  }

  lemma {:induction false} CountPositive(pcs: seq<Pc>, pc: Pc)
    ensures Count(pcs, pc) > 0 <==> exists t :: 0 <= t < |pcs| && pcs[t] == pc
    decreases |pcs|
  {
    if |pcs| > 0 {
      CountPositive(pcs[1..], pc);
      if Count(pcs[1..], pc) > 0 {
        var t :| 0 <= t < |pcs[1..]| && pcs[1..][t] == pc;
        assert pcs[t + 1] == pc;
      }
      if t :| 0 <= t < |pcs| && pcs[t] == pc && t > 0 {
        assert pcs[1..][t - 1] == pc;
      }
    }
  }

  // ----- the invariant -----

  predicate HoldsMutex(pc: Pc) {
    pc !in {Idle, WaitLock, Asleep, Woken, PostLock, ReadLock}
  }

  function OwnerPc(s: State): Pc {
    if s.owner.Some? && s.owner.value < |s.pcs| then s.pcs[s.owner.value] else Idle
  }

  /** Posts whose addition, minus waits whose subtraction, is done while the call is not yet complete. */
  function InFlight(pc: Pc): int {
    if pc in {PostStore, PostSignal, PostUnlock} then 1 else if pc in {WaitStore, WaitUnlock} then -1 else 0
  }

  /** The mutex holder may owe one wakeup, or be a woken thread that has not yet taken its unit. */
  function Slack(pc: Pc): nat {
    if pc in {WaitCheck, WaitTake, PostStore, PostSignal} then 1 else 0
  }

  predicate MutexExclusive(s: State) {
    && (s.owner.Some? ==> s.owner.value < |s.pcs|)
    && forall t :: 0 <= t < |s.pcs| ==> (HoldsMutex(s.pcs[t]) <==> s.owner == Some(t))
  }

  predicate Accounted(s: State) {
    && s.value < WORD
    && s.value + WORD * s.wraps == s.initial + s.posts - s.waits + InFlight(OwnerPc(s))
    && (OwnerPc(s) !in {WaitStore, PostStore} ==> s.count == s.value)
    && (OwnerPc(s) == WaitTake ==> s.value > 0)
  }

  predicate WakeupsPending(s: State) {
    Count(s.pcs, Asleep) > 0 ==> Count(s.pcs, Woken) + Slack(OwnerPc(s)) >= s.value
  }

  predicate Inv(s: State) {
    MutexExclusive(s) && Accounted(s) && WakeupsPending(s)
  }

  lemma {:induction false} FreshInv(s: State)
    requires Fresh(s)
    ensures Inv(s)
  {
    CountPositive(s.pcs, Asleep);
  }

  // Whichever thread runs, only the mutex holder's own steps and the taking of a free mutex change the shared fields.
  lemma {:induction false} RunExclusive(s: State, t: nat)
    requires MutexExclusive(s) && t < |s.pcs| && RunStep(s, t).Some?
    ensures MutexExclusive(RunStep(s, t).value)
  {
    assert HoldsMutex(s.pcs[t]) <==> s.owner == Some(t);
  }

  lemma {:induction false} RunAccounted(s: State, t: nat)
    requires MutexExclusive(s) && Accounted(s) && t < |s.pcs| && RunStep(s, t).Some?
    ensures Accounted(RunStep(s, t).value)
  {
    hide Count;
    assert HoldsMutex(s.pcs[t]) <==> s.owner == Some(t);
    if s.pcs[t] == PostAdd {
      assert (s.value + 1) / WORD == if s.value + 1 == WORD then 1 else 0;
    }
  }

  lemma {:induction false} RunWakeups(s: State, t: nat)
    requires MutexExclusive(s) && Accounted(s) && WakeupsPending(s) && t < |s.pcs| && RunStep(s, t).Some?
    ensures WakeupsPending(RunStep(s, t).value)
  {
    hide Count;
    var x := RunStep(s, t).value.pcs[t];
    assert HoldsMutex(s.pcs[t]) <==> s.owner == Some(t);
    CountUpdate(s.pcs, t, Asleep, x);
    CountUpdate(s.pcs, t, Woken, x);
    assert RunStep(s, t).value.pcs == s.pcs[t := x];
  }

  lemma {:induction false} SignalKeeps(s: State, t: nat, u: nat)
    requires Inv(s) && Next(s, Signal(t, u)).Some?
    ensures Inv(Next(s, Signal(t, u)).value)
  {
    hide Count;
    assert HoldsMutex(s.pcs[t]) && !HoldsMutex(s.pcs[u]);
    CountUpdate(s.pcs, u, Asleep, Woken);
    CountUpdate(s.pcs, u, Woken, Woken);
    CountUpdate(s.pcs[u := Woken], t, Asleep, PostUnlock);
    CountUpdate(s.pcs[u := Woken], t, Woken, PostUnlock);
  }

  // A call that begins, or a spurious wakeup, moves one thread that does not hold the mutex.
  lemma {:induction false} OutsideKeeps(s: State, t: nat, pc: Pc)
    requires Inv(s) && t < |s.pcs| && !HoldsMutex(s.pcs[t]) && !HoldsMutex(pc)
    requires pc != Asleep && s.pcs[t] != Woken
    ensures Inv(Goto(s, t, pc))
  {
    hide Count;
    CountUpdate(s.pcs, t, Asleep, pc);
    CountUpdate(s.pcs, t, Woken, pc);
    assert s.owner != Some(t);
    assert OwnerPc(Goto(s, t, pc)) == OwnerPc(s);
  }

  /** Every step keeps the invariant. */
  lemma {:induction false} StepKeeps(s: State, a: Action)
    requires Inv(s) && Next(s, a).Some?
    ensures Inv(Next(s, a).value)
  {
    match a
    case Run(t) =>
      RunExclusive(s, t);
      RunAccounted(s, t);
      RunWakeups(s, t);
    case Signal(t, u) => SignalKeeps(s, t, u);
    case CallWait(t) => OutsideKeeps(s, t, WaitLock);
    case CallPost(t) => OutsideKeeps(s, t, PostLock);
    case CallRead(t) => OutsideKeeps(s, t, ReadLock);
    case Spurious(t) => OutsideKeeps(s, t, Woken);
  }

  /** The states of a run from s under the given steps; None once a step is impossible. */
  function After(s: State, run: seq<Action>): Option<State> {
    if |run| == 0 then Some(s)
    else
      match After(s, run[..|run| - 1])
      case None => None
      case Some(m) => Next(m, run[|run| - 1])
  }

  lemma {:induction false} RunInv(s: State, run: seq<Action>)
    requires Fresh(s) && After(s, run).Some?
    ensures Inv(After(s, run).value) && After(s, run).value.initial == s.initial
    decreases |run|
  {
    hide Inv, Next;
    if |run| == 0 {
      FreshInv(s);
    } else {
      RunInv(s, run[..|run| - 1]);
      var m := After(s, run[..|run| - 1]).value;
      StepKeeps(m, run[|run| - 1]);
      KeepsInitial(m, run[|run| - 1]);
    }
  }

  lemma {:induction false} KeepsInitial(s: State, a: Action)
    requires Next(s, a).Some?
    ensures Next(s, a).value.initial == s.initial
  {
  }

  // ----- what it gives -----

  /**
   In every interleaving from sem_init on: whenever the mutex is free, the counter is the initial value plus completed
   posts minus completed waits (exactly so until it overflows), and the guest's word shows it.
   */
  lemma {:induction false} CounterIsBalance(s: State, run: seq<Action>)
    requires Fresh(s) && After(s, run).Some? && After(s, run).value.owner == None
    ensures var r := After(s, run).value;
      && r.value + WORD * r.wraps == s.initial + r.posts - r.waits
      && r.count == r.value < WORD
      && (s.initial + r.posts - r.waits < WORD ==> r.value == s.initial + r.posts - r.waits)
      && r.waits <= s.initial + r.posts
  {
    RunInv(s, run);
    assert OwnerPc(After(s, run).value) == Idle;
  }

  /** No subtraction ever happens at zero, in any interleaving. */
  lemma {:induction false} NeverBelowZero(s: State, run: seq<Action>, t: nat)
    requires Fresh(s) && After(s, run).Some? && t < |After(s, run).value.pcs|
    requires After(s, run).value.pcs[t] == WaitTake
    ensures After(s, run).value.value > 0
  {
    RunInv(s, run);
    assert HoldsMutex(After(s, run).value.pcs[t]);
  }

  /** No lost wakeup: with the mutex free, sleepers leave at least as many threads waking as there are units. */
  lemma {:induction false} NoLostWakeup(s: State, run: seq<Action>)
    requires Fresh(s) && After(s, run).Some? && After(s, run).value.owner == None
    ensures var r := After(s, run).value;
      (exists t :: 0 <= t < |r.pcs| && r.pcs[t] == Asleep) ==> Count(r.pcs, Woken) >= r.value
  {
    RunInv(s, run);
    var r := After(s, run).value;
    CountPositive(r.pcs, Asleep);
    assert OwnerPc(r) == Idle;
  }

  // ----- calls begun and calls done -----

  function CountIn(pcs: seq<Pc>, some: set<Pc>): nat {
    if |pcs| == 0 then 0 else CountIn(pcs[..|pcs| - 1], some) + if pcs[|pcs| - 1] in some then 1 else 0
  }

  lemma {:induction false} CountInUpdate(pcs: seq<Pc>, t: nat, some: set<Pc>, x: Pc)
    requires t < |pcs|
    ensures CountIn(pcs[t := x], some)
         == CountIn(pcs, some) - (if pcs[t] in some then 1 else 0) + (if x in some then 1 else 0)
    decreases |pcs|
  {
    var n := |pcs| - 1;
    if t == n {
      assert pcs[t := x][..n] == pcs[..n];
    } else {
      assert pcs[t := x][..n] == pcs[..n][t := x];
      CountInUpdate(pcs[..n], t, some, x);
    }
  }

  const IN_WAIT: set<Pc> := {WaitLock, WaitCheck, Asleep, Woken, WaitTake, WaitStore, WaitUnlock}
  const IN_POST: set<Pc> := {PostLock, PostAdd, PostStore, PostSignal, PostUnlock}

  function Begun(run: seq<Action>): (r: (nat, nat)) {
    if |run| == 0 then (0, 0)
    else
      var (waits, posts) := Begun(run[..|run| - 1]);
      (waits + (if run[|run| - 1].CallWait? then 1 else 0), posts + (if run[|run| - 1].CallPost? then 1 else 0))
  }

  lemma {:induction false} StepCalls(s: State, a: Action)
    requires Next(s, a).Some?
    ensures var r := Next(s, a).value;
      && r.waits + CountIn(r.pcs, IN_WAIT) == s.waits + CountIn(s.pcs, IN_WAIT) + (if a.CallWait? then 1 else 0)
      && r.posts + CountIn(r.pcs, IN_POST) == s.posts + CountIn(s.pcs, IN_POST) + (if a.CallPost? then 1 else 0)
  {
    hide CountIn, Count;
    var r := Next(s, a).value;
    if a.Signal? {
      CountInUpdate(s.pcs, a.sleeper, IN_WAIT, Woken);
      CountInUpdate(s.pcs, a.sleeper, IN_POST, Woken);
      CountInUpdate(s.pcs[a.sleeper := Woken], a.t, IN_WAIT, PostUnlock);
      CountInUpdate(s.pcs[a.sleeper := Woken], a.t, IN_POST, PostUnlock);
    } else {
      CountInUpdate(s.pcs, a.t, IN_WAIT, r.pcs[a.t]);
      CountInUpdate(s.pcs, a.t, IN_POST, r.pcs[a.t]);
      assert r.pcs == s.pcs[a.t := r.pcs[a.t]];
    }
  }

  lemma {:induction false} NoneBegun(pcs: seq<Pc>, some: set<Pc>)
    requires Idle !in some && forall t :: 0 <= t < |pcs| ==> pcs[t] == Idle
    ensures CountIn(pcs, some) == 0
    decreases |pcs|
  {
    if |pcs| > 0 {
      NoneBegun(pcs[..|pcs| - 1], some);
    }
  }

  /** Every sem_wait begun is done or under way, and so is every sem_post; none turns into the other. */
  lemma {:induction false} CallsAccounted(s: State, run: seq<Action>)
    requires Fresh(s) && After(s, run).Some?
    ensures var r := After(s, run).value;
      && Begun(run).0 == r.waits + CountIn(r.pcs, IN_WAIT)
      && Begun(run).1 == r.posts + CountIn(r.pcs, IN_POST)
    decreases |run|
  {
    hide CountIn, Next;
    if |run| == 0 {
      NoneBegun(s.pcs, IN_WAIT);
      NoneBegun(s.pcs, IN_POST);
    } else {
      CallsAccounted(s, run[..|run| - 1]);
      StepCalls(After(s, run[..|run| - 1]).value, run[|run| - 1]);
    }
  }

  lemma {:induction false} StepSeen(s: State, a: Action, t: nat)
    requires MutexExclusive(s) && Next(s, a).Some? && t < |s.pcs| == |Next(s, a).value.pcs|
    requires s.pcs[t].ReadUnlock? ==> s.pcs[t].seen == s.value
    ensures var r := Next(s, a).value; r.pcs[t].ReadUnlock? ==> r.pcs[t].seen == r.value
  {
    hide Count;
    assert HoldsMutex(s.pcs[t]) <==> s.owner == Some(t);
    assert HoldsMutex(s.pcs[a.t]) <==> s.owner == Some(a.t);
  }

  /** sem_getvalue is about to return the counter as it stands: initial value plus posts minus waits. */
  lemma {:induction false} ReadReturnsBalance(s: State, run: seq<Action>, t: nat)
    requires Fresh(s) && After(s, run).Some? && t < |s.pcs|
    ensures var r := After(s, run).value;
      |r.pcs| == |s.pcs| && (r.pcs[t].ReadUnlock? ==>
        r.pcs[t].seen == r.value && r.value + WORD * r.wraps == s.initial + r.posts - r.waits)
    decreases |run|
  {
    hide Next, Count, WakeupsPending;
    RunInv(s, run);
    if |run| > 0 {
      var prior := run[..|run| - 1];
      RunInv(s, prior);
      ReadReturnsBalance(s, prior, t);
      SameThreads(After(s, prior).value, run[|run| - 1]);
      StepSeen(After(s, prior).value, run[|run| - 1], t);
    }
    assert HoldsMutex(After(s, run).value.pcs[t]) <==> After(s, run).value.owner == Some(t);
  }

  lemma {:induction false} SameThreads(s: State, a: Action)
    requires Next(s, a).Some?
    ensures |Next(s, a).value.pcs| == |s.pcs|
  {
  }

  predicate AllQuiet(s: State) {
    s.owner == None && s.value == 0 && forall t :: 0 <= t < |s.pcs| ==> s.pcs[t] in {Idle, Asleep}
  }

  predicate Busy(s: State) {
    exists t :: 0 <= t < |s.pcs| && s.pcs[t] != Idle
  }

  /** A step of some call already begun, needing neither a new call nor a spurious wakeup. */
  ghost predicate CanMove(s: State) {
    (exists t: nat :: Next(s, Run(t)).Some?) || exists t: nat, u: nat :: Next(s, Signal(t, u)).Some?
  }

  /** No deadlock: unless every call in progress is asleep on a zero counter, some call can go on by itself. */
  lemma {:induction false} Progress(s: State, run: seq<Action>)
    requires Fresh(s) && After(s, run).Some?
    ensures var r := After(s, run).value; Busy(r) && !AllQuiet(r) ==> CanMove(r)
  {
    hide After, Fresh;
    RunInv(s, run);
    var r := After(s, run).value;
    if Busy(r) && !AllQuiet(r) {
      if r.owner.Some? {
        HolderMoves(r);
      } else {
        WaiterMoves(r);
      }
    }
  }

  lemma {:induction false} HolderMoves(s: State)
    requires Inv(s) && s.owner.Some?
    ensures CanMove(s)
  {
    var t := s.owner.value;
    assert HoldsMutex(s.pcs[t]);
    if s.pcs[t] == PostSignal && Count(s.pcs, Asleep) > 0 {
      CountPositive(s.pcs, Asleep);
      var u :| 0 <= u < |s.pcs| && s.pcs[u] == Asleep;
      assert Next(s, Signal(t, u)).Some?;
    } else {
      assert Next(s, Run(t)).Some?;
    }
  }

  lemma {:induction false} WaiterMoves(s: State)
    requires Inv(s) && s.owner == None && Busy(s)
    ensures CanMove(s) || AllQuiet(s)
  {
    if t :| 0 <= t < |s.pcs| && s.pcs[t] !in {Idle, Asleep} {
      assert !HoldsMutex(s.pcs[t]);
      assert Next(s, Run(t)).Some?;
    } else {
      CountPositive(s.pcs, Asleep);
      CountPositive(s.pcs, Woken);
      assert OwnerPc(s) == Idle;
    }
  }
}
