/**
 pthread_once as N threads over one atomic word: 0 not begun, 1 running, 2 done. Threads that find 1 spin.
 */
module Once {
  import opened Wrappers

  // Each state names the step a thread takes next: Enter starts init_routine, Inside finishes it, Publish stores 2.
  datatype Pc = Idle | Load | Cas | Enter | Inside | Publish | Yield | Done

  // started and completed count the runs of init_routine.
  datatype State = State(pcs: seq<Pc>, word: nat, started: nat, completed: nat)

  datatype Action = Call(t: nat) | Run(t: nat)

  predicate Fresh(s: State) {
    s.word == s.started == s.completed == 0 && forall t :: 0 <= t < |s.pcs| ==> s.pcs[t] == Idle
  }

  function Goto(s: State, t: nat, pc: Pc): State
    requires t < |s.pcs|
  {
    s.(pcs := s.pcs[t := pc])
  }

  function RunStep(s: State, t: nat): Option<State>
    requires t < |s.pcs|
  {
    match s.pcs[t]
    case Idle | Done => None
    case Load => Some(Goto(s, t, if s.word == 2 then Done else if s.word == 0 then Cas else Yield))
    case Cas => Some(if s.word == 0 then Goto(s, t, Enter).(word := 1) else Goto(s, t, Yield))
    case Enter => Some(Goto(s, t, Inside).(started := s.started + 1))
    case Inside => Some(Goto(s, t, Publish).(completed := s.completed + 1))
    case Publish => Some(Goto(s, t, Done).(word := 2))
    case Yield => Some(Goto(s, t, Load))
  }

  /** One interleaving step, or None when it is not possible. A thread may call again after it returned. */
  function Next(s: State, a: Action): Option<State> {
    if a.t >= |s.pcs| then None
    else
      match a
      case Call(t) => if s.pcs[t] in {Idle, Done} then Some(Goto(s, t, Load)) else None
      case Run(t) => RunStep(s, t)
  }

  function After(s: State, run: seq<Action>): Option<State> {
    if |run| == 0 then Some(s)
    else
      match After(s, run[..|run| - 1])
      case None => None
      case Some(m) => Next(m, run[|run| - 1])
  }

  /** A thread tries the exchange only after its own load found 0. */
  lemma {:induction false} ExchangeAfterZero(s: State, run: seq<Action>, t: nat) returns (j: nat)
    requires Fresh(s) && After(s, run).Some? && t < |After(s, run).value.pcs| && After(s, run).value.pcs[t] == Cas
    ensures j < |run| && run[j] == Run(t) && After(s, run[..j]).Some?
    ensures var m := After(s, run[..j]).value; t < |m.pcs| && m.pcs[t] == Load && m.word == 0
    decreases |run|
  {
    var n := |run| - 1;
    var m := After(s, run[..n]).value;
    if m.pcs[t] == Cas {
      j := ExchangeAfterZero(s, run[..n], t);
      assert run[..j] == run[..n][..j];
    } else {
      j := n;
    }
  }

  // ----- safety -----

  /** Between the winning exchange and the store of 2. */
  predicate Winning(pc: Pc) {
    pc in {Enter, Inside, Publish}
  }

  predicate WinnerIs(s: State, t: nat) {
    t < |s.pcs| && Winning(s.pcs[t]) && forall u :: 0 <= u < |s.pcs| && u != t ==> !Winning(s.pcs[u])
  }

  ghost predicate OneWinner(s: State) {
    if s.word == 1 then exists t: nat :: WinnerIs(s, t)
    else forall t :: 0 <= t < |s.pcs| ==> !Winning(s.pcs[t])
  }

  predicate Counted(s: State) {
    && (s.word == 0 ==> s.started == s.completed == 0)
    && (s.word == 2 ==> s.started == s.completed == 1)
    && (forall t :: 0 <= t < |s.pcs| && Winning(s.pcs[t]) ==>
          && s.started == (if s.pcs[t] == Enter then 0 else 1)
          && s.completed == (if s.pcs[t] == Publish then 1 else 0))
  }

  ghost predicate Inv(s: State) {
    && s.word <= 2 && OneWinner(s) && Counted(s)
    && forall t :: 0 <= t < |s.pcs| && s.pcs[t] == Done ==> s.word == 2
  }

  lemma {:induction false} StepOneWinner(s: State, a: Action)
    requires Inv(s) && Next(s, a).Some?
    ensures Next(s, a).value.word <= 2 && OneWinner(Next(s, a).value)
  {
    var s' := Next(s, a).value;
    if s.word == 1 {
      var t: nat :| WinnerIs(s, t);
      if s'.word == 1 {
        assert WinnerIs(s', t);
      }
    } else if s'.word == 1 {
      assert WinnerIs(s', a.t);
    }
  }

  lemma {:induction false} StepCounted(s: State, a: Action)
    requires Inv(s) && Next(s, a).Some?
    ensures Counted(Next(s, a).value)
  {
    if s.word == 1 {
      var t: nat :| WinnerIs(s, t);
    }
  }

  /** Every step keeps the invariant. */
  lemma {:induction false} StepKeeps(s: State, a: Action)
    requires Inv(s) && Next(s, a).Some?
    ensures Inv(Next(s, a).value) && |Next(s, a).value.pcs| == |s.pcs|
  {
    hide OneWinner, Counted;
    StepOneWinner(s, a);
    StepCounted(s, a);
    StepDone(s, a);
  }

  lemma {:induction false} StepDone(s: State, a: Action)
    requires Inv(s) && Next(s, a).Some?
    ensures forall t :: 0 <= t < |Next(s, a).value.pcs| && Next(s, a).value.pcs[t] == Done ==>
        Next(s, a).value.word == 2
  {
    if s.word == 2 {
      assert a.t < |s.pcs| && !Winning(s.pcs[a.t]);
    }
  }

  lemma {:induction false} RunInv(s: State, run: seq<Action>)
    requires Fresh(s) && After(s, run).Some?
    ensures Inv(After(s, run).value) && |After(s, run).value.pcs| == |s.pcs|
    decreases |run|
  {
    if |run| > 0 {
      RunInv(s, run[..|run| - 1]);
      StepKeeps(After(s, run[..|run| - 1]).value, run[|run| - 1]);
    }
  }

  /** In every interleaving the word is 1 exactly while one thread is between its exchange and its store of 2. */
  lemma {:induction false} RunningIffOneWinner(s: State, run: seq<Action>)
    requires Fresh(s) && After(s, run).Some?
    ensures var r := After(s, run).value;
      && (r.word == 1 <==> exists t: nat :: WinnerIs(r, t))
      && (r.word == 1 <==> exists t :: 0 <= t < |r.pcs| && Winning(r.pcs[t]))
  {
    hide After;
    RunInv(s, run);
    var r := After(s, run).value;
    if r.word == 1 {
      var t: nat :| WinnerIs(r, t);
      assert Winning(r.pcs[t]);
    }
  }

  /** init_routine starts at most once, and has finished by the time any call returns. */
  lemma {:induction false} RunsOnceBeforeReturn(s: State, run: seq<Action>)
    requires Fresh(s) && After(s, run).Some?
    ensures var r := After(s, run).value;
      && r.completed <= r.started <= 1
      && ((exists t :: 0 <= t < |r.pcs| && r.pcs[t] == Done) ==> r.completed == 1)
  {
    hide After;
    RunInv(s, run);
    var r := After(s, run).value;
    if r.word == 1 {
      var t: nat :| WinnerIs(r, t);
      assert Winning(r.pcs[t]);
    }
  }

  // ----- progress -----

  predicate Active(pc: Pc) {
    pc !in {Idle, Done}
  }

  /** A step of a thread that waits for the winner. */
  predicate Spins(s: State, a: Action) {
    a.Run? && a.t < |s.pcs| && s.word == 1 && s.pcs[a.t] in {Load, Cas, Yield}
  }

  /** How many steps a thread can still take without spinning, as long as the word does not change under it. */
  function Rank(word: nat, pc: Pc): nat {
    match pc
    case Idle | Done => 0
    case Publish => 1
    case Inside => 2
    case Enter => 3
    case Load => if word == 0 then 5 else if word == 1 then 3 else 1
    case Cas => if word == 0 then 4 else 3
    case Yield => if word == 0 then 6 else if word == 1 then 3 else 2
  }

  function Measure(word: nat, pcs: seq<Pc>): nat {
    if |pcs| == 0 then 0 else Rank(word, pcs[0]) + Measure(word, pcs[1..])
  }

  lemma {:induction false} MeasureUpdate(word: nat, pcs: seq<Pc>, t: nat, x: Pc)
    requires t < |pcs|
    ensures Measure(word, pcs[t := x]) == Measure(word, pcs) - Rank(word, pcs[t]) + Rank(word, x)
    decreases |pcs|
  {
    if t == 0 {
      assert pcs[t := x][1..] == pcs[1..];
    } else {
      assert pcs[t := x][1..] == pcs[1..][t - 1 := x];
      MeasureUpdate(word, pcs[1..], t - 1, x);
    }
  }

  lemma {:induction false} MeasureFalls(word: nat, word': nat, pcs: seq<Pc>)
    requires word <= word'
    ensures Measure(word', pcs) <= Measure(word, pcs)
    decreases |pcs|
  {
    if |pcs| > 0 {
      MeasureFalls(word, word', pcs[1..]);
    }
  }

  lemma {:induction false} StepMeasure(s: State, t: nat)
    requires Inv(s) && t < |s.pcs| && RunStep(s, t).Some?
    ensures var s' := RunStep(s, t).value;
      if Spins(s, Run(t)) then s' == Goto(s, t, s'.pcs[t]) && Measure(s'.word, s'.pcs) == Measure(s.word, s.pcs)
      else Measure(s'.word, s'.pcs) < Measure(s.word, s.pcs)
  {
    hide Measure;
    var s' := RunStep(s, t).value;
    var x := s'.pcs[t];
    MeasureUpdate(s'.word, s.pcs, t, x);
    MeasureFalls(s.word, s'.word, s.pcs);
    MeasureUpdate(s.word, s.pcs, t, x);
    MeasureFalls(s.word, s'.word, s'.pcs);
    assert s'.pcs == s.pcs[t := x];
  }

  /** In any reachable state with a call in progress, some thread has a step that is not spinning. */
  lemma {:induction false} SomeoneMovesOn(s: State, run: seq<Action>, t: nat) returns (u: nat)
    requires Fresh(s) && After(s, run).Some? && t < |After(s, run).value.pcs| && Active(After(s, run).value.pcs[t])
    ensures Next(After(s, run).value, Run(u)).Some? && !Spins(After(s, run).value, Run(u))
  {
    hide After;
    RunInv(s, run);
    var r := After(s, run).value;
    if r.word == 1 {
      u :| WinnerIs(r, u);
    } else {
      u := t;
    }
  }

  function Calls(run: seq<Action>): nat {
    if |run| == 0 then 0 else Calls(run[..|run| - 1]) + (if run[|run| - 1].Call? then 1 else 0)
  }

  /** Steps of the run that are neither new calls nor spinning. */
  function Moves(s: State, run: seq<Action>): nat
    requires After(s, run).Some?
    decreases |run|
  {
    if |run| == 0 then 0
    else
      var a := run[|run| - 1];
      Moves(s, run[..|run| - 1]) + (if a.Run? && !Spins(After(s, run[..|run| - 1]).value, a) then 1 else 0)
  }

  /**
   Each call adds at most five such steps, to all threads together: with SomeoneMovesOn, every call ends once they are
   taken.
   */
  lemma {:induction false} MovesBounded(s: State, run: seq<Action>)
    requires Fresh(s) && After(s, run).Some?
    ensures Moves(s, run) + Measure(After(s, run).value.word, After(s, run).value.pcs) <= 5 * Calls(run)
    decreases |run|
  {
    hide Next, Inv, Spins;
    if |run| == 0 {
      FreshMeasure(s.pcs);
    } else {
      var prior, a := run[..|run| - 1], run[|run| - 1];
      MovesBounded(s, prior);
      RunInv(s, prior);
      StepCost(After(s, prior).value, a);
    }
  }

  lemma {:induction false} StepCost(m: State, a: Action)
    requires Inv(m) && Next(m, a).Some?
    ensures var r := Next(m, a).value;
      Measure(r.word, r.pcs) + (if a.Run? && !Spins(m, a) then 1 else 0) <= Measure(m.word, m.pcs)
        + (if a.Call? then 5 else 0)
  {
    match a
    case Call(t) => MeasureUpdate(m.word, m.pcs, t, Load);
    case Run(t) => StepMeasure(m, t);
  }

  lemma {:induction false} FreshMeasure(pcs: seq<Pc>)
    requires forall t :: 0 <= t < |pcs| ==> pcs[t] == Idle
    ensures Measure(0, pcs) == 0
    decreases |pcs|
  {
    if |pcs| > 0 {
      FreshMeasure(pcs[1..]);
    }
  }
}
