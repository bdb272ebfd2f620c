/**
 Thread-specific keys: a table of 256 slots, each free or holding a host key. Creation happens under one lock; deletion
 frees the slot under the lock and the host key after it; get and set look the host key up under the lock and use it
 after. Host keys and slots are reused.
 */
module TlsKeys {
  import opened Wrappers

  const MAX_KEYS: nat := 256

  // ----- the table as a value -----

  type Slots = seq<Option<nat>>

  // What the host's own key_create answers, if it is asked.
  datatype Answer = Granted(host: nat) | Refused(code: int)

  datatype Outcome = Made(key: nat) | Invalid | Full | HostError(code: int)

  function FirstFree(slots: Slots, from: nat): (r: nat)
    requires from <= |slots|
    ensures from <= r <= |slots| && (r < |slots| ==> slots[r] == None)
    ensures forall i :: from <= i < r ==> slots[i].Some?
    decreases |slots| - from
  {
    if from == |slots| || slots[from] == None then from else FirstFree(slots, from + 1)
  }

  function CreateKey(slots: Slots, answer: Answer): (Slots, Outcome) {
    var i := FirstFree(slots, 0);
    if i == |slots| then (slots, Full)
    else
      match answer
      case Granted(h) => (slots[i := Some(h)], Made(i))
      case Refused(code) => (slots, HostError(code))
  }

  function HostKey(slots: Slots, key: int): Option<nat> {
    if 0 <= key < |slots| then slots[key] else None
  }

  /** The table says it is full exactly when every slot is live; otherwise a free slot is taken, or nothing changes. */
  lemma {:induction false} FullIffAllLive(slots: Slots, answer: Answer)
    ensures var (after, outcome) := CreateKey(slots, answer);
      && (outcome == Full <==> forall i :: 0 <= i < |slots| ==> slots[i].Some?)
      && (outcome.Made? ==>
           outcome.key < |slots| && slots[outcome.key] == None && after == slots[outcome.key := Some(answer.host)])
      && (!outcome.Made? ==> after == slots)
  {
    var i := FirstFree(slots, 0);
    assert i < |slots| ==> slots[i] == None;
  }

  // ----- the table as an array -----

  class KeyTable {
    const used: array<bool>
    const hostKeys: array<nat>

    ghost predicate Valid()
      reads this, used, hostKeys
    {
      used.Length == hostKeys.Length == MAX_KEYS
    }

    ghost function Contents(): (r: Slots)
      reads this, used, hostKeys
      requires Valid()
    {
      seq(MAX_KEYS, i requires 0 <= i < MAX_KEYS && Valid() reads this, used, hostKeys =>
        if used[i] then Some(hostKeys[i]) else None)
    }

    constructor ()
      ensures Valid() && fresh(used) && fresh(hostKeys) && Contents() == seq(MAX_KEYS, _ => None)
    {
      used := new bool[MAX_KEYS](_ => false);
      hostKeys := new nat[MAX_KEYS](_ => 0);
    }

    method Create(hasOut: bool, answer: Answer) returns (outcome: Outcome)
      requires Valid()
      modifies used, hostKeys
      ensures Valid()
      ensures (Contents(), outcome) == if hasOut then CreateKey(old(Contents()), answer) else (old(Contents()), Invalid)
    {
      if !hasOut { return Invalid; }
      ghost var before := Contents();
      var i := 0;
      while i < MAX_KEYS
        invariant 0 <= i <= MAX_KEYS && Contents() == before
        invariant FirstFree(before, 0) == FirstFree(before, i)
      {
        if !used[i] {
          match answer
          case Granted(h) =>
            used[i], hostKeys[i] := true, h;
            assert Contents() == before[i := Some(h)];
            return Made(i);
          case Refused(code) => return HostError(code);
        }
        i := i + 1;
      }
      return Full;
    }

    method LookUp(key: int) returns (host: Option<nat>)
      requires Valid()
      ensures host == HostKey(Contents(), key)
    {
      if key < 0 || key >= MAX_KEYS || !used[key] { return None; }
      return Some(hostKeys[key]);
    }

    /** The part of deletion under the lock; the caller then deletes the host key, if there is one. */
    method Release(key: int) returns (host: Option<nat>)
      requires Valid()
      modifies used
      ensures Valid() && host == HostKey(old(Contents()), key)
      ensures Contents() == if host.Some? then old(Contents())[key := None] else old(Contents())
    {
      if key < 0 || key >= MAX_KEYS || !used[key] { return None; }
      host := Some(hostKeys[key]);
      used[key] := false;
    }
  }

  // ----- threads -----

  // A thread between its table lookup and its use of the host key.
  datatype Pc = Idle | Deleting(host: nat) | Getting(key: nat, host: nat) | Setting(key: nat, host: nat, value: nat)

  // live and values belong to the host: its keys, and the value of each (thread, host key), where absent is null (0).
  datatype State = State(pcs: seq<Pc>, slots: Slots, live: set<nat>, values: map<(nat, nat), nat>)

  datatype Action =
    | Create(t: nat, answer: Answer)
    | Delete(t: nat, key: int) | FinishDelete(t: nat)
    | Get(t: nat, key: int) | FinishGet(t: nat)
    | Set(t: nat, key: int, value: nat) | FinishSet(t: nat)

  predicate Fresh(s: State) {
    && s.slots == seq(MAX_KEYS, _ => None)
    && forall t :: 0 <= t < |s.pcs| ==> s.pcs[t] == Idle
  }

  function ValueAt(s: State, t: nat, host: nat): nat {
    if (t, host) in s.values then s.values[(t, host)] else 0
  }

  function Goto(s: State, t: nat, pc: Pc): State
    requires t < |s.pcs|
  {
    s.(pcs := s.pcs[t := pc])
  }

  /** The host grants only keys that are not live, and starts a key at null in every thread. */
  function CreateStep(s: State, answer: Answer): Option<State> {
    var (slots, outcome) := CreateKey(s.slots, answer);
    if !outcome.Made? then Some(s)
    else if answer.host in s.live then None
    else Some(State(s.pcs, slots, s.live + {answer.host}, map p | p in s.values && p.1 != answer.host :: s.values[p]))
  }

  /** One interleaving step, or None when it is not possible; a lookup that fails returns at once. */
  function Next(s: State, a: Action): Option<State> {
    if a.t >= |s.pcs| then None
    else
      var pc := s.pcs[a.t];
      match a
      case Create(_, answer) => if pc.Idle? then CreateStep(s, answer) else None
      case Delete(t, key) =>
        if !pc.Idle? then None
        else if HostKey(s.slots, key) == None then Some(s)
        else Some(Goto(s, t, Deleting(s.slots[key].value)).(slots := s.slots[key := None]))
      case FinishDelete(t) => if pc.Deleting? then Some(Goto(s, t, Idle).(live := s.live - {pc.host})) else None
      case Get(t, key) =>
        if !pc.Idle? then None
        else if HostKey(s.slots, key) == None then Some(s)
        else Some(Goto(s, t, Getting(key, s.slots[key].value)))
      case FinishGet(t) => if pc.Getting? then Some(Goto(s, t, Idle)) else None
      case Set(t, key, value) =>
        if !pc.Idle? then None
        else if HostKey(s.slots, key) == None then Some(s)
        else Some(Goto(s, t, Setting(key, s.slots[key].value, value)))
      case FinishSet(t) =>
        if pc.Setting? then Some(Goto(s, t, Idle).(values := s.values[(t, pc.host) := pc.value])) else None
  }

  function After(s: State, run: seq<Action>): Option<State> {
    if |run| == 0 then Some(s)
    else
      match After(s, run[..|run| - 1])
      case None => None
      case Some(m) => Next(m, run[|run| - 1])
  }

  /** A get or a set goes to the host exactly when the key is one of the 256 numbers and its slot is live. */
  lemma {:induction false} LookupGoesForwardIff(s: State, t: nat, key: int, value: nat)
    requires t < |s.pcs| && s.pcs[t].Idle? && |s.slots| == MAX_KEYS
    ensures var live := 0 <= key < 256 && s.slots[key].Some?;
      && Next(s, Get(t, key)) == Some(if live then Goto(s, t, Getting(key, s.slots[key].value)) else s)
      && Next(s, Set(t, key, value)) == Some(if live then Goto(s, t, Setting(key, s.slots[key].value, value)) else s)
      && Next(s, Delete(t, key))
         == Some(if live then Goto(s, t, Deleting(s.slots[key].value)).(slots := s.slots[key := None]) else s)
  {
  }

  /** A key just created, number 0 included, is used through the host key it was granted, by every thread. */
  lemma {:induction false} CreatedKeyWorks(s: State, u: nat, host: nat, t: nat, value: nat)
    requires |s.slots| == MAX_KEYS && t < |s.pcs| && s.pcs[t].Idle?
    requires Next(s, Create(u, Granted(host))).Some? && CreateKey(s.slots, Granted(host)).1.Made?
    ensures var r, key := Next(s, Create(u, Granted(host))).value, CreateKey(s.slots, Granted(host)).1.key;
      && 0 <= key < 256 && s.slots[key] == None
      && Next(r, Get(t, key)) == Some(Goto(r, t, Getting(key, host))) && ValueAt(r, t, host) == 0
      && Next(r, Set(t, key, value)) == Some(Goto(r, t, Setting(key, host, value)))
  {
    FullIffAllLive(s.slots, Granted(host));
  }

  // ----- host keys -----

  predicate SlotsDistinct(s: State) {
    && (forall i :: 0 <= i < |s.slots| && s.slots[i].Some? ==> s.slots[i].value in s.live)
    && (forall i, j :: 0 <= i < j < |s.slots| && s.slots[i].Some? ==> s.slots[i] != s.slots[j])
  }

  /** A key being deleted is still live for the host, in no slot, and in the hands of one thread. */
  predicate DeletionsDistinct(s: State) {
    && (forall t :: 0 <= t < |s.pcs| && s.pcs[t].Deleting? ==>
         s.pcs[t].host in s.live && Some(s.pcs[t].host) !in s.slots)
    && (forall t, u :: 0 <= t < u < |s.pcs| && s.pcs[t].Deleting? ==> s.pcs[t] != s.pcs[u])
  }

  predicate Inv(s: State) {
    |s.slots| == MAX_KEYS && SlotsDistinct(s) && DeletionsDistinct(s)
  }

  lemma {:induction false} StepKeeps(s: State, a: Action)
    requires Inv(s) && Next(s, a).Some?
    ensures Inv(Next(s, a).value) && |Next(s, a).value.pcs| == |s.pcs|
  {
    if a.Create? {
      FullIffAllLive(s.slots, a.answer);
    }
  }

  lemma {:induction false} RunInv(s: State, run: seq<Action>)
    requires Fresh(s) && After(s, run).Some?
    ensures Inv(After(s, run).value) && |After(s, run).value.pcs| == |s.pcs|
    decreases |run|
  {
    if |run| > 0 {
      RunInv(s, run[..|run| - 1]);
      StepKeeps(After(s, run[..|run| - 1]).value, run[|run| - 1]);
    }
  }

  /** In every interleaving, live slots map one to one to live host keys, and no slot's key is being deleted. */
  lemma {:induction false} HostKeysDistinct(s: State, run: seq<Action>, i: nat)
    requires Fresh(s) && After(s, run).Some? && i < |After(s, run).value.slots| && After(s, run).value.slots[i].Some?
    ensures var r := After(s, run).value;
      && r.slots[i].value in r.live
      && (forall j :: 0 <= j < |r.slots| && j != i ==> r.slots[j] != r.slots[i])
      && (forall t :: 0 <= t < |r.pcs| ==> r.pcs[t] != Deleting(r.slots[i].value))
  {
    hide After;
    RunInv(s, run);
    var r := After(s, run).value;
    assert r.slots[i] in r.slots;
  }

  // ----- values -----

  /** What thread t last set under key k since the key's slot was last taken; null if nothing. */
  function LastSet(s: State, run: seq<Action>, t: nat, k: nat): nat
    requires After(s, run).Some?
    decreases |run|
  {
    if |run| == 0 then 0
    else
      var prior, a := run[..|run| - 1], run[|run| - 1];
      var m := After(s, prior).value;
      if a.Create? && CreateKey(m.slots, a.answer).1 == Made(k) then 0
      else if a == FinishSet(t) && m.pcs[t].key == k then m.pcs[t].value
      else LastSet(s, prior, t, k)
  }

  predicate Uses(pc: Pc, k: int) {
    (pc.Getting? || pc.Setting?) && pc.key == k
  }

  /** The caller's duty: a key is not deleted while a get or set of it is under way. */
  predicate Disciplined(s: State, a: Action) {
    a.Delete? ==> forall t :: 0 <= t < |s.pcs| ==> !Uses(s.pcs[t], a.key)
  }

  predicate DisciplinedRun(s: State, run: seq<Action>)
    requires After(s, run).Some?
    decreases |run|
  {
    |run| > 0 ==>
      && DisciplinedRun(s, run[..|run| - 1])
      && Disciplined(After(s, run[..|run| - 1]).value, run[|run| - 1])
  }

  /** A host key looked up is still the slot's when it is used. */
  predicate LookupsCurrent(s: State) {
    forall t :: 0 <= t < |s.pcs| && (s.pcs[t].Getting? || s.pcs[t].Setting?) ==>
      HostKey(s.slots, s.pcs[t].key) == Some(s.pcs[t].host)
  }

  lemma {:induction false} StepCurrent(s: State, a: Action)
    requires Inv(s) && LookupsCurrent(s) && Next(s, a).Some? && Disciplined(s, a)
    ensures LookupsCurrent(Next(s, a).value)
  {
    if a.Create? {
      FullIffAllLive(s.slots, a.answer);
    }
  }

  lemma {:induction false} RunCurrent(s: State, run: seq<Action>)
    requires Fresh(s) && After(s, run).Some? && DisciplinedRun(s, run)
    ensures LookupsCurrent(After(s, run).value)
    decreases |run|
  {
    hide Inv, Next;
    if |run| > 0 {
      RunCurrent(s, run[..|run| - 1]);
      RunInv(s, run[..|run| - 1]);
      StepCurrent(After(s, run[..|run| - 1]).value, run[|run| - 1]);
    }
  }

  // How one step changes the value a thread sees through a live slot.
  lemma {:induction false} StepValue(m: State, a: Action, t: nat, k: nat)
    requires Inv(m) && LookupsCurrent(m) && Next(m, a).Some? && k < |Next(m, a).value.slots|
    requires Next(m, a).value.slots[k].Some?
    requires k < |m.slots|
    ensures var r := Next(m, a).value;
      ValueAt(r, t, r.slots[k].value) ==
        if a.Create? && CreateKey(m.slots, a.answer).1 == Made(k) then 0
        else if a == FinishSet(t) && m.pcs[t].key == k then m.pcs[t].value
        else if m.slots[k].Some? then ValueAt(m, t, m.slots[k].value) else 0
    ensures m.slots[k].Some? || (a.Create? && CreateKey(m.slots, a.answer).1 == Made(k))
  {
    if a.Create? {
      FullIffAllLive(m.slots, a.answer);
    } else if a.FinishSet? {
      assert HostKey(m.slots, m.pcs[a.t].key) == Some(m.pcs[a.t].host);
    }
  }

  /**
   In every disciplined run, whatever slots and host keys were reused on the way, the value a thread reads under a live
   key is the one it last set in the key's lifetime.
   */
  lemma {:induction false} ReadsLastSet(s: State, run: seq<Action>, t: nat, k: nat)
    requires Fresh(s) && After(s, run).Some? && DisciplinedRun(s, run)
    requires k < |After(s, run).value.slots| && After(s, run).value.slots[k].Some?
    ensures ValueAt(After(s, run).value, t, After(s, run).value.slots[k].value) == LastSet(s, run, t, k)
    decreases |run|
  {
    hide Inv, Next, LookupsCurrent, Disciplined;
    if |run| > 0 {
      var prior := run[..|run| - 1];
      var m := After(s, prior).value;
      RunInv(s, prior);
      RunInv(s, run);
      RunCurrent(s, prior);
      SlotCount(m, After(s, run).value);
      StepValue(m, run[|run| - 1], t, k);
      if m.slots[k].Some? {
        ReadsLastSet(s, prior, t, k);
      }
    }
  }

  lemma {:induction false} SlotCount(m: State, r: State)
    requires Inv(m) && Inv(r)
    ensures |m.slots| == |r.slots|
  {
  }

  /** So a get under way returns that value. */
  lemma {:induction false} GetReturnsLastSet(s: State, run: seq<Action>, t: nat)
    requires Fresh(s) && After(s, run).Some? && DisciplinedRun(s, run)
    requires t < |After(s, run).value.pcs| && After(s, run).value.pcs[t].Getting?
    ensures var pc := After(s, run).value.pcs[t]; ValueAt(After(s, run).value, t, pc.host) == LastSet(s, run, t, pc.key)
  {
    hide After, LastSet;
    RunCurrent(s, run);
    ReadsLastSet(s, run, t, After(s, run).value.pcs[t].key);
  }

  // ----- why the duty is needed -----

  predicate CreateKeyMakes(m: State, a: Action, k: nat) {
    a.Create? && CreateKey(m.slots, a.answer).1 == Made(k)
  }

  lemma {:induction false} Then(s: State, run: seq<Action>, m: State, a: Action)
    returns (longer: seq<Action>, next: State)
    requires After(s, run) == Some(m) && Next(m, a).Some?
    ensures After(s, longer) == Some(next) == Next(m, a) && longer == run + [a]
    ensures !a.FinishSet? ==> LastSet(s, longer, 0, 1) == if CreateKeyMakes(m, a, 1) then 0 else LastSet(s, run, 0, 1)
    ensures a.FinishSet? && m.pcs[a.t].key != 1 ==> LastSet(s, longer, 0, 1) == LastSet(s, run, 0, 1)
  {
    longer, next := run + [a], Next(m, a).value;
    assert longer[..|longer| - 1] == run;
  }

  /** The two host keys of the example. */
  function TwoSlots(first: Option<nat>, second: Option<nat>): Slots {
    [first, second] + seq(MAX_KEYS - 2, _ => None)
  }

  /**
   Without it a set can land in another key: thread 0 sets key 0, thread 1 deletes that key in the middle and creates
   two, the second on the host key just freed; thread 0 then reads from key 1 a value it never set there.
   */
  lemma {:induction false} DeleteDuringSet() returns (s: State, run: seq<Action>)
    ensures Fresh(s) && After(s, run).Some? && !DisciplinedRun(s, run)
    ensures var r := After(s, run).value;
      |r.slots| == MAX_KEYS && r.slots[1] == Some(7) && ValueAt(r, 0, 7) == 5 && LastSet(s, run, 0, 1) == 0
  {
    hide After, LastSet, DisciplinedRun;
    s := State([Idle, Idle], seq(MAX_KEYS, _ => None), {}, map[]);
    run := [];
    StartsAt(s);
    var m := s;
    assert m.slots == TwoSlots(None, None);
    run, m := Then(s, run, m, Create(0, Granted(7)));
    assert m == State([Idle, Idle], TwoSlots(Some(7), None), {7}, map[]);
    run, m := Then(s, run, m, Set(0, 0, 5));
    assert m == State([Setting(0, 7, 5), Idle], TwoSlots(Some(7), None), {7}, map[]);
    run, m := Then(s, run, m, Delete(1, 0));
    assert m == State([Setting(0, 7, 5), Deleting(7)], TwoSlots(None, None), {7}, map[]);
    run, m := Then(s, run, m, FinishDelete(1));
    assert m == State([Setting(0, 7, 5), Idle], TwoSlots(None, None), {}, map[]);
    run, m := Then(s, run, m, Create(1, Granted(8)));
    assert m == State([Setting(0, 7, 5), Idle], TwoSlots(Some(8), None), {8}, map[]);
    run, m := Then(s, run, m, Create(1, Granted(7)));
    assert m == State([Setting(0, 7, 5), Idle], TwoSlots(Some(8), Some(7)), {7, 8}, map[]);
    run, m := Then(s, run, m, FinishSet(0));
    assert ValueAt(m, 0, 7) == 5;
    if DisciplinedRun(s, run) {
      ReadsLastSet(s, run, 0, 1);
    }
  }

  lemma {:induction false} StartsAt(s: State)
    ensures After(s, []) == Some(s) && LastSet(s, [], 0, 1) == 0
  {
  }
}
