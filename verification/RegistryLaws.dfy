/** What holds over every sequential run of the registry's operations and of the guest's own stores. */
module RegistryLaws {
  import opened Wrappers
  import opened Registry

  datatype Op =
    | UseMutex(a: nat, ok: bool) | UseCond(a: nat, ok: bool)
    | InitMutex(a: nat, attr: Option<int>, ok: bool) | InitCond(a: nat, attr: Option<int>, ok: bool)
    | DestroyKey(key: Key, code: Code)
    | GuestStore(a: nat, word: nat)

  function Apply(s: Table, op: Op): Table {
    match op
    case UseMutex(a, ok) => GetMutex(s, a, ok).0
    case UseCond(a, ok) => GetCond(s, a, ok).0
    case InitMutex(a, attr, ok) => MutexInit(s, a, attr, ok).0
    case InitCond(a, attr, ok) => CondInit(s, a, attr, ok).0
    case DestroyKey(key, code) => Destroy(s, key, code).0
    case GuestStore(a, word) => s.(words := s.words[a := word])
  }

  function After(s: Table, ops: seq<Op>): Table {
    if |ops| == 0 then s else Apply(After(s, ops[..|ops| - 1]), ops[|ops| - 1])
  }

  // ----- one host object for each key -----

  predicate KindMatches(kind: Kind, entry: HostObject) {
    kind.MutexKind? <==> entry.Mutex?
  }

  /** Every host object is of its key's kind and serves one key only. */
  predicate Sound(s: Table) {
    && (forall k :: k in s.objects ==> KindMatches(k.kind, s.objects[k]) && s.objects[k].serial < s.created)
    && (forall k, l :: k in s.objects && l in s.objects && s.objects[k].serial == s.objects[l].serial ==> k == l)
  }

  lemma {:induction false} AddSound(s: Table, key: Key, entry: HostObject)
    requires Sound(s) && KindMatches(key.kind, entry) && entry.serial == s.created
    ensures Sound(Add(s, key, entry))
  {
  }

  lemma {:induction false} DropSound(s: Table, key: Key, words: map<nat, nat>)
    requires Sound(s)
    ensures Sound(Drop(s, key).(words := words))
  {
  }

  lemma {:induction false} SoundIgnoresWords(s: Table, words: map<nat, nat>)
    requires Sound(s)
    ensures Sound(s.(words := words))
  {
  }

  lemma {:induction false} ApplySound(s: Table, op: Op)
    requires Sound(s)
    ensures Sound(Apply(s, op)) && Apply(s, op).created >= s.created
  {
    hide Sound, HostMutexType, AndroidType, AttrType, TypeWord;
    match op
    case UseMutex(a, ok) => AddSound(s, Key(a, MutexKind), Mutex(s.created, HostMutexType(AndroidType(WordAt(s, a)))));
    case UseCond(a, ok) => AddSound(s, Key(a, CondKind), Cond(s.created, 0));
    case InitMutex(a, attr, ok) =>
      var cleared := Drop(s, Key(a, MutexKind)).(words := s.words[a := TypeWord(AttrType(attr))]);
      DropSound(s, Key(a, MutexKind), cleared.words);
      AddSound(cleared, Key(a, MutexKind), Mutex(s.created, HostMutexType(AttrType(attr))));
    case InitCond(a, attr, ok) =>
      var cleared := Drop(s, Key(a, CondKind)).(words := s.words[a := 0]);
      DropSound(s, Key(a, CondKind), cleared.words);
      AddSound(cleared, Key(a, CondKind), Cond(s.created, match attr case None => 0 case Some(c) => c));
    case DestroyKey(key, code) => DropSound(s, key, s.words[key.address := 0]);
    case GuestStore(a, word) => SoundIgnoresWords(s, s.words[a := word]);
  }

  // By construction, since every creation takes a new serial: no host object is ever shared by two keys.
  lemma {:induction false} RunSound(ops: seq<Op>)
    ensures Sound(After(Table(map[], map[], 0), ops))
    decreases |ops|
  {
    if |ops| > 0 {
      RunSound(ops[..|ops| - 1]);
      ApplySound(After(Table(map[], map[], 0), ops[..|ops| - 1]), ops[|ops| - 1]);
    }
  }

  // ----- a key's object lasts from init to destroy -----

  /** An operation that may replace or remove the key's object. */
  predicate Renews(op: Op, key: Key) {
    || (op.InitMutex? && key == Key(op.a, MutexKind))
    || (op.InitCond? && key == Key(op.a, CondKind))
    || (op.DestroyKey? && key == op.key)
  }

  /** No other operation, on any key or by the guest, disturbs the object. */
  lemma {:induction false} ObjectLasts(s: Table, ops: seq<Op>, key: Key)
    requires key in s.objects && forall i :: 0 <= i < |ops| ==> !Renews(ops[i], key)
    ensures key in After(s, ops).objects && After(s, ops).objects[key] == s.objects[key]
    decreases |ops|
  {
    if |ops| > 0 {
      ObjectLasts(s, ops[..|ops| - 1], key);
      assert !Renews(ops[|ops| - 1], key);
    }
  }

  /** From a successful mutex_init on, every use finds one host mutex of the type the attribute asked for. */
  lemma {:induction false} InitDecidesType(s: Table, a: nat, attr: Option<int>, ops: seq<Op>, ok: bool)
    requires a != 0 && forall i :: 0 <= i < |ops| ==> !Renews(ops[i], Key(a, MutexKind))
    ensures GetMutex(After(Apply(s, InitMutex(a, attr, true)), ops), a, ok).1
        == Some(Mutex(s.created, HostMutexType(AttrType(attr))))
  {
    ObjectLasts(Apply(s, InitMutex(a, attr, true)), ops, Key(a, MutexKind));
  }

  // ----- lazy creation -----

  /** An operation that may create a mutex at a. */
  predicate Creates(op: Op, a: nat) {
    (op.UseMutex? || op.InitMutex?) && op.a == a
  }

  predicate NoneCreates(ops: seq<Op>, a: nat) {
    forall i :: 0 <= i < |ops| ==> !Creates(ops[i], a)
  }

  /** The word at a after such an operation: written by the guest, or zeroed by an init or destroy. */
  function WordAfter(word: nat, op: Op, a: nat): nat {
    match op
    case GuestStore(b, w) => if a == b then w else word
    case InitCond(b, _, _) => if a == b then 0 else word
    case DestroyKey(key, _) => if a == key.address then 0 else word
    case _ => word
  }

  function LastWord(word: nat, ops: seq<Op>, a: nat): nat {
    if |ops| == 0 then word else WordAfter(LastWord(word, ops[..|ops| - 1], a), ops[|ops| - 1], a)
  }

  lemma {:induction false} StepAbsent(s: Table, op: Op, a: nat)
    requires a != 0 && Key(a, MutexKind) !in s.objects && !Creates(op, a)
    ensures Key(a, MutexKind) !in Apply(s, op).objects && WordAt(Apply(s, op), a) == WordAfter(WordAt(s, a), op, a)
    ensures Apply(s, op).created >= s.created
  {
  }

  lemma {:induction false} StaysAbsent(s: Table, ops: seq<Op>, a: nat)
    requires a != 0 && Key(a, MutexKind) !in s.objects && NoneCreates(ops, a)
    ensures Key(a, MutexKind) !in After(s, ops).objects && WordAt(After(s, ops), a) == LastWord(WordAt(s, a), ops, a)
    ensures After(s, ops).created >= s.created
    decreases |ops|
  {
    hide Apply, WordAfter, WordAt, Creates;
    if |ops| > 0 {
      StaysAbsent(s, ops[..|ops| - 1], a);
      StepAbsent(After(s, ops[..|ops| - 1]), ops[|ops| - 1], a);
    }
  }

  /**
   After a destroy, and whatever ran since, the next use gets a host object unlike every one there was, of the type the
   last word written there decodes to: the default, unless the guest stored another.
   */
  lemma {:induction false} DestroyForgets(s: Table, a: nat, code: Code, ops: seq<Op>)
    requires Sound(s) && a != 0 && NoneCreates(ops, a)
    ensures var t := After(Apply(s, DestroyKey(Key(a, MutexKind), code)), ops);
      var found := GetMutex(t, a, true).1;
      && found == Some(Mutex(t.created, HostMutexType(AndroidType(LastWord(0, ops, a)))))
      && forall k :: k in s.objects ==> s.objects[k] != found.value
  {
    var destroyed := Apply(s, DestroyKey(Key(a, MutexKind), code));
    StaysAbsent(destroyed, ops, a);
    assert WordAt(destroyed, a) == 0;
  }

  // ----- the type a lazy create decodes -----

  /**
   A host mutex created from the word that mutex_init stored has the type mutex_init asked for exactly when the type
   nibble is below 4 or its low two bits are 0 or 3.
   */
  lemma {:induction false} LazyTypeAgreesIff(nibble: nat)
    requires nibble < 16
    ensures HostMutexType(AndroidType(TypeWord(nibble))) == HostMutexType(nibble) <==>
        (nibble < 4 || nibble % 4 == 0 || nibble % 4 == 3)
  {
    assert TypeWord(nibble) / 0x4000 == nibble % 4;
  }

  /**
   The two are both seen when the host fails to create the mutex in mutex_init and succeeds at its next use, whatever
   ran in between: the type is that of the last word written, and without a write since, the iff above decides.
   */
  lemma {:induction false} LazyAfterFailedInit(s: Table, a: nat, attr: Option<int>, ops: seq<Op>)
    requires a != 0 && NoneCreates(ops, a)
    ensures MutexInit(s, a, attr, false).1 == NoMemory
    ensures var t := After(MutexInit(s, a, attr, false).0, ops);
      var nibble := AttrType(attr);
      var word := LastWord(TypeWord(nibble), ops, a);
      && GetMutex(t, a, true).1 == Some(Mutex(t.created, HostMutexType(AndroidType(word))))
      && (word == TypeWord(nibble) ==>
           (GetMutex(t, a, true).1.value.host == HostMutexType(nibble) <==>
             (nibble < 4 || nibble % 4 == 0 || nibble % 4 == 3)))
  {
    hide After, Creates, NoneCreates, LastWord;
    var failed := MutexInit(s, a, attr, false).0;
    StaysAbsent(failed, ops, a);
    assert WordAt(failed, a) == TypeWord(AttrType(attr));
    LazyTypeAgreesIff(AttrType(attr));
  }

  // ----- the attributes a guest can build -----

  datatype AttrOp = AttrInit | AttrDestroy | AttrSetType(kind: int)

  /** Destroy stores -1; settype refuses every type but 0, 1 and 2, and keeps the bits above the nibble. */
  function ApplyAttr(attr: int, op: AttrOp): (int, Code) {
    match op
    case AttrInit => (0, Success)
    case AttrDestroy => (-1, Success)
    case AttrSetType(kind) => if 0 <= kind <= 2 then (attr - attr % 16 + kind, Success) else (attr, Invalid)
  }

  /** settype accepts exactly the types 0, 1 and 2, and changes the low four bits only. */
  lemma {:induction false} SetTypeSets(attr: int, kind: int)
    ensures var (after, code) := ApplyAttr(attr, AttrSetType(kind));
      && (code == Success <==> kind in {0, 1, 2}) && (code == Invalid <==> kind !in {0, 1, 2})
      && after / 16 == attr / 16 && after % 16 == if code == Success then kind else attr % 16
  {
    var low := if 0 <= kind <= 2 then kind else attr % 16;
    assert attr - attr % 16 == attr / 16 * 16;
    assert (attr / 16 * 16 + low) / 16 == attr / 16 && (attr / 16 * 16 + low) % 16 == low;
  }

  function AttrAfter(attr: int, ops: seq<AttrOp>): int {
    if |ops| == 0 then attr else ApplyAttr(AttrAfter(attr, ops[..|ops| - 1]), ops[|ops| - 1]).0
  }

  lemma {:induction false} NibbleAfter(attr: int, op: AttrOp)
    requires attr % 16 in {0, 1, 2, 15}
    ensures ApplyAttr(attr, op).0 % 16 in {0, 1, 2, 15}
  {
    if op.AttrSetType? && 0 <= op.kind <= 2 {
      assert attr - attr % 16 + op.kind == attr / 16 * 16 + op.kind;
    }
  }

  /** Whatever the guest does to an initialised attribute through the interface, a lazy create agrees with init. */
  lemma {:induction false} BuiltAttributesAgree(ops: seq<AttrOp>)
    ensures var t := AttrType(Some(AttrAfter(0, ops)));
      t in {0, 1, 2, 15} && HostMutexType(AndroidType(TypeWord(t))) == HostMutexType(t)
    decreases |ops|
  {
    hide ApplyAttr, HostMutexType, AndroidType, TypeWord;
    if |ops| > 0 {
      BuiltAttributesAgree(ops[..|ops| - 1]);
      NibbleAfter(AttrAfter(0, ops[..|ops| - 1]), ops[|ops| - 1]);
    }
    LazyTypeAgreesIff(AttrType(Some(AttrAfter(0, ops))));
  }

  // ----- what the guest sees of a mutex's type -----

  // What becomes of a second lock by the thread that holds the mutex (POSIX, pthread_mutex_lock).
  datatype Relock = Succeeds | ReportsDeadlock | Blocks

  function OwnersRelock(host: HostType): Relock {
    match host case Recursive => Succeeds case ErrorCheck => ReportsDeadlock case Normal => Blocks
  }

  /** Android's PTHREAD_MUTEX_RECURSIVE is 1 and PTHREAD_MUTEX_ERRORCHECK is 2. */
  predicate BehavesAs(found: Option<HostObject>, kind: int) {
    && found.Some? && found.value.Mutex?
    && (OwnersRelock(found.value.host) == Succeeds <==> kind == 1)
    && (OwnersRelock(found.value.host) == ReportsDeadlock <==> kind == 2)
  }

  /** The type an attribute asks for: that of the last accepted settype since it was last initialised or destroyed. */
  function Requested(ops: seq<AttrOp>): int {
    if |ops| == 0 then 0
    else
      match ops[|ops| - 1]
      case AttrSetType(kind) => if kind in {0, 1, 2} then kind else Requested(ops[..|ops| - 1])
      case _ => 0
  }

  lemma {:induction false} AttrNibble(attr: int, op: AttrOp)
    ensures ApplyAttr(attr, op).0 % 16 == match op
      case AttrInit => 0
      case AttrDestroy => 15
      case AttrSetType(kind) => if 0 <= kind <= 2 then kind else attr % 16
  {
    if op.AttrSetType? {
      SetTypeSets(attr, op.kind);
    }
  }

  lemma {:induction false} NibbleRequested(ops: seq<AttrOp>)
    ensures var nibble := AttrAfter(0, ops) % 16;
      Requested(ops) in {0, 1, 2} && (nibble == Requested(ops) || (nibble == 15 && Requested(ops) == 0))
    decreases |ops|
  {
    hide ApplyAttr;
    if |ops| > 0 {
      var prior := ops[..|ops| - 1];
      NibbleRequested(prior);
      AttrNibble(AttrAfter(0, prior), ops[|ops| - 1]);
    }
  }

  /** Whatever value an attribute has, mutex_init goes by its low four bits, and stores the lowest two of them. */
  lemma {:induction false} InitByNibble(s: Table, a: nat, attr: Option<int>, ops: seq<Op>, ok: bool)
    requires a != 0 && forall i :: 0 <= i < |ops| ==> !Renews(ops[i], Key(a, MutexKind))
    ensures var nibble := if attr.Some? then attr.value % 16 else 0;
      && BehavesAs(GetMutex(After(Apply(s, InitMutex(a, attr, true)), ops), a, ok).1, nibble)
      && WordAt(Apply(s, InitMutex(a, attr, ok)), a) == nibble % 4 * 0x4000
  {
    hide After, GetMutex;
    InitDecidesType(s, a, attr, ops, ok);
  }

  /** From mutex_init on, the guest's mutex behaves as the type it set, or as a plain one without an attribute. */
  lemma {:induction false} GuestsTypeDecides(s: Table, a: nat, attrOps: Option<seq<AttrOp>>, ops: seq<Op>, ok: bool)
    requires a != 0 && forall i :: 0 <= i < |ops| ==> !Renews(ops[i], Key(a, MutexKind))
    ensures var attr := match attrOps case None => None case Some(built) => Some(AttrAfter(0, built));
      var asked := match attrOps case None => 0 case Some(built) => Requested(built);
      BehavesAs(GetMutex(After(Apply(s, InitMutex(a, attr, true)), ops), a, ok).1, asked)
  {
    hide After, AttrAfter, Requested, GetMutex, Apply;
    var attr := match attrOps case None => None case Some(built) => Some(AttrAfter(0, built));
    if attrOps.Some? {
      NibbleRequested(attrOps.value);
    }
    InitDecidesType(s, a, attr, ops, ok);
  }

  /** A mutex the guest initialises by storing its first word has the type in bits 14 and 15 of that word. */
  lemma {:induction false} StaticWordDecides(s: Table, a: nat, word: nat, before: seq<Op>, ops: seq<Op>, ok: bool)
    requires a != 0 && word < WORD && Key(a, MutexKind) !in s.objects && NoneCreates(before, a)
    requires LastWord(WordAt(s, a), before, a) == word
    requires forall i :: 0 <= i < |ops| ==> !Renews(ops[i], Key(a, MutexKind))
    ensures var used := Apply(After(s, before), UseMutex(a, true));
      BehavesAs(GetMutex(After(used, ops), a, ok).1, word / 0x4000 % 4)
  {
    hide After, LastWord, Creates;
    StaysAbsent(s, before, a);
    var t := After(s, before);
    assert AndroidType(WordAt(t, a)) == word / 0x4000 % 4;
    ObjectLasts(Apply(t, UseMutex(a, true)), ops, Key(a, MutexKind));
  }

  /** Android's static initialisers: all zeros, 0x4000 for a recursive mutex, 0x8000 for an error-checking one. */
  lemma {:induction false} StaticInitialisers(s: Table, a: nat)
    requires a != 0 && Key(a, MutexKind) !in s.objects
    ensures BehavesAs(GetMutex(Apply(s, GuestStore(a, 0)), a, true).1, 0)
    ensures BehavesAs(GetMutex(Apply(s, GuestStore(a, 0x4000)), a, true).1, 1)
    ensures BehavesAs(GetMutex(Apply(s, GuestStore(a, 0x8000)), a, true).1, 2)
  {
  }

  // ----- condition variables -----

  /** From cond_init on, every use finds one condition variable with the attribute's clock, or clock 0 without one. */
  lemma {:induction false} InitDecidesClock(s: Table, a: nat, attr: Option<int>, ops: seq<Op>, ok: bool)
    requires a != 0 && forall i :: 0 <= i < |ops| ==> !Renews(ops[i], Key(a, CondKind))
    ensures GetCond(After(Apply(s, InitCond(a, attr, true)), ops), a, ok).1
        == Some(Cond(s.created, if attr.Some? then attr.value else 0))
  {
    ObjectLasts(Apply(s, InitCond(a, attr, true)), ops, Key(a, CondKind));
  }

  predicate CreatesCond(op: Op, a: nat) {
    (op.UseCond? || op.InitCond?) && op.a == a
  }

  lemma {:induction false} CondStaysAbsent(s: Table, ops: seq<Op>, a: nat)
    requires Key(a, CondKind) !in s.objects && forall i :: 0 <= i < |ops| ==> !CreatesCond(ops[i], a)
    ensures Key(a, CondKind) !in After(s, ops).objects && After(s, ops).created >= s.created
    decreases |ops|
  {
    if |ops| > 0 {
      CondStaysAbsent(s, ops[..|ops| - 1], a);
      assert !CreatesCond(ops[|ops| - 1], a);
    }
  }

  /** After cond_destroy and whatever ran since, the next use gets a new condition variable on the default clock. */
  lemma {:induction false} CondDestroyForgets(s: Table, a: nat, code: Code, ops: seq<Op>)
    requires Sound(s) && a != 0 && forall i :: 0 <= i < |ops| ==> !CreatesCond(ops[i], a)
    ensures var t := After(Apply(s, DestroyKey(Key(a, CondKind), code)), ops);
      var found := GetCond(t, a, true).1;
      found == Some(Cond(t.created, 0)) && forall k :: k in s.objects ==> s.objects[k] != found.value
  {
    CondStaysAbsent(Apply(s, DestroyKey(Key(a, CondKind), code)), ops, a);
  }

  /**
   Destroy answers with the host's code as long as the object made by an init is there, and with success when there is
   none: right after a destroy, or where only the null pointer is refused.
   */
  lemma {:induction false} DestroyAnswers(s: Table, key: Key, attr: Option<int>, ops: seq<Op>, code: Code, again: Code)
    requires key.address != 0 && forall i :: 0 <= i < |ops| ==> !Renews(ops[i], key)
    ensures var made := if key.kind == MutexKind then InitMutex(key.address, attr, true)
                        else InitCond(key.address, attr, true);
      var t := After(Apply(s, made), ops);
      && Destroy(t, key, code).1 == code
      && WordAt(Destroy(t, key, code).0, key.address) == 0
      && Destroy(Destroy(t, key, code).0, key, again).1 == Success
      && Destroy(t, Key(0, key.kind), code) == (t, Invalid)
  {
    var made := if key.kind == MutexKind then InitMutex(key.address, attr, true)
                else InitCond(key.address, attr, true);
    ObjectLasts(Apply(s, made), ops, key);
  }
}
