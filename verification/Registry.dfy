/**
 The registry of host mutexes and condition variables: a linked list keyed by guest address and kind, the guest words
 that mutex_init writes, and what a run of init, lazy get and destroy does to both. Address 0 is the null pointer.
 */
module Registry {
  import opened Wrappers

  datatype Kind = MutexKind | CondKind

  datatype Key = Key(address: nat, kind: Kind)

  datatype HostType = Normal | Recursive | ErrorCheck

  // serial tells one allocation from every other.
  datatype HostObject = Mutex(serial: nat, host: HostType) | Cond(serial: nat, clock: int)

  datatype Code = Success | Invalid | NoMemory | Host(code: int)

  const WORD: nat := 0x1_0000_0000

  // ----- mutex types -----

  function HostMutexType(androidType: int): HostType {
    if androidType == 1 then Recursive else if androidType == 2 then ErrorCheck else Normal
  }

  /** The type bits of a guest mutex word. */
  function AndroidType(word: nat): nat {
    word % WORD / 0x4000 % 4
  }

  function AttrType(attr: Option<int>): nat {
    match attr case None => 0 case Some(a) => a % 16
  }

  /** The word mutex_init stores for a type nibble. */
  function TypeWord(nibble: nat): nat {
    nibble % 4 * 0x4000
  }

  // ----- the registry as a map -----

  // words holds the first word of each guest object; an address not in it holds 0.
  datatype Table = Table(objects: map<Key, HostObject>, words: map<nat, nat>, created: nat)

  function WordAt(s: Table, a: nat): nat {
    if a in s.words then s.words[a] else 0
  }

  function Add(s: Table, key: Key, entry: HostObject): Table {
    Table(s.objects[key := entry], s.words, s.created + 1)
  }

  function Drop(s: Table, key: Key): Table {
    s.(objects := s.objects - {key})
  }

  /** found is what the caller gets; ok says whether the host could create an object, if asked. */
  function GetMutex(s: Table, a: nat, ok: bool): (Table, Option<HostObject>) {
    var key := Key(a, MutexKind);
    if a == 0 then (s, None)
    else if key in s.objects then (s, Some(s.objects[key]))
    else if !ok then (s, None)
    else
      var entry := Mutex(s.created, HostMutexType(AndroidType(WordAt(s, a))));
      (Add(s, key, entry), Some(entry))
  }

  function GetCond(s: Table, a: nat, ok: bool): (Table, Option<HostObject>) {
    var key := Key(a, CondKind);
    if a == 0 then (s, None)
    else if key in s.objects then (s, Some(s.objects[key]))
    else if !ok then (s, None)
    else (Add(s, key, Cond(s.created, 0)), Some(Cond(s.created, 0)))
  }

  function MutexInit(s: Table, a: nat, attr: Option<int>, ok: bool): (Table, Code) {
    if a == 0 then (s, Invalid)
    else
      var key := Key(a, MutexKind);
      var t := AttrType(attr);
      var cleared := Drop(s, key).(words := s.words[a := TypeWord(t)]);
      if ok then (Add(cleared, key, Mutex(s.created, HostMutexType(t))), Success) else (cleared, NoMemory)
  }

  function CondInit(s: Table, a: nat, attr: Option<int>, ok: bool): (Table, Code) {
    if a == 0 then (s, Invalid)
    else
      var key := Key(a, CondKind);
      var cleared := Drop(s, key).(words := s.words[a := 0]);
      var clock := match attr case None => 0 case Some(c) => c;
      if ok then (Add(cleared, key, Cond(s.created, clock)), Success) else (cleared, NoMemory)
  }

  /** code is what the host's destroy returns, if it is called. */
  function Destroy(s: Table, key: Key, code: Code): (Table, Code) {
    if key.address == 0 then (s, Invalid)
    else (Drop(s, key).(words := s.words[key.address := 0]), if key in s.objects then code else Success)
  }

  // ----- the registry as a linked list -----

  class Node {
    const key: Key
    const entry: HostObject
    var next: Node?

    constructor (key: Key, entry: HostObject, next: Node?)
      ensures this.key == key && this.entry == entry && this.next == next
    {
      this.key, this.entry, this.next := key, entry, next;
    }
  }

  ghost function ObjectsOf(nodes: seq<Node>): map<Key, HostObject> {
    if |nodes| == 0 then map[] else ObjectsOf(nodes[1..])[nodes[0].key := nodes[0].entry]
  }

  ghost predicate OnePerKey(nodes: seq<Node>) {
    forall i, j :: 0 <= i < j < |nodes| ==> nodes[i].key != nodes[j].key
  }

  lemma {:induction false} KeysOf(nodes: seq<Node>, key: Key)
    ensures key in ObjectsOf(nodes) <==> exists i :: 0 <= i < |nodes| && nodes[i].key == key
    decreases |nodes|
  {
    if |nodes| > 0 {
      KeysOf(nodes[1..], key);
      if i :| 0 <= i < |nodes| && nodes[i].key == key && i > 0 {
        assert nodes[1..][i - 1].key == key;
      }
    }
  }

  /** The list holds one node for each key, and the map holds that node's object. */
  lemma {:induction false} NodeIsEntry(nodes: seq<Node>, i: nat)
    requires OnePerKey(nodes) && i < |nodes|
    ensures nodes[i].key in ObjectsOf(nodes) && ObjectsOf(nodes)[nodes[i].key] == nodes[i].entry
    decreases |nodes|
  {
    if i > 0 {
      NodeIsEntry(nodes[1..], i - 1);
    }
  }

  lemma {:induction false} WithNode(node: Node, nodes: seq<Node>)
    requires OnePerKey(nodes) && forall i :: 0 <= i < |nodes| ==> nodes[i].key != node.key
    ensures OnePerKey([node] + nodes) && ObjectsOf([node] + nodes) == ObjectsOf(nodes)[node.key := node.entry]
  {
    assert ([node] + nodes)[1..] == nodes;
  }

  ghost function Without(nodes: seq<Node>, i: nat): (r: seq<Node>)
    requires i < |nodes|
    ensures |r| == |nodes| - 1 && forall j :: 0 <= j < |r| ==> r[j] == nodes[if j < i then j else j + 1]
  {
    nodes[..i] + nodes[i + 1..]
  }

  lemma {:induction false} WithoutNode(nodes: seq<Node>, i: nat)
    requires OnePerKey(nodes) && i < |nodes|
    ensures ObjectsOf(Without(nodes, i)) == ObjectsOf(nodes) - {nodes[i].key}
    decreases |nodes|
  {
    if i == 0 {
      assert Without(nodes, i) == nodes[1..];
      KeysOf(nodes[1..], nodes[0].key);
    } else {
      assert Without(nodes, i)[1..] == Without(nodes[1..], i - 1);
      WithoutNode(nodes[1..], i - 1);
    }
  }

  lemma {:induction false} StillOnePerKey(nodes: seq<Node>, i: nat)
    requires OnePerKey(nodes) && i < |nodes|
    ensures OnePerKey(Without(nodes, i))
    ensures forall j :: 0 <= j < i - 1 ==> nodes[j] != nodes[i - 1]
    ensures forall j :: i < j < |nodes| ==> i > 0 ==> nodes[j] != nodes[i - 1]
  {
  }

  class ObjectList {
    var head: Node?
    var words: map<nat, nat>
    var created: nat
    ghost var nodes: seq<Node>

    ghost predicate Valid()
      reads this, nodes
    {
      && OnePerKey(nodes)
      && head == NodeAt(0)
      && forall i :: 0 <= i < |nodes| ==> nodes[i].next == NodeAt(i + 1)
    }

    /** The pointer that leads to position i: null past the end. */
    ghost function NodeAt(i: nat): Node?
      reads this
    {
      if i < |nodes| then nodes[i] else null
    }

    ghost function Contents(): Table
      reads this
    {
      Table(ObjectsOf(nodes), words, created)
    }

    constructor ()
      ensures Valid() && Contents() == Table(map[], map[], 0) && nodes == []
    {
      head, words, created, nodes := null, map[], 0, [];
    }

    method Find(key: Key) returns (node: Node?)
      requires Valid()
      ensures node == null <==> key !in Contents().objects
      ensures node != null ==> node.key == key && node in nodes && node.entry == Contents().objects[key]
    {
      node := head;
      ghost var i := 0;
      while node != null && node.key != key
        invariant 0 <= i <= |nodes| && node == NodeAt(i)
        invariant forall j :: 0 <= j < i ==> nodes[j].key != key
        decreases |nodes| - i
      {
        node := node.next;
        i := i + 1;
      }
      KeysOf(nodes, key);
      if node != null {
        NodeIsEntry(nodes, i);
      }
    }

    /** Head insertion; the host object was created first. */
    method Insert(key: Key, entry: HostObject) returns (node: Node)
      requires Valid() && key !in Contents().objects
      modifies this
      ensures Valid() && fresh(set n | n in nodes && n !in old(nodes))
      ensures Contents() == Add(old(Contents()), key, entry) && node.key == key && node.entry == entry && node in nodes
    {
      forall i | 0 <= i < |nodes|
        ensures nodes[i].key != key
      {
        NodeIsEntry(nodes, i);
      }
      node := new Node(key, entry, head);
      WithNode(node, nodes);
      hide OnePerKey, ObjectsOf;
      head, created := node, created + 1;
      nodes := [node] + nodes;
    }

    /** Writes through the cursor: the head pointer at position 0, the predecessor's next pointer after it. */
    method Unlink(previous: Node?, node: Node, ghost i: nat)
      requires Valid() && i < |nodes| && node == nodes[i]
      requires previous == if i == 0 then null else nodes[i - 1]
      modifies this, previous
      ensures Valid() && nodes == Without(old(nodes), i)
      ensures words == old(words) && created == old(created)
    {
      StillOnePerKey(nodes, i);
      hide OnePerKey;
      if previous == null {
        head := node.next;
      } else {
        previous.next := node.next;
      }
      ghost var before := nodes;
      nodes := Without(nodes, i);
      forall j | 0 <= j < |nodes| ensures nodes[j].next == NodeAt(j + 1) {
        if j < i {
          assert nodes[j] == before[j];
        } else {
          assert nodes[j] == before[j + 1];
        }
      }
    }

    /** Unlinks the key's node, found through a cursor that is the head pointer or a node's next pointer. */
    method Remove(key: Key) returns (node: Node?)
      requires Valid()
      modifies this, nodes
      ensures Valid() && forall n :: n in nodes ==> n in old(nodes)
      ensures Contents() == Drop(old(Contents()), key)
      ensures node == null <==> key !in old(Contents()).objects
      ensures node != null ==> node.key == key && node.entry == old(Contents()).objects[key]
    {
      hide ObjectsOf, OnePerKey;
      var previous: Node? := null;
      node := head;
      ghost var i := 0;
      while node != null && node.key != key
        invariant 0 <= i <= |nodes| && node == NodeAt(i)
        invariant previous == if i == 0 then null else nodes[i - 1]
        invariant forall j :: 0 <= j < i ==> nodes[j].key != key
        decreases |nodes| - i
      {
        previous, node := node, node.next;
        i := i + 1;
      }
      KeysOf(nodes, key);
      if node != null {
        NodeIsEntry(nodes, i);
        WithoutNode(nodes, i);
        Unlink(previous, node, i);
      }
    }

    method GetMutexNode(a: nat, ok: bool) returns (node: Node?)
      requires Valid()
      modifies this
      ensures Valid() && fresh(set n | n in nodes && n !in old(nodes))
      ensures var (after, found) := GetMutex(old(Contents()), a, ok);
        Contents() == after && found == if node == null then None else Some(node.entry)
    {
      if a == 0 { return null; }
      node := Find(Key(a, MutexKind));
      if node == null && ok {
        var word := if a in words then words[a] else 0;
        node := Insert(Key(a, MutexKind), Mutex(created, HostMutexType(AndroidType(word))));
      }
    }

    method GetCondNode(a: nat, ok: bool) returns (node: Node?)
      requires Valid()
      modifies this
      ensures Valid() && fresh(set n | n in nodes && n !in old(nodes))
      ensures var (after, found) := GetCond(old(Contents()), a, ok);
        Contents() == after && found == if node == null then None else Some(node.entry)
    {
      if a == 0 { return null; }
      node := Find(Key(a, CondKind));
      if node == null && ok {
        node := Insert(Key(a, CondKind), Cond(created, 0));
      }
    }

    method InitMutex(a: nat, attr: Option<int>, ok: bool) returns (rc: Code)
      requires Valid()
      modifies this, nodes
      ensures Valid() && (Contents(), rc) == MutexInit(old(Contents()), a, attr, ok)
    {
      if a == 0 { return Invalid; }
      var previous := Remove(Key(a, MutexKind));
      var t := AttrType(attr);
      words := words[a := t % 4 * 0x4000];
      if !ok { return NoMemory; }
      var node := Insert(Key(a, MutexKind), Mutex(created, HostMutexType(t)));
      return Success;
    }

    method InitCond(a: nat, attr: Option<int>, ok: bool) returns (rc: Code)
      requires Valid()
      modifies this, nodes
      ensures Valid() && (Contents(), rc) == CondInit(old(Contents()), a, attr, ok)
    {
      if a == 0 { return Invalid; }
      var previous := Remove(Key(a, CondKind));
      words := words[a := 0];
      if !ok { return NoMemory; }
      var node := Insert(Key(a, CondKind), Cond(created, match attr case None => 0 case Some(c) => c));
      return Success;
    }

    /** mutex_destroy and cond_destroy, by the key's kind; code is the host's answer. */
    method DestroyObject(key: Key, code: Code) returns (rc: Code)
      requires Valid()
      modifies this, nodes
      ensures Valid() && (Contents(), rc) == Destroy(old(Contents()), key, code)
    {
      if key.address == 0 { return Invalid; }
      var node := Remove(key);
      words := words[key.address := 0];
      return if node == null then Success else code;
    }
  }

  /** In a valid list the nodes are the entries: one for a registered key, none for any other. */
  lemma {:induction false} OneNodePerKey(list: ObjectList, key: Key)
    requires list.Valid()
    ensures key in list.Contents().objects <==> exists i :: 0 <= i < |list.nodes| && list.nodes[i].key == key
    ensures forall m, n :: m in list.nodes && n in list.nodes && m.key == key && n.key == key ==> m == n
  {
    KeysOf(list.nodes, key);
    forall m, n | m in list.nodes && n in list.nodes && m.key == key && n.key == key ensures m == n {
      var i :| 0 <= i < |list.nodes| && list.nodes[i] == m;
      var j :| 0 <= j < |list.nodes| && list.nodes[j] == n;
    }
  }
}
