/** Loader work as word patches: every relocation, rebase and bind is one. */
module Patches {
  import opened Bytes

  datatype Op = Set(w: int) | Add(w: int)
  datatype Patch = Patch(addr: int, op: Op)

  function NewWord(op: Op, prior: nat): (w: nat)
    ensures w < TWO64
  {
    match op
    case Set(w) => w % TWO64
    case Add(w) => (prior + w) % TWO64
  }

  function ApplyOne(m: Memory, p: Patch): Memory {
    StoreWord(m, p.addr, NewWord(p.op, LoadWord(m, p.addr)))
  }

  function ApplyAll(m: Memory, ps: seq<Patch>): Memory {
    if |ps| == 0 then m
    else ApplyOne(ApplyAll(m, ps[..|ps| - 1]), ps[|ps| - 1])
  }

  predicate Apart(a: int, b: int) {
    a + 8 <= b || b + 8 <= a
  }

  predicate Disjoint(ps: seq<Patch>) {
    forall i, j :: 0 <= i < j < |ps| ==> Apart(ps[i].addr, ps[j].addr)
  }

  predicate Untouched(ps: seq<Patch>, a: int) {
    forall p :: p in ps ==> !(p.addr <= a < p.addr + 8)
  }

  lemma {:induction false} UntouchedByte(m: Memory, ps: seq<Patch>, a: int)
    requires Untouched(ps, a)
    ensures ApplyAll(m, ps)(a) == m(a)
  {
    if |ps| > 0 {
      var front, p := ps[..|ps| - 1], ps[|ps| - 1];
      assert p in ps;
      UntouchedByte(m, front, a);
    }
  }

  lemma {:induction false} UntouchedWord(m: Memory, ps: seq<Patch>, a: int)
    requires forall p :: p in ps ==> Apart(p.addr, a)
    ensures LoadWord(ApplyAll(m, ps), a) == LoadWord(m, a)
  {
    forall b | a <= b < a + 8 ensures ApplyAll(m, ps)(b) == m(b) {
      UntouchedByte(m, ps, b);
    }
    WordsAndBytes(ApplyAll(m, ps), m, a, a);
  }

  lemma {:induction false} ApplyOneElsewhere(m: Memory, p: Patch, a: int)
    requires Apart(p.addr, a)
    ensures LoadWord(ApplyOne(m, p), a) == LoadWord(m, a)
  {
    WordsAndBytes(ApplyOne(m, p), m, a, a);
  }

  /** Disjoint patches act independently: each word is patched once, from its first contents. */
  lemma {:induction false} PatchedWord(m: Memory, ps: seq<Patch>, i: nat)
    requires Disjoint(ps) && i < |ps|
    ensures LoadWord(ApplyAll(m, ps), ps[i].addr) == NewWord(ps[i].op, LoadWord(m, ps[i].addr))
  {
    hide LoadWord, StoreWord;
    var front, last := ps[..|ps| - 1], ps[|ps| - 1];
    var before := ApplyAll(m, front);
    if i == |ps| - 1 {
      UntouchedWord(m, front, last.addr);
      LoadStored(before, last.addr, NewWord(last.op, LoadWord(before, last.addr)));
    } else {
      assert front[i] == ps[i];
      PatchedWord(m, front, i);
      ApplyOneElsewhere(before, last, ps[i].addr);
    }
  }
}
