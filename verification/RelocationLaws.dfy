/** Laws of the relocation loop: its result does not depend on record order, and no record is lost. */
module RelocationLaws {
  import opened Bytes
  import opened Patches
  import opened ElfReader
  import opened Layout
  import opened Sorting
  import opened Fixups
  import opened Phase3
  import opened RelocationMeaning
  import opened LoaderEquivalence

  // ----- order -----

  lemma {:induction false} ResolvePermuted(env: Env, rels: seq<Rela>, rels': seq<Rela>, n: nat)
    requires env.Valid() && AllResolve(env, rels, n) && multiset(rels) == multiset(rels')
    ensures AllResolve(env, rels', n)
  {
    hide Resolves;
    forall i | 0 <= i < |rels'| ensures Resolves(env, rels'[i], n) {
      assert rels'[i] in multiset(rels);
      var j :| 0 <= j < |rels| && rels[j] == rels'[i];
    }
  }

  predicate Spread(env: Env, rels: seq<Rela>, n: nat)
    requires env.Valid() && AllResolve(env, rels, n)
  {
    Disjoint(ImagePatches(env, rels, n)) && LocsDistinct(env, rels, n)
  }

  lemma {:induction false} SpreadPair(env: Env, rels: seq<Rela>, n: nat, i: nat, j: nat)
    requires env.Valid() && AllResolve(env, rels, n) && Spread(env, rels, n) && i < |rels| && j < |rels| && i != j
    ensures Apart(Target(env, rels[i]).output, Target(env, rels[j]).output)
    ensures Target(env, rels[i]).loc != Target(env, rels[j]).loc
    ensures rels[i] != rels[j]
  {
    hide Resolves, ImageOp, Target;
    var ps := ImagePatches(env, rels, n);
    assert if i < j then Apart(ps[i].addr, ps[j].addr) else Apart(ps[j].addr, ps[i].addr);
    assert ps[i].addr != ps[j].addr;
  }

  lemma {:induction false} SpreadPermuted(env: Env, rels: seq<Rela>, rels': seq<Rela>, n: nat)
    requires env.Valid() && AllResolve(env, rels, n) && Spread(env, rels, n) && multiset(rels) == multiset(rels')
    ensures AllResolve(env, rels', n) && Spread(env, rels', n)
  {
    hide ImageOp, Locate, Spread, Target;
    ResolvePermuted(env, rels, rels', n);
    assert NoRepeats(rels) by {
      forall i, j | 0 <= i < j < |rels| ensures rels[i] != rels[j] {
        SpreadPair(env, rels, n, i, j);
      }
    }
    NoRepeatsIsCount(rels);
    NoRepeatsIsCount(rels');
    forall i, j | 0 <= i < j < |rels'|
      ensures Apart(Target(env, rels'[i]).output, Target(env, rels'[j]).output)
      ensures Target(env, rels'[i]).loc != Target(env, rels'[j]).loc
    {
      assert rels'[i] in multiset(rels) && rels'[j] in multiset(rels);
      var p :| 0 <= p < |rels| && rels[p] == rels'[i];
      var q :| 0 <= q < |rels| && rels[q] == rels'[j];
      SpreadPair(env, rels, n, p, q);
    }
    SpreadFromPairs(env, rels', n);
  }

  lemma {:induction false} SpreadFromPairs(env: Env, rels: seq<Rela>, n: nat)
    requires env.Valid() && AllResolve(env, rels, n) && LocsDistinct(env, rels, n)
    requires forall i, j :: 0 <= i < j < |rels| ==> Apart(Target(env, rels[i]).output, Target(env, rels[j]).output)
    ensures Spread(env, rels, n)
  {
    hide Resolves, ImageOp, Target;
  }

  /** Without repeats, a list's multiset is its set of members. */
  lemma {:induction false} SameMembers<T>(xs: seq<T>, ys: seq<T>)
    requires NoRepeats(xs) && NoRepeats(ys) && forall x :: x in xs <==> x in ys
    ensures multiset(xs) == multiset(ys)
  {
    NoRepeatsIsCount(xs);
    NoRepeatsIsCount(ys);
    forall x ensures multiset(xs)[x] == multiset(ys)[x] {
      assert x in multiset(xs) <==> x in xs;
      assert x in multiset(ys) <==> x in ys;
    }
  }

  lemma {:induction false} RebasesIncluded(env: Env, rels: seq<Rela>, rels': seq<Rela>, n: nat, l: Loc)
    requires env.Valid() && AllResolve(env, rels, n) && AllResolve(env, rels', n) && multiset(rels) == multiset(rels')
    requires l in Rebases(env, rels, n)
    ensures l in Rebases(env, rels', n)
  {
    hide Resolves, Internal, Target;
    var j := RebaseOrigin(env, rels, n, l);
    assert rels[j] in multiset(rels');
    var k :| 0 <= k < |rels'| && rels'[k] == rels[j];
    RebaseMember(env, rels', n, k);
  }

  lemma {:induction false} BindingsIncluded(env: Env, rels: seq<Rela>, rels': seq<Rela>, n: nat, m: Memory, b: Binding)
    requires env.Valid() && AllResolve(env, rels, n) && AllResolve(env, rels', n) && multiset(rels) == multiset(rels')
    requires b in Bindings(env, rels, n, m)
    ensures b in Bindings(env, rels', n, m)
  {
    hide Resolves, Internal, BindingOf;
    var j := BindOrigin(env, rels, n, m, b);
    assert rels[j] in multiset(rels');
    var k :| 0 <= k < |rels'| && rels'[k] == rels[j];
    BindMember(env, rels', n, m, k);
  }

  lemma {:induction false} WorkListsPermuted(env: Env, rels: seq<Rela>, rels': seq<Rela>, n: nat, m: Memory)
    requires env.Valid() && AllResolve(env, rels, n) && Spread(env, rels, n) && multiset(rels) == multiset(rels')
    ensures AllResolve(env, rels', n)
    ensures Sort(Rebases(env, rels, n), SELF) == Sort(Rebases(env, rels', n), SELF)
    ensures Sort(Bindings(env, rels, n, m), BINDING_LOC) == Sort(Bindings(env, rels', n, m), BINDING_LOC)
  {
    hide Sort, Rebases, Bindings, Resolves, Internal, BindingOf, Target, Disjoint;
    SpreadPermuted(env, rels, rels', n);
    RebasesDistinct(env, rels, n);
    RebasesDistinct(env, rels', n);
    forall l ensures l in Rebases(env, rels, n) <==> l in Rebases(env, rels', n) {
      if l in Rebases(env, rels, n) {
        RebasesIncluded(env, rels, rels', n, l);
      } else if l in Rebases(env, rels', n) {
        RebasesIncluded(env, rels', rels, n, l);
      }
    }
    SameMembers(Rebases(env, rels, n), Rebases(env, rels', n));
    SortOfPermutation(Rebases(env, rels, n), Rebases(env, rels', n), SELF);
    BindsDistinct(env, rels, n, m);
    BindsDistinct(env, rels', n, m);
    forall b ensures b in Bindings(env, rels, n, m) <==> b in Bindings(env, rels', n, m) {
      if b in Bindings(env, rels, n, m) {
        BindingsIncluded(env, rels, rels', n, m, b);
      } else if b in Bindings(env, rels', n, m) {
        BindingsIncluded(env, rels', rels, n, m, b);
      }
    }
    SameMembers(Bindings(env, rels, n, m), Bindings(env, rels', n, m));
    LocsNameBindings(env, rels, n, m);
    SortOfPermutation(Bindings(env, rels, n, m), Bindings(env, rels', n, m), BINDING_LOC);
  }

  lemma {:induction false} LocsNameBindings(env: Env, rels: seq<Rela>, n: nat, m: Memory)
    requires env.Valid() && AllResolve(env, rels, n) && Spread(env, rels, n)
    ensures KeyDetermines(Bindings(env, rels, n, m), BINDING_LOC)
  {
    hide Bindings, Resolves, Internal, Target, Spread;
    var bs := Bindings(env, rels, n, m);
    forall i, j | 0 <= i < |bs| && 0 <= j < |bs| && BINDING_LOC(bs[i]) == BINDING_LOC(bs[j]) ensures bs[i] == bs[j] {
      var p := BindOrigin(env, rels, n, m, bs[i]);
      var q := BindOrigin(env, rels, n, m, bs[j]);
      if p != q {
        SpreadPair(env, rels, n, p, q);
      }
    }
  }

  lemma {:induction false} PatchedBytePermuted(env: Env, image: seq<byte>, rels: seq<Rela>, rels': seq<Rela>, a: int)
    requires env.Valid() && AllResolve(env, rels, |image|) && AllResolve(env, rels', |image|)
    requires Spread(env, rels, |image|) && Spread(env, rels', |image|) && multiset(rels) == multiset(rels')
    ensures ApplyAll(View(image), ImagePatches(env, rels, |image|))(a)
         == ApplyAll(View(image), ImagePatches(env, rels', |image|))(a)
  {
    hide Resolves, ImageOp, Target, ApplyAll, LoadWord, View;
    var m := View(image);
    var ps, qs := ImagePatches(env, rels, |image|), ImagePatches(env, rels', |image|);
    if i :| 0 <= i < |ps| && ps[i].addr <= a < ps[i].addr + 8 {
      assert rels[i] in multiset(rels');
      var k :| 0 <= k < |rels'| && rels'[k] == rels[i];
      PatchedWord(m, ps, i);
      PatchedWord(m, qs, k);
      WordsAndBytes(ApplyAll(m, ps), ApplyAll(m, qs), ps[i].addr, ps[i].addr);
      assert ApplyAll(m, ps)(a) == ApplyAll(m, qs)(a - ps[i].addr + ps[i].addr);
    } else {
      forall k | 0 <= k < |qs| ensures !(qs[k].addr <= a < qs[k].addr + 8) {
        assert rels'[k] in multiset(rels);
        var i :| 0 <= i < |rels| && rels[i] == rels'[k];
        assert ps[i].addr == qs[k].addr;
      }
      UntouchedByte(m, ps, a);
      UntouchedByte(m, qs, a);
    }
  }

  /**
   Order independence: permuting records on disjoint words changes neither the image nor the sorted work lists, from
   which both fixup programs are made, although ABS64 reads an image the loop is changing.
   */
  lemma {:induction false} OrderIndependent(env: Env, image: seq<byte>, rels: seq<Rela>, rels': seq<Rela>)
    requires env.Valid() && AllResolve(env, rels, |image|) && Spread(env, rels, |image|)
    requires multiset(rels) == multiset(rels')
    ensures var r, r' := Relocate(env, State(image, [], [], NoCounts()), rels),
        Relocate(env, State(image, [], [], NoCounts()), rels');
      && r.Ok? && r'.Ok? && r.value.image == r'.value.image
      && Sort(r.value.rebases, SELF) == Sort(r'.value.rebases, SELF)
      && Sort(r.value.bindings, BINDING_LOC) == Sort(r'.value.bindings, BINDING_LOC)
  {
    hide Resolves, Relocate, ApplyAll, View, Sort, ImagePatches, LocsDistinct, Disjoint;
    SpreadPermuted(env, rels, rels', |image|);
    RelocateMeaning(env, image, rels);
    RelocateMeaning(env, image, rels');
    WorkListsPermuted(env, rels, rels', |image|, View(image));
    var x, y := Relocate(env, State(image, [], [], NoCounts()), rels).value.image,
      Relocate(env, State(image, [], [], NoCounts()), rels').value.image;
    forall a | 0 <= a < |image| ensures x[a] == y[a] {
      PatchedBytePermuted(env, image, rels, rels', a);
      ViewAt(x, a);
      ViewAt(y, a);
    }
    assert x == y;
  }

  lemma {:induction false} ViewAt(s: seq<byte>, a: nat)
    requires a < |s|
    ensures View(s)(a) == s[a]
  {
  }

  // ----- conservation -----

  function CountBindings(bs: seq<Binding>, t: nat): nat {
    if |bs| == 0 then 0
    else CountBindings(bs[..|bs| - 1], t) + if bs[|bs| - 1].rtype == t then 1 else 0
  }

  function PatchedOf(c: Counts, t: nat): nat {
    if t == R_RELATIVE then c.relative
    else if t == R_ABS64 then c.abs64
    else if t == R_GLOB_DAT then c.globDat
    else if t == R_JUMP_SLOT then c.jumpSlot
    else 0
  }

  lemma {:induction false} StepConserves(env: Env, st: State, rel: Rela, t: nat)
    requires env.Valid() && Step(env, st, rel).Ok?
    ensures var r := Step(env, st, rel).value;
      && |r.rebases| + |r.bindings| == |st.rebases| + |st.bindings| + 1
      && |r.rebases| - r.patched.Total() == |st.rebases| - st.patched.Total()
      && PatchedOf(r.patched, t) + CountBindings(r.bindings, t)
         == PatchedOf(st.patched, t) + CountBindings(st.bindings, t) + if rel.rtype == t then 1 else 0
  {
    hide Locate, PackInto, UnpackAt;
    var r := Step(env, st, rel).value;
    if |r.bindings| > |st.bindings| {
      assert r.bindings[..|r.bindings| - 1] == st.bindings;
    }
  }

  lemma {:induction false} RelocateLast(env: Env, st: State, rels: seq<Rela>)
    requires env.Valid() && |rels| > 0 && Relocate(env, st, rels).Ok?
    ensures var r := Relocate(env, st, rels[..|rels| - 1]);
      r.Ok? && Relocate(env, st, rels) == Step(env, r.value, rels[|rels| - 1])
  {
    hide Step;
  }

  /** From st0 to st the records rels were processed: each one gave one rebase or one bind, counted under its type. */
  predicate Conserved(st0: State, st: State, rels: seq<Rela>, t: nat) {
    && |st.rebases| - st.patched.Total() == |st0.rebases| - st0.patched.Total()
    && |st.rebases| + |st.bindings| == |st0.rebases| + |st0.bindings| + |rels|
    && PatchedOf(st.patched, t) + CountBindings(st.bindings, t)
       == PatchedOf(st0.patched, t) + CountBindings(st0.bindings, t) + CountType(rels, t)
  }

  lemma {:induction false} ConservedStep(env: Env, st0: State, st: State, rels: seq<Rela>, t: nat)
    requires env.Valid() && |rels| > 0 && Conserved(st0, st, rels[..|rels| - 1], t)
    requires Step(env, st, rels[|rels| - 1]).Ok?
    ensures Conserved(st0, Step(env, st, rels[|rels| - 1]).value, rels, t)
  {
    hide Step, CountBindings, PatchedOf;
    StepConserves(env, st, rels[|rels| - 1], t);
  }

  lemma {:induction false} Conservation(env: Env, st: State, rels: seq<Rela>, t: nat)
    requires env.Valid() && Relocate(env, st, rels).Ok?
    ensures Conserved(st, Relocate(env, st, rels).value, rels, t)
    decreases |rels|
  {
    hide Step, PatchedOf, CountBindings;
    if |rels| > 0 {
      hide Relocate, Conserved;
      RelocateLast(env, st, rels);
      Conservation(env, st, rels[..|rels| - 1], t);
      ConservedStep(env, st, Relocate(env, st, rels[..|rels| - 1]).value, rels, t);
    }
  }

  /** Nothing is lost or counted twice, and the counts agree with the reader's own, type by type. */
  lemma {:induction false} ReaderAgrees(elf: Elf64, cfg: Config, opts: Options, counts: map<nat, nat>, t: nat)
    requires Accepted(Loads(elf.programHeaders)) && Relocated(elf, cfg, opts).Ok?
    requires Tallies(counts, Relocations(elf.data, elf.sections))
    ensures var st := Relocated(elf, cfg, opts).value;
      && |st.rebases| == st.patched.Total()
      && |st.rebases| + |st.bindings| == |Relocations(elf.data, elf.sections)|
      && PatchedOf(st.patched, t) + CountBindings(st.bindings, t) == if t in counts then counts[t] else 0
  {
    hide Relocate, Relocations, Copied, CountType;
    var env := EnvOf(elf, cfg, opts);
    Conservation(env, State(Copied(elf.data, env.segs, Zeros(DataEnd(env.segs))), [], [], NoCounts()),
                 Relocations(elf.data, elf.sections), t);
  }
}
