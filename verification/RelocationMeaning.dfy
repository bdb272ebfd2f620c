/** What the relocation loop computes, stated without the loop. */
module RelocationMeaning {
  import opened Bytes
  import opened Patches
  import opened ElfReader
  import opened Layout
  import opened Sorting
  import opened Fixups
  import opened Phase3

  /** The record's type is one the loop handles, and its symbol exists if it needs one. */
  predicate Known(symbols: seq<Symbol>, rel: Rela) {
    rel.rtype == R_RELATIVE || (Supported(rel.rtype) && rel.symbolIndex < |symbols|)
  }

  /** The record can be processed in an image of n bytes. */
  predicate Resolves(env: Env, rel: Rela, n: nat)
    requires env.Valid()
  {
    && Locate(env.segs, env.slide, rel.offset).Some?
    && Target(env, rel).output + 8 <= n
    && Known(env.symbols, rel)
  }

  predicate AllResolve(env: Env, rels: seq<Rela>, n: nat)
    requires env.Valid()
  {
    forall i :: 0 <= i < |rels| ==> Resolves(env, rels[i], n)
  }

  function Target(env: Env, rel: Rela): Location
    requires env.Valid() && Locate(env.segs, env.slide, rel.offset).Some?
  {
    Locate(env.segs, env.slide, rel.offset).value
  }

  /** Settled by the translator, up to the slide dyld will add. */
  predicate Internal(env: Env, rel: Rela)
    requires rel.rtype == R_RELATIVE || rel.symbolIndex < |env.symbols|
  {
    rel.rtype == R_RELATIVE || env.symbols[rel.symbolIndex].shndx != SHN_UNDEF
  }

  function ImageOp(env: Env, rel: Rela): Op
    requires rel.rtype == R_RELATIVE || rel.symbolIndex < |env.symbols|
  {
    if rel.rtype == R_RELATIVE then Set(env.slide + rel.addend)
    else if !Internal(env, rel) then Add(0)
    else
      var value := env.slide + env.symbols[rel.symbolIndex].value + rel.addend;
      if rel.rtype == R_ABS64 then Add(value) else Set(value)
  }

  function ImagePatches(env: Env, rels: seq<Rela>, n: nat): (ps: seq<Patch>)
    requires env.Valid() && AllResolve(env, rels, n)
    ensures |ps| == |rels|
    ensures forall i :: 0 <= i < |rels| ==> ps[i] == Patch(Target(env, rels[i]).output, ImageOp(env, rels[i]))
  {
    seq(|rels|, i requires 0 <= i < |rels| => Patch(Target(env, rels[i]).output, ImageOp(env, rels[i])))
  }

  function BindingOf(env: Env, rel: Rela, m: Memory): Binding
    requires env.Valid() && Locate(env.segs, env.slide, rel.offset).Some? && rel.symbolIndex < |env.symbols|
  {
    var sym, l := env.symbols[rel.symbolIndex], Target(env, rel);
    Binding(rel.offset, rel.rtype, sym.name, env.prefix + sym.name, sym.info % 16, l.loc,
            rel.addend + if rel.rtype == R_ABS64 then LoadWord(m, l.output) else 0)
  }

  function RebaseOf(env: Env, rel: Rela): seq<Loc>
    requires env.Valid() && Locate(env.segs, env.slide, rel.offset).Some?
    requires rel.rtype == R_RELATIVE || rel.symbolIndex < |env.symbols|
  {
    if Internal(env, rel) then [Target(env, rel).loc] else []
  }

  function BindsOf(env: Env, rel: Rela, m: Memory): seq<Binding>
    requires env.Valid() && Locate(env.segs, env.slide, rel.offset).Some?
    requires rel.rtype == R_RELATIVE || rel.symbolIndex < |env.symbols|
  {
    if Internal(env, rel) then [] else [BindingOf(env, rel, m)]
  }

  function Rebases(env: Env, rels: seq<Rela>, n: nat): seq<Loc>
    requires env.Valid() && AllResolve(env, rels, n)
  {
    if |rels| == 0 then []
    else Rebases(env, rels[..|rels| - 1], n) + RebaseOf(env, rels[|rels| - 1])
  }

  /** The bindings, every addend read from the one memory m. */
  function Bindings(env: Env, rels: seq<Rela>, n: nat, m: Memory): seq<Binding>
    requires env.Valid() && AllResolve(env, rels, n)
  {
    if |rels| == 0 then []
    else Bindings(env, rels[..|rels| - 1], n, m) + BindsOf(env, rels[|rels| - 1], m)
  }

  // ----- success -----

  lemma {:induction false} StepOkIff(env: Env, st: State, rel: Rela)
    requires env.Valid()
    ensures Step(env, st, rel).Ok? <==> Resolves(env, rel, |st.image|)
    ensures Step(env, st, rel).Ok? ==> |Step(env, st, rel).value.image| == |st.image|
  {
    hide PackInto, UnpackAt, Locate;
  }

  /** The loop succeeds exactly when each record can be processed by itself. */
  lemma {:induction false} RelocateOkIff(env: Env, st: State, rels: seq<Rela>)
    requires env.Valid()
    ensures Relocate(env, st, rels).Ok? <==> AllResolve(env, rels, |st.image|)
    ensures Relocate(env, st, rels).Ok? ==> |Relocate(env, st, rels).value.image| == |st.image|
  {
    hide Step, Resolves;
    if |rels| > 0 {
      var front, last := rels[..|rels| - 1], rels[|rels| - 1];
      RelocateOkIff(env, st, front);
      if Relocate(env, st, front).Ok? {
        StepOkIff(env, Relocate(env, st, front).value, last);
        if Relocate(env, st, rels).Ok? {
          forall i | 0 <= i < |rels| ensures Resolves(env, rels[i], |st.image|) {
            if i < |front| {
              assert Resolves(env, front[i], |st.image|);
            }
          }
        } else {
          assert !Resolves(env, rels[|rels| - 1], |st.image|);
        }
      } else {
        var i :| 0 <= i < |front| && !Resolves(env, front[i], |st.image|);
        assert !Resolves(env, rels[i], |st.image|);
      }
    }
  }

  // ----- meaning -----

  ghost predicate SameMemory(m: Memory, n: Memory) {
    forall a :: m(a) == n(a)
  }

  lemma {:induction false} SameWord(m: Memory, n: Memory, a: int)
    requires SameMemory(m, n)
    ensures LoadWord(m, a) == LoadWord(n, a)
  {
    WordsAndBytes(m, n, a, a);
  }

  lemma {:induction false} PackReduced(w: int)
    ensures PackLE(w, 8) == PackLE(w % TWO64, 8)
  {
    UnpackPack(w, 8);
    PackUnpack(PackLE(w, 8));
    Pow256Is64();
  }

  /** Overwriting a word of the image is one patch of the memory it shows. */
  lemma {:induction false} PackIsPatch(image: seq<byte>, at: nat, w: int, m: Memory, op: Op)
    requires at + 8 <= |image| && SameMemory(View(image), m) && w % TWO64 == NewWord(op, LoadWord(m, at))
    ensures SameMemory(View(PackInto(image, at, w)), ApplyOne(m, Patch(at, op)))
  {
    PackReduced(w);
    ViewPackInto(image, at, w);
  }

  lemma {:induction false} IdlePatch(m: Memory, at: int)
    ensures SameMemory(ApplyOne(m, Patch(at, Add(0))), m)
  {
    hide PackLE, UnpackLE;
    var s := BytesAt(m, at, 8);
    PackUnpack(s);
    forall a ensures ApplyOne(m, Patch(at, Add(0)))(a) == m(a) {
      if at <= a < at + 8 {
        assert s[a - at] == m(at + (a - at));
      }
    }
  }

  lemma {:induction false} PatchesSnoc(m: Memory, ps: seq<Patch>, p: Patch)
    ensures ApplyAll(m, ps + [p]) == ApplyOne(ApplyAll(m, ps), p)
  {
    assert (ps + [p])[..|ps|] == ps;
  }

  /** One record: the image takes its patch, and the work lists its entry. */
  lemma {:induction false} StepMeaning(env: Env, st: State, rel: Rela, m: Memory)
    requires env.Valid() && Resolves(env, rel, |st.image|) && SameMemory(View(st.image), m)
    ensures Step(env, st, rel).Ok?
    ensures var r := Step(env, st, rel).value;
      && SameMemory(View(r.image), ApplyOne(m, Patch(Target(env, rel).output, ImageOp(env, rel))))
      && r.rebases == st.rebases + RebaseOf(env, rel)
      && r.bindings == st.bindings + BindsOf(env, rel, m)
  {
    hide LoadWord, StoreWord, PackInto, UnpackAt, View, Locate;
    StepOkIff(env, st, rel);
    var at, op := Target(env, rel).output, ImageOp(env, rel);
    ViewUnpack(st.image, at);
    SameWord(View(st.image), m, at);
    if !Internal(env, rel) {
      IdlePatch(m, at);
    } else {
      var w := if op.Set? then op.w else op.w + LoadWord(m, at);
      PackIsPatch(st.image, at, w, m, op);
      assert Step(env, st, rel).value.image == PackInto(st.image, at, w);
    }
  }

  /**
   The loop's meaning, for records on pairwise disjoint words: patches act on the memory the image showed at the start,
   and every binding's addend reads that memory although the image was changing underneath.
   */
  lemma {:induction false} RelocateMeaning(env: Env, image: seq<byte>, rels: seq<Rela>)
    requires env.Valid() && AllResolve(env, rels, |image|)
    requires Disjoint(ImagePatches(env, rels, |image|))
    ensures Relocate(env, State(image, [], [], NoCounts()), rels).Ok?
    ensures var st := Relocate(env, State(image, [], [], NoCounts()), rels).value;
      && |st.image| == |image|
      && SameMemory(View(st.image), ApplyAll(View(image), ImagePatches(env, rels, |image|)))
      && st.rebases == Rebases(env, rels, |image|)
      && st.bindings == Bindings(env, rels, |image|, View(image))
  {
    hide Step, LoadWord, View, Resolves, Target, ImageOp, ApplyOne;
    var n, m0, st0 := |image|, View(image), State(image, [], [], NoCounts());
    RelocateOkIff(env, st0, rels);
    if |rels| > 0 {
      var front, last := rels[..|rels| - 1], rels[|rels| - 1];
      var ps, qs := ImagePatches(env, rels, n), ImagePatches(env, front, n);
      assert ps == qs + [ps[|front|]];
      assert Disjoint(qs);
      RelocateMeaning(env, image, front);
      var st := Relocate(env, st0, front).value;
      var m := ApplyAll(m0, qs);
      assert Resolves(env, last, n);
      StepMeaning(env, st, last, m);
      PatchesSnoc(m0, qs, ps[|front|]);
      forall p | p in qs ensures Apart(p.addr, ps[|front|].addr) {
      }
      UntouchedWord(m0, qs, ps[|front|].addr);
      SameBinds(env, last, n, m, m0);
    }
  }

  lemma {:induction false} SameBinds(env: Env, rel: Rela, size: nat, m: Memory, n: Memory)
    requires env.Valid() && Resolves(env, rel, size)
    requires LoadWord(m, Target(env, rel).output) == LoadWord(n, Target(env, rel).output)
    ensures BindsOf(env, rel, m) == BindsOf(env, rel, n)
  {
  }
}
