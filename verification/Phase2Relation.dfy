/** How Phase 2's output and Phase 3's output for the same ELF file relate. */
module Phase2Relation {
  import opened Bytes
  import opened Patches
  import opened ElfReader
  import opened Layout
  import opened Fixups
  import opened MachO
  import opened Images
  import opened RelocationMeaning
  import opened RelocatedImage
  import opened Phase3Correct
  import opened Headers
  import MachReader
  import Dyld
  import Phase2
  import Phase3

  // ----- bookkeeping: any file both accept -----

  /** What a binding and an unresolved entry share. */
  datatype Import = Import(offset: nat, rtype: nat, symbol: seq<byte>)

  function BoundImports(bs: seq<Binding>): seq<Import> {
    if |bs| == 0 then []
    else
      var b := bs[|bs| - 1];
      BoundImports(bs[..|bs| - 1]) + [Import(b.vaddr, b.rtype, b.symbol)]
  }

  function UnresolvedImports(us: seq<Phase2.Unresolved>): seq<Import> {
    if |us| == 0 then []
    else
      var u := us[|us| - 1];
      UnresolvedImports(us[..|us| - 1]) + [Import(u.offset, u.rtype, u.symbol)]
  }

  predicate SameBooks(st2: Phase2.State, st3: Phase3.State) {
    st2.patched == st3.patched && UnresolvedImports(st2.unresolved) == BoundImports(st3.bindings)
  }

  lemma {:induction false} ImportsSnoc(bs: seq<Binding>, us: seq<Phase2.Unresolved>, b: Binding, u: Phase2.Unresolved)
    ensures BoundImports(bs + [b]) == BoundImports(bs) + [Import(b.vaddr, b.rtype, b.symbol)]
    ensures UnresolvedImports(us + [u]) == UnresolvedImports(us) + [Import(u.offset, u.rtype, u.symbol)]
  {
    assert (bs + [b])[..|bs|] == bs && (us + [u])[..|us|] == us;
  }

  lemma {:induction false} StepBooks(env2: Phase3.Env, env3: Phase3.Env, st2: Phase2.State, st3: Phase3.State,
                                     rel: Rela)
    requires env2.Valid() && env3.Valid() && env2.symbols == env3.symbols && SameBooks(st2, st3)
    requires Phase2.Step(env2, st2, rel).Ok? && Phase3.Step(env3, st3, rel).Ok?
    ensures SameBooks(Phase2.Step(env2, st2, rel).value, Phase3.Step(env3, st3, rel).value)
  {
    hide Locate, PackInto, UnpackAt, BoundImports, UnresolvedImports;
    var r2, r3 := Phase2.Step(env2, st2, rel).value, Phase3.Step(env3, st3, rel).value;
    if |r2.unresolved| > |st2.unresolved| {
      ImportsSnoc(st3.bindings, st2.unresolved, r3.bindings[|st3.bindings|], r2.unresolved[|st2.unresolved|]);
    }
  }

  lemma {:induction false} RelocateBooks(env2: Phase3.Env, env3: Phase3.Env, st2: Phase2.State, st3: Phase3.State,
                                         rels: seq<Rela>)
    requires env2.Valid() && env3.Valid() && env2.symbols == env3.symbols && SameBooks(st2, st3)
    requires Phase2.Relocate(env2, st2, rels).Ok? && Phase3.Relocate(env3, st3, rels).Ok?
    ensures SameBooks(Phase2.Relocate(env2, st2, rels).value, Phase3.Relocate(env3, st3, rels).value)
    decreases |rels|
  {
    hide Phase2.Step, Phase3.Step, SameBooks;
    if |rels| > 0 {
      var front := rels[..|rels| - 1];
      RelocateBooks(env2, env3, st2, st3, front);
      StepBooks(env2, env3, Phase2.Relocate(env2, st2, front).value, Phase3.Relocate(env3, st3, front).value,
                rels[|rels| - 1]);
    }
  }

  /** On any file both accept, the counters are equal and the same imports come in the same order. */
  lemma {:induction false} SameCountersAndImports(elf: Elf64, cfg: Config, opts: Phase3.Options, slide2: nat)
    requires Accepted(LoadsOf(elf)) && Phase2.Relocated(elf, slide2).Ok? && Phase3.Relocated(elf, cfg, opts).Ok?
    ensures SameBooks(Phase2.Relocated(elf, slide2).value, Phase3.Relocated(elf, cfg, opts).value)
  {
    hide Phase2.Relocate, Phase3.Relocate, Phase2.ImageBefore, Phase3.Copied, Symbols, Relocations;
    var env3 := Phase3.EnvOf(elf, cfg, opts);
    RelocateBooks(Phase2.EnvOf(elf, slide2), env3,
                  Phase2.State(Phase2.ImageBefore(elf, slide2), Phase3.NoCounts(), []),
                  Phase3.State(Phase3.Copied(elf.data, env3.segs, Zeros(Phase3.DataEnd(env3.segs))), [], [],
                               Phase3.NoCounts()),
                  RelasOf(elf));
  }

  // ----- what both layouts have in common -----

  /** Each load in its own place, at one slide, file ranges in order. */
  predicate LaidOut(env: Phase3.Env, loads: seq<ProgramHeader>) {
    && |env.segs| == |loads|
    && (forall i :: 0 <= i < |loads| ==> Placed(env.segs[i], loads[i], env.slide))
    && (forall i, j :: 0 <= i < j < |loads| ==> FileEnd(env.segs[i]) <= env.segs[j].fileoff)
  }

  predicate FilesApart(a: ProgramHeader, b: ProgramHeader) {
    a.filesz == 0 || b.filesz == 0 || a.vaddr + a.filesz <= b.vaddr || b.vaddr + b.filesz <= a.vaddr
  }

  /**
   Neither translator checks this: loads within the file, no address backed twice, relocated words whole and apart.
   */
  predicate Sane(elf: Elf64) {
    var loads := LoadsOf(elf);
    && (forall i :: 0 <= i < |loads| ==> loads[i].offset + loads[i].filesz <= |elf.data|)
    && (forall i, j :: 0 <= i < j < |loads| ==> FilesApart(loads[i], loads[j]))
    && WordsBacked(loads, RelasOf(elf)) && WordsApart(RelasOf(elf))
  }

  lemma {:induction false} Phase2LaidOut(elf: Elf64, slide: nat)
    ensures LaidOut(Phase2.EnvOf(elf, slide), LoadsOf(elf))
  {
    hide Placed, FileEnd;
    var loads := LoadsOf(elf);
    forall i | 0 <= i < |loads| ensures Placed(Phase2.Mapped(loads, slide)[i], loads[i], slide) {
      Phase2.MappedAt(loads, slide, i);
    }
    forall i, j | 0 <= i < j < |loads|
      ensures FileEnd(Phase2.Mapped(loads, slide)[i]) <= Phase2.Mapped(loads, slide)[j].fileoff
    {
      MappedOrdered(loads, slide, i, j);
    }
  }

  lemma {:induction false} MappedOrdered(loads: seq<ProgramHeader>, slide: nat, i: nat, j: nat)
    requires i < j < |loads|
    ensures FileEnd(Phase2.Mapped(loads, slide)[i]) <= Phase2.Mapped(loads, slide)[j].fileoff
    decreases j
  {
    Phase2.MappedAt(loads, slide, j);
    if i < j - 1 {
      Phase2.MappedAt(loads, slide, j - 1);
      MappedOrdered(loads, slide, i, j - 1);
    }
  }

  lemma {:induction false} Phase3LaidOut(elf: Elf64, cfg: Config, opts: Phase3.Options)
    requires Accepted(LoadsOf(elf))
    ensures LaidOut(Phase3.EnvOf(elf, cfg, opts), LoadsOf(elf))
  {
    hide Placed, FileEnd, Segments;
    var loads := LoadsOf(elf);
    forall i | 0 <= i < |loads| ensures Placed(Segments(loads, cfg)[i], loads[i], cfg.Slide()) {
      SegmentAt(loads, cfg, i);
    }
    forall i, j | 0 <= i < j < |loads| ensures FileEnd(Segments(loads, cfg)[i]) <= Segments(loads, cfg)[j].fileoff {
      FilesOrdered(loads, cfg, i, j);
    }
  }

  lemma {:induction false} LaidCopies(elf: Elf64, env: Phase3.Env)
    requires LaidOut(env, LoadsOf(elf)) && Sane(elf)
    ensures CopyFits(elf.data, env.segs, Phase3.DataEnd(env.segs)) && CopiesApart(env.segs)
  {
    hide Loads, WordsBacked, WordsApart, FilesApart, Align;
    var segs, loads := env.segs, LoadsOf(elf);
    forall i | 0 <= i < |segs|
      ensures segs[i].elfOffset + segs[i].elfFilesz <= |elf.data|
      ensures segs[i].dataFileoff + segs[i].elfFilesz <= FileEnd(segs[i]) <= Phase3.DataEnd(segs)
    {
      assert Placed(segs[i], loads[i], env.slide);
      FileEndCovers(segs[i]);
      DataEndCovers(segs, i);
    }
    forall i, j | 0 <= i < j < |segs| ensures segs[i].dataFileoff + segs[i].elfFilesz <= segs[j].dataFileoff {
      assert Placed(segs[j], loads[j], env.slide);
    }
  }

  lemma {:induction false} OnlyBacker(loads: seq<ProgramHeader>, i: nat, k: nat, v: nat)
    requires forall p, q :: 0 <= p < q < |loads| ==> FilesApart(loads[p], loads[q])
    requires i < |loads| && k < |loads|
    requires loads[i].vaddr <= v < loads[i].vaddr + loads[i].filesz
    requires loads[k].vaddr <= v < loads[k].vaddr + loads[k].filesz
    ensures i == k
  {
  }

  /** Whichever layout, a relocated word is found in the load that backs it. */
  lemma {:induction false} LaidHome(elf: Elf64, env: Phase3.Env, j: nat) returns (i: nat)
    requires env.Valid() && LaidOut(env, LoadsOf(elf)) && Sane(elf) && j < |RelasOf(elf)|
    ensures i < |LoadsOf(elf)| && WordIn(LoadsOf(elf)[i], RelasOf(elf)[j].offset)
    ensures Locate(env.segs, env.slide, RelasOf(elf)[j].offset).Some?
    ensures Target(env, RelasOf(elf)[j]).output
        == env.segs[i].dataFileoff + (RelasOf(elf)[j].offset - LoadsOf(elf)[i].vaddr)
  {
    hide Loads, Relocations, WordsApart, FileEnd;
    var loads, v := LoadsOf(elf), RelasOf(elf)[j].offset;
    i :| 0 <= i < |loads| && WordIn(loads[i], v);
    assert Placed(env.segs[i], loads[i], env.slide);
    assert Backs(env.segs[i], v);
    var k := FindSegment(env.segs, v);
    assert Placed(env.segs[k], loads[k], env.slide);
    OnlyBacker(loads, i, k, v);
  }

  lemma {:induction false} LaidApart(elf: Elf64, env: Phase3.Env, j: nat, k: nat)
    requires env.Valid() && LaidOut(env, LoadsOf(elf)) && Sane(elf) && j < k < |RelasOf(elf)|
    ensures Locate(env.segs, env.slide, RelasOf(elf)[j].offset).Some?
    ensures Locate(env.segs, env.slide, RelasOf(elf)[k].offset).Some?
    ensures Apart(Target(env, RelasOf(elf)[j]).output, Target(env, RelasOf(elf)[k]).output)
  {
    var p := LaidHome(elf, env, j);
    var q := LaidHome(elf, env, k);
    LaidCopies(elf, env);
    hide Loads, Relocations, WordsBacked, FilesApart, Locate, FileEnd, Phase3.DataEnd;
    assert Placed(env.segs[p], LoadsOf(elf)[p], env.slide) && Placed(env.segs[q], LoadsOf(elf)[q], env.slide);
    assert p == q || p < q || q < p;
  }

  lemma {:induction false} LaidFits(elf: Elf64, env: Phase3.Env, j: nat)
    requires env.Valid() && LaidOut(env, LoadsOf(elf)) && Sane(elf) && j < |RelasOf(elf)|
    ensures Locate(env.segs, env.slide, RelasOf(elf)[j].offset).Some?
    ensures Target(env, RelasOf(elf)[j]).output + 8 <= Phase3.DataEnd(env.segs)
  {
    var i := LaidHome(elf, env, j);
    LaidCopies(elf, env);
    hide Loads, Relocations, WordsBacked, FilesApart, Locate, FileEnd, Phase3.DataEnd;
    assert Placed(env.segs[i], LoadsOf(elf)[i], env.slide);
  }

  // ----- the two loops on one layout -----

  /** On one layout, where Phase 3's loop succeeds, Phase 2's builds the same image. */
  lemma {:induction false} SameImage(env: Phase3.Env, st2: Phase2.State, st3: Phase3.State, rels: seq<Rela>)
    requires env.Valid() && st2.image == st3.image && Phase3.Relocate(env, st3, rels).Ok?
    ensures Phase2.Relocate(env, st2, rels).Ok?
    ensures Phase2.Relocate(env, st2, rels).value.image == Phase3.Relocate(env, st3, rels).value.image
    decreases |rels|
  {
    hide Phase2.Step, Phase3.Step;
    if |rels| > 0 {
      var front := rels[..|rels| - 1];
      SameImage(env, st2, st3, front);
      SameImageStep(env, Phase2.Relocate(env, st2, front).value, Phase3.Relocate(env, st3, front).value,
                    rels[|rels| - 1]);
    }
  }

  lemma {:induction false} SameImageStep(env: Phase3.Env, st2: Phase2.State, st3: Phase3.State, rel: Rela)
    requires env.Valid() && st2.image == st3.image && Phase3.Step(env, st3, rel).Ok?
    ensures Phase2.Step(env, st2, rel).Ok?
    ensures Phase2.Step(env, st2, rel).value.image == Phase3.Step(env, st3, rel).value.image
  {
    hide Locate, PackInto, UnpackAt;
  }

  /** The image is the copied loads with each record's patch applied, on a layout with room for each. */
  ghost predicate Relocates(elf: Elf64, env: Phase3.Env, image: seq<byte>)
    requires env.Valid()
  {
    var before := Phase3.Copied(elf.data, env.segs, Zeros(Phase3.DataEnd(env.segs)));
    && |image| == |before| == Phase3.DataEnd(env.segs)
    && AllResolve(env, RelasOf(elf), |before|)
    && Disjoint(ImagePatches(env, RelasOf(elf), |before|))
    && SameMemory(View(image), ApplyAll(View(before), ImagePatches(env, RelasOf(elf), |before|)))
  }

  lemma {:induction false} LaidRelocates(elf: Elf64, env: Phase3.Env)
    requires env.Valid() && LaidOut(env, LoadsOf(elf)) && Sane(elf)
    requires forall j :: 0 <= j < |RelasOf(elf)| ==> Known(env.symbols, RelasOf(elf)[j])
    ensures var before := Phase3.Copied(elf.data, env.segs, Zeros(Phase3.DataEnd(env.segs)));
      var r := Phase3.Relocate(env, Phase3.State(before, [], [], Phase3.NoCounts()), RelasOf(elf));
      r.Ok? && Relocates(elf, env, r.value.image)
  {
    hide LaidOut, Sane, Loads, Relocations, Locate, Phase3.DataEnd, Phase3.Copied, Phase3.Relocate, ApplyAll, ImageOp;
    var n := Phase3.DataEnd(env.segs);
    var before, rels := Phase3.Copied(elf.data, env.segs, Zeros(n)), RelasOf(elf);
    LaidCopies(elf, env);
    CopiedLength(elf.data, env.segs, Zeros(n));
    forall j | 0 <= j < |rels| ensures Resolves(env, rels[j], n) {
      LaidFits(elf, env, j);
      assert Known(env.symbols, rels[j]);
    }
    var ps := ImagePatches(env, rels, n);
    forall j, k | 0 <= j < k < |ps| ensures Apart(ps[j].addr, ps[k].addr) {
      LaidApart(elf, env, j, k);
    }
    RelocateMeaning(env, before, rels);
  }

  lemma {:induction false} AcceptedKnown(env: Phase3.Env, st: Phase3.State, rels: seq<Rela>)
    requires env.Valid() && Phase3.Relocate(env, st, rels).Ok?
    ensures forall j :: 0 <= j < |rels| ==> Known(env.symbols, rels[j])
  {
    hide Locate, Phase3.Relocate;
    RelocateOkIff(env, st, rels);
    forall j | 0 <= j < |rels| ensures Known(env.symbols, rels[j]) {
      assert Resolves(env, rels[j], |st.image|);
    }
  }

  /** Both images, in the same terms. */
  lemma {:induction false} BothRelocate(elf: Elf64, cfg: Config, opts: Phase3.Options, slide2: nat)
    requires Accepted(LoadsOf(elf)) && Sane(elf) && Phase3.Relocated(elf, cfg, opts).Ok?
    ensures Phase2.Relocated(elf, slide2).Ok?
    ensures Relocates(elf, Phase2.EnvOf(elf, slide2), Phase2.Relocated(elf, slide2).value.image)
    ensures Relocates(elf, Phase3.EnvOf(elf, cfg, opts), Phase3.Relocated(elf, cfg, opts).value.image)
  {
    hide Sane, LaidOut, Loads, Segments, Phase2.Mapped, Symbols, Relocations, Phase3.Relocate, Phase2.Relocate,
      Relocates, Phase3.Copied, Phase3.DataEnd, Known;
    var env2, env3 := Phase2.EnvOf(elf, slide2), Phase3.EnvOf(elf, cfg, opts);
    Phase2LaidOut(elf, slide2);
    Phase3LaidOut(elf, cfg, opts);
    AcceptedKnown(env3, Phase3.State(Phase3.Copied(elf.data, env3.segs, Zeros(Phase3.DataEnd(env3.segs))), [], [],
      Phase3.NoCounts()), RelasOf(elf));
    LaidRelocates(elf, env3);
    LaidRelocates(elf, env2);
    var before := Phase2.ImageBefore(elf, slide2);
    SameImage(env2, Phase2.State(before, Phase3.NoCounts(), []), Phase3.State(before, [], [], Phase3.NoCounts()),
              RelasOf(elf));
  }

  // ----- bytes and words -----

  predicate InSomeWord(rels: seq<Rela>, v: nat) {
    exists j :: 0 <= j < |rels| && rels[j].offset <= v < rels[j].offset + 8
  }

  lemma {:induction false} BeforeByte(elf: Elf64, env: Phase3.Env, i: nat, k: nat)
    requires LaidOut(env, LoadsOf(elf)) && Sane(elf) && i < |LoadsOf(elf)| && k < LoadsOf(elf)[i].filesz
    ensures var before := Phase3.Copied(elf.data, env.segs, Zeros(Phase3.DataEnd(env.segs)));
      && |before| == Phase3.DataEnd(env.segs) && env.segs[i].dataFileoff + k < |before|
      && before[env.segs[i].dataFileoff + k] == elf.data[LoadsOf(elf)[i].offset + k]
  {
    hide Loads, WordsBacked, WordsApart, FilesApart, Phase3.DataEnd, Phase3.Copied, FileEnd;
    LaidCopies(elf, env);
    assert Placed(env.segs[i], LoadsOf(elf)[i], env.slide);
    var x := env.segs[i].dataFileoff + k;
    assert InCopy(env.segs[i], x);
    OwnedByte(elf.data, env.segs, Zeros(Phase3.DataEnd(env.segs)), x, i);
  }

  lemma {:induction false} PatchMisses(elf: Elf64, env: Phase3.Env, i: nat, k: nat, j: nat)
    requires env.Valid() && LaidOut(env, LoadsOf(elf)) && Sane(elf) && j < |RelasOf(elf)|
    requires i < |LoadsOf(elf)| && k < LoadsOf(elf)[i].filesz && !InSomeWord(RelasOf(elf), LoadsOf(elf)[i].vaddr + k)
    ensures Locate(env.segs, env.slide, RelasOf(elf)[j].offset).Some?
    ensures var at := Target(env, RelasOf(elf)[j]).output; !(at <= env.segs[i].dataFileoff + k < at + 8)
  {
    var h := LaidHome(elf, env, j);
    LaidCopies(elf, env);
    hide Loads, Relocations, Sane, FileEnd, Phase3.DataEnd, Locate;
    assert Placed(env.segs[h], LoadsOf(elf)[h], env.slide) && Placed(env.segs[i], LoadsOf(elf)[i], env.slide);
    assert h == i || h < i || i < h;
  }

  /** A load's byte outside every relocated word is the ELF file's byte. */
  lemma {:induction false} UnpatchedByte(elf: Elf64, env: Phase3.Env, image: seq<byte>, i: nat, k: nat)
    requires env.Valid() && LaidOut(env, LoadsOf(elf)) && Sane(elf) && Relocates(elf, env, image)
    requires i < |LoadsOf(elf)| && k < LoadsOf(elf)[i].filesz && !InSomeWord(RelasOf(elf), LoadsOf(elf)[i].vaddr + k)
    ensures env.segs[i].dataFileoff + k < |image|
    ensures image[env.segs[i].dataFileoff + k] == elf.data[LoadsOf(elf)[i].offset + k]
  {
    hide Loads, Relocations, Placed, InSomeWord, FileEnd, Phase3.DataEnd, Phase3.Copied, ApplyAll, Disjoint, ImageOp,
      Locate, Resolves;
    var x := env.segs[i].dataFileoff + k;
    var before := Phase3.Copied(elf.data, env.segs, Zeros(Phase3.DataEnd(env.segs)));
    var ps := ImagePatches(env, RelasOf(elf), |before|);
    BeforeByte(elf, env, i, k);
    forall j | 0 <= j < |ps| ensures !(ps[j].addr <= x < ps[j].addr + 8) {
      PatchMisses(elf, env, i, k, j);
    }
    UntouchedByte(View(before), ps, x);
    assert View(image)(x) == View(before)(x);
  }

  /** The word the ELF file holds for a relocated address of load i. */
  function FileWord(elf: Elf64, i: nat, v: nat): nat
    requires i < |LoadsOf(elf)| && WordIn(LoadsOf(elf)[i], v)
  {
    LoadWord(View(elf.data), LoadsOf(elf)[i].offset + (v - LoadsOf(elf)[i].vaddr))
  }

  lemma {:induction false} BeforeWord(elf: Elf64, env: Phase3.Env, i: nat, v: nat)
    requires LaidOut(env, LoadsOf(elf)) && Sane(elf) && i < |LoadsOf(elf)| && WordIn(LoadsOf(elf)[i], v)
    ensures LoadWord(View(Phase3.Copied(elf.data, env.segs, Zeros(Phase3.DataEnd(env.segs)))),
                     env.segs[i].dataFileoff + (v - LoadsOf(elf)[i].vaddr)) == FileWord(elf, i, v)
  {
    hide Loads, Placed, FileEnd, WordsBacked, WordsApart, FilesApart, Phase3.DataEnd, Phase3.Copied, LoadWord;
    var ph := LoadsOf(elf)[i];
    var before := Phase3.Copied(elf.data, env.segs, Zeros(Phase3.DataEnd(env.segs)));
    var x, y := env.segs[i].dataFileoff + (v - ph.vaddr), ph.offset + (v - ph.vaddr);
    forall b | x <= b < x + 8 ensures View(before)(b) == View(elf.data)(b - x + y) {
      BeforeByte(elf, env, i, v - ph.vaddr + (b - x));
    }
    WordsAndBytes(View(before), View(elf.data), x, y);
  }

  /** A relocated word is its patch of the ELF file's word. */
  lemma {:induction false} PatchedFileWord(elf: Elf64, env: Phase3.Env, image: seq<byte>, j: nat) returns (i: nat)
    requires env.Valid() && LaidOut(env, LoadsOf(elf)) && Sane(elf) && Relocates(elf, env, image) && j < |RelasOf(elf)|
    ensures i < |LoadsOf(elf)| && WordIn(LoadsOf(elf)[i], RelasOf(elf)[j].offset) && Known(env.symbols, RelasOf(elf)[j])
    ensures LoadWord(View(image), env.segs[i].dataFileoff + (RelasOf(elf)[j].offset - LoadsOf(elf)[i].vaddr))
            == NewWord(ImageOp(env, RelasOf(elf)[j]), FileWord(elf, i, RelasOf(elf)[j].offset))
  {
    hide Loads, Relocations, Placed, FileEnd, Sane, Phase3.DataEnd, Phase3.Copied, ApplyAll, Disjoint, ImageOp,
      Locate, LoadWord, View, WordIn;
    var before := Phase3.Copied(elf.data, env.segs, Zeros(Phase3.DataEnd(env.segs)));
    var ps := ImagePatches(env, RelasOf(elf), |before|);
    i := LaidHome(elf, env, j);
    assert Resolves(env, RelasOf(elf)[j], |before|);
    PatchedWord(View(before), ps, j);
    SameWord(View(image), ApplyAll(View(before), ps), ps[j].addr);
    BeforeWord(elf, env, i, RelasOf(elf)[j].offset);
  }

  // ----- the two files -----

  /** Both translators accept the file, under the assumptions neither checks. */
  ghost predicate BothAccept(elf: Elf64, cfg: Config, opts: Phase3.Options, setup: Phase2.Setup, install: seq<byte>) {
    && Sane(elf)
    && Phase2.Translated(elf, setup, install, opts.minIos).Ok?
    && Phase3.Translated(elf, cfg, opts).Ok?
  }

  /** Above the header page, Phase 2's file is its image. */
  lemma {:induction false} Phase2FileByte(elf: Elf64, setup: Phase2.Setup, install: seq<byte>,
                                          minIos: (nat, nat, nat), x: nat)
    requires Phase2.Translated(elf, setup, install, minIos).Ok?
    ensures Phase2.Relocated(elf, setup.slide).Ok?
    ensures var image, file := Phase2.Relocated(elf, setup.slide).value.image,
        Phase2.Translated(elf, setup, install, minIos).value.file;
      PAGE <= x < |image| ==> View(file)(x) == View(image)(x)
  {
    hide Phase2.Relocated, Phase2.Mapped, Phase2.Commands, Loads;
    var segs, st := Phase2.Mapped(LoadsOf(elf), setup.slide), Phase2.Relocated(elf, setup.slide).value;
    if PAGE <= x < |st.image| {
      var header := HeaderBytes(Phase2.Commands(segs, setup, install, minIos), 0);
      HeaderOver(st.image, header, x);
      var file := SliceAssign(st.image, 0, |header|, header);
      assert file[x] == file[x..][0] == st.image[x..][0];
    }
  }

  lemma {:induction false} Phase3FileByte(elf: Elf64, cfg: Config, opts: Phase3.Options, x: nat)
    requires Phase3.Translated(elf, cfg, opts).Ok? && Accepted(LoadsOf(elf))
    requires Phase3.Relocated(elf, cfg, opts).Ok?
    requires |Phase3.Relocated(elf, cfg, opts).value.image| == Phase3.DataEnd(Segments(LoadsOf(elf), cfg))
    ensures var image, file := Phase3.Relocated(elf, cfg, opts).value.image,
        Phase3.Translated(elf, cfg, opts).value.dylib.file;
      cfg.headerReserve <= x < |image| ==> View(file)(x) == View(image)(x)
  {
    hide Phase3.Relocated, Phase3.Translated, Phase3.Assemble, Segments, Phase3.DataEnd, RebaseProgram, BindProgram;
    var segs, st := Segments(LoadsOf(elf), cfg), Phase3.Relocated(elf, cfg, opts).value;
    TranslationParts(elf, cfg, opts);
    SegmentAt(LoadsOf(elf), cfg, 0);
    DataEndCovers(segs, 0);
    FileEndCovers(segs[0]);
    DataEndAligned(segs);
    AssembledFile(segs, cfg, opts, st, RebaseProgram(Sorting.Sort(st.rebases, SELF)),
                  BindProgram(Sorting.Sort(st.bindings, BINDING_LOC), 1));
  }

  /** Where load i's bytes are in the two files. */
  function At2(elf: Elf64, setup: Phase2.Setup, i: nat, k: nat): nat
    requires i < |LoadsOf(elf)|
  {
    Phase2.Mapped(LoadsOf(elf), setup.slide)[i].dataFileoff + k
  }

  function At3(elf: Elf64, cfg: Config, i: nat, k: nat): nat
    requires i < |LoadsOf(elf)|
  {
    Segments(LoadsOf(elf), cfg)[i].dataFileoff + k
  }

  lemma {:induction false} AboveHeaderPage(elf: Elf64, slide: nat, i: nat)
    requires i < |LoadsOf(elf)|
    ensures PAGE <= Phase2.Mapped(LoadsOf(elf), slide)[i].dataFileoff
  {
    hide Phase2.Mapped, Loads;
    Phase2.MappedAt(LoadsOf(elf), slide, 0);
    Phase2.MappedAt(LoadsOf(elf), slide, i);
    if i > 0 {
      MappedOrdered(LoadsOf(elf), slide, 0, i);
      FileEndCovers(Phase2.Mapped(LoadsOf(elf), slide)[0]);
    }
  }

  /** What BothAccept gives: the two images. */
  lemma {:induction false} BothImages(elf: Elf64, cfg: Config, opts: Phase3.Options, setup: Phase2.Setup,
                                      install: seq<byte>)
    requires BothAccept(elf, cfg, opts, setup, install)
    ensures Accepted(LoadsOf(elf)) && Phase2.Relocated(elf, setup.slide).Ok? && Phase3.Relocated(elf, cfg, opts).Ok?
    ensures var env2, env3 := Phase2.EnvOf(elf, setup.slide), Phase3.EnvOf(elf, cfg, opts);
      && LaidOut(env2, LoadsOf(elf)) && LaidOut(env3, LoadsOf(elf))
      && Relocates(elf, env2, Phase2.Relocated(elf, setup.slide).value.image)
      && Relocates(elf, env3, Phase3.Relocated(elf, cfg, opts).value.image)
  {
    hide Phase2.Translated, Phase3.Translated, Phase2.Relocated, Phase3.Relocated, Phase3.Assemble, Relocates, Sane,
      LaidOut, Loads;
    TranslationParts(elf, cfg, opts);
    BothRelocate(elf, cfg, opts, setup.slide);
    Phase2LaidOut(elf, setup.slide);
    Phase3LaidOut(elf, cfg, opts);
  }

  /** Outside the relocated words the two files agree byte for byte, with each other and with the ELF file. */
  lemma {:induction false} FilesAgree(elf: Elf64, cfg: Config, opts: Phase3.Options, setup: Phase2.Setup,
                                      install: seq<byte>, i: nat, k: nat)
    requires BothAccept(elf, cfg, opts, setup, install)
    requires i < |LoadsOf(elf)| && k < LoadsOf(elf)[i].filesz && !InSomeWord(RelasOf(elf), LoadsOf(elf)[i].vaddr + k)
    ensures var file2, file3 := Phase2.Translated(elf, setup, install, opts.minIos).value.file,
        Phase3.Translated(elf, cfg, opts).value.dylib.file;
      View(file2)(At2(elf, setup, i, k)) == View(file3)(At3(elf, cfg, i, k))
          == View(elf.data)(LoadsOf(elf)[i].offset + k)
  {
    hide Phase2.Translated, Phase3.Translated, Phase2.Relocated, Phase3.Relocated, Relocations, Loads, Segments,
      Phase2.Mapped, Phase3.DataEnd, Phase3.Copied, WordsBacked, WordsApart, FilesApart, Symbols, InSomeWord,
      AllResolve, ApplyAll, Disjoint, Placed, FileEnd;
    BothImages(elf, cfg, opts, setup, install);
    var image2, image3 := Phase2.Relocated(elf, setup.slide).value.image, Phase3.Relocated(elf, cfg, opts).value.image;
    UnpatchedByte(elf, Phase2.EnvOf(elf, setup.slide), image2, i, k);
    UnpatchedByte(elf, Phase3.EnvOf(elf, cfg, opts), image3, i, k);
    AboveHeaderPage(elf, setup.slide, i);
    AboveHeader(LoadsOf(elf), cfg, i);
    Phase2FileByte(elf, setup, install, opts.minIos, At2(elf, setup, i, k));
    Phase3FileByte(elf, cfg, opts, At3(elf, cfg, i, k));
  }

  lemma {:induction false} FileWords(elf: Elf64, cfg: Config, opts: Phase3.Options, setup: Phase2.Setup,
                                     install: seq<byte>, i: nat, k: nat)
    requires BothAccept(elf, cfg, opts, setup, install)
    requires i < |LoadsOf(elf)| && k + 8 <= LoadsOf(elf)[i].filesz
    ensures Phase2.Relocated(elf, setup.slide).Ok? && Phase3.Relocated(elf, cfg, opts).Ok?
    ensures LoadWord(View(Phase2.Translated(elf, setup, install, opts.minIos).value.file), At2(elf, setup, i, k))
            == LoadWord(View(Phase2.Relocated(elf, setup.slide).value.image), At2(elf, setup, i, k))
    ensures LoadWord(View(Phase3.Translated(elf, cfg, opts).value.dylib.file), At3(elf, cfg, i, k))
            == LoadWord(View(Phase3.Relocated(elf, cfg, opts).value.image), At3(elf, cfg, i, k))
  {
    hide Phase2.Translated, Phase3.Translated, Phase2.Relocated, Phase3.Relocated, Relocations, Loads, Segments,
      Phase2.Mapped, Phase3.DataEnd, Phase3.Copied, WordsBacked, WordsApart, FilesApart, Symbols, AllResolve,
      ApplyAll, Disjoint, Placed, FileEnd, LoadWord, View;
    BothImages(elf, cfg, opts, setup, install);
    var env2, env3 := Phase2.EnvOf(elf, setup.slide), Phase3.EnvOf(elf, cfg, opts);
    var image2, image3 := Phase2.Relocated(elf, setup.slide).value.image, Phase3.Relocated(elf, cfg, opts).value.image;
    var file2, file3 := Phase2.Translated(elf, setup, install, opts.minIos).value.file,
      Phase3.Translated(elf, cfg, opts).value.dylib.file;
    var x, y := At2(elf, setup, i, k), At3(elf, cfg, i, k);
    AboveHeaderPage(elf, setup.slide, i);
    AboveHeader(LoadsOf(elf), cfg, i);
    BeforeByte(elf, env2, i, k + 7);
    BeforeByte(elf, env3, i, k + 7);
    forall b | x <= b < x + 8 ensures View(file2)(b) == View(image2)(b - x + x) {
      Phase2FileByte(elf, setup, install, opts.minIos, b);
    }
    forall b | y <= b < y + 8 ensures View(file3)(b) == View(image3)(b - y + y) {
      Phase3FileByte(elf, cfg, opts, b);
    }
    WordsAndBytes(View(file2), View(image2), x, x);
    WordsAndBytes(View(file3), View(image3), y, y);
  }

  lemma {:induction false} ShiftedWord(op2: Op, op3: Op, w: nat, shift: int)
    requires (op2.Set? && op3.Set?) || (op2.Add? && op3.Add?)
    requires op2.w == op3.w + shift
    ensures NewWord(op2, w) == (NewWord(op3, w) + shift) % TWO64
  {
  }

  lemma {:induction false} IdleWord(w: nat)
    requires w < TWO64
    ensures NewWord(Add(0), w) == w
  {
  }

  /**
   At each relocated word: settled inside the file, the two words differ by the difference of the slides; imported, both
   still hold the ELF file's word.
   */
  lemma {:induction false} WordsDifferBySlide(elf: Elf64, cfg: Config, opts: Phase3.Options, setup: Phase2.Setup,
                                              install: seq<byte>, j: nat)
    returns (i: nat)
    requires BothAccept(elf, cfg, opts, setup, install) && j < |RelasOf(elf)|
    ensures i < |LoadsOf(elf)| && WordIn(LoadsOf(elf)[i], RelasOf(elf)[j].offset)
    ensures Known(Symbols(elf), RelasOf(elf)[j])
    ensures var rel, k := RelasOf(elf)[j], RelasOf(elf)[j].offset - LoadsOf(elf)[i].vaddr;
      var w2 := LoadWord(View(Phase2.Translated(elf, setup, install, opts.minIos).value.file),
                         At2(elf, setup, i, k));
      var w3 := LoadWord(View(Phase3.Translated(elf, cfg, opts).value.dylib.file), At3(elf, cfg, i, k));
      if rel.rtype == R_RELATIVE || Symbols(elf)[rel.symbolIndex].shndx != SHN_UNDEF
      then w2 == (w3 + setup.slide - cfg.Slide()) % TWO64
      else w2 == w3 == FileWord(elf, i, rel.offset)
  {
    hide Phase2.Translated, Phase3.Translated, Phase2.Relocated, Phase3.Relocated, Relocations, Loads, Segments,
      Phase2.Mapped, Phase3.DataEnd, Phase3.Copied, WordsBacked, WordsApart, FilesApart, Symbols, AllResolve,
      ApplyAll, Disjoint, Placed, FileEnd, LoadWord, View, NewWord;
    BothImages(elf, cfg, opts, setup, install);
    var env2, env3, rel := Phase2.EnvOf(elf, setup.slide), Phase3.EnvOf(elf, cfg, opts), RelasOf(elf)[j];
    i := PatchedFileWord(elf, env2, Phase2.Relocated(elf, setup.slide).value.image, j);
    var i3 := PatchedFileWord(elf, env3, Phase3.Relocated(elf, cfg, opts).value.image, j);
    OnlyBacker(LoadsOf(elf), i, i3, rel.offset);
    FileWords(elf, cfg, opts, setup, install, i, rel.offset - LoadsOf(elf)[i].vaddr);
    var w := FileWord(elf, i, rel.offset);
    if Internal(env3, rel) {
      ShiftedWord(ImageOp(env2, rel), ImageOp(env3, rel), w, setup.slide - cfg.Slide());
    } else {
      IdleWord(w);
    }
  }

  /** The files' counters are equal, and Phase 2's unresolved imports are Phase 3's bindings, in the same order. */
  lemma {:induction false} BooksAgree(elf: Elf64, cfg: Config, opts: Phase3.Options, setup: Phase2.Setup,
                                      install: seq<byte>, minIos: (nat, nat, nat))
    requires Phase2.Translated(elf, setup, install, minIos).Ok? && Phase3.Translated(elf, cfg, opts).Ok?
    ensures var out2, out3 := Phase2.Translated(elf, setup, install, minIos).value,
        Phase3.Translated(elf, cfg, opts).value;
      out2.patched == out3.patched && UnresolvedImports(out2.unresolved) == BoundImports(out3.bindings)
  {
    hide Phase2.Relocated, Phase3.Relocated, Loads, Segments, Phase2.Mapped, RebaseProgram, BindProgram;
    TranslationParts(elf, cfg, opts);
    SameCountersAndImports(elf, cfg, opts, setup.slide);
  }

  /** The imports of a file as its own records have them, in record order. */
  function ImportsOf(symbols: seq<Symbol>, rels: seq<Rela>): seq<Phase2.Unresolved> {
    if |rels| == 0 then []
    else
      var rel := rels[|rels| - 1];
      ImportsOf(symbols, rels[..|rels| - 1])
      + if rel.rtype != 1027 && rel.symbolIndex < |symbols| && symbols[rel.symbolIndex].shndx == 0
        then [Phase2.Unresolved(rel.offset, rel.rtype, symbols[rel.symbolIndex].name, rel.addend)] else []
  }

  lemma {:induction false} StepUnresolved(env: Phase3.Env, st: Phase2.State, rel: Rela)
    requires env.Valid() && Phase2.Step(env, st, rel).Ok?
    ensures Phase2.Step(env, st, rel).value.unresolved == st.unresolved + ImportsOf(env.symbols, [rel])
  {
    hide Locate, PackInto, UnpackAt;
    assert [rel][..0] == [] && ImportsOf(env.symbols, []) == [];
  }

  lemma {:induction false} ImportsOfSnoc(symbols: seq<Symbol>, rels: seq<Rela>)
    requires |rels| > 0
    ensures ImportsOf(symbols, rels) == ImportsOf(symbols, rels[..|rels| - 1]) + ImportsOf(symbols, [rels[|rels| - 1]])
  {
    var last := [rels[|rels| - 1]];
    assert last[..0] == [] && ImportsOf(symbols, []) == [];
  }

  lemma {:induction false} RelocateUnresolved(env: Phase3.Env, st: Phase2.State, rels: seq<Rela>)
    requires env.Valid() && Phase2.Relocate(env, st, rels).Ok?
    ensures Phase2.Relocate(env, st, rels).value.unresolved == st.unresolved + ImportsOf(env.symbols, rels)
    decreases |rels|
  {
    hide Phase2.Step, ImportsOf;
    if |rels| > 0 {
      RelocateUnresolved(env, st, rels[..|rels| - 1]);
      StepUnresolved(env, Phase2.Relocate(env, st, rels[..|rels| - 1]).value, rels[|rels| - 1]);
      ImportsOfSnoc(env.symbols, rels);
    } else {
      NoImports(env.symbols, rels);
    }
  }

  lemma {:induction false} NoImports(symbols: seq<Symbol>, rels: seq<Rela>)
    requires |rels| == 0
    ensures ImportsOf(symbols, rels) == []
  {
  }

  /** What Phase 2 leaves unresolved is every import, with its record's own addend, and nothing else. */
  lemma {:induction false} UnresolvedAre(elf: Elf64, setup: Phase2.Setup, install: seq<byte>, minIos: (nat, nat, nat))
    requires Phase2.Translated(elf, setup, install, minIos).Ok?
    ensures Phase2.Translated(elf, setup, install, minIos).value.unresolved == ImportsOf(Symbols(elf), RelasOf(elf))
  {
    hide Phase2.Relocate, Phase2.ImageBefore, Symbols, Relocations, Loads, Phase2.Mapped, ImportsOf, Phase2.Commands;
    RelocateUnresolved(Phase2.EnvOf(elf, setup.slide),
                       Phase2.State(Phase2.ImageBefore(elf, setup.slide), Phase3.NoCounts(), []), RelasOf(elf));
  }

  // ----- when Phase 2 succeeds too -----

  /** A file ready for Phase 3's theorems meets what the comparison needs. */
  lemma {:induction false} ReadyIsSane(elf: Elf64, cfg: Config, opts: Phase3.Options)
    requires Ready(elf, cfg, opts)
    ensures Sane(elf)
  {
    hide Loads, Relocations, WordsBacked, WordsApart, FilesSeparated;
    var loads := LoadsOf(elf);
    forall i, j | 0 <= i < j < |loads| ensures FilesApart(loads[i], loads[j]) {
      LaterAbove(loads, cfg.Slide(), i, j);
    }
  }

  /** The bytes of Phase 2's header for n loads. */
  function HeaderBytes2(n: nat, install: seq<byte>): nat {
    32 + 72 * (n + 1) + Align8(25 + |install|) + 24
  }

  function HeaderSegment(setup: Phase2.Setup): SegmentCommand
    requires setup.headerVm <= setup.slide
  {
    SegmentCommand(setup.headerVm, setup.slide - setup.headerVm, 0, PAGE, 1)
  }

  lemma {:induction false} CommandsSize(segs: seq<ImageSegment>, setup: Phase2.Setup, install: seq<byte>,
                                        minIos: (nat, nat, nat))
    requires setup.headerVm <= setup.slide
    ensures HeaderSize(Phase2.Commands(segs, setup, install, minIos)) == HeaderBytes2(|segs|, install)
  {
    hide CommandBytes, Align8;
    var first := Segment(Padded("__HEADER"), HeaderSegment(setup), []);
    var cs := [first] + Phase2.SegmentCommands(segs);
    var own := LoadCommand.Dylib(install, true);
    SegmentBytes(cs, 0);
    CommandBytesSnoc(cs, own);
    CommandBytesSnoc(cs + [own], BuildVersion(Version(minIos)));
    assert Phase2.Commands(segs, setup, install, minIos) == cs + [own] + [BuildVersion(Version(minIos))];
  }

  /** Every load's addresses and sizes fit 64 bits. */
  predicate PlacesFit(segs: seq<ImageSegment>) {
    forall i :: 0 <= i < |segs| ==> SegmentFits(CommandOf(segs[i]))
  }

  /** Commands that fit one page fit their fields exactly when the segments' and the version's fit. */
  lemma {:induction false} CommandsFitIff(segs: seq<ImageSegment>, setup: Phase2.Setup, install: seq<byte>,
                                          minIos: (nat, nat, nat))
    requires setup.headerVm <= setup.slide && HeaderBytes2(|segs|, install) <= PAGE
    ensures AllFit(Phase2.Commands(segs, setup, install, minIos))
       <==> SegmentFits(HeaderSegment(setup)) && Version(minIos) < TWO32
            && PlacesFit(segs)
  {
    hide CommandBytes, SegmentFits, Padded, Version;
    CommandsSize(segs, setup, install, minIos);
    var cs := Phase2.Commands(segs, setup, install, minIos);
    assert cs[0] == Segment(Padded("__HEADER"), HeaderSegment(setup), []);
    assert cs[|segs| + 1] == LoadCommand.Dylib(install, true) && cs[|segs| + 2] == BuildVersion(Version(minIos));
    forall i | 0 <= i < |segs| ensures cs[i + 1] == Segment(Phase2.SegmentName(i, segs[i]), CommandOf(segs[i]), []) {
    }
  }

  lemma {:induction false} AssemblesIff2(segs: seq<ImageSegment>, setup: Phase2.Setup, install: seq<byte>,
                                         minIos: (nat, nat, nat), st: Phase2.State)
    requires Version(minIos) < TWO32
    ensures Phase2.Assemble(segs, setup, install, minIos, st).Ok?
        <==> setup.headerVm <= setup.slide && HeaderBytes2(|segs|, install) <= PAGE
             && SegmentFits(HeaderSegment(setup)) && PlacesFit(segs)
  {
    hide Phase2.Commands, HeaderSize, HeaderBytes2, SliceAssign, SegmentFits, AllFit, Version, HeaderBytes, PlacesFit,
      HeaderSegment;
    if setup.headerVm <= setup.slide {
      CommandsSize(segs, setup, install, minIos);
      if HeaderBytes2(|segs|, install) <= PAGE {
        CommandsFitIff(segs, setup, install, minIos);
      }
    }
  }

  /**
   Where Phase 3 succeeds, Phase 2 does exactly when the slide is not below the header, the commands fit one page, and
   every address and size fits 64 bits.
   */
  lemma {:induction false} Phase2SucceedsIff(elf: Elf64, cfg: Config, opts: Phase3.Options, setup: Phase2.Setup,
                                             install: seq<byte>)
    requires Sane(elf) && Phase3.Translated(elf, cfg, opts).Ok?
    ensures Phase2.Translated(elf, setup, install, opts.minIos).Ok?
        <==> setup.headerVm <= setup.slide && HeaderBytes2(|LoadsOf(elf)|, install) <= PAGE
             && SegmentFits(HeaderSegment(setup)) && PlacesFit(Phase2.Mapped(LoadsOf(elf), setup.slide))
  {
    hide PlacesFit, Sane, Loads, Phase2.Relocated, Phase3.Relocated, Phase2.Mapped, Phase3.Assemble, Phase2.Assemble,
      HeaderBytes2, Relocates, SegmentFits, Version;
    TranslationParts(elf, cfg, opts);
    BothRelocate(elf, cfg, opts, setup.slide);
    VersionFits(elf, cfg, opts);
    AcceptedHere(elf, cfg, opts);
    var segs, st := Phase2.Mapped(LoadsOf(elf), setup.slide), Phase2.Relocated(elf, setup.slide).value;
    assert Phase2.Translated(elf, setup, install, opts.minIos)
        == Phase2.Assemble(segs, setup, install, opts.minIos, st);
    AssemblesIff2(segs, setup, install, opts.minIos, st);
  }

  lemma {:induction false} AcceptedHere(elf: Elf64, cfg: Config, opts: Phase3.Options)
    requires Phase3.Translated(elf, cfg, opts).Ok?
    ensures elf.machine == EM_AARCH64 && elf.etype == ET_DYN && LoadsOf(elf) != []
  {
    hide Loads, Phase3.Relocated, Phase3.Assemble;
  }

  lemma {:induction false} VersionFits(elf: Elf64, cfg: Config, opts: Phase3.Options)
    requires Phase3.Translated(elf, cfg, opts).Ok?
    ensures Version(opts.minIos) < TWO32
  {
    hide Phase3.Relocated, Segments, Version, CommandBytes, Padded;
    TranslationParts(elf, cfg, opts);
    var st := Phase3.Relocated(elf, cfg, opts).value;
    var segs := Segments(LoadsOf(elf), cfg);
    var out := Phase3.Translated(elf, cfg, opts).value;
    var front := Phase3.SegmentCommands(segs, CommandsOf(segs), cfg.Slide());
    var cmds := Phase3.Commands(front, out.dylib.segments[|segs|], opts, [out.dylib.info]);
    assert cmds[|front| + 3] == BuildVersion(Version(opts.minIos));
  }

  // ----- Phase 2's header -----

  lemma {:induction false} EndsSay(setup: Phase2.Setup, install: seq<byte>, minIos: (nat, nat, nat))
    requires setup.headerVm <= setup.slide
    ensures Dyld.SegmentsIn(MachReader.SeenAll([Segment(Padded("__HEADER"), HeaderSegment(setup), [])]))
         == [HeaderSegment(setup)]
    ensures Dyld.SegmentsIn(MachReader.SeenAll([LoadCommand.Dylib(install, true)] + [BuildVersion(Version(minIos))]))
         == []
  {
    hide Padded, Version, Dyld.SegmentsIn, HeaderSegment;
    var first, own := Segment(Padded("__HEADER"), HeaderSegment(setup), []), LoadCommand.Dylib(install, true);
    var version := BuildVersion(Version(minIos));
    SeenOne(first);
    SeenOne(own);
    SeenOne(version);
    SeenConcat([own], [version]);
    InConcat(MachReader.SeenAll([own]), MachReader.SeenAll([version]));
    OneIn(first);
    OneIn(MachReader.Seen(own));
    OneIn(version);
  }

  lemma {:induction false} Phase2Says(segs: seq<ImageSegment>, setup: Phase2.Setup, install: seq<byte>,
                                      minIos: (nat, nat, nat))
    requires setup.headerVm <= setup.slide
    ensures Dyld.SegmentsIn(MachReader.SeenAll(Phase2.Commands(segs, setup, install, minIos)))
         == [HeaderSegment(setup)] + CommandsOf(segs)
  {
    hide Padded, Version, Dyld.SegmentsIn, Phase2.SegmentName, HeaderSegment, MachReader.Seen;
    var first, middle := [Segment(Padded("__HEADER"), HeaderSegment(setup), [])], Phase2.SegmentCommands(segs);
    var last := [LoadCommand.Dylib(install, true)] + [BuildVersion(Version(minIos))];
    CommandsInThree(segs, setup, install, minIos);
    SeenConcat(first + middle, last);
    SeenConcat(first, middle);
    InConcat(MachReader.SeenAll(first) + MachReader.SeenAll(middle), MachReader.SeenAll(last));
    InConcat(MachReader.SeenAll(first), MachReader.SeenAll(middle));
    EndsSay(setup, install, minIos);
    SeenSegments(segs);
    FrontIn(MachReader.SeenAll(middle), CommandsOf(segs));
    assert [HeaderSegment(setup)] + CommandsOf(segs) + [] == [HeaderSegment(setup)] + CommandsOf(segs);
  }

  lemma {:induction false} CommandsInThree(segs: seq<ImageSegment>, setup: Phase2.Setup, install: seq<byte>,
                                           minIos: (nat, nat, nat))
    requires setup.headerVm <= setup.slide
    ensures Phase2.Commands(segs, setup, install, minIos)
         == [Segment(Padded("__HEADER"), HeaderSegment(setup), [])] + Phase2.SegmentCommands(segs)
            + ([LoadCommand.Dylib(install, true)] + [BuildVersion(Version(minIos))])
  {
    hide Padded, Version, Phase2.SegmentCommands;
  }

  lemma {:induction false} SeenSegments(segs: seq<ImageSegment>)
    ensures var seen := MachReader.SeenAll(Phase2.SegmentCommands(segs));
      |seen| == |segs| && forall i :: 0 <= i < |segs| ==> seen[i].Segment? && seen[i].seg == CommandOf(segs[i])
  {
    hide Phase2.SegmentName;
  }

  /** Read from its bytes, Phase 2's file has a header segment and then one for each load, with the load's rights. */
  lemma {:induction false} Phase2Read(elf: Elf64, setup: Phase2.Setup, install: seq<byte>, minIos: (nat, nat, nat))
    requires Phase2.Translated(elf, setup, install, minIos).Ok?
    ensures var read := MachReader.ReadFile(Phase2.Translated(elf, setup, install, minIos).value.file);
      && setup.headerVm <= setup.slide && read.Some?
      && Dyld.SegmentsIn(read.value.commands)
         == [HeaderSegment(setup)] + CommandsOf(Phase2.Mapped(LoadsOf(elf), setup.slide))
    ensures forall i :: 0 <= i < |LoadsOf(elf)| ==>
      SameRights(Phase2.Mapped(LoadsOf(elf), setup.slide)[i].protection, LoadsOf(elf)[i].flags)
  {
    hide Phase2.Relocated, Phase2.Mapped, Phase2.Commands, Loads, AllFit, HeaderBytes, HeaderSize, SliceAssign,
      SameRights, MachReader.ReadFile, MachReader.SeenAll, Dyld.SegmentsIn;
    var segs, st := Phase2.Mapped(LoadsOf(elf), setup.slide), Phase2.Relocated(elf, setup.slide).value;
    var cs := Phase2.Commands(segs, setup, install, minIos);
    HeaderFirst(st.image, HeaderBytes(cs, 0));
    MachReader.HeaderRead(Phase2.Translated(elf, setup, install, minIos).value.file, cs, 0);
    Phase2Says(segs, setup, install, minIos);
    forall i | 0 <= i < |LoadsOf(elf)|
      ensures SameRights(Phase2.Mapped(LoadsOf(elf), setup.slide)[i].protection, LoadsOf(elf)[i].flags)
    {
      Phase2.MappedRights(LoadsOf(elf), setup.slide, i);
    }
  }

  lemma {:induction false} Phase2NamedByFlags(loads: seq<ProgramHeader>, slide: nat, i: nat)
    requires i < |loads|
    ensures Phase2.SegmentName(i, Phase2.Mapped(loads, slide)[i])
         == Padded(if loads[i].flags % 2 == 1 then "__ELF_TEXT"
                   else if loads[i].flags / 2 % 2 == 1 then "__ELF_DATA" else "__ELF_" + Decimal(i))
  {
    hide Phase2.Mapped, Padded, Decimal;
    Phase2.MappedRights(loads, slide, i);
  }
}
