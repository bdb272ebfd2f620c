/**
 The translator as a compiler of loader work: dyld, given the emitted dylib, builds the memory that an Android loader
 builds from the ELF file, at every slide and for every symbol resolver.
 */
module LoaderEquivalence {
  import opened Bytes
  import opened Wrappers
  import opened Patches
  import opened ElfReader
  import opened Layout
  import opened Sorting
  import opened Fixups
  import opened DyldMachines
  import opened MachO
  import opened Phase3
  import opened Images
  import opened RelocationMeaning
  import opened RelocatedImage
  import Bionic
  import Dyld

  // ----- which record a fixup comes from -----

  lemma {:induction false} RebaseOrigin(env: Env, rels: seq<Rela>, n: nat, l: Loc) returns (j: nat)
    requires env.Valid() && AllResolve(env, rels, n) && l in Rebases(env, rels, n)
    ensures j < |rels| && Resolves(env, rels[j], n) && Internal(env, rels[j]) && Target(env, rels[j]).loc == l
  {
    hide Resolves, Internal, Target;
    var k := |rels| - 1;
    if l in Rebases(env, rels[..k], n) {
      j := RebaseOrigin(env, rels[..k], n, l);
    } else {
      j := k;
      assert Resolves(env, rels[k], n);
    }
  }

  lemma {:induction false} RebaseMember(env: Env, rels: seq<Rela>, n: nat, j: nat)
    requires env.Valid() && AllResolve(env, rels, n) && j < |rels| && Internal(env, rels[j])
    ensures Target(env, rels[j]).loc in Rebases(env, rels, n)
  {
    if j < |rels| - 1 {
      RebaseMember(env, rels[..|rels| - 1], n, j);
    }
  }

  lemma {:induction false} BindOrigin(env: Env, rels: seq<Rela>, n: nat, m: Memory, b: Binding) returns (j: nat)
    requires env.Valid() && AllResolve(env, rels, n) && b in Bindings(env, rels, n, m)
    ensures j < |rels| && Resolves(env, rels[j], n) && !Internal(env, rels[j]) && BindingOf(env, rels[j], m) == b
  {
    hide Resolves, Internal, BindingOf;
    var k := |rels| - 1;
    if b in Bindings(env, rels[..k], n, m) {
      j := BindOrigin(env, rels[..k], n, m, b);
    } else {
      j := k;
      assert Resolves(env, rels[k], n);
    }
  }

  lemma {:induction false} BindMember(env: Env, rels: seq<Rela>, n: nat, m: Memory, j: nat)
    requires env.Valid() && AllResolve(env, rels, n) && j < |rels| && !Internal(env, rels[j])
    ensures BindingOf(env, rels[j], m) in Bindings(env, rels, n, m)
  {
    if j < |rels| - 1 {
      BindMember(env, rels[..|rels| - 1], n, m, j);
    }
  }

  predicate LocsDistinct(env: Env, rels: seq<Rela>, n: nat)
    requires env.Valid() && AllResolve(env, rels, n)
  {
    forall j, k :: 0 <= j < k < |rels| ==> Target(env, rels[j]).loc != Target(env, rels[k]).loc
  }

  lemma {:induction false} RebasesDistinct(env: Env, rels: seq<Rela>, n: nat)
    requires env.Valid() && AllResolve(env, rels, n) && LocsDistinct(env, rels, n)
    ensures NoRepeats(Rebases(env, rels, n))
  {
    hide Internal, Target, Locate;
    if |rels| > 0 {
      var k := |rels| - 1;
      RebasesDistinct(env, rels[..k], n);
      var front := Rebases(env, rels[..k], n);
      assert Resolves(env, rels[k], n);
      if Internal(env, rels[k]) {
        forall i | 0 <= i < |front| ensures front[i] != Target(env, rels[k]).loc {
          var j := RebaseOrigin(env, rels[..k], n, front[i]);
        }
      }
    }
  }

  lemma {:induction false} BindsDistinct(env: Env, rels: seq<Rela>, n: nat, m: Memory)
    requires env.Valid() && AllResolve(env, rels, n) && LocsDistinct(env, rels, n)
    ensures NoRepeats(Bindings(env, rels, n, m))
  {
    hide Target, Locate;
    if |rels| > 0 {
      var k := |rels| - 1;
      BindsDistinct(env, rels[..k], n, m);
      var front := Bindings(env, rels[..k], n, m);
      assert Resolves(env, rels[k], n);
      if !Internal(env, rels[k]) {
        forall i | 0 <= i < |front| ensures front[i] != BindingOf(env, rels[k], m) {
          var j := BindOrigin(env, rels[..k], n, m, front[i]);
          assert BindingOf(env, rels[j], m).loc == Target(env, rels[j]).loc;
        }
      }
    }
  }

  // ----- the emitted dylib, loaded -----

  /** A dylib that carries the relocated image and the two programs for it. */
  ghost predicate Emitted(elf: Elf64, cfg: Config, opts: Options, st: State, d: Dylib) {
    && Ready(elf, cfg, opts)
    && ImageAfter(elf, cfg, opts, st)
    && AllEncodable(Sort(st.rebases, SELF)) && BindingsEncodable(Sort(st.bindings, BINDING_LOC))
    && d.libraries == [ShimName(opts)]
    && Delivers(d, Segments(LoadsOf(elf), cfg), st.image, cfg.headerReserve,
                RebaseProgram(Sort(st.rebases, SELF)), BindProgram(Sort(st.bindings, BINDING_LOC), 1))
  }

  predicate NamesWord(elf: Elf64, cfg: Config, opts: Options, d: Dylib, j: nat, slide: int)
    requires Accepted(LoadsOf(elf)) && j < |RelasOf(elf)|
  {
    var env, rel := EnvOf(elf, cfg, opts), RelasOf(elf)[j];
    && Locate(env.segs, env.slide, rel.offset).Some?
    && Dyld.Addressable(d.segments, Target(env, rel).loc)
    && Dyld.Address(d.segments, slide, Target(env, rel).loc) == slide + cfg.Slide() + rel.offset
  }

  /** A record's location names its word in memory. */
  lemma {:induction false} LocAddress(elf: Elf64, cfg: Config, opts: Options, st: State, d: Dylib, j: nat, slide: int)
    requires Emitted(elf, cfg, opts, st, d) && j < |RelasOf(elf)|
    ensures NamesWord(elf, cfg, opts, d, j, slide)
  {
    hide Segments, ImageAfter, Sort, RebaseProgram, BindProgram, Locate;
    var i := WordHome(elf, cfg, opts, j);
    SegmentAt(LoadsOf(elf), cfg, i);
    assert Widens(d.segments[i], Segments(LoadsOf(elf), cfg)[i]);
    FitsMemory(d.file, d.segments, i);
  }

  lemma {:induction false} DistinctLocs(elf: Elf64, cfg: Config, opts: Options, n: nat)
    requires Ready(elf, cfg, opts) && AllResolve(EnvOf(elf, cfg, opts), RelasOf(elf), n)
    ensures LocsDistinct(EnvOf(elf, cfg, opts), RelasOf(elf), n)
  {
    hide WordsBacked, WordsApart, FilesSeparated, EnvOf, Target;
    var env, rels := EnvOf(elf, cfg, opts), RelasOf(elf);
    forall j, k | 0 <= j < k < |rels| ensures Target(env, rels[j]).loc != Target(env, rels[k]).loc {
      TargetsApart(elf, cfg, opts, j, k);
    }
  }

  /** The sorted rebase entry i comes from the internal record j. */
  lemma {:induction false} RebaseEntry(elf: Elf64, cfg: Config, opts: Options, st: State, d: Dylib, i: nat, slide: int)
    returns (j: nat)
    requires Emitted(elf, cfg, opts, st, d) && i < |Sort(st.rebases, SELF)|
    ensures var env, l := EnvOf(elf, cfg, opts), Sort(st.rebases, SELF)[i];
      && j < |RelasOf(elf)|
      && Resolves(env, RelasOf(elf)[j], |st.image|) && Internal(env, RelasOf(elf)[j])
      && Target(env, RelasOf(elf)[j]).loc == l
      && Dyld.Addressable(d.segments, l)
      && Dyld.Address(d.segments, slide, l) == slide + cfg.Slide() + RelasOf(elf)[j].offset
  {
    hide WordsBacked, WordsApart, FilesSeparated, EnvOf, Resolves, Internal, Target, Sort, Delivers, Disjoint,
      SameMemory, ApplyAll;
    var env, rels := EnvOf(elf, cfg, opts), RelasOf(elf);
    SortContents(st.rebases, SELF);
    var l := Sort(st.rebases, SELF)[i];
    assert l in multiset(Sort(st.rebases, SELF));
    assert l in st.rebases;
    j := RebaseOrigin(env, rels, |st.image|, l);
    LocAddress(elf, cfg, opts, st, d, j, slide);
  }

  lemma {:induction false} BindEntry(elf: Elf64, cfg: Config, opts: Options, st: State, d: Dylib, i: nat, slide: int)
    returns (j: nat)
    requires Emitted(elf, cfg, opts, st, d) && i < |Sort(st.bindings, BINDING_LOC)|
    ensures var env, b := EnvOf(elf, cfg, opts), Sort(st.bindings, BINDING_LOC)[i];
      && j < |RelasOf(elf)|
      && Resolves(env, RelasOf(elf)[j], |st.image|) && !Internal(env, RelasOf(elf)[j])
      && BindingOf(env, RelasOf(elf)[j], View(ImageBefore(elf, cfg))) == b
      && Dyld.Addressable(d.segments, b.loc)
      && Dyld.Address(d.segments, slide, b.loc) == slide + cfg.Slide() + RelasOf(elf)[j].offset
  {
    hide WordsBacked, WordsApart, FilesSeparated, EnvOf, Resolves, Internal, Target, Sort, Delivers, Disjoint,
      SameMemory, ApplyAll, ImageBefore;
    var env, rels := EnvOf(elf, cfg, opts), RelasOf(elf);
    SortContents(st.bindings, BINDING_LOC);
    var b := Sort(st.bindings, BINDING_LOC)[i];
    assert b in multiset(Sort(st.bindings, BINDING_LOC));
    assert b in st.bindings;
    j := BindOrigin(env, rels, |st.image|, View(ImageBefore(elf, cfg)), b);
    LocAddress(elf, cfg, opts, st, d, j, slide);
  }

  // ----- running the two programs -----

  function SortedRebases(st: State): seq<Loc> { Sort(st.rebases, SELF) }

  function SortedBindings(st: State): seq<Binding> { Sort(st.bindings, BINDING_LOC) }

  ghost predicate FixupsAddressable(st: State, d: Dylib) {
    && (forall i :: 0 <= i < |SortedRebases(st)| ==> Dyld.Addressable(d.segments, SortedRebases(st)[i]))
    && (forall i :: 0 <= i < |SortedBindings(st)| ==> Dyld.Addressable(d.segments, SortedBindings(st)[i].loc))
  }

  lemma {:induction false} AllAddressable(elf: Elf64, cfg: Config, opts: Options, st: State, d: Dylib)
    requires Emitted(elf, cfg, opts, st, d)
    ensures FixupsAddressable(st, d)
  {
    hide Emitted, Dyld.Addressable;
    forall i | 0 <= i < |SortedRebases(st)| ensures Dyld.Addressable(d.segments, SortedRebases(st)[i]) {
      var j := RebaseEntry(elf, cfg, opts, st, d, i, 0);
    }
    forall i | 0 <= i < |SortedBindings(st)| ensures Dyld.Addressable(d.segments, SortedBindings(st)[i].loc) {
      var j := BindEntry(elf, cfg, opts, st, d, i, 0);
    }
  }

  function SlidePatches(st: State, d: Dylib, slide: int): seq<Patch>
    requires FixupsAddressable(st, d)
  {
    Dyld.RebasePatches(d.segments, slide, SortedRebases(st))
  }

  function PerformedBinds(st: State): seq<BindAction> { Actions(SortedBindings(st), 1, 0) }

  lemma {:induction false} PerformedAt(st: State, i: nat)
    requires i < |SortedBindings(st)|
    ensures var b := SortedBindings(st)[i];
      PerformedBinds(st)[i] == BindAction(1, b.shimSymbol, Carried(SortedBindings(st)[..i + 1]), b.loc)
  {
    ActionAt(SortedBindings(st), 1, 0, i);
  }

  function SymbolPatches(st: State, d: Dylib, slide: int, resolve: Dyld.Resolver): seq<Patch>
    requires FixupsAddressable(st, d)
  {
    assert forall i :: 0 <= i < |PerformedBinds(st)| ==> Dyld.Addressable(d.segments, PerformedBinds(st)[i].loc) by {
      forall i | 0 <= i < |PerformedBinds(st)| ensures Dyld.Addressable(d.segments, PerformedBinds(st)[i].loc) {
        PerformedAt(st, i);
      }
    }
    Dyld.BindPatches(d.segments, slide, PerformedBinds(st), resolve)
  }

  /** The memory dyld ends with. */
  function LoadedMemory(st: State, d: Dylib, slide: int, resolve: Dyld.Resolver): Memory
    requires FixupsAddressable(st, d)
  {
    ApplyAll(ApplyAll(Dyld.Mapped(d.file, d.segments, slide), SlidePatches(st, d, slide)),
             SymbolPatches(st, d, slide, resolve))
  }

  lemma {:induction false} SymbolNames(elf: Elf64, i: nat)
    requires i < |Symbols(elf)|
    ensures NulFree(Symbols(elf)[i].name)
  {
    hide SymbolAt, SymbolsFrom, Slice;
    var k := FirstDynsym(elf.sections, 0);
    var sec, str := elf.sections[k], elf.sections[elf.sections[k].link];
    SymbolNamesFrom(elf.data, Slice(elf.data, str.offset, str.offset + str.size), sec.offset, sec.offset + sec.size,
                    RecordSize(sec), i);
  }

  lemma {:induction false} SymbolNamesFrom(data: seq<byte>, strtab: seq<byte>, off: nat, end: nat, step: nat, i: nat)
    requires step > 0 && i < |SymbolsFrom(data, strtab, off, end, step)|
    ensures NulFree(SymbolsFrom(data, strtab, off, end, step)[i].name)
    decreases i
  {
    hide UnpackAt, UnpackLE;
    if i > 0 {
      SymbolNamesFrom(data, strtab, off + step, end, step, i - 1);
    }
  }

  lemma {:induction false} BindingsRunnable(elf: Elf64, cfg: Config, opts: Options, st: State, d: Dylib)
    requires Emitted(elf, cfg, opts, st, d)
    ensures Runnable(SortedBindings(st))
  {
    hide ImageAfter, Delivers, Sort, Symbols, WordsBacked, WordsApart, FilesSeparated, RebaseProgram, BindProgram,
      Locate;
    forall i | 0 <= i < |SortedBindings(st)| ensures NulFree(SortedBindings(st)[i].shimSymbol) {
      var j := BindEntry(elf, cfg, opts, st, d, i, 0);
      SymbolNames(elf, RelasOf(elf)[j].symbolIndex);
    }
  }

  /** dyld accepts the dylib, and its two programs do exactly these patches. */
  lemma {:induction false} DyldLoads(elf: Elf64, cfg: Config, opts: Options, st: State, d: Dylib, slide: int,
                                     resolve: Dyld.Resolver)
    requires Emitted(elf, cfg, opts, st, d)
    ensures FixupsAddressable(st, d)
    ensures Dyld.Load(d, slide, resolve) == Some(LoadedMemory(st, d, slide, resolve))
  {
    hide Ready, ImageAfter, Sort, RunRebase, RunBind, ApplyAll, Dyld.Mappable, Dyld.Addressable;
    AllAddressable(elf, cfg, opts, st, d);
    BindingsRunnable(elf, cfg, opts, st, d);
    RebaseProgramMeaning(SortedRebases(st));
    BindProgramMeaning(SortedBindings(st), 1);
    forall i | 0 <= i < |PerformedBinds(st)| ensures Dyld.Addressable(d.segments, PerformedBinds(st)[i].loc) {
      PerformedAt(st, i);
    }
  }

  // ----- each program patches disjoint words -----

  lemma {:induction false} RecordsApart(elf: Elf64, j: nat, k: nat)
    requires WordsApart(RelasOf(elf)) && j < |RelasOf(elf)| && k < |RelasOf(elf)| && j != k
    ensures Apart(RelasOf(elf)[j].offset, RelasOf(elf)[k].offset)
  {
    if j < k {
      assert Apart(RelasOf(elf)[j].offset, RelasOf(elf)[k].offset);
    } else {
      assert Apart(RelasOf(elf)[k].offset, RelasOf(elf)[j].offset);
    }
  }

  lemma {:induction false} SortedDistinct(elf: Elf64, cfg: Config, opts: Options, st: State, d: Dylib)
    requires Emitted(elf, cfg, opts, st, d)
    ensures NoRepeats(SortedRebases(st)) && NoRepeats(SortedBindings(st))
  {
    hide WordsBacked, WordsApart, FilesSeparated, EnvOf, Sort, Delivers, Resolves, Target, ApplyAll;
    var env, rels := EnvOf(elf, cfg, opts), RelasOf(elf);
    DistinctLocs(elf, cfg, opts, |st.image|);
    RebasesDistinct(env, rels, |st.image|);
    BindsDistinct(env, rels, |st.image|, View(ImageBefore(elf, cfg)));
    SortNoRepeats(st.rebases, SELF);
    SortNoRepeats(st.bindings, BINDING_LOC);
  }

  lemma {:induction false} SlidesDisjoint(elf: Elf64, cfg: Config, opts: Options, st: State, d: Dylib, slide: int)
    requires Emitted(elf, cfg, opts, st, d) && FixupsAddressable(st, d)
    ensures Disjoint(SlidePatches(st, d, slide))
  {
    hide ImageAfter, Delivers, EnvOf, Sort, Resolves, Internal, Target, Dyld.Addressable, Dyld.Address;
    SortedDistinct(elf, cfg, opts, st, d);
    var ps := SlidePatches(st, d, slide);
    forall i, k | 0 <= i < k < |ps| ensures Apart(ps[i].addr, ps[k].addr) {
      var p := RebaseEntry(elf, cfg, opts, st, d, i, slide);
      var q := RebaseEntry(elf, cfg, opts, st, d, k, slide);
      RecordsApart(elf, p, q);
    }
  }

  lemma {:induction false} SlidePatchAt(st: State, d: Dylib, slide: int, i: nat)
    requires FixupsAddressable(st, d) && i < |SortedRebases(st)|
    ensures |SlidePatches(st, d, slide)| == |SortedRebases(st)|
    ensures SlidePatches(st, d, slide)[i] == Patch(Dyld.Address(d.segments, slide, SortedRebases(st)[i]), Add(slide))
  {
    hide Sort, Dyld.Addressable, Dyld.Address;
  }

  lemma {:induction false} SymbolPatchAt(st: State, d: Dylib, slide: int, resolve: Dyld.Resolver, i: nat)
    requires FixupsAddressable(st, d) && i < |SortedBindings(st)|
    ensures |SymbolPatches(st, d, slide, resolve)| == |SortedBindings(st)|
    ensures var b := SortedBindings(st)[i];
      SymbolPatches(st, d, slide, resolve)[i]
      == Patch(Dyld.Address(d.segments, slide, b.loc),
               Set(resolve(1, b.shimSymbol) + Carried(SortedBindings(st)[..i + 1])))
  {
    hide Sort, Actions, Carried, Dyld.Addressable, Dyld.Address;
    PerformedAt(st, i);
  }

  lemma {:induction false} SymbolsDisjoint(elf: Elf64, cfg: Config, opts: Options, st: State, d: Dylib, slide: int,
                                           resolve: Dyld.Resolver)
    requires Emitted(elf, cfg, opts, st, d) && FixupsAddressable(st, d)
    ensures Disjoint(SymbolPatches(st, d, slide, resolve))
    ensures |SymbolPatches(st, d, slide, resolve)| == |SortedBindings(st)|
  {
    hide ImageAfter, Delivers, EnvOf, Sort, Resolves, Internal, Target, Dyld.Addressable, Dyld.Address, SymbolPatches;
    SortedDistinct(elf, cfg, opts, st, d);
    var ps := SymbolPatches(st, d, slide, resolve);
    assert |ps| == |SortedBindings(st)| by {
      SymbolCount(st, d, slide, resolve);
    }
    forall i, k | 0 <= i < k < |ps| ensures Apart(ps[i].addr, ps[k].addr) {
      var p := BindEntry(elf, cfg, opts, st, d, i, slide);
      var q := BindEntry(elf, cfg, opts, st, d, k, slide);
      SymbolPatchAt(st, d, slide, resolve, i);
      SymbolPatchAt(st, d, slide, resolve, k);
      RecordsApart(elf, p, q);
    }
  }

  lemma {:induction false} SymbolCount(st: State, d: Dylib, slide: int, resolve: Dyld.Resolver)
    requires FixupsAddressable(st, d)
    ensures |SymbolPatches(st, d, slide, resolve)| == |SortedBindings(st)|
  {
  }

  // ----- the loaded words -----

  lemma {:induction false} MappedLoadByte(elf: Elf64, cfg: Config, opts: Options, st: State, d: Dylib, slide: int,
                                          i: nat, v: int)
    requires Emitted(elf, cfg, opts, st, d) && i < |LoadsOf(elf)|
    requires LoadsOf(elf)[i].vaddr <= v < LoadsOf(elf)[i].vaddr + LoadsOf(elf)[i].filesz
    ensures Dyld.Mapped(d.file, d.segments, slide)(slide + cfg.Slide() + v)
         == View(st.image)(Segments(LoadsOf(elf), cfg)[i].dataFileoff + (v - LoadsOf(elf)[i].vaddr))
  {
    hide Segments, FilesSeparated, WordsBacked, WordsApart, ImageAfter, Delivers, Sort, View, Dyld.Mapped,
      RebaseProgram, BindProgram;
    BackedGoverns(LoadsOf(elf), cfg.Slide(), i, v);
    MappedImage(elf, cfg, opts, st, d, RebaseProgram(SortedRebases(st)), BindProgram(SortedBindings(st), 1), slide, i,
                v);
  }

  /** Before dyld runs its programs, a relocated word in memory is the image's word. */
  lemma {:induction false} MappedWord(elf: Elf64, cfg: Config, opts: Options, st: State, d: Dylib, slide: int, j: nat)
    requires Accepted(LoadsOf(elf)) && Emitted(elf, cfg, opts, st, d)
    requires j < |RelasOf(elf)| && Resolves(EnvOf(elf, cfg, opts), RelasOf(elf)[j], |st.image|)
    ensures LoadWord(Dyld.Mapped(d.file, d.segments, slide), slide + cfg.Slide() + RelasOf(elf)[j].offset)
         == LoadWord(View(st.image), Target(EnvOf(elf, cfg, opts), RelasOf(elf)[j]).output)
  {
    hide Segments, FilesSeparated, WordsBacked, WordsApart, ImageAfter, Delivers, Sort, LoadWord, View, Locate,
      Dyld.Mapped, RebaseProgram, BindProgram, RelasOf, Resolves;
    var rel := RelasOf(elf)[j];
    var i := WordHome(elf, cfg, opts, j);
    var at := Target(EnvOf(elf, cfg, opts), rel).output;
    var m, n := Dyld.Mapped(d.file, d.segments, slide), View(st.image);
    var a := slide + cfg.Slide() + rel.offset;
    forall b | a <= b < a + 8 ensures m(b) == n(b - a + at) {
      MappedLoadByte(elf, cfg, opts, st, d, slide, i, b - slide - cfg.Slide());
    }
    WordsAndBytes(m, n, a, at);
  }

  /** An internal record has its entry among the sorted rebases. */
  lemma {:induction false} RebaseIndex(elf: Elf64, cfg: Config, opts: Options, st: State, j: nat) returns (i: nat)
    requires Accepted(LoadsOf(elf)) && ImageAfter(elf, cfg, opts, st)
    requires j < |RelasOf(elf)| && Resolves(EnvOf(elf, cfg, opts), RelasOf(elf)[j], |st.image|)
    requires Internal(EnvOf(elf, cfg, opts), RelasOf(elf)[j])
    ensures i < |SortedRebases(st)|
    ensures SortedRebases(st)[i] == Target(EnvOf(elf, cfg, opts), RelasOf(elf)[j]).loc
  {
    hide EnvOf, Sort, Locate, Internal, Target, Disjoint, SameMemory, ImageBefore, ApplyAll;
    var l := Target(EnvOf(elf, cfg, opts), RelasOf(elf)[j]).loc;
    RebaseMember(EnvOf(elf, cfg, opts), RelasOf(elf), |st.image|, j);
    SortContents(st.rebases, SELF);
    assert l in multiset(st.rebases);
    assert l in multiset(SortedRebases(st));
    i :| 0 <= i < |SortedRebases(st)| && SortedRebases(st)[i] == l;
  }

  /** The bind program leaves internal words alone. */
  lemma {:induction false} BindsElsewhere(elf: Elf64, cfg: Config, opts: Options, st: State, d: Dylib,
                                          slide: int, resolve: Dyld.Resolver, j: nat, m: Memory)
    requires Emitted(elf, cfg, opts, st, d) && FixupsAddressable(st, d)
    requires j < |RelasOf(elf)| && Resolves(EnvOf(elf, cfg, opts), RelasOf(elf)[j], |st.image|)
    requires Internal(EnvOf(elf, cfg, opts), RelasOf(elf)[j])
    ensures var a := slide + cfg.Slide() + RelasOf(elf)[j].offset;
      LoadWord(ApplyAll(m, SymbolPatches(st, d, slide, resolve)), a) == LoadWord(m, a)
  {
    hide ImageAfter, Delivers, EnvOf, Sort, Resolves, Internal, Target, Dyld.Addressable, Dyld.Address, SymbolPatches,
      LoadWord, View, ImageBefore, BindingOf, Carried, WordsApart, WordsBacked, FilesSeparated, ApplyAll;
    var a := slide + cfg.Slide() + RelasOf(elf)[j].offset;
    var qs := SymbolPatches(st, d, slide, resolve);
    SymbolCount(st, d, slide, resolve);
    forall k | 0 <= k < |qs| ensures Apart(qs[k].addr, a) {
      var q := BindEntry(elf, cfg, opts, st, d, k, slide);
      SymbolPatchAt(st, d, slide, resolve, k);
      RecordsApart(elf, q, j);
    }
    UntouchedWord(m, qs, a);
  }

  predicate Slid(base: Memory, ps: seq<Patch>, a: int, slide: int) {
    LoadWord(ApplyAll(base, ps), a) == (LoadWord(base, a) + slide) % TWO64
  }

  lemma {:induction false} SlidAt(base: Memory, ps: seq<Patch>, i: nat, a: int, slide: int)
    requires Disjoint(ps) && i < |ps| && ps[i] == Patch(a, Add(slide))
    ensures Slid(base, ps, a, slide)
  {
    hide LoadWord, ApplyAll;
    PatchedWord(base, ps, i);
  }

  /** The patch an internal record gets from the rebase program. */
  lemma {:induction false} SlideOf(elf: Elf64, cfg: Config, opts: Options, st: State, d: Dylib, slide: int, j: nat)
    returns (i: nat)
    requires Emitted(elf, cfg, opts, st, d) && FixupsAddressable(st, d)
    requires j < |RelasOf(elf)| && Resolves(EnvOf(elf, cfg, opts), RelasOf(elf)[j], |st.image|)
    requires Internal(EnvOf(elf, cfg, opts), RelasOf(elf)[j])
    ensures i < |SlidePatches(st, d, slide)|
    ensures SlidePatches(st, d, slide)[i] == Patch(slide + cfg.Slide() + RelasOf(elf)[j].offset, Add(slide))
  {
    hide ImageAfter, Delivers, EnvOf, Sort, Resolves, Internal, Target, Dyld.Addressable, Dyld.Address, WordsApart,
      WordsBacked, FilesSeparated, RelasOf, SlidePatches, FixupsAddressable, Locate;
    i := RebaseIndex(elf, cfg, opts, st, j);
    SlidePatchAt(st, d, slide, i);
    LocAddress(elf, cfg, opts, st, d, j, slide);
  }

  lemma {:induction false} SlidWord(elf: Elf64, cfg: Config, opts: Options, st: State, d: Dylib, slide: int, j: nat)
    requires Emitted(elf, cfg, opts, st, d) && FixupsAddressable(st, d)
    requires j < |RelasOf(elf)| && Resolves(EnvOf(elf, cfg, opts), RelasOf(elf)[j], |st.image|)
    requires Internal(EnvOf(elf, cfg, opts), RelasOf(elf)[j])
    ensures Slid(Dyld.Mapped(d.file, d.segments, slide), SlidePatches(st, d, slide),
                 slide + cfg.Slide() + RelasOf(elf)[j].offset, slide)
  {
    hide Ready, ImageAfter, Delivers, EnvOf, Sort, Internal, Target, Locate, Slid, RelasOf, Disjoint, Dyld.Mapped,
      SlidePatches, FixupsAddressable, Resolves, RebaseProgram, BindProgram;
    var i := SlideOf(elf, cfg, opts, st, d, slide, j);
    SlidesDisjoint(elf, cfg, opts, st, d, slide);
    SlidAt(Dyld.Mapped(d.file, d.segments, slide), SlidePatches(st, d, slide), i,
           slide + cfg.Slide() + RelasOf(elf)[j].offset, slide);
  }

  lemma {:induction false} InternalWord(elf: Elf64, cfg: Config, opts: Options, st: State, d: Dylib,
                                        slide: int, resolve: Dyld.Resolver, j: nat)
    requires Emitted(elf, cfg, opts, st, d) && FixupsAddressable(st, d)
    requires j < |RelasOf(elf)| && Resolves(EnvOf(elf, cfg, opts), RelasOf(elf)[j], |st.image|)
    requires Internal(EnvOf(elf, cfg, opts), RelasOf(elf)[j])
    ensures var env, rel := EnvOf(elf, cfg, opts), RelasOf(elf)[j];
      LoadWord(LoadedMemory(st, d, slide, resolve), slide + cfg.Slide() + rel.offset)
      == (LoadWord(View(st.image), Target(env, rel).output) + slide) % TWO64
  {
    hide ImageAfter, Delivers, EnvOf, Sort, Resolves, Internal, Target, FixupsAddressable, SlidePatches,
      SymbolPatches, LoadWord, View, WordsApart, WordsBacked, FilesSeparated, ApplyAll, RelasOf, Dyld.Mapped,
      RebaseProgram, BindProgram, Segments, Symbols, Loads;
    SlidWord(elf, cfg, opts, st, d, slide, j);
    MappedWord(elf, cfg, opts, st, d, slide, j);
    BindsElsewhere(elf, cfg, opts, st, d, slide, resolve, j,
                   ApplyAll(Dyld.Mapped(d.file, d.segments, slide), SlidePatches(st, d, slide)));
  }

  lemma {:induction false} ExternalWord(elf: Elf64, cfg: Config, opts: Options, st: State, d: Dylib,
                                        slide: int, resolve: Dyld.Resolver, i: nat) returns (j: nat)
    requires Emitted(elf, cfg, opts, st, d) && FixupsAddressable(st, d) && i < |SortedBindings(st)|
    ensures var env, b := EnvOf(elf, cfg, opts), SortedBindings(st)[i];
      && j < |RelasOf(elf)|
      && Resolves(env, RelasOf(elf)[j], |st.image|) && !Internal(env, RelasOf(elf)[j])
      && BindingOf(env, RelasOf(elf)[j], View(ImageBefore(elf, cfg))) == b
      && LoadWord(LoadedMemory(st, d, slide, resolve), slide + cfg.Slide() + RelasOf(elf)[j].offset)
         == (resolve(1, b.shimSymbol) + Carried(SortedBindings(st)[..i + 1])) % TWO64
  {
    hide ImageAfter, Delivers, EnvOf, Sort, Resolves, Internal, Target, Dyld.Addressable, Dyld.Address, SymbolPatches,
      LoadWord, View, ImageBefore, BindingOf, Carried, WordsApart, WordsBacked, FilesSeparated, Segments, Symbols,
      Loads, RebaseProgram, BindProgram, RelasOf;
    j := BindEntry(elf, cfg, opts, st, d, i, slide);
    var base, ps, qs := Dyld.Mapped(d.file, d.segments, slide), SlidePatches(st, d, slide),
      SymbolPatches(st, d, slide, resolve);
    SymbolsDisjoint(elf, cfg, opts, st, d, slide, resolve);
    PatchedWord(ApplyAll(base, ps), qs, i);
    SymbolPatchAt(st, d, slide, resolve, i);
  }

  predicate InWord(rels: seq<Rela>, v: int) {
    exists j :: 0 <= j < |rels| && rels[j].offset <= v < rels[j].offset + 8
  }

  lemma {:induction false} PlainByte(elf: Elf64, cfg: Config, opts: Options, st: State, d: Dylib,
                                     slide: int, resolve: Dyld.Resolver, v: int)
    requires Emitted(elf, cfg, opts, st, d) && FixupsAddressable(st, d) && !InWord(RelasOf(elf), v)
    ensures LoadedMemory(st, d, slide, resolve)(slide + cfg.Slide() + v)
         == Dyld.Mapped(d.file, d.segments, slide)(slide + cfg.Slide() + v)
  {
    hide ImageAfter, Delivers, EnvOf, Sort, Resolves, Internal, Target, Dyld.Addressable, Dyld.Address, SymbolPatches,
      View, ImageBefore, BindingOf, Carried, WordsApart, WordsBacked, FilesSeparated, ApplyAll;
    var a := slide + cfg.Slide() + v;
    var base, ps, qs := Dyld.Mapped(d.file, d.segments, slide), SlidePatches(st, d, slide),
      SymbolPatches(st, d, slide, resolve);
    forall i | 0 <= i < |ps| ensures !(ps[i].addr <= a < ps[i].addr + 8) {
      var j := RebaseEntry(elf, cfg, opts, st, d, i, slide);
    }
    SymbolCount(st, d, slide, resolve);
    forall i | 0 <= i < |qs| ensures !(qs[i].addr <= a < qs[i].addr + 8) {
      var j := BindEntry(elf, cfg, opts, st, d, i, slide);
      SymbolPatchAt(st, d, slide, resolve, i);
    }
    UntouchedByte(base, ps, a);
    UntouchedByte(ApplyAll(base, ps), qs, a);
  }

  // ----- the Android loader's words -----

  /** The Android resolver that finds each name where the shim dylib has its prefixed spelling. */
  function ThroughShim(resolve: Dyld.Resolver, prefix: seq<byte>): Bionic.Resolver {
    (name: seq<byte>) => resolve(1, prefix + name)
  }

  function AndroidPatches(elf: Elf64, opts: Options, bias: int, resolve: Dyld.Resolver): seq<Patch> {
    Bionic.RelocationPatches(Symbols(elf), RelasOf(elf), bias, ThroughShim(resolve, opts.prefix))
  }

  function AndroidMemory(elf: Elf64, opts: Options, bias: int, resolve: Dyld.Resolver): Memory {
    Bionic.Load(LoadsOf(elf), elf.data, Symbols(elf), RelasOf(elf), bias, ThroughShim(resolve, opts.prefix))
  }

  lemma {:induction false} AndroidWord(elf: Elf64, opts: Options, bias: int, resolve: Dyld.Resolver, j: nat)
    requires WordsApart(RelasOf(elf)) && j < |RelasOf(elf)|
    ensures var a := bias + RelasOf(elf)[j].offset;
      LoadWord(AndroidMemory(elf, opts, bias, resolve), a)
      == NewWord(AndroidPatches(elf, opts, bias, resolve)[j].op,
                 LoadWord(Bionic.Mapped(LoadsOf(elf), elf.data, bias), a))
  {
    hide LoadWord, NewWord, RelasOf, LoadsOf, Symbols;
    var ps := AndroidPatches(elf, opts, bias, resolve);
    forall i, k | 0 <= i < k < |ps| ensures Apart(ps[i].addr, ps[k].addr) {
      RecordsApart(elf, i, k);
    }
    PatchedWord(Bionic.Mapped(LoadsOf(elf), elf.data, bias), ps, j);
  }

  lemma {:induction false} AndroidByte(elf: Elf64, opts: Options, bias: int, resolve: Dyld.Resolver, v: int)
    requires !InWord(RelasOf(elf), v)
    ensures AndroidMemory(elf, opts, bias, resolve)(bias + v) == Bionic.Mapped(LoadsOf(elf), elf.data, bias)(bias + v)
  {
    hide RelasOf, LoadsOf, Symbols, ApplyAll, Bionic.Mapped, ThroughShim;
    var ps := AndroidPatches(elf, opts, bias, resolve);
    forall i | 0 <= i < |ps| ensures !(ps[i].addr <= bias + v < ps[i].addr + 8) {
      assert ps[i].addr == bias + RelasOf(elf)[i].offset;
    }
    UntouchedByte(Bionic.Mapped(LoadsOf(elf), elf.data, bias), ps, bias + v);
  }

  // ----- the theorem -----

  lemma {:induction false} SumAfterMod(a: int, b: int)
    ensures (a % TWO64 + b) % TWO64 == (a + b) % TWO64
  {
  }

  /** Settling a word now and adding the slide later is relocating it at the slid bias. */
  lemma {:induction false} SettledLater(env: Env, rel: Rela, slide: int, resolve: Bionic.Resolver, w: nat)
    requires env.Valid() && (rel.rtype == R_RELATIVE || (Supported(rel.rtype) && 0 < rel.symbolIndex < |env.symbols|))
    requires Internal(env, rel)
    ensures (NewWord(ImageOp(env, rel), w) + slide) % TWO64
         == NewWord(Bionic.RelocationPatch(env.symbols, rel, slide + env.slide, resolve).op, w)
  {
    hide Locate;
    var op := ImageOp(env, rel);
    var now := if op.Set? then op.w else w + op.w;
    var later := Bionic.RelocationPatch(env.symbols, rel, slide + env.slide, resolve).op;
    assert later == if op.Set? then Set(op.w + slide) else Add(op.w + slide);
    SumAfterMod(now, slide);
  }

  lemma {:induction false} InternalAgrees(elf: Elf64, cfg: Config, opts: Options, st: State, d: Dylib,
                                          slide: int, resolve: Dyld.Resolver, j: nat)
    requires Emitted(elf, cfg, opts, st, d) && FixupsAddressable(st, d)
    requires j < |RelasOf(elf)| && Resolves(EnvOf(elf, cfg, opts), RelasOf(elf)[j], |st.image|)
    requires Internal(EnvOf(elf, cfg, opts), RelasOf(elf)[j])
    ensures var a := slide + cfg.Slide() + RelasOf(elf)[j].offset;
      LoadWord(LoadedMemory(st, d, slide, resolve), a)
      == LoadWord(AndroidMemory(elf, opts, slide + cfg.Slide(), resolve), a)
  {
    hide ImageAfter, Delivers, Sort, Segments, LoadWord, View, ImageBefore, WordsBacked, FilesSeparated, ApplyAll,
      NewWord, ImageOp, Locate, AndroidMemory, LoadedMemory, Symbols, WordsApart, RelasOf;
    var rel := RelasOf(elf)[j];
    InternalWord(elf, cfg, opts, st, d, slide, resolve, j);
    ImageWord(elf, cfg, opts, st, j);
    CopiedWord(elf, cfg, opts, j, slide + cfg.Slide());
    AndroidWord(elf, opts, slide + cfg.Slide(), resolve, j);
    SettledLater(EnvOf(elf, cfg, opts), rel, slide, ThroughShim(resolve, opts.prefix),
                 LoadWord(Bionic.Mapped(LoadsOf(elf), elf.data, slide + cfg.Slide()),
                          slide + cfg.Slide() + rel.offset));
  }

  lemma {:induction false} SumModEqual(s: int, a: int, b: int)
    ensures (s + a) % TWO64 == (s + b) % TWO64 <==> a % TWO64 == b % TWO64
  {
  }

  /** A bound word is the Android loader's exactly when the register held the binding's addend, mod 2^64. */
  lemma {:induction false} ExternalAgreesIff(elf: Elf64, cfg: Config, opts: Options, st: State, d: Dylib,
                                             slide: int, resolve: Dyld.Resolver, i: nat) returns (j: nat)
    requires Emitted(elf, cfg, opts, st, d) && FixupsAddressable(st, d) && i < |SortedBindings(st)|
    ensures j < |RelasOf(elf)| && Resolves(EnvOf(elf, cfg, opts), RelasOf(elf)[j], |st.image|)
    ensures !Internal(EnvOf(elf, cfg, opts), RelasOf(elf)[j])
    ensures BindingOf(EnvOf(elf, cfg, opts), RelasOf(elf)[j], View(ImageBefore(elf, cfg))) == SortedBindings(st)[i]
    ensures var a := slide + cfg.Slide() + RelasOf(elf)[j].offset;
      LoadWord(LoadedMemory(st, d, slide, resolve), a)
          == LoadWord(AndroidMemory(elf, opts, slide + cfg.Slide(), resolve), a)
      <==> Carried(SortedBindings(st)[..i + 1]) % TWO64 == SortedBindings(st)[i].addend % TWO64
  {
    hide ImageAfter, Delivers, Sort, Segments, LoadWord, View, ImageBefore, WordsBacked, FilesSeparated, ApplyAll,
      Locate, AndroidMemory, LoadedMemory, Symbols, WordsApart, RelasOf, Carried;
    var bias := slide + cfg.Slide();
    j := ExternalWord(elf, cfg, opts, st, d, slide, resolve, i);
    CopiedWord(elf, cfg, opts, j, bias);
    AndroidWord(elf, opts, bias, resolve, j);
    var b := SortedBindings(st)[i];
    SumModEqual(resolve(1, b.shimSymbol), Carried(SortedBindings(st)[..i + 1]), b.addend);
  }

  /** Relocation leaves the image's other bytes as they were copied. */
  lemma {:induction false} UnrelocatedByte(elf: Elf64, cfg: Config, opts: Options, st: State, i: nat, v: nat)
    requires Ready(elf, cfg, opts) && ImageAfter(elf, cfg, opts, st)
    requires i < |LoadsOf(elf)| && LoadsOf(elf)[i].vaddr <= v < LoadsOf(elf)[i].vaddr + LoadsOf(elf)[i].filesz
    requires !InWord(RelasOf(elf), v)
    ensures var x := Segments(LoadsOf(elf), cfg)[i].dataFileoff + (v - LoadsOf(elf)[i].vaddr);
      View(st.image)(x) == View(ImageBefore(elf, cfg))(x)
  {
    hide Segments, FilesSeparated, WordsBacked, WordsApart, DataEnd, Copied, ApplyAll, Disjoint, ImageBefore, RelasOf,
      View, Loads, Symbols, Align, Floor, DataEnd, ImageOp;
    var env, rels, image := EnvOf(elf, cfg, opts), RelasOf(elf), ImageBefore(elf, cfg);
    var ps := ImagePatches(env, rels, |image|);
    var x := env.segs[i].dataFileoff + (v - LoadsOf(elf)[i].vaddr);
    LayoutFits(LoadsOf(elf), elf.data, cfg);
    SegmentAt(LoadsOf(elf), cfg, i);
    forall j | 0 <= j < |ps| ensures !(ps[j].addr <= x < ps[j].addr + 8) {
      var k := WordHome(elf, cfg, opts, j);
      SegmentAt(LoadsOf(elf), cfg, k);
      if k == i {
        assert !(rels[j].offset <= v < rels[j].offset + 8);
      }
    }
    UntouchedByte(View(image), ps, x);
  }

  lemma {:induction false} PlainAgrees(elf: Elf64, cfg: Config, opts: Options, st: State, d: Dylib,
                                       slide: int, resolve: Dyld.Resolver, i: nat, v: int)
    requires Emitted(elf, cfg, opts, st, d) && FixupsAddressable(st, d) && !InWord(RelasOf(elf), v)
    requires Governs(LoadsOf(elf), i, v)
    ensures var a := slide + cfg.Slide() + v;
      LoadedMemory(st, d, slide, resolve)(a) == AndroidMemory(elf, opts, slide + cfg.Slide(), resolve)(a)
  {
    hide ImageAfter, Delivers, Sort, Segments, ImageBefore, WordsBacked, FilesSeparated, ApplyAll, View,
      AndroidMemory, LoadedMemory, WordsApart, RelasOf, RebaseProgram, BindProgram, InWord, FixupsAddressable;
    var loads := LoadsOf(elf);
    PlainByte(elf, cfg, opts, st, d, slide, resolve, v);
    AndroidByte(elf, opts, slide + cfg.Slide(), resolve, v);
    MappedImage(elf, cfg, opts, st, d, RebaseProgram(SortedRebases(st)), BindProgram(SortedBindings(st), 1), slide, i,
                v);
    BionicAt(loads, elf.data, v, i);
    if v - loads[i].vaddr < loads[i].filesz {
      UnrelocatedByte(elf, cfg, opts, st, i, v);
      CopiedWordByte(elf, cfg, i, v, slide + cfg.Slide());
    }
  }

  /** Every bind finds its own addend in the register, mod 2^64. */
  predicate AddendsArrive(bs: seq<Binding>) {
    forall i :: 0 <= i < |bs| ==> Carried(bs[..i + 1]) % TWO64 == bs[i].addend % TWO64
  }

  /** The two memories agree at every address of every load, bss included. */
  ghost predicate SameProgram(elf: Elf64, bias: int, m: Memory, n: Memory) {
    forall i, v :: 0 <= i < |LoadsOf(elf)| && Bionic.Holds(LoadsOf(elf)[i], v) ==> m(bias + v) == n(bias + v)
  }

  /** An external record's binding, and its place among the sorted ones. */
  lemma {:induction false} BindIndex(elf: Elf64, cfg: Config, opts: Options, st: State, j: nat) returns (i: nat)
    requires Accepted(LoadsOf(elf)) && ImageAfter(elf, cfg, opts, st)
    requires j < |RelasOf(elf)| && Resolves(EnvOf(elf, cfg, opts), RelasOf(elf)[j], |st.image|)
    requires !Internal(EnvOf(elf, cfg, opts), RelasOf(elf)[j])
    ensures i < |SortedBindings(st)| && SortedBindings(st)[i].vaddr == RelasOf(elf)[j].offset
  {
    hide EnvOf, Sort, Locate, Target, Disjoint, SameMemory, ImageBefore, ApplyAll;
    var m := View(ImageBefore(elf, cfg));
    var b := BindingOf(EnvOf(elf, cfg, opts), RelasOf(elf)[j], m);
    BindMember(EnvOf(elf, cfg, opts), RelasOf(elf), |st.image|, m, j);
    SortContents(st.bindings, BINDING_LOC);
    assert b in multiset(st.bindings);
    assert b in multiset(SortedBindings(st));
    i :| 0 <= i < |SortedBindings(st)| && SortedBindings(st)[i] == b;
  }

  lemma {:induction false} EmittedFrom(elf: Elf64, cfg: Config, opts: Options, st: State, d: Dylib)
    requires Emitted(elf, cfg, opts, st, d)
    ensures Accepted(LoadsOf(elf)) && ImageAfter(elf, cfg, opts, st)
  {
    hide ImageAfter, Delivers, Sort, WordsBacked, WordsApart, FilesSeparated;
  }

  lemma {:induction false} RecordResolves(elf: Elf64, cfg: Config, opts: Options, st: State, j: nat)
    requires Accepted(LoadsOf(elf)) && ImageAfter(elf, cfg, opts, st) && j < |RelasOf(elf)|
    ensures Resolves(EnvOf(elf, cfg, opts), RelasOf(elf)[j], |st.image|)
  {
    hide Resolves, EnvOf, ApplyAll, Disjoint, SameMemory, ImageBefore, Rebases, Bindings;
  }

  lemma {:induction false} BindingAddress(env: Env, rel: Rela, m: Memory)
    requires env.Valid() && Locate(env.segs, env.slide, rel.offset).Some? && rel.symbolIndex < |env.symbols|
    ensures BindingOf(env, rel, m).vaddr == rel.offset
  {
  }

  /** When the addends arrive, a bound word is the Android loader's. */
  lemma {:induction false} ExternalAgrees(elf: Elf64, cfg: Config, opts: Options, st: State, d: Dylib,
                                          slide: int, resolve: Dyld.Resolver, i: nat) returns (v: int)
    requires Emitted(elf, cfg, opts, st, d) && FixupsAddressable(st, d) && AddendsArrive(SortedBindings(st))
    requires i < |SortedBindings(st)|
    ensures v == SortedBindings(st)[i].vaddr
    ensures var a := slide + cfg.Slide() + v;
      LoadWord(LoadedMemory(st, d, slide, resolve), a)
          == LoadWord(AndroidMemory(elf, opts, slide + cfg.Slide(), resolve), a)
  {
    hide Emitted, ImageAfter, Sort, View, LoadWord, BindingOf, AndroidMemory, LoadedMemory, RelasOf, Loads,
      FixupsAddressable, Carried, Locate, ImageBefore, Segments, Symbols;
    EmittedFrom(elf, cfg, opts, st, d);
    var k := ExternalAgreesIff(elf, cfg, opts, st, d, slide, resolve, i);
    BindingAddress(EnvOf(elf, cfg, opts), RelasOf(elf)[k], View(ImageBefore(elf, cfg)));
    v := RelasOf(elf)[k].offset;
  }

  lemma {:induction false} WordAgrees(elf: Elf64, cfg: Config, opts: Options, st: State, d: Dylib,
                                      slide: int, resolve: Dyld.Resolver, j: nat)
    requires Emitted(elf, cfg, opts, st, d) && FixupsAddressable(st, d) && AddendsArrive(SortedBindings(st))
    requires j < |RelasOf(elf)|
    ensures var a := slide + cfg.Slide() + RelasOf(elf)[j].offset;
      LoadWord(LoadedMemory(st, d, slide, resolve), a)
          == LoadWord(AndroidMemory(elf, opts, slide + cfg.Slide(), resolve), a)
  {
    hide Emitted, Sort, LoadWord, ImageAfter, Target, Locate, Internal, EnvOf, AndroidMemory, LoadedMemory, RelasOf,
      Loads, FixupsAddressable, AddendsArrive, Carried, Accepted;
    EmittedFrom(elf, cfg, opts, st, d);
    RecordResolves(elf, cfg, opts, st, j);
    if Internal(EnvOf(elf, cfg, opts), RelasOf(elf)[j]) {
      InternalAgrees(elf, cfg, opts, st, d, slide, resolve, j);
    } else {
      var i := BindIndex(elf, cfg, opts, st, j);
      var v := ExternalAgrees(elf, cfg, opts, st, d, slide, resolve, i);
    }
  }

  lemma {:induction false} ByteAgrees(elf: Elf64, cfg: Config, opts: Options, st: State, d: Dylib,
                                      slide: int, resolve: Dyld.Resolver, i: nat, v: int)
    requires Emitted(elf, cfg, opts, st, d) && FixupsAddressable(st, d) && AddendsArrive(SortedBindings(st))
    requires i < |LoadsOf(elf)| && Bionic.Holds(LoadsOf(elf)[i], v)
    ensures var a := slide + cfg.Slide() + v;
      LoadedMemory(st, d, slide, resolve)(a) == AndroidMemory(elf, opts, slide + cfg.Slide(), resolve)(a)
  {
    hide Emitted, AndroidMemory, LoadedMemory, LoadWord, FixupsAddressable, AddendsArrive;
    if InWord(RelasOf(elf), v) {
      var j :| 0 <= j < |RelasOf(elf)| && RelasOf(elf)[j].offset <= v < RelasOf(elf)[j].offset + 8;
      WordAgrees(elf, cfg, opts, st, d, slide, resolve, j);
      var a := slide + cfg.Slide() + RelasOf(elf)[j].offset;
      var m, n := LoadedMemory(st, d, slide, resolve), AndroidMemory(elf, opts, slide + cfg.Slide(), resolve);
      WordsAndBytes(m, n, a, a);
      assert m(slide + cfg.Slide() + v) == n(slide + cfg.Slide() + v - a + a);
    } else {
      var k := SomeGoverns(LoadsOf(elf), i, v);
      PlainAgrees(elf, cfg, opts, st, d, slide, resolve, k, v);
    }
  }

  lemma {:induction false} MissedAddendDiffers(elf: Elf64, cfg: Config, opts: Options, st: State, d: Dylib,
                                               slide: int, resolve: Dyld.Resolver, i: nat)
    requires Emitted(elf, cfg, opts, st, d) && FixupsAddressable(st, d) && i < |SortedBindings(st)|
    requires Carried(SortedBindings(st)[..i + 1]) % TWO64 != SortedBindings(st)[i].addend % TWO64
    ensures !SameProgram(elf, slide + cfg.Slide(), LoadedMemory(st, d, slide, resolve),
                         AndroidMemory(elf, opts, slide + cfg.Slide(), resolve))
  {
    hide Delivers, Sort, ImageAfter, ImageBefore, WordsBacked, FilesSeparated, View, LoadWord, EnvOf, Segments,
      AndroidMemory, LoadedMemory, RelasOf, RebaseProgram, BindProgram, FixupsAddressable, Carried, Locate,
      WordsApart;
    var j := ExternalAgreesIff(elf, cfg, opts, st, d, slide, resolve, i);
    var p := WordHome(elf, cfg, opts, j);
    var bias := slide + cfg.Slide();
    var a := bias + RelasOf(elf)[j].offset;
    var m, n := LoadedMemory(st, d, slide, resolve), AndroidMemory(elf, opts, bias, resolve);
    WordsAndBytes(m, n, a, a);
    var b :| a <= b < a + 8 && m(b) != n(b - a + a);
    assert Bionic.Holds(LoadsOf(elf)[p], b - bias);
    assert m(bias + (b - bias)) != n(bias + (b - bias));
  }

  /**
   Loader equivalence, for every slide and resolver: dyld accepts the dylib, and the program memory it builds is the one
   the Android loader builds, if and only if every bind's addend reaches it through the sticky register.
   */
  lemma {:induction false} LoadersAgreeIff(elf: Elf64, cfg: Config, opts: Options, st: State, d: Dylib, slide: int,
                                           resolve: Dyld.Resolver)
    requires Emitted(elf, cfg, opts, st, d)
    ensures Dyld.Load(d, slide, resolve).Some?
    ensures SameProgram(elf, slide + cfg.Slide(), Dyld.Load(d, slide, resolve).value,
                        AndroidMemory(elf, opts, slide + cfg.Slide(), resolve))
       <==> AddendsArrive(SortedBindings(st))
  {
    hide Emitted, AndroidMemory, LoadedMemory, Dyld.Load, FixupsAddressable, Carried;
    DyldLoads(elf, cfg, opts, st, d, slide, resolve);
    var bias := slide + cfg.Slide();
    var m, n := LoadedMemory(st, d, slide, resolve), AndroidMemory(elf, opts, bias, resolve);
    if AddendsArrive(SortedBindings(st)) {
      forall i, v | 0 <= i < |LoadsOf(elf)| && Bionic.Holds(LoadsOf(elf)[i], v) ensures m(bias + v) == n(bias + v) {
        ByteAgrees(elf, cfg, opts, st, d, slide, resolve, i, v);
      }
    } else {
      var i :| 0 <= i < |SortedBindings(st)|
        && Carried(SortedBindings(st)[..i + 1]) % TWO64 != SortedBindings(st)[i].addend % TWO64;
      MissedAddendDiffers(elf, cfg, opts, st, d, slide, resolve, i);
    }
  }

  /** Addends always arrive when none is zero after a nonzero one; for addends below 2^64 in size, only then. */
  lemma {:induction false} AddendsArriveIff(bs: seq<Binding>)
    ensures ZerosFirst(bs) ==> AddendsArrive(bs)
    ensures (forall i :: 0 <= i < |bs| ==> -TWO64 < bs[i].addend < TWO64) ==> (AddendsArrive(bs) <==> ZerosFirst(bs))
  {
    forall i | 0 <= i < |bs| && ZerosFirst(bs) ensures Carried(bs[..i + 1]) == bs[i].addend {
      CarriedIsLatest(bs[..i + 1]);
    }
    if !ZerosFirst(bs) && forall i :: 0 <= i < |bs| ==> -TWO64 < bs[i].addend < TWO64 {
      var i, j :| 0 <= i < j < |bs| && bs[i].addend != 0 && bs[j].addend == 0;
      CarriedIsLatest(bs[..j + 1]);
      assert bs[..j + 1][i] == bs[i];
      var k :| 0 <= k < j + 1 && bs[..j + 1][k].addend == Carried(bs[..j + 1]);
      assert bs[k].addend % TWO64 != 0;
      assert !AddendsArrive(bs);
    }
  }

  // ----- two dylibs for one image -----

  lemma {:induction false} CarriersShareWord(elf: Elf64, cfg: Config, opts: Options, st: State, d: Dylib, d': Dylib,
                                             slide: int, resolve: Dyld.Resolver, j: nat)
    requires Emitted(elf, cfg, opts, st, d) && FixupsAddressable(st, d) && j < |RelasOf(elf)|
    requires Emitted(elf, cfg, opts, st, d') && FixupsAddressable(st, d')
    ensures var a := slide + cfg.Slide() + RelasOf(elf)[j].offset;
      LoadWord(LoadedMemory(st, d, slide, resolve), a) == LoadWord(LoadedMemory(st, d', slide, resolve), a)
  {
    hide Delivers, Sort, Disjoint, SameMemory, ImageBefore, WordsBacked, FilesSeparated, ApplyAll, View, LoadWord,
      EnvOf, LoadedMemory, RelasOf, RebaseProgram, BindProgram, FixupsAddressable, Carried, Locate;
    assert Resolves(EnvOf(elf, cfg, opts), RelasOf(elf)[j], |st.image|);
    if Internal(EnvOf(elf, cfg, opts), RelasOf(elf)[j]) {
      InternalWord(elf, cfg, opts, st, d, slide, resolve, j);
      InternalWord(elf, cfg, opts, st, d', slide, resolve, j);
    } else {
      var i := BindIndex(elf, cfg, opts, st, j);
      var k := ExternalWord(elf, cfg, opts, st, d, slide, resolve, i);
      var k' := ExternalWord(elf, cfg, opts, st, d', slide, resolve, i);
      assert RelasOf(elf)[k].offset == RelasOf(elf)[j].offset == RelasOf(elf)[k'].offset;
    }
  }

  lemma {:induction false} CarriersShareByte(elf: Elf64, cfg: Config, opts: Options, st: State, d: Dylib, d': Dylib,
                                             slide: int, resolve: Dyld.Resolver, i: nat, v: int)
    requires Emitted(elf, cfg, opts, st, d) && FixupsAddressable(st, d)
    requires Emitted(elf, cfg, opts, st, d') && FixupsAddressable(st, d')
    requires i < |LoadsOf(elf)| && Bionic.Holds(LoadsOf(elf)[i], v)
    ensures var a := slide + cfg.Slide() + v;
      LoadedMemory(st, d, slide, resolve)(a) == LoadedMemory(st, d', slide, resolve)(a)
  {
    hide ImageAfter, Delivers, Sort, Segments, WordsBacked, FilesSeparated, View, LoadedMemory, WordsApart, LoadWord,
      RebaseProgram, BindProgram, FixupsAddressable;
    if InWord(RelasOf(elf), v) {
      var j :| 0 <= j < |RelasOf(elf)| && RelasOf(elf)[j].offset <= v < RelasOf(elf)[j].offset + 8;
      CarriersShareWord(elf, cfg, opts, st, d, d', slide, resolve, j);
      var a := slide + cfg.Slide() + RelasOf(elf)[j].offset;
      var m, n := LoadedMemory(st, d, slide, resolve), LoadedMemory(st, d', slide, resolve);
      WordsAndBytes(m, n, a, a);
      assert m(slide + cfg.Slide() + v) == n(slide + cfg.Slide() + v - a + a);
    } else {
      PlainByte(elf, cfg, opts, st, d, slide, resolve, v);
      PlainByte(elf, cfg, opts, st, d', slide, resolve, v);
      var k := SomeGoverns(LoadsOf(elf), i, v);
      MappedImage(elf, cfg, opts, st, d, RebaseProgram(SortedRebases(st)), BindProgram(SortedBindings(st), 1), slide,
                  k, v);
      MappedImage(elf, cfg, opts, st, d', RebaseProgram(SortedRebases(st)), BindProgram(SortedBindings(st), 1), slide,
                  k, v);
    }
  }

  /** Two dylibs that carry the same image and programs load to the same program memory. */
  lemma {:induction false} CarriersAgree(elf: Elf64, cfg: Config, opts: Options, st: State, d: Dylib, d': Dylib,
                                         slide: int, resolve: Dyld.Resolver)
    requires Emitted(elf, cfg, opts, st, d) && Emitted(elf, cfg, opts, st, d')
    ensures Dyld.Load(d, slide, resolve).Some? && Dyld.Load(d', slide, resolve).Some?
    ensures SameProgram(elf, slide + cfg.Slide(), Dyld.Load(d, slide, resolve).value,
                        Dyld.Load(d', slide, resolve).value)
  {
    hide Emitted, LoadedMemory, Dyld.Load, FixupsAddressable;
    DyldLoads(elf, cfg, opts, st, d, slide, resolve);
    DyldLoads(elf, cfg, opts, st, d', slide, resolve);
    var bias := slide + cfg.Slide();
    var m, n := LoadedMemory(st, d, slide, resolve), LoadedMemory(st, d', slide, resolve);
    forall i, v | 0 <= i < |LoadsOf(elf)| && Bionic.Holds(LoadsOf(elf)[i], v) ensures m(bias + v) == n(bias + v) {
      CarriersShareByte(elf, cfg, opts, st, d, d', slide, resolve, i, v);
    }
  }

  // ----- from the file's bytes -----

  /**
   The Android loader's memory when each import is found, under its prefixed name, in the dylib with the shim's install
   name.
   */
  function AndroidProgram(elf: Elf64, opts: Options, bias: int, lookup: Dyld.Lookup): Memory {
    Bionic.Load(LoadsOf(elf), elf.data, Symbols(elf), RelasOf(elf), bias,
                (name: seq<byte>) => lookup(CStringAt(opts.shimInstall, 0), opts.prefix + name))
  }

  lemma {:induction false} SameResolver(elf: Elf64, opts: Options, bias: int, lookup: Dyld.Lookup)
    ensures AndroidMemory(elf, opts, bias, Dyld.ByName([ShimName(opts)], lookup))
         == AndroidProgram(elf, opts, bias, lookup)
  {
    hide RelasOf, LoadsOf, Symbols, ApplyAll, Bionic.Mapped, CStringAt;
    var there: Bionic.Resolver := (name: seq<byte>) => lookup(CStringAt(opts.shimInstall, 0), opts.prefix + name);
    var ps := AndroidPatches(elf, opts, bias, Dyld.ByName([ShimName(opts)], lookup));
    assert ps == Bionic.RelocationPatches(Symbols(elf), RelasOf(elf), bias, there);
  }

  /** Every bind names the one library there is. */
  lemma {:induction false} ShimOrdinals(elf: Elf64, cfg: Config, opts: Options, st: State, d: Dylib)
    requires Emitted(elf, cfg, opts, st, d)
    ensures d.info.DyldInfo? && Dyld.OrdinalsKnown(d)
  {
    hide Ready, ImageAfter, Sort, RunBind, Actions;
    BindingsRunnable(elf, cfg, opts, st, d);
    BindProgramMeaning(SortedBindings(st), 1);
    forall i | 0 <= i < |PerformedBinds(st)| ensures PerformedBinds(st)[i].ordinal == 1 {
      PerformedAt(st, i);
    }
    assert RunBind(Slice(d.file, d.info.bindOff, d.info.bindOff + d.info.bindSize), BIND_START)
        == Some(PerformedBinds(st));
  }

  /** What dyld does with the file alone is what it does with the dylib the file holds. */
  lemma {:induction false} FileIsDylib(elf: Elf64, cfg: Config, opts: Options, st: State, d: Dylib, slide: int,
                                       lookup: Dyld.Lookup)
    requires Emitted(elf, cfg, opts, st, d) && Dyld.ImageOf(d.file) == Some(d)
    ensures Dyld.LoadFile(d.file, slide, lookup)
         == Dyld.Load(d, slide, Dyld.ByName([ShimName(opts)], lookup))
  {
    hide Dyld.ImageOf, Dyld.Load, Dyld.OrdinalsKnown, Ready, ImageAfter, Delivers;
    ShimOrdinals(elf, cfg, opts, st, d);
  }
}
