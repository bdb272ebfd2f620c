/** When the bind addends arrive, said of the ELF file alone. */
module BindCondition {
  import opened Bytes
  import opened Patches
  import opened ElfReader
  import opened Layout
  import opened Sorting
  import opened Fixups
  import opened DyldMachines
  import opened Phase3
  import opened RelocationMeaning
  import opened RelocatedImage
  import opened LoaderEquivalence

  // ----- the condition -----

  /** The addend a bind for this record should have: ABS64 adds the word the file holds there. */
  function FileAddend(elf: Elf64, rel: Rela): int {
    rel.addend + if rel.rtype == R_ABS64 then LoadWord(Bionic.Mapped(LoadsOf(elf), elf.data, 0), rel.offset) else 0
  }

  predicate Imported(elf: Elf64, j: nat) {
    && j < |RelasOf(elf)| && RelasOf(elf)[j].rtype != R_RELATIVE
    && RelasOf(elf)[j].symbolIndex < |Symbols(elf)| && Symbols(elf)[RelasOf(elf)[j].symbolIndex].shndx == SHN_UNDEF
  }

  predicate ImportBetween(elf: Elf64, k: nat, l: nat, j: nat) {
    && k < |RelasOf(elf)| && j < |RelasOf(elf)| && Imported(elf, l)
    && RelasOf(elf)[k].offset < RelasOf(elf)[l].offset < RelasOf(elf)[j].offset
  }

  /** Going up in addresses, import k's addend is the last nonzero one before import j's, which is zero. */
  predicate Clobbers(elf: Elf64, k: nat, j: nat) {
    && Imported(elf, k) && Imported(elf, j) && RelasOf(elf)[k].offset < RelasOf(elf)[j].offset
    && FileAddend(elf, RelasOf(elf)[j]) == 0 && FileAddend(elf, RelasOf(elf)[k]) % TWO64 != 0
    && forall l :: 0 <= l < |RelasOf(elf)| && ImportBetween(elf, k, l, j) ==> FileAddend(elf, RelasOf(elf)[l]) == 0
  }

  /** No import's zero addend comes, in address order, after a nonzero one that is still in dyld's register. */
  predicate AddendsKept(elf: Elf64) {
    forall k, j :: 0 <= k < |RelasOf(elf)| && 0 <= j < |RelasOf(elf)| ==> !Clobbers(elf, k, j)
  }

  // ----- on the sorted bindings -----

  predicate Overtakes(bs: seq<Binding>, k: nat, j: nat) {
    && k < j < |bs| && bs[j].addend == 0 && bs[k].addend % TWO64 != 0
    && forall l :: k < l < j ==> bs[l].addend == 0
  }

  lemma {:induction false} OvertakenCarries(bs: seq<Binding>, k: nat, j: nat)
    requires Overtakes(bs, k, j)
    ensures Carried(bs[..j + 1]) == bs[k].addend
  {
    var front := bs[..j + 1];
    CarriedIsLatest(front);
    assert front[k].addend != 0;
    var i :| 0 <= i < |front| && front[i].addend == Carried(front)
      && forall l :: i < l < |front| ==> front[l].addend == 0;
    assert i == k;
  }

  lemma {:induction false} ArriveIff(bs: seq<Binding>)
    ensures AddendsArrive(bs) <==> forall k: nat, j: nat :: !Overtakes(bs, k, j)
  {
    if AddendsArrive(bs) {
      forall k: nat, j: nat ensures !Overtakes(bs, k, j) {
        if Overtakes(bs, k, j) {
          OvertakenCarries(bs, k, j);
        }
      }
    } else {
      var i :| 0 <= i < |bs| && Carried(bs[..i + 1]) % TWO64 != bs[i].addend % TWO64;
      var front := bs[..i + 1];
      CarriedIsLatest(front);
      var k :| 0 <= k < |front| && front[k].addend == Carried(front)
        && forall l :: k < l < |front| ==> front[l].addend == 0;
      forall l | k < l < i ensures bs[l].addend == 0 {
        assert front[l].addend == 0;
      }
      assert Overtakes(bs, k, i);
    }
  }

  // ----- bindings and imports -----

  /** The binding at place i is the one import j calls for. */
  predicate Stands(elf: Elf64, b: Binding, j: nat) {
    Imported(elf, j) && b.vaddr == RelasOf(elf)[j].offset && b.addend == FileAddend(elf, RelasOf(elf)[j])
  }

  lemma {:induction false} BindingStands(elf: Elf64, cfg: Config, opts: Options, st: State, j: nat)
    requires Ready(elf, cfg, opts) && ImageAfter(elf, cfg, opts, st)
    requires j < |RelasOf(elf)| && Resolves(EnvOf(elf, cfg, opts), RelasOf(elf)[j], |st.image|)
    ensures Imported(elf, j) <==> !Internal(EnvOf(elf, cfg, opts), RelasOf(elf)[j])
    ensures Imported(elf, j) ==>
        Stands(elf, BindingOf(EnvOf(elf, cfg, opts), RelasOf(elf)[j], View(ImageBefore(elf, cfg))), j)
    ensures Imported(elf, j) ==>
      BindingOf(EnvOf(elf, cfg, opts), RelasOf(elf)[j], View(ImageBefore(elf, cfg))).loc
          == Target(EnvOf(elf, cfg, opts), RelasOf(elf)[j]).loc
  {
    hide ImageAfter, Segments, ImageBefore, FilesSeparated, WordsBacked, WordsApart, LoadWord, View, Locate, Symbols,
      Loads, Relocations, Bionic.Mapped;
    CopiedWord(elf, cfg, opts, j, 0);
  }

  lemma {:induction false} EntryOf(elf: Elf64, cfg: Config, opts: Options, st: State, i: nat) returns (j: nat)
    requires Ready(elf, cfg, opts) && ImageAfter(elf, cfg, opts, st) && i < |SortedBindings(st)|
    ensures Stands(elf, SortedBindings(st)[i], j) && j < |RelasOf(elf)|
    ensures var env := EnvOf(elf, cfg, opts);
      && Resolves(env, RelasOf(elf)[j], |st.image|) && SortedBindings(st)[i].loc == Target(env, RelasOf(elf)[j]).loc
      && SortedBindings(st)[i] == BindingOf(env, RelasOf(elf)[j], View(ImageBefore(elf, cfg)))
  {
    hide WordsBacked, WordsApart, FilesSeparated, EnvOf, Resolves, Internal, Target, Sort, Disjoint, SameMemory,
      ApplyAll, ImageBefore, BindingOf, Stands, Imported, Relocations;
    SortContents(st.bindings, BINDING_LOC);
    var b := SortedBindings(st)[i];
    assert b in multiset(Sort(st.bindings, BINDING_LOC));
    j := BindOrigin(EnvOf(elf, cfg, opts), RelasOf(elf), |st.image|, View(ImageBefore(elf, cfg)), b);
    BindingStands(elf, cfg, opts, st, j);
  }

  lemma {:induction false} PlaceOf(elf: Elf64, cfg: Config, opts: Options, st: State, j: nat) returns (i: nat)
    requires Ready(elf, cfg, opts) && ImageAfter(elf, cfg, opts, st) && Imported(elf, j)
    ensures i < |SortedBindings(st)| && Stands(elf, SortedBindings(st)[i], j)
  {
    hide WordsBacked, WordsApart, FilesSeparated, EnvOf, Locate, Internal, Target, Sort, Disjoint, SameMemory,
      ApplyAll, ImageBefore, BindingOf, Stands, Relocations, Symbols;
    var env, m := EnvOf(elf, cfg, opts), View(ImageBefore(elf, cfg));
    assert Resolves(env, RelasOf(elf)[j], |st.image|);
    BindingStands(elf, cfg, opts, st, j);
    BindMember(env, RelasOf(elf), |st.image|, m, j);
    var b := BindingOf(env, RelasOf(elf)[j], m);
    SortContents(st.bindings, BINDING_LOC);
    assert b in Sort(st.bindings, BINDING_LOC);
    i :| 0 <= i < |SortedBindings(st)| && SortedBindings(st)[i] == b;
  }

  /** Sorting by location sorts by address. */
  lemma {:induction false} LocationOrder(elf: Elf64, cfg: Config, opts: Options, j: nat, k: nat)
    requires Ready(elf, cfg, opts) && j < |RelasOf(elf)| && k < |RelasOf(elf)|
    ensures var env := EnvOf(elf, cfg, opts);
      && Locate(env.segs, env.slide, RelasOf(elf)[j].offset).Some?
          && Locate(env.segs, env.slide, RelasOf(elf)[k].offset).Some?
      && (LocLeq(Target(env, RelasOf(elf)[j]).loc, Target(env, RelasOf(elf)[k]).loc) ==>
           RelasOf(elf)[j].offset <= RelasOf(elf)[k].offset)
  {
    hide Segments, FilesSeparated, WordsBacked, WordsApart, Loads, Relocations, Locate;
    var p := WordHome(elf, cfg, opts, j);
    var q := WordHome(elf, cfg, opts, k);
    if p < q {
      LaterAbove(LoadsOf(elf), cfg.Slide(), p, q);
    }
  }

  lemma {:induction false} AddressesAscend(elf: Elf64, cfg: Config, opts: Options, st: State, i: nat, k: nat)
    requires Ready(elf, cfg, opts) && ImageAfter(elf, cfg, opts, st) && i < k < |SortedBindings(st)|
    ensures SortedBindings(st)[i].vaddr < SortedBindings(st)[k].vaddr
  {
    hide WordsBacked, WordsApart, FilesSeparated, EnvOf, Resolves, Internal, Target, Sort, Disjoint, SameMemory,
      ApplyAll, ImageBefore, Bindings, Imported, Locate, FileAddend, Relocations;
    var bs := SortedBindings(st);
    var p := EntryOf(elf, cfg, opts, st, i);
    var q := EntryOf(elf, cfg, opts, st, k);
    SortOrdered(st.bindings, BINDING_LOC);
    assert LocLeq(BINDING_LOC(bs[i]), BINDING_LOC(bs[k]));
    LocationOrder(elf, cfg, opts, p, q);
    DistinctLocs(elf, cfg, opts, |st.image|);
    BindsDistinct(EnvOf(elf, cfg, opts), RelasOf(elf), |st.image|, View(ImageBefore(elf, cfg)));
    SortNoRepeats(st.bindings, BINDING_LOC);
    assert p != q;
    RecordsApart(elf, p, q);
  }

  // ----- the two conditions are one -----

  lemma {:induction false} ClobberSeen(elf: Elf64, cfg: Config, opts: Options, st: State, k: nat, j: nat)
    requires Ready(elf, cfg, opts) && ImageAfter(elf, cfg, opts, st) && Clobbers(elf, k, j)
    ensures exists p: nat, q: nat :: Overtakes(SortedBindings(st), p, q)
  {
    hide Ready, ImageAfter, Imported, FileAddend, Sort, Relocations;
    InRange(elf, k, j);
    var bs := SortedBindings(st);
    var p := PlaceOf(elf, cfg, opts, st, k);
    var q := PlaceOf(elf, cfg, opts, st, j);
    if q < p {
      AddressesAscend(elf, cfg, opts, st, q, p);
    }
    forall l | p < l < q ensures bs[l].addend == 0 {
      var r := EntryOf(elf, cfg, opts, st, l);
      AddressesAscend(elf, cfg, opts, st, p, l);
      AddressesAscend(elf, cfg, opts, st, l, q);
      assert ImportBetween(elf, k, r, j);
    }
    assert Overtakes(bs, p, q);
  }

  lemma {:induction false} OvertakingSeen(elf: Elf64, cfg: Config, opts: Options, st: State, p: nat, q: nat)
      returns (k: nat, j: nat)
    requires Ready(elf, cfg, opts) && ImageAfter(elf, cfg, opts, st) && Overtakes(SortedBindings(st), p, q)
    ensures Clobbers(elf, k, j)
  {
    hide Ready, ImageAfter, Imported, FileAddend, Sort, Relocations;
    var bs := SortedBindings(st);
    k := EntryOf(elf, cfg, opts, st, p);
    j := EntryOf(elf, cfg, opts, st, q);
    AddressesAscend(elf, cfg, opts, st, p, q);
    forall l | 0 <= l < |RelasOf(elf)| && ImportBetween(elf, k, l, j) ensures FileAddend(elf, RelasOf(elf)[l]) == 0 {
      var i := PlaceOf(elf, cfg, opts, st, l);
      if i < p {
        AddressesAscend(elf, cfg, opts, st, i, p);
      } else if q < i {
        AddressesAscend(elf, cfg, opts, st, q, i);
      }
      assert p < i < q;
    }
  }

  /** Bind addends arrive exactly when the file keeps them: a condition on its records, words and symbols alone. */
  lemma {:induction false} ArriveIffKept(elf: Elf64, cfg: Config, opts: Options, st: State)
    requires Ready(elf, cfg, opts) && ImageAfter(elf, cfg, opts, st)
    ensures AddendsArrive(SortedBindings(st)) <==> AddendsKept(elf)
  {
    hide Ready, ImageAfter, Clobbers, Overtakes, AddendsArrive, Sort, Relocations;
    ArriveIff(SortedBindings(st));
    if k: nat, j: nat :| k < |RelasOf(elf)| && j < |RelasOf(elf)| && Clobbers(elf, k, j) {
      ClobberSeen(elf, cfg, opts, st, k, j);
    }
    if p: nat, q: nat :| Overtakes(SortedBindings(st), p, q) {
      var k, j := OvertakingSeen(elf, cfg, opts, st, p, q);
      InRange(elf, k, j);
    }
  }

  lemma {:induction false} InRange(elf: Elf64, k: nat, j: nat)
    requires Clobbers(elf, k, j)
    ensures k < |RelasOf(elf)| && j < |RelasOf(elf)|
  {
  }
}
