/** Two small ELF files that meet every hypothesis: the same two imports, with addends 0, 8 and with addends 8, 0. */
module Example {
  import opened Bytes
  import opened Wrappers
  import opened ElfReader
  import opened Layout
  import opened MachO
  import opened Phase3
  import opened RelocatedImage
  import opened LoaderEquivalence
  import opened BindCondition
  import opened Phase3Correct
  import opened Phase4
  import opened Success
  import opened Phase2Relation
  import Dyld
  import Phase2

  // ----- the bytes -----

  function SymbolTable(): (r: seq<byte>)
    ensures |r| == 72
  {
    SymbolRecord(0, 0x12, 0, 0, 0, 0) + SymbolRecord(1, 0x12, 0, 0, 0, 0) + SymbolRecord(3, 0x12, 0, 0, 0, 0)
  }

  const NAMES: seq<byte> := [0, 97, 0, 98, 0, 0, 0, 0]

  /** Two records, three symbols, their names, and the two words the records relocate. */
  function Data(a: nat, b: nat): (r: seq<byte>)
    ensures |r| == 144
  {
    RelaRecord(0x80, R_GLOB_DAT, 1, a) + RelaRecord(0x88, R_GLOB_DAT, 2, b) + SymbolTable() + NAMES + Zeros(16)
  }

  function File(a: nat, b: nat): Elf64 {
    Elf64(EM_AARCH64, ET_DYN, Data(a, b), [ProgramHeader(PT_LOAD, 5, 0, 0, 144, 144)],
          [SectionHeader(SHT_RELA, 0, 48, 0, 24), SectionHeader(SHT_DYNSYM, 48, 72, 2, 24),
           SectionHeader(3, 120, 8, 0, 0)])
  }

  const CFG := Config(0, 0x10000)
  const OPTS := Options([], [115], [105], (12, 0, 0))

  // ----- reading them back -----

  lemma {:induction false} Blocks(a: nat, b: nat)
    ensures var data := Data(a, b);
      && data[0..24] == RelaRecord(0x80, R_GLOB_DAT, 1, a) && data[24..48] == RelaRecord(0x88, R_GLOB_DAT, 2, b)
      && data[48..72] == SymbolRecord(0, 0x12, 0, 0, 0, 0) && data[72..96] == SymbolRecord(1, 0x12, 0, 0, 0, 0)
      && data[96..120] == SymbolRecord(3, 0x12, 0, 0, 0, 0)
  {
    hide RelaRecord, SymbolRecord, Zeros;
    var data := Data(a, b);
    assert data[48..120] == SymbolTable();
    assert data[48..72] == data[48..120][..24] && data[72..96] == data[48..120][24..48]
        && data[96..120] == data[48..120][48..];
  }

  lemma {:induction false} TheLoad(a: nat, b: nat)
    ensures LoadsOf(File(a, b)) == [ProgramHeader(PT_LOAD, 5, 0, 0, 144, 144)]
  {
    hide Data;
    var phs := File(a, b).programHeaders;
    assert phs[..0] == [] && Loads(phs[..0]) == [];
  }

  lemma {:induction false} TheRecords(a: nat, b: nat)
    requires a < TWO64 / 2 && b < TWO64 / 2
    ensures RelasOf(File(a, b)) == [Rela(0x80, R_GLOB_DAT, 1, a), Rela(0x88, R_GLOB_DAT, 2, b)]
  {
    hide RelaRecord, Data, RelaAt;
    var data, secs := Data(a, b), File(a, b).sections;
    Blocks(a, b);
    RelaRoundTrip(data, 0, Rela(0x80, R_GLOB_DAT, 1, a));
    RelaRoundTrip(data, 24, Rela(0x88, R_GLOB_DAT, 2, b));
    assert RelasFrom(data, 48, 48, 24) == [];
    assert RelasFrom(data, 24, 48, 24) == [RelaAt(data, 24)];
    assert SectionRelas(data, secs[0]) == [RelaAt(data, 0), RelaAt(data, 24)];
    assert SectionRelas(data, secs[1]) == [] && SectionRelas(data, secs[2]) == [];
    assert secs[..3] == secs && secs[..3][..2] == secs[..2] && secs[..2][..1] == secs[..1] && secs[..1][..0] == [];
    assert Relocations(data, secs[..1]) == SectionRelas(data, secs[0]);
    assert Relocations(data, secs[..2]) == SectionRelas(data, secs[0]);
  }

  lemma {:induction false} SymbolRead(data: seq<byte>, strtab: seq<byte>, off: nat, name: nat)
    requires name < 8 && off + 24 <= |data| && data[off..off + 24] == SymbolRecord(name, 0x12, 0, 0, 0, 0)
    ensures SymbolAt(data, strtab, off).shndx == SHN_UNDEF && |SymbolAt(data, strtab, off).name| <= |strtab|
  {
    hide SymbolRecord, CStringAt, SymbolAt;
    SymbolRoundTrip(data, strtab, off, name, 0x12, 0, 0, 0, 0);
    CStringMeaning(strtab, name);
  }

  lemma {:induction false} TheSymbols(a: nat, b: nat)
    ensures |Symbols(File(a, b))| == 3
    ensures forall i :: 0 <= i < 3 ==> Symbols(File(a, b))[i].shndx == SHN_UNDEF && |Symbols(File(a, b))[i].name| <= 8
  {
    hide SymbolRecord, Data, SymbolAt, RelaRecord;
    var data, secs := Data(a, b), File(a, b).sections;
    var strtab := Slice(data, 120, 128);
    Blocks(a, b);
    SymbolRead(data, strtab, 48, 0);
    SymbolRead(data, strtab, 72, 1);
    SymbolRead(data, strtab, 96, 3);
    assert FirstDynsym(secs, 0) == 1;
    assert SymbolsFrom(data, strtab, 120, 120, 24) == [];
    assert SymbolsFrom(data, strtab, 96, 120, 24) == [SymbolAt(data, strtab, 96)];
    assert SymbolsFrom(data, strtab, 72, 120, 24) == [SymbolAt(data, strtab, 72), SymbolAt(data, strtab, 96)];
    assert Symbols(File(a, b)) == [SymbolAt(data, strtab, 48), SymbolAt(data, strtab, 72), SymbolAt(data, strtab, 96)];
  }

  // ----- the hypotheses hold -----

  lemma {:induction false} IsReady(a: nat, b: nat)
    requires a < TWO64 / 2 && b < TWO64 / 2
    ensures Ready(File(a, b), CFG, OPTS)
  {
    hide Loads, Relocations, Data;
    TheLoad(a, b);
    TheRecords(a, b);
    var loads, rels := LoadsOf(File(a, b)), RelasOf(File(a, b));
    assert Accepted(loads);
    assert WordIn(loads[0], rels[0].offset) && WordIn(loads[0], rels[1].offset);
    assert WordsBacked(loads, rels);
  }

  lemma {:induction false} OneSegment(elf: Elf64)
    requires LoadsOf(elf) == [ProgramHeader(PT_LOAD, 5, 0, 0, 144, 144)]
    ensures var segs := Segments(LoadsOf(elf), CFG);
      NoOverlap(segs) && DataEnd(segs) == 0x14000 && Align(VmEnd(segs)) == 0x14000
  {
    hide Loads;
  }

  lemma {:induction false} IsModest(a: nat, b: nat)
    requires a < TWO64 / 2 && b < TWO64 / 2
    ensures Accepted(LoadsOf(File(a, b))) && Modest(File(a, b), CFG, OPTS, 8)
  {
    hide Loads, Relocations, Data, Symbols, Segments, DataEnd, VmEnd, Align, Or;
    TheLoad(a, b);
    TheRecords(a, b);
    TheSymbols(a, b);
    OneSegment(File(a, b));
    TwelveFits();
  }

  lemma {:induction false} TwelveFits()
    ensures Version(OPTS.minIos) == 0xC0000
  {
  }

  lemma {:induction false} Phase2Fits(elf: Elf64)
    requires LoadsOf(elf) == [ProgramHeader(PT_LOAD, 5, 0, 0, 144, 144)]
    ensures SegmentFits(HeaderSegment(SETUP)) && |Phase2.Mapped(LoadsOf(elf), SETUP.slide)| == 1
    ensures SegmentFits(CommandOf(Phase2.Mapped(LoadsOf(elf), SETUP.slide)[0]))
  {
    hide Loads;
  }

  const SETUP := Phase2.Setup(0x1_0000_0000, 0x1_0001_0000)

  /** All three phases succeed on the file; no hypothesis of the theorems about them is missing. */
  lemma {:induction false} Translates(a: nat, b: nat, trie: seq<byte>)
    requires a < TWO64 / 2 && b < TWO64 / 2 && |trie| < 0x8000_0000
    ensures Ready(File(a, b), CFG, OPTS)
    ensures Phase3.Translated(File(a, b), CFG, OPTS).Ok?
    ensures var out := Phase3.Translated(File(a, b), CFG, OPTS).value;
      out.dylib.info.DyldInfo? && out.linkeditOff <= out.dylib.info.bindOff && Rebuilt(out, CFG, OPTS, trie).Ok?
    ensures BothAccept(File(a, b), CFG, OPTS, SETUP, [])
  {
    hide Ready, Loads, Relocations, Data, Symbols, Phase3.Translated, Phase2.Translated, Rebuilt, Sane, HeaderSize,
      Segments, Phase2.Mapped, SegmentFits, TranslationFits, Modest, ExportOff, DataEnd;
    IsReady(a, b);
    TheLoad(a, b);
    TheRecords(a, b);
    TheSymbols(a, b);
    IsModest(a, b);
    OneSegment(File(a, b));
    ModestFits(File(a, b), CFG, OPTS, 8);
    TranslatesIff(File(a, b), CFG, OPTS);
    ModestExport(File(a, b), CFG, OPTS, 8);
    RebuildsIff(File(a, b), CFG, OPTS, trie);
    ReadyIsSane(File(a, b), CFG, OPTS);
    Phase2Fits(File(a, b));
    Phase2SucceedsIff(File(a, b), CFG, OPTS, SETUP, []);
  }

  // ----- and the two sides of the condition -----

  /** Addends 0, 8 are kept; 8, 0 are not. */
  lemma {:induction false} KeptIff(a: nat, b: nat)
    requires a < TWO64 / 2 && b < TWO64 / 2
    ensures AddendsKept(File(a, b)) <==> a == 0 || b != 0
  {
    hide Relocations, Data, Symbols, Loads;
    TheRecords(a, b);
    TheSymbols(a, b);
    var elf := File(a, b);
    assert Imported(elf, 0) && Imported(elf, 1);
    assert forall l :: 0 <= l < 2 ==> !ImportBetween(elf, 0, l, 1);
    assert Clobbers(elf, 0, 1) <==> a != 0 && b == 0;
    assert forall k, j :: 0 <= k < 2 && 0 <= j < 2 && Clobbers(elf, k, j) ==> k == 0 && j == 1;
  }

  /** The memory dyld makes of the translated file, if both accept it. */
  function Loaded(elf: Elf64, slide: int, lookup: Dyld.Lookup): Option<Memory> {
    match Phase3.Translated(elf, CFG, OPTS)
    case Err(_) => None
    case Ok(out) => Dyld.LoadFile(out.dylib.file, slide, lookup)
  }

  lemma {:induction false} LoadsRightIff(a: nat, b: nat, slide: int, lookup: Dyld.Lookup)
    requires a < TWO64 / 2 && b < TWO64 / 2
    ensures Loaded(File(a, b), slide, lookup).Some?
    ensures SameProgram(File(a, b), slide + CFG.Slide(), Loaded(File(a, b), slide, lookup).value,
                        AndroidProgram(File(a, b), OPTS, slide + CFG.Slide(), lookup))
       <==> a == 0 || b != 0
  {
    hide Ready, Loads, File, Phase3.Translated, SameProgram, AndroidProgram, Dyld.LoadFile, AddendsKept, NoOverlap,
      Segments, Rebuilt, BothAccept;
    Translates(a, b, []);
    TheLoad(a, b);
    OneSegment(File(a, b));
    Phase3Equivalence(File(a, b), CFG, OPTS, slide, lookup);
    KeptIff(a, b);
  }

  /**
   At every slide, and wherever the symbols are, the dylib of the first file loads right and that of the second loads
   wrong.
   */
  lemma {:induction false} BothSides(slide: int, lookup: Dyld.Lookup)
    ensures Loaded(File(0, 8), slide, lookup).Some? && Loaded(File(8, 0), slide, lookup).Some?
    ensures SameProgram(File(0, 8), slide + CFG.Slide(), Loaded(File(0, 8), slide, lookup).value,
                        AndroidProgram(File(0, 8), OPTS, slide + CFG.Slide(), lookup))
    ensures !SameProgram(File(8, 0), slide + CFG.Slide(), Loaded(File(8, 0), slide, lookup).value,
                         AndroidProgram(File(8, 0), OPTS, slide + CFG.Slide(), lookup))
  {
    hide File, SameProgram, AndroidProgram, Loaded;
    LoadsRightIff(0, 8, slide, lookup);
    LoadsRightIff(8, 0, slide, lookup);
  }
}
