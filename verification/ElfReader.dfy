/** The parts of an ELF64 file the translators read: headers, dynamic symbols and RELA records. */
module ElfReader {
  import opened Bytes

  const EM_AARCH64 := 183
  const ET_DYN := 3
  const PT_LOAD := 1
  const SHT_RELA := 4
  const SHT_DYNSYM := 11
  const SHN_UNDEF := 0

  const R_ABS64 := 257
  const R_GLOB_DAT := 1025
  const R_JUMP_SLOT := 1026
  const R_RELATIVE := 1027

  datatype ProgramHeader = ProgramHeader(ptype: nat, flags: nat, offset: nat, vaddr: nat, filesz: nat, memsz: nat)
  datatype SectionHeader = SectionHeader(shType: nat, offset: nat, size: nat, link: nat, entsize: nat)
  datatype Elf64 = Elf64(
    machine: nat, etype: nat, data: seq<byte>, programHeaders: seq<ProgramHeader>, sections: seq<SectionHeader>)
  datatype Symbol = Symbol(name: seq<byte>, info: nat, shndx: nat, value: nat)
  datatype Rela = Rela(offset: nat, rtype: nat, symbolIndex: nat, addend: int)

  function RecordSize(sec: SectionHeader): (n: nat)
    ensures n > 0
  {
    if sec.entsize == 0 then 24 else sec.entsize
  }

  function RelaAt(data: seq<byte>, off: nat): Rela
    requires off + 24 <= |data|
  {
    var info := UnpackAt(data, off + 8, 8);
    Rela(UnpackAt(data, off, 8), info % 0x1_0000_0000, info / 0x1_0000_0000, Signed64(UnpackAt(data, off + 16, 8)))
  }

  /** The records a reader visits: it stops at the first one that does not fit the file. */
  function RelasFrom(data: seq<byte>, off: nat, end: nat, step: nat): seq<Rela>
    requires step > 0
    decreases end - off
  {
    if off >= end || off + 24 > |data| then []
    else [RelaAt(data, off)] + RelasFrom(data, off + step, end, step)
  }

  function SectionRelas(data: seq<byte>, sec: SectionHeader): seq<Rela> {
    if sec.shType != SHT_RELA then []
    else RelasFrom(data, sec.offset, sec.offset + sec.size, RecordSize(sec))
  }

  /** Every RELA record of the file, in section order. */
  function Relocations(data: seq<byte>, sections: seq<SectionHeader>): seq<Rela> {
    if |sections| == 0 then []
    else Relocations(data, sections[..|sections| - 1]) + SectionRelas(data, sections[|sections| - 1])
  }

  /** The bytes up to the next NUL, or to the end of the buffer; empty outside it. */
  function CStringAt(buf: seq<byte>, off: nat): (s: seq<byte>)
    ensures forall i :: 0 <= i < |s| ==> s[i] != 0
    decreases |buf| - off
  {
    if off >= |buf| || buf[off] == 0 then [] else [buf[off]] + CStringAt(buf, off + 1)
  }

  function SymbolAt(data: seq<byte>, strtab: seq<byte>, off: nat): Symbol
    requires off + 24 <= |data|
  {
    Symbol(CStringAt(strtab, UnpackAt(data, off, 4)), UnpackAt(data, off + 4, 1), UnpackAt(data, off + 6, 2),
           UnpackAt(data, off + 8, 8))
  }

  function SymbolsFrom(data: seq<byte>, strtab: seq<byte>, off: nat, end: nat, step: nat): seq<Symbol>
    requires step > 0
    decreases end - off
  {
    if off >= end || off + 24 > |data| then []
    else [SymbolAt(data, strtab, off)] + SymbolsFrom(data, strtab, off + step, end, step)
  }

  function FirstDynsym(sections: seq<SectionHeader>, i: nat): (k: nat)
    requires i <= |sections|
    ensures i <= k <= |sections|
    ensures k < |sections| ==> sections[k].shType == SHT_DYNSYM
    ensures forall j :: i <= j < k ==> sections[j].shType != SHT_DYNSYM
    decreases |sections| - i
  {
    if i == |sections| || sections[i].shType == SHT_DYNSYM then i else FirstDynsym(sections, i + 1)
  }

  function Symbols(elf: Elf64): seq<Symbol> {
    var k := FirstDynsym(elf.sections, 0);
    if k == |elf.sections| || elf.sections[k].link >= |elf.sections| then []
    else
      var sec, str := elf.sections[k], elf.sections[elf.sections[k].link];
      SymbolsFrom(elf.data, Slice(elf.data, str.offset, str.offset + str.size),
                  sec.offset, sec.offset + sec.size, RecordSize(sec))
  }

  method DynamicSymbols(elf: Elf64) returns (out: seq<Symbol>)
    ensures out == Symbols(elf)
  {
    hide SymbolAt;
    var k := FirstDynsym(elf.sections, 0);
    if k == |elf.sections| || elf.sections[k].link >= |elf.sections| {
      return [];
    }
    var sec, str := elf.sections[k], elf.sections[elf.sections[k].link];
    var strtab := Slice(elf.data, str.offset, str.offset + str.size);
    var off, end, step := sec.offset, sec.offset + sec.size, RecordSize(sec);
    out := [];
    while off < end && off + 24 <= |elf.data|
      invariant out + SymbolsFrom(elf.data, strtab, off, end, step) == Symbols(elf)
      decreases end - off
    {
      out := out + [SymbolAt(elf.data, strtab, off)];
      off := off + step;
    }
  }

  method SectionRecords(data: seq<byte>, sec: SectionHeader) returns (out: seq<Rela>)
    requires sec.shType == SHT_RELA
    ensures out == SectionRelas(data, sec)
  {
    hide RelaAt;
    var off, end, step := sec.offset, sec.offset + sec.size, RecordSize(sec);
    out := [];
    while off < end && off + 24 <= |data|
      invariant out + RelasFrom(data, off, end, step) == SectionRelas(data, sec)
      decreases end - off
    {
      out := out + [RelaAt(data, off)];
      off := off + step;
    }
  }

  lemma {:induction false} RelocationsSnoc(data: seq<byte>, sections: seq<SectionHeader>, i: nat)
    requires i < |sections|
    ensures Relocations(data, sections[..i + 1]) == Relocations(data, sections[..i]) + SectionRelas(data, sections[i])
  {
    assert sections[..i + 1][..i] == sections[..i];
  }

  lemma {:induction false} NoRecords(data: seq<byte>, sec: SectionHeader)
    requires sec.shType != SHT_RELA
    ensures SectionRelas(data, sec) == []
  {
  }

  method IterRelocations(elf: Elf64) returns (out: seq<Rela>)
    ensures out == Relocations(elf.data, elf.sections)
  {
    hide SectionRelas;
    out := [];
    for i := 0 to |elf.sections|
      invariant out == Relocations(elf.data, elf.sections[..i])
    {
      RelocationsSnoc(elf.data, elf.sections, i);
      var sec := elf.sections[i];
      if sec.shType == SHT_RELA {
        var here := SectionRecords(elf.data, sec);
        out := out + here;
      } else {
        NoRecords(elf.data, sec);
      }
    }
    assert elf.sections[..|elf.sections|] == elf.sections;
  }

  function CountType(rels: seq<Rela>, t: nat): nat {
    if |rels| == 0 then 0
    else CountType(rels[..|rels| - 1], t) + if rels[|rels| - 1].rtype == t then 1 else 0
  }

  /** A counter agrees with a list of records: absent types read as zero, and no zero is stored. */
  ghost predicate Tallies(counts: map<nat, nat>, rels: seq<Rela>) {
    forall t: nat :: CountType(rels, t) == (if t in counts then counts[t] else 0) && (t in counts ==> counts[t] > 0)
  }

  function Bump(counts: map<nat, nat>, t: nat): map<nat, nat> {
    counts[t := (if t in counts then counts[t] else 0) + 1]
  }

  lemma {:induction false} TalliesSnoc(counts: map<nat, nat>, rels: seq<Rela>, rel: Rela)
    requires Tallies(counts, rels)
    ensures Tallies(Bump(counts, rel.rtype), rels + [rel])
  {
    assert (rels + [rel])[..|rels|] == rels;
  }

  function RelaTypeAt(data: seq<byte>, off: nat): (t: nat)
    requires off + 24 <= |data|
    ensures t == RelaAt(data, off).rtype
  {
    UnpackAt(data, off + 8, 8) % 0x1_0000_0000
  }

  lemma {:induction false} TakeRecord(before: seq<Rela>, data: seq<byte>, off: nat, end: nat, step: nat)
    requires step > 0
    ensures off >= end || off + 24 > |data| ==> before + RelasFrom(data, off, end, step) == before
    ensures off < end && off + 24 <= |data| ==>
      before + RelasFrom(data, off, end, step) == before + [RelaAt(data, off)] + RelasFrom(data, off + step, end, step)
  {
  }

  method TallySection(counts: map<nat, nat>, data: seq<byte>, sec: SectionHeader, ghost done: seq<Rela>)
    returns (tally: map<nat, nat>)
    requires sec.shType == SHT_RELA && Tallies(counts, done)
    ensures Tallies(tally, done + SectionRelas(data, sec))
  {
    hide RelaAt, RelaTypeAt, Tallies, RelasFrom, Bump;
    var off, end, step := sec.offset, sec.offset + sec.size, RecordSize(sec);
    ghost var all := done + SectionRelas(data, sec);
    tally := counts;
    ghost var seen := done;
    while off < end && off + 24 <= |data|
      invariant seen + RelasFrom(data, off, end, step) == all
      invariant Tallies(tally, seen)
      decreases end - off
    {
      TakeRecord(seen, data, off, end, step);
      TalliesSnoc(tally, seen, RelaAt(data, off));
      tally := Bump(tally, RelaTypeAt(data, off));
      seen := seen + [RelaAt(data, off)];
      off := off + step;
    }
    TakeRecord(seen, data, off, end, step);
  }

  /** The reader's own tally of relocation types, kept record by record while it scans the sections. */
  method RelocationCounts(elf: Elf64) returns (counts: map<nat, nat>)
    ensures Tallies(counts, Relocations(elf.data, elf.sections))
  {
    hide SectionRelas;
    counts := map[];
    for i := 0 to |elf.sections|
      invariant Tallies(counts, Relocations(elf.data, elf.sections[..i]))
    {
      RelocationsSnoc(elf.data, elf.sections, i);
      var sec := elf.sections[i];
      if sec.shType == SHT_RELA {
        counts := TallySection(counts, elf.data, sec, Relocations(elf.data, elf.sections[..i]));
      } else {
        NoRecords(elf.data, sec);
        assert Relocations(elf.data, elf.sections[..i]) + [] == Relocations(elf.data, elf.sections[..i]);
      }
    }
    assert elf.sections[..|elf.sections|] == elf.sections;
  }

  // ----- records as an ELF file lays them out -----

  /** Elf64_Rela: r_offset, r_info with the symbol in its upper half, r_addend in two's complement. */
  function RelaRecord(offset: nat, rtype: nat, symbolIndex: nat, addend: int): (r: seq<byte>)
    ensures |r| == 24
  {
    PackLE(offset, 8) + PackLE(symbolIndex * 0x1_0000_0000 + rtype, 8) + PackLE(addend, 8)
  }

  /** Elf64_Sym: st_name, st_info, st_other, st_shndx, st_value, st_size. */
  function SymbolRecord(name: nat, info: byte, other: byte, shndx: nat, value: nat, size: nat): (r: seq<byte>)
    ensures |r| == 24
  {
    PackLE(name, 4) + [info, other] + PackLE(shndx, 2) + PackLE(value, 8) + PackLE(size, 8)
  }

  lemma {:induction false} Part(data: seq<byte>, off: nat, record: seq<byte>, at: nat, n: nat)
    requires off + |record| <= |data| && data[off..off + |record|] == record && at + n <= |record|
    ensures data[off + at..off + at + n] == record[at..at + n]
  {
    var x, y := data[off + at..off + at + n], record[at..at + n];
    forall i | 0 <= i < n ensures x[i] == y[i] {
      assert data[off..off + |record|][at + i] == record[at + i];
    }
  }

  /** A RELA record of any type, symbol and signed addend reads back as itself. */
  lemma {:induction false} RelaRoundTrip(data: seq<byte>, off: nat, rel: Rela)
    requires rel.offset < TWO64 && rel.rtype < 0x1_0000_0000 && rel.symbolIndex < 0x1_0000_0000
    requires -(TWO64 / 2) <= rel.addend < TWO64 / 2 && off + 24 <= |data|
    requires data[off..off + 24] == RelaRecord(rel.offset, rel.rtype, rel.symbolIndex, rel.addend)
    ensures RelaAt(data, off) == rel
  {
    hide PackLE, UnpackLE, Pow256;
    Pow256Is64();
    var record, info := data[off..off + 24], rel.symbolIndex * 0x1_0000_0000 + rel.rtype;
    Part(data, off, record, 0, 8);
    Part(data, off, record, 8, 8);
    Part(data, off, record, 16, 8);
    UnpackPack(rel.offset, 8);
    UnpackPack(info, 8);
    UnpackPack(rel.addend, 8);
    assert record[0..8] == PackLE(rel.offset, 8) && record[8..16] == PackLE(info, 8)
        && record[16..24] == PackLE(rel.addend, 8);
    assert Signed64(rel.addend % TWO64) == rel.addend;
    assert info / 0x1_0000_0000 == rel.symbolIndex && info % 0x1_0000_0000 == rel.rtype;
  }

  lemma {:induction false} OneByte(b: byte)
    ensures UnpackLE([b]) == b
  {
    assert [b][1..] == [];
  }

  /** A symbol record reads back its own info, section and value; st_other and st_size are not read. */
  lemma {:induction false} SymbolRoundTrip(data: seq<byte>, strtab: seq<byte>, off: nat, name: nat, info: byte,
                                           other: byte, shndx: nat, value: nat, size: nat)
    requires name < 0x1_0000_0000 && shndx < 0x1_0000 && value < TWO64 && off + 24 <= |data|
    requires data[off..off + 24] == SymbolRecord(name, info, other, shndx, value, size)
    ensures SymbolAt(data, strtab, off) == Symbol(CStringAt(strtab, name), info, shndx, value)
  {
    hide PackLE, UnpackLE, CStringAt;
    Pow256Is64();
    assert Pow256(2) == 0x1_0000 && Pow256(4) == 0x1_0000_0000;
    var record := data[off..off + 24];
    Part(data, off, record, 0, 4);
    Part(data, off, record, 4, 1);
    Part(data, off, record, 6, 2);
    Part(data, off, record, 8, 8);
    OneByte(info);
    UnpackPack(name, 4);
    UnpackPack(shndx, 2);
    UnpackPack(value, 8);
    assert record[0..4] == PackLE(name, 4) && record[4..5] == [info] && record[6..8] == PackLE(shndx, 2)
        && record[8..16] == PackLE(value, 8);
  }

  /** A name is the bytes from its offset up to the first NUL, or to the end of the table if there is none. */
  lemma {:induction false} CStringMeaning(buf: seq<byte>, off: nat)
    ensures off >= |buf| ==> CStringAt(buf, off) == []
    ensures off < |buf| ==>
      var end := off + |CStringAt(buf, off)|;
      && end <= |buf| && CStringAt(buf, off) == buf[off..end] && 0 !in buf[off..end]
      && (end == |buf| || buf[end] == 0)
    decreases |buf| - off
  {
    if off < |buf| && buf[off] != 0 {
      CStringMeaning(buf, off + 1);
    }
  }

  lemma {:induction false} Stride(i: nat, step: nat)
    requires i > 0
    ensures i * step == step + (i - 1) * step
  {
  }

  /** Record i of a section is the one i strides in, and the list ends where the next would not begin or not fit. */
  lemma {:induction false} RelasAt(data: seq<byte>, off: nat, end: nat, step: nat, i: nat)
    requires step > 0 && i <= |RelasFrom(data, off, end, step)|
    ensures var at := off + i * step;
      if i < |RelasFrom(data, off, end, step)|
      then at < end && at + 24 <= |data| && RelasFrom(data, off, end, step)[i] == RelaAt(data, at)
      else at >= end || at + 24 > |data|
    decreases i
  {
    hide RelaAt;
    if i > 0 {
      RelasAt(data, off + step, end, step, i - 1);
      Stride(i, step);
    }
  }

  lemma {:induction false} SymbolsAt(data: seq<byte>, strtab: seq<byte>, off: nat, end: nat, step: nat, i: nat)
    requires step > 0 && i <= |SymbolsFrom(data, strtab, off, end, step)|
    ensures var at, r := off + i * step, SymbolsFrom(data, strtab, off, end, step);
      if i < |r| then at < end && at + 24 <= |data| && r[i] == SymbolAt(data, strtab, at)
      else at >= end || at + 24 > |data|
    decreases i
  {
    hide SymbolAt;
    if i > 0 {
      SymbolsAt(data, strtab, off + step, end, step, i - 1);
      Stride(i, step);
    }
  }

  /** The symbols of a file: the records of its first dynamic symbol table, named from the table that one links to. */
  lemma {:induction false} SymbolTable(elf: Elf64, k: nat, i: nat)
    requires k < |elf.sections| && elf.sections[k].shType == 11 && elf.sections[k].link < |elf.sections|
    requires forall j :: 0 <= j < k ==> elf.sections[j].shType != 11
    requires i <= |Symbols(elf)|
    ensures var sec, names := elf.sections[k], elf.sections[elf.sections[k].link];
      var strtab := Slice(elf.data, names.offset, names.offset + names.size);
      var at := sec.offset + i * (if sec.entsize == 0 then 24 else sec.entsize);
      if i < |Symbols(elf)|
      then at < sec.offset + sec.size && at + 24 <= |elf.data| && Symbols(elf)[i] == SymbolAt(elf.data, strtab, at)
      else at >= sec.offset + sec.size || at + 24 > |elf.data|
  {
    hide SymbolAt, SymbolsFrom, Slice;
    assert FirstDynsym(elf.sections, 0) == k;
    var sec, names := elf.sections[k], elf.sections[elf.sections[k].link];
    SymbolsAt(elf.data, Slice(elf.data, names.offset, names.offset + names.size), sec.offset, sec.offset + sec.size,
              RecordSize(sec), i);
  }

  lemma {:induction false} SectionTable(data: seq<byte>, sec: SectionHeader, i: nat)
    requires sec.shType == 4 && i <= |SectionRelas(data, sec)|
    ensures var at := sec.offset + i * (if sec.entsize == 0 then 24 else sec.entsize);
      if i < |SectionRelas(data, sec)|
      then at < sec.offset + sec.size && at + 24 <= |data| && SectionRelas(data, sec)[i] == RelaAt(data, at)
      else at >= sec.offset + sec.size || at + 24 > |data|
  {
    hide RelaAt, RelasFrom;
    RelasAt(data, sec.offset, sec.offset + sec.size, RecordSize(sec), i);
  }
}
