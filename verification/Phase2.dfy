/** Phase 2: the earlier translator, which places every load after a header page and leaves imports unresolved. */
module Phase2 {
  import opened Bytes
  import opened Wrappers
  import opened ElfReader
  import opened Layout
  import opened MachO
  import Phase3

  datatype Error =
    | NotAArch64
    | NotSharedObject
    | NoLoadSegments
    | NotFileBacked(vaddr: nat)
    | Unsupported(rtype: nat)
    | BadSymbol(index: nat)
    | WordOutsideImage
    | SlideBelowHeader
    | FieldTooWide
    | HeaderTooLarge

  datatype Setup = Setup(headerVm: nat, slide: nat)

  datatype Unresolved = Unresolved(offset: nat, rtype: nat, symbol: seq<byte>, addend: int)

  datatype State = State(image: seq<byte>, patched: Phase3.Counts, unresolved: seq<Unresolved>)

  // ----- layout -----

  /** Where the next load may start in the file: the header page comes first. */
  function Cursor(segs: seq<ImageSegment>): nat {
    if |segs| == 0 then PAGE else FileEnd(segs[|segs| - 1])
  }

  /** Every load is placed like Phase 3's later ones, the first right after the header page. */
  function Mapped(loads: seq<ProgramHeader>, slide: nat): (segs: seq<ImageSegment>)
    ensures |segs| == |loads|
  {
    if |loads| == 0 then []
    else
      var n := |loads| - 1;
      var front := Mapped(loads[..n], slide);
      front + [NextSegment(loads[n], Config(slide, 0), Cursor(front))]
  }

  lemma {:induction false} LoadsSnoc(phs: seq<ProgramHeader>, i: nat)
    requires i < |phs|
    ensures Loads(phs[..i + 1]) == Loads(phs[..i]) + if phs[i].ptype == 1 then [phs[i]] else []
  {
    assert phs[..i + 1][..i] == phs[..i];
  }

  lemma {:induction false} MappedSnoc(loads: seq<ProgramHeader>, ph: ProgramHeader, slide: nat)
    ensures var front := Mapped(loads, slide);
      var next := NextSegment(ph, Config(slide, 0), Cursor(front));
      Mapped(loads + [ph], slide) == front + [next] && Cursor(front + [next]) == FileEnd(next)
  {
    assert (loads + [ph])[..|loads|] == loads;
  }

  method MapLoads(elf: Elf64, slide: nat) returns (r: Result<seq<ImageSegment>, Error>)
    ensures r == if Loads(elf.programHeaders) == [] then Err(NoLoadSegments)
        else Ok(Mapped(Loads(elf.programHeaders), slide))
  {
    hide Align, Floor, MachProt, Mapped, Loads, NextSegment, FileEnd, Cursor;
    var cursor := PAGE;
    var result: seq<ImageSegment> := [];
    ghost var loads: seq<ProgramHeader> := [];
    NoLoads(slide);
    for i := 0 to |elf.programHeaders|
      invariant loads == Loads(elf.programHeaders[..i]) && result == Mapped(loads, slide)
      invariant cursor == Cursor(result)
    {
      var ph := elf.programHeaders[i];
      LoadsSnoc(elf.programHeaders, i);
      if ph.ptype != PT_LOAD {
        continue;
      }
      MappedSnoc(loads, ph, slide);
      NextIs(ph, slide, cursor);
      NextEnd(ph, Config(slide, 0), cursor);
      var vm := slide + ph.vaddr;
      var delta := vm - Floor(vm);
      var fileoff := Align(cursor);
      result := result + [ImageSegment(Floor(vm), Align(delta + ph.memsz), fileoff, delta + ph.filesz,
                                       MachProt(ph.flags),
                                       ph.vaddr, ph.offset, ph.filesz, ph.memsz, fileoff + delta)];
      cursor := Align(fileoff + delta + ph.filesz);
      loads := loads + [ph];
    }
    assert elf.programHeaders[..|elf.programHeaders|] == elf.programHeaders;
    if |result| == 0 {
      return Err(NoLoadSegments);
    }
    return Ok(result);
  }

  lemma {:induction false} NoLoads(slide: nat)
    ensures Loads([]) == [] && Mapped([], slide) == [] && Cursor([]) == PAGE
  {
  }

  lemma {:induction false} NextIs(ph: ProgramHeader, slide: nat, cursor: nat)
    ensures var vm := slide + ph.vaddr;
      var delta, fileoff := vm - Floor(vm), Align(cursor);
      NextSegment(ph, Config(slide, 0), cursor)
      == ImageSegment(Floor(vm), Align(delta + ph.memsz), fileoff, delta + ph.filesz, MachProt(ph.flags),
                      ph.vaddr, ph.offset, ph.filesz, ph.memsz, fileoff + delta)
  {
    hide Align, Floor, MachProt;
  }

  // ----- relocation -----

  function PatchWord(st: State, rel: Rela, at: nat, w: int): Result<State, Error> {
    if at + 8 > |st.image| then Err(WordOutsideImage)
    else Ok(State(PackInto(st.image, at, w), Phase3.CountPatched(st.patched, rel.rtype), st.unresolved))
  }

  /** One relocation record; an unresolved one does not look at the image. */
  function Step(env: Phase3.Env, st: State, rel: Rela): Result<State, Error>
    requires env.Valid()
  {
    match Locate(env.segs, env.slide, rel.offset)
    case None => Err(NotFileBacked(rel.offset))
    case Some(l) =>
      if rel.rtype == R_RELATIVE then PatchWord(st, rel, l.output, env.slide + rel.addend)
      else if !Phase3.Supported(rel.rtype) then Err(Unsupported(rel.rtype))
      else if rel.symbolIndex >= |env.symbols| then Err(BadSymbol(rel.symbolIndex))
      else
        var sym := env.symbols[rel.symbolIndex];
        if sym.shndx == SHN_UNDEF then
          Ok(st.(unresolved := st.unresolved + [Unresolved(rel.offset, rel.rtype, sym.name, rel.addend)]))
        else
          var value := env.slide + sym.value + rel.addend;
          if rel.rtype == R_ABS64 then
            if l.output + 8 > |st.image| then Err(WordOutsideImage)
            else PatchWord(st, rel, l.output, value + UnpackAt(st.image, l.output, 8))
          else PatchWord(st, rel, l.output, value)
  }

  function Relocate(env: Phase3.Env, st: State, rels: seq<Rela>): Result<State, Error>
    requires env.Valid()
  {
    if |rels| == 0 then Ok(st)
    else
      match Relocate(env, st, rels[..|rels| - 1])
      case Err(e) => Err(e)
      case Ok(prior) => Step(env, prior, rels[|rels| - 1])
  }

  lemma {:induction false} RelocateSnoc(env: Phase3.Env, st: State, rels: seq<Rela>, i: nat)
    requires env.Valid() && i < |rels| && Relocate(env, st, rels[..i]).Ok?
    ensures Relocate(env, st, rels[..i + 1]) == Step(env, Relocate(env, st, rels[..i]).value, rels[i])
    ensures Relocate(env, st, rels[..i + 1]).Err? ==> Relocate(env, st, rels) == Relocate(env, st, rels[..i + 1])
  {
    assert rels[..i + 1][..i] == rels[..i];
    if Relocate(env, st, rels[..i + 1]).Err? {
      RelocateErrStays(env, st, rels, i + 1);
    }
  }

  lemma {:induction false} RelocateErrStays(env: Phase3.Env, st: State, rels: seq<Rela>, i: nat)
    requires env.Valid() && i <= |rels| && Relocate(env, st, rels[..i]).Err?
    ensures Relocate(env, st, rels) == Relocate(env, st, rels[..i])
    decreases |rels|
  {
    if i == |rels| {
      assert rels[..i] == rels;
    } else {
      var front := rels[..|rels| - 1];
      assert front[..i] == rels[..i];
      RelocateErrStays(env, st, front, i);
    }
  }

  lemma {:induction false} RelocateNone(env: Phase3.Env, st: State, rels: seq<Rela>)
    requires env.Valid()
    ensures Relocate(env, st, rels[..0]) == Ok(st)
  {
  }

  method RunRelocations(env: Phase3.Env, copied: seq<byte>, rels: seq<Rela>) returns (r: Result<State, Error>)
    requires env.Valid()
    ensures r == Relocate(env, State(copied, Phase3.NoCounts(), []), rels)
  {
    hide Relocate, Locate, PackInto, UnpackAt;
    var image, patched, unresolved := copied, Phase3.NoCounts(), [];
    ghost var st0 := State(copied, Phase3.NoCounts(), []);
    RelocateNone(env, st0, rels);
    for i := 0 to |rels|
      invariant Relocate(env, st0, rels[..i]) == Ok(State(image, patched, unresolved))
    {
      var rel := rels[i];
      RelocateSnoc(env, st0, rels, i);
      var found := Locate(env.segs, env.slide, rel.offset);
      if found.None? {
        return Err(NotFileBacked(rel.offset));
      }
      var at := found.value.output;
      if rel.rtype == R_RELATIVE {
        if at + 8 > |image| {
          return Err(WordOutsideImage);
        }
        image := PackInto(image, at, env.slide + rel.addend);
        patched := patched.(relative := patched.relative + 1);
        continue;
      }
      if !Phase3.Supported(rel.rtype) {
        return Err(Unsupported(rel.rtype));
      }
      if rel.symbolIndex >= |env.symbols| {
        return Err(BadSymbol(rel.symbolIndex));
      }
      var sym := env.symbols[rel.symbolIndex];
      if sym.shndx == SHN_UNDEF {
        unresolved := unresolved + [Unresolved(rel.offset, rel.rtype, sym.name, rel.addend)];
        continue;
      }
      if at + 8 > |image| {
        return Err(WordOutsideImage);
      }
      var value := env.slide + sym.value + rel.addend;
      if rel.rtype == R_ABS64 {
        value := value + UnpackAt(image, at, 8);
        patched := patched.(abs64 := patched.abs64 + 1);
      } else if rel.rtype == R_GLOB_DAT {
        patched := patched.(globDat := patched.globDat + 1);
      } else {
        patched := patched.(jumpSlot := patched.jumpSlot + 1);
      }
      image := PackInto(image, at, value);
    }
    assert rels[..|rels|] == rels;
    return Ok(State(image, patched, unresolved));
  }

  // ----- the file -----

  datatype Output = Output(file: seq<byte>, segments: seq<ImageSegment>, patched: Phase3.Counts,
                           unresolved: seq<Unresolved>)

  function SegmentName(i: nat, seg: ImageSegment): Name16 {
    Padded(if seg.protection / 4 % 2 == 1 then "__ELF_TEXT"
           else if seg.protection / 2 % 2 == 1 then "__ELF_DATA" else "__ELF_" + Decimal(i))
  }

  function SegmentCommands(segs: seq<ImageSegment>): (r: seq<LoadCommand>)
    ensures |r| == |segs|
    ensures forall i :: 0 <= i < |segs| ==> r[i] == Segment(SegmentName(i, segs[i]), CommandOf(segs[i]), [])
  {
    seq(|segs|, i requires 0 <= i < |segs| => Segment(SegmentName(i, segs[i]), CommandOf(segs[i]), []))
  }

  function Commands(segs: seq<ImageSegment>, setup: Setup, install: seq<byte>,
                    minIos: (nat, nat, nat)): seq<LoadCommand>
    requires setup.headerVm <= setup.slide
  {
    [Segment(Padded("__HEADER"), SegmentCommand(setup.headerVm, setup.slide - setup.headerVm, 0, PAGE, 1), [])]
    + SegmentCommands(segs) + [LoadCommand.Dylib(install, true), BuildVersion(Version(minIos))]
  }

  function EnvOf(elf: Elf64, slide: nat): (env: Phase3.Env)
    ensures env.Valid()
  {
    var segs := Mapped(Loads(elf.programHeaders), slide);
    forall i | 0 <= i < |segs| ensures segs[i].vmaddr <= slide + segs[i].elfVaddr {
      MappedAt(Loads(elf.programHeaders), slide, i);
    }
    Phase3.Env(segs, slide, Symbols(elf), [])
  }

  function ImageBefore(elf: Elf64, slide: nat): seq<byte> {
    var segs := Mapped(Loads(elf.programHeaders), slide);
    Phase3.Copied(elf.data, segs, Zeros(Phase3.DataEnd(segs)))
  }

  function Relocated(elf: Elf64, slide: nat): Result<State, Error> {
    Relocate(EnvOf(elf, slide), State(ImageBefore(elf, slide), Phase3.NoCounts(), []),
             Relocations(elf.data, elf.sections))
  }

  function Translated(elf: Elf64, setup: Setup, install: seq<byte>, minIos: (nat, nat, nat)): Result<Output, Error> {
    var loads := Loads(elf.programHeaders);
    if elf.machine != EM_AARCH64 then Err(NotAArch64)
    else if elf.etype != ET_DYN then Err(NotSharedObject)
    else if loads == [] then Err(NoLoadSegments)
    else
      match Relocated(elf, setup.slide)
      case Err(e) => Err(e)
      case Ok(st) => Assemble(Mapped(loads, setup.slide), setup, install, minIos, st)
  }

  function Assemble(segs: seq<ImageSegment>, setup: Setup, install: seq<byte>, minIos: (nat, nat, nat),
                    st: State): Result<Output, Error> {
    if setup.slide < setup.headerVm then Err(SlideBelowHeader)
    else
      var cmds := Commands(segs, setup, install, minIos);
      if !AllFit(cmds) then Err(FieldTooWide)
      else
        var header := HeaderBytes(cmds, 0);
        if |header| > PAGE then Err(HeaderTooLarge)
        else Ok(Output(SliceAssign(st.image, 0, |header|, header), segs, st.patched, st.unresolved))
  }

  method Translate(elf: Elf64, setup: Setup, install: seq<byte>, minIos: (nat, nat, nat))
    returns (r: Result<Output, Error>)
    ensures r == Translated(elf, setup, install, minIos)
  {
    if elf.machine != EM_AARCH64 {
      return Err(NotAArch64);
    }
    if elf.etype != ET_DYN {
      return Err(NotSharedObject);
    }
    var mapped := MapLoads(elf, setup.slide);
    if mapped.Err? {
      return Err(mapped.error);
    }
    var env := EnvOf(elf, setup.slide);
    var copied := Phase3.CopyLoads(elf.data, env.segs);
    var rels := IterRelocations(elf);
    var relocated := RunRelocations(env, copied, rels);
    if relocated.Err? {
      return Err(relocated.error);
    }
    r := Assemble(mapped.value, setup, install, minIos, relocated.value);
  }

  lemma {:induction false} CursorAligned(segs: seq<ImageSegment>)
    ensures Cursor(segs) % PAGE == 0 && Align(Cursor(segs)) == Cursor(segs)
  {
    AlignAligned(Cursor(segs));
  }

  lemma {:induction false} MappedAt(loads: seq<ProgramHeader>, slide: nat, i: nat)
    requires i < |loads|
    ensures Placed(Mapped(loads, slide)[i], loads[i], slide)
    ensures Mapped(loads, slide)[i].fileoff == if i == 0 then PAGE else FileEnd(Mapped(loads, slide)[i - 1])
    ensures Mapped(loads, slide)[i].vmaddr == Floor(slide + loads[i].vaddr)
    ensures PagedTo(Mapped(loads, slide)[i], loads[i], slide)
    decreases |loads|
  {
    hide Placed, PagedTo, Align, Floor, MachProt, HasBit, FileEnd;
    var n := |loads| - 1;
    var front := Mapped(loads[..n], slide);
    if i < n {
      MappedAt(loads[..n], slide, i);
    } else {
      NextPlaced(loads[n], Config(slide, 0), Cursor(front));
      CursorAligned(front);
    }
  }

  /** Every segment of a load has that load's rights. */
  lemma {:induction false} MappedRights(loads: seq<ProgramHeader>, slide: nat, i: nat)
    requires i < |loads|
    ensures SameRights(Mapped(loads, slide)[i].protection, loads[i].flags)
    decreases |loads|
  {
    hide SameRights, Align, Floor, MachProt, HasBit, Cursor;
    var n := |loads| - 1;
    if i < n {
      MappedRights(loads[..n], slide, i);
    } else {
      ProtectionBits(loads[n].flags);
    }
  }
}
