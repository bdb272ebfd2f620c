/** Phase 3: static ELF relocations become patched words plus dyld rebase and bind programs. */
module Phase3 {
  import opened Bytes
  import opened Wrappers
  import opened ElfReader
  import opened Layout
  import opened Sorting
  import opened Fixups
  import opened MachO

  datatype Error =
    | LayoutFailed(layout: LayoutError)
    | NotAArch64
    | NotSharedObject
    | NotFileBacked(vaddr: nat)
    | Unsupported(rtype: nat)
    | BadSymbol(index: nat)
    | WordOutsideImage
    | FixupFailed(fixup: FixupError)
    | FieldTooWide
    | HeaderTooLarge

  datatype Counts = Counts(relative: nat, abs64: nat, globDat: nat, jumpSlot: nat) {
    function Total(): nat { relative + abs64 + globDat + jumpSlot }
  }

  datatype Env = Env(segs: seq<ImageSegment>, slide: nat, symbols: seq<Symbol>, prefix: seq<byte>) {
    predicate Valid() {
      forall i :: 0 <= i < |segs| ==> segs[i].vmaddr <= slide + segs[i].elfVaddr
    }
  }

  datatype State = State(image: seq<byte>, rebases: seq<Loc>, bindings: seq<Binding>, patched: Counts)

  function NoCounts(): Counts { Counts(0, 0, 0, 0) }

  predicate Supported(t: nat) { t == R_ABS64 || t == R_GLOB_DAT || t == R_JUMP_SLOT }

  function CountPatched(c: Counts, t: nat): Counts {
    if t == R_RELATIVE then c.(relative := c.relative + 1)
    else if t == R_ABS64 then c.(abs64 := c.abs64 + 1)
    else if t == R_GLOB_DAT then c.(globDat := c.globDat + 1)
    else c.(jumpSlot := c.jumpSlot + 1)
  }

  function PatchWord(st: State, rel: Rela, l: Location, w: int): Result<State, Error> {
    if l.output + 8 > |st.image| then Err(WordOutsideImage)
    else Ok(State(PackInto(st.image, l.output, w), st.rebases + [l.loc], st.bindings,
      CountPatched(st.patched, rel.rtype)))
  }

  /** One relocation record. */
  function Step(env: Env, st: State, rel: Rela): Result<State, Error>
    requires env.Valid()
  {
    match Locate(env.segs, env.slide, rel.offset)
    case None => Err(NotFileBacked(rel.offset))
    case Some(l) =>
      if rel.rtype == R_RELATIVE then PatchWord(st, rel, l, env.slide + rel.addend)
      else if !Supported(rel.rtype) then Err(Unsupported(rel.rtype))
      else if rel.symbolIndex >= |env.symbols| then Err(BadSymbol(rel.symbolIndex))
      else
        var sym := env.symbols[rel.symbolIndex];
        if sym.shndx == SHN_UNDEF then
          if l.output + 8 > |st.image| then Err(WordOutsideImage)
          else
            var addend := rel.addend + if rel.rtype == R_ABS64 then UnpackAt(st.image, l.output, 8) else 0;
            Ok(st.(bindings := st.bindings + [Binding(rel.offset, rel.rtype, sym.name, env.prefix + sym.name,
                                                      sym.info % 16, l.loc, addend)]))
        else
          var value := env.slide + sym.value + rel.addend;
          if rel.rtype == R_ABS64 then
            if l.output + 8 > |st.image| then Err(WordOutsideImage)
            else PatchWord(st, rel, l, value + UnpackAt(st.image, l.output, 8))
          else PatchWord(st, rel, l, value)
  }

  function Relocate(env: Env, st: State, rels: seq<Rela>): Result<State, Error>
    requires env.Valid()
  {
    if |rels| == 0 then Ok(st)
    else
      match Relocate(env, st, rels[..|rels| - 1])
      case Err(e) => Err(e)
      case Ok(prior) => Step(env, prior, rels[|rels| - 1])
  }

  lemma {:induction false} RelocateSnoc(env: Env, st: State, rels: seq<Rela>, i: nat)
    requires env.Valid() && i < |rels| && Relocate(env, st, rels[..i]).Ok?
    ensures Relocate(env, st, rels[..i + 1]) == Step(env, Relocate(env, st, rels[..i]).value, rels[i])
    ensures Relocate(env, st, rels[..i + 1]).Err? ==> Relocate(env, st, rels) == Relocate(env, st, rels[..i + 1])
  {
    assert rels[..i + 1][..i] == rels[..i];
    if Relocate(env, st, rels[..i + 1]).Err? {
      RelocateErrStays(env, st, rels, i + 1);
    }
  }

  lemma {:induction false} RelocateNone(env: Env, st: State, rels: seq<Rela>)
    requires env.Valid()
    ensures Relocate(env, st, rels[..0]) == Ok(st)
  {
  }

  lemma {:induction false} RelocateErrStays(env: Env, st: State, rels: seq<Rela>, i: nat)
    requires env.Valid() && i <= |rels| && Relocate(env, st, rels[..i]).Err?
    ensures Relocate(env, st, rels) == Relocate(env, st, rels[..i])
  {
    if i == |rels| {
      assert rels[..i] == rels;
    } else {
      var front := rels[..|rels| - 1];
      assert front[..i] == rels[..i];
      RelocateErrStays(env, st, front, i);
    }
  }

  /** The relocation loop: the image is patched in place, the two work lists grow. */
  method RunRelocations(env: Env, copied: seq<byte>, rels: seq<Rela>) returns (r: Result<State, Error>)
    requires env.Valid()
    ensures r == Relocate(env, State(copied, [], [], NoCounts()), rels)
  {
    hide Relocate, Locate, PackInto, UnpackAt;
    var image, rebases, bindings, patched := copied, [], [], NoCounts();
    ghost var st0 := State(copied, [], [], NoCounts());
    RelocateNone(env, st0, rels);
    for i := 0 to |rels|
      invariant Relocate(env, st0, rels[..i]) == Ok(State(image, rebases, bindings, patched))
    {
      var rel := rels[i];
      RelocateSnoc(env, st0, rels, i);
      var found := Locate(env.segs, env.slide, rel.offset);
      if found.None? {
        return Err(NotFileBacked(rel.offset));
      }
      var l := found.value;
      if rel.rtype == R_RELATIVE {
        if l.output + 8 > |image| {
          return Err(WordOutsideImage);
        }
        image := PackInto(image, l.output, env.slide + rel.addend);
        rebases := rebases + [l.loc];
        patched := patched.(relative := patched.relative + 1);
        continue;
      }
      if !Supported(rel.rtype) {
        return Err(Unsupported(rel.rtype));
      }
      if rel.symbolIndex >= |env.symbols| {
        return Err(BadSymbol(rel.symbolIndex));
      }
      var sym := env.symbols[rel.symbolIndex];
      if sym.shndx == SHN_UNDEF {
        if l.output + 8 > |image| {
          return Err(WordOutsideImage);
        }
        var addend := rel.addend;
        if rel.rtype == R_ABS64 {
          addend := addend + UnpackAt(image, l.output, 8);
        }
        bindings := bindings + [Binding(rel.offset, rel.rtype, sym.name, env.prefix + sym.name, sym.info % 16, l.loc,
                                        addend)];
        continue;
      }
      var value := env.slide + sym.value + rel.addend;
      if rel.rtype == R_ABS64 {
        if l.output + 8 > |image| {
          return Err(WordOutsideImage);
        }
        value := value + UnpackAt(image, l.output, 8);
        patched := patched.(abs64 := patched.abs64 + 1);
      } else if rel.rtype == R_GLOB_DAT {
        patched := patched.(globDat := patched.globDat + 1);
      } else {
        patched := patched.(jumpSlot := patched.jumpSlot + 1);
      }
      if l.output + 8 > |image| {
        return Err(WordOutsideImage);
      }
      image := PackInto(image, l.output, value);
      rebases := rebases + [l.loc];
    }
    assert rels[..|rels|] == rels;
    return Ok(State(image, rebases, bindings, patched));
  }

  // ----- the image and the file -----

  function DataEnd(segs: seq<ImageSegment>): nat {
    if |segs| == 0 then 0
    else
      var front, last := DataEnd(segs[..|segs| - 1]), FileEnd(segs[|segs| - 1]);
      if last > front then last else front
  }

  function VmEnd(segs: seq<ImageSegment>): nat {
    if |segs| == 0 then 0
    else
      var front, seg := VmEnd(segs[..|segs| - 1]), segs[|segs| - 1];
      if seg.vmaddr + seg.vmsize > front then seg.vmaddr + seg.vmsize else front
  }

  function Copied(data: seq<byte>, segs: seq<ImageSegment>, image: seq<byte>): seq<byte> {
    if |segs| == 0 then image
    else
      var seg := segs[|segs| - 1];
      SliceAssign(Copied(data, segs[..|segs| - 1], image), seg.dataFileoff, seg.dataFileoff + seg.elfFilesz,
                  Slice(data, seg.elfOffset, seg.elfOffset + seg.elfFilesz))
  }

  method CopyLoads(data: seq<byte>, segs: seq<ImageSegment>) returns (image: seq<byte>)
    ensures image == Copied(data, segs, Zeros(DataEnd(segs)))
  {
    image := Zeros(DataEnd(segs));
    ghost var zero := image;
    for i := 0 to |segs|
      invariant image == Copied(data, segs[..i], zero)
    {
      assert segs[..i + 1][..i] == segs[..i];
      var seg := segs[i];
      image := SliceAssign(image, seg.dataFileoff, seg.dataFileoff + seg.elfFilesz,
                           Slice(data, seg.elfOffset, seg.elfOffset + seg.elfFilesz));
    }
    assert segs[..|segs|] == segs;
  }

  /** buf[at:at+len(src)] = src, inside the buffer. */
  function Overlay(buf: seq<byte>, at: nat, src: seq<byte>): (r: seq<byte>)
    requires at + |src| <= |buf|
    ensures |r| == |buf|
    ensures forall i :: 0 <= i < |buf| ==> r[i] == if at <= i < at + |src| then src[i - at] else buf[i]
  {
    buf[..at] + src + buf[at + |src|..]
  }

  datatype Options = Options(prefix: seq<byte>, shimInstall: seq<byte>, install: seq<byte>, minIos: (nat, nat, nat))

  datatype Output = Output(
    dylib: Dylib, segments: seq<ImageSegment>, linkeditOff: nat, linkeditVm: nat, linkeditSize: nat,
    rebases: seq<Loc>, bindings: seq<Binding>, patched: Counts)

  function SegmentName(i: nat, seg: ImageSegment): Name16 {
    Padded(if i == 0 then "__TEXT" else if seg.protection / 2 % 2 == 1 then "__ELF_DATA" else "__ELF_" + Decimal(i))
  }

  function SectionName(i: nat, seg: ImageSegment): Name16 {
    Padded(if i == 0 then "__elf_rx" else if seg.protection / 2 % 2 == 1 then "__elf_rw" else "__elf_" + Decimal(i))
  }

  /** A segment's command has an empty section at its start and one section for the bytes of its load. */
  function Described(i: nat, seg: ImageSegment, command: SegmentCommand, slide: nat): LoadCommand {
    var name := SegmentName(i, seg);
    Segment(name, command, [Section(Padded("__segstart"), name, command.vmaddr, 0, command.fileoff, 0),
                            Section(SectionName(i, seg), name, slide + seg.elfVaddr, seg.elfFilesz, seg.dataFileoff,
                              3)])
  }

  function SegmentCommands(segs: seq<ImageSegment>, commands: seq<SegmentCommand>, slide: nat): (r: seq<LoadCommand>)
    requires |commands| == |segs|
    ensures |r| == |segs| && forall i :: 0 <= i < |segs| ==> r[i] == Described(i, segs[i], commands[i], slide)
  {
    seq(|segs|, i requires 0 <= i < |segs| => Described(i, segs[i], commands[i], slide))
  }

  function Commands(front: seq<LoadCommand>, linkedit: SegmentCommand, opts: Options,
                    tail: seq<LoadCommand>): seq<LoadCommand> {
    front
    + [Segment(Padded("__LINKEDIT"), linkedit, []), LoadCommand.Dylib(opts.shimInstall, false),
       LoadCommand.Dylib(opts.install, true), BuildVersion(Version(opts.minIos))]
    + tail
  }

  /** The name the shim is loaded under: a C string, so it ends at its first NUL. */
  function ShimName(opts: Options): seq<byte> { CStringAt(opts.shimInstall, 0) }

  const HEADER_FLAGS: nat := MH_DYLDLINK + MH_TWOLEVEL

  /** The finished file: image, then the two programs in __LINKEDIT, then header and commands over the reserve. */
  function Assemble(segs: seq<ImageSegment>, cfg: Config, opts: Options, st: State,
                    rebase: seq<byte>, bind: seq<byte>): Result<Output, Error>
  {
    var linkeditOff := Align(|st.image|);
    var bindOff := Align8(linkeditOff + |rebase|);
    var linkeditSize := bindOff - linkeditOff + |bind|;
    var linkeditVm := Align(VmEnd(segs));
    var body := Overlay(Zeros(Align(linkeditOff + linkeditSize)), 0, st.image);
    var fixed := Overlay(Overlay(body, linkeditOff, rebase), bindOff, bind);
    var linkedit := SegmentCommand(linkeditVm, Align(linkeditSize), linkeditOff, linkeditSize, 1);
    var info := DyldInfo(linkeditOff, |rebase|, bindOff, |bind|, 0, 0);
    var cmds := Commands(SegmentCommands(segs, CommandsOf(segs), cfg.Slide()), linkedit, opts, [info]);
    if !AllFit(cmds) then Err(FieldTooWide)
    else
      var header := HeaderBytes(cmds, HEADER_FLAGS);
      if |header| > cfg.headerReserve then Err(HeaderTooLarge)
      else Ok(Output(Dylib.Dylib(SliceAssign(fixed, 0, |header|, header), CommandsOf(segs) + [linkedit], info,
                                 [ShimName(opts)]),
                     segs, linkeditOff, linkeditVm, linkeditSize, st.rebases, st.bindings, st.patched))
  }

  function EnvOf(elf: Elf64, cfg: Config, opts: Options): (env: Env)
    requires Accepted(Loads(elf.programHeaders))
    ensures env.Valid()
  {
    var segs := Segments(Loads(elf.programHeaders), cfg);
    forall i | 0 <= i < |segs| ensures segs[i].vmaddr <= cfg.Slide() + segs[i].elfVaddr {
      SegmentAt(Loads(elf.programHeaders), cfg, i);
    }
    Env(segs, cfg.Slide(), Symbols(elf), opts.prefix)
  }

  function Relocated(elf: Elf64, cfg: Config, opts: Options): Result<State, Error>
    requires Accepted(Loads(elf.programHeaders))
  {
    var env := EnvOf(elf, cfg, opts);
    Relocate(env, State(Copied(elf.data, env.segs, Zeros(DataEnd(env.segs))), [], [], NoCounts()),
             Relocations(elf.data, elf.sections))
  }

  function Translated(elf: Elf64, cfg: Config, opts: Options): Result<Output, Error> {
    var loads := Loads(elf.programHeaders);
    if elf.machine != EM_AARCH64 then Err(NotAArch64)
    else if elf.etype != ET_DYN then Err(NotSharedObject)
    else if loads == [] then Err(LayoutFailed(NoLoads))
    else if !Accepted(loads) then Err(LayoutFailed(FirstLoadNotRx))
    else
      match Relocated(elf, cfg, opts)
      case Err(e) => Err(e)
      case Ok(st) =>
        if !AllEncodable(st.rebases) || !BindingsEncodable(st.bindings) then Err(FixupFailed(TooManySegments))
        else
          LocsEncodable(st.rebases);
          BindingLocsEncodable(st.bindings);
          Assemble(Segments(loads, cfg), cfg, opts, st,
                   RebaseProgram(Sort(st.rebases, SELF)), BindProgram(Sort(st.bindings, BINDING_LOC), 1))
  }

  method Translate(elf: Elf64, cfg: Config, opts: Options) returns (r: Result<Output, Error>)
    ensures r == Translated(elf, cfg, opts)
  {
    if elf.machine != EM_AARCH64 {
      return Err(NotAArch64);
    }
    if elf.etype != ET_DYN {
      return Err(NotSharedObject);
    }
    var layout := LayoutSegments(elf, cfg);
    if layout.Err? {
      return Err(LayoutFailed(layout.error));
    }
    var env := EnvOf(elf, cfg, opts);
    var copied := CopyLoads(elf.data, env.segs);
    var rels := IterRelocations(elf);
    var relocated := RunRelocations(env, copied, rels);
    if relocated.Err? {
      return Err(relocated.error);
    }
    var st := relocated.value;
    var rebase := RebaseStream(st.rebases);
    if rebase.Err? {
      return Err(FixupFailed(rebase.error));
    }
    var bind := BindStream(st.bindings, 1);
    if bind.Err? {
      return Err(FixupFailed(bind.error));
    }
    r := Assemble(layout.value, cfg, opts, st, rebase.value, bind.value);
  }
}
