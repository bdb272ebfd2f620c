/** The end-to-end theorem for Phase 3's output. */
module Phase3Correct {
  import opened Bytes
  import opened Wrappers
  import opened ElfReader
  import opened Layout
  import opened Sorting
  import opened Fixups
  import opened MachO
  import opened Phase3
  import opened Images
  import opened RelocationMeaning
  import opened RelocatedImage
  import opened LoaderEquivalence
  import opened BindCondition
  import opened Headers
  import MachReader
  import Dyld

  lemma {:induction false} AlignLeast(v: nat, w: nat)
    requires v <= w && w % PAGE == 0
    ensures Align(v) <= w
  {
  }

  lemma {:induction false} PlacedFits(seg: ImageSegment, ph: ProgramHeader, slide: nat)
    requires Placed(seg, ph, slide) && ph.filesz <= ph.memsz
    ensures seg.filesize <= FileEnd(seg) - seg.fileoff <= seg.vmsize
  {
    hide Align;
    AlignShift(seg.fileoff, seg.filesize);
    AlignLeast(seg.filesize, seg.vmsize);
  }

  lemma {:induction false} FileFitsMemory(loads: seq<ProgramHeader>, data: seq<byte>, cfg: Config, i: nat)
    requires WellFormed(loads, data, cfg) && i < |loads|
    ensures var seg := Segments(loads, cfg)[i];
      seg.filesize <= FileEnd(seg) - seg.fileoff <= seg.vmsize && FileEnd(seg) <= DataEnd(Segments(loads, cfg))
  {
    hide Segments, DataEnd, FileEnd, FilesSeparated, Placed;
    SegmentAt(loads, cfg, i);
    DataEndCovers(Segments(loads, cfg), i);
    PlacedFits(Segments(loads, cfg)[i], loads[i], cfg.Slide());
  }

  /** A successful translation is the assembly of its relocated image and its two programs. */
  lemma {:induction false} TranslationParts(elf: Elf64, cfg: Config, opts: Options)
    requires Translated(elf, cfg, opts).Ok?
    ensures Accepted(LoadsOf(elf)) && Relocated(elf, cfg, opts).Ok?
    ensures var st := Relocated(elf, cfg, opts).value;
      && AllEncodable(Sort(st.rebases, SELF)) && BindingsEncodable(Sort(st.bindings, BINDING_LOC))
      && Translated(elf, cfg, opts)
         == Assemble(Segments(LoadsOf(elf), cfg), cfg, opts, st,
                     RebaseProgram(Sort(st.rebases, SELF)), BindProgram(Sort(st.bindings, BINDING_LOC), 1))
  {
    hide Relocated, Segments, Assemble, Sort;
    var st := Relocated(elf, cfg, opts).value;
    LocsEncodable(st.rebases);
    BindingLocsEncodable(st.bindings);
  }

  ghost predicate Parts(elf: Elf64, cfg: Config, opts: Options, st: State, rebase: seq<byte>,
                        bind: seq<byte>) {
    && WellFormed(LoadsOf(elf), elf.data, cfg)
    && |st.image| == DataEnd(Segments(LoadsOf(elf), cfg))
    && Assemble(Segments(LoadsOf(elf), cfg), cfg, opts, st, rebase, bind).Ok?
  }

  lemma {:induction false} PartsMappable(elf: Elf64, cfg: Config, opts: Options, st: State,
                                         rebase: seq<byte>, bind: seq<byte>)
    requires Parts(elf, cfg, opts, st, rebase, bind) && NoOverlap(Segments(LoadsOf(elf), cfg))
    ensures var d := Assemble(Segments(LoadsOf(elf), cfg), cfg, opts, st, rebase, bind).value.dylib;
      Dyld.Mappable(d.file, d.segments)
  {
    hide Segments, DataEnd, VmEnd, FileEnd, FilesSeparated, Commands, HeaderSize, RebaseProgram, BindProgram, AllFit,
      HeaderBytes, SegmentCommands, ShimName;
    var loads := LoadsOf(elf);
    var segs := Segments(loads, cfg);
    LayoutFits(loads, elf.data, cfg);
    AssembledFile(segs, cfg, opts, st, rebase, bind);
    var d := Assemble(segs, cfg, opts, st, rebase, bind).value.dylib;
    var n := |segs|;
    forall i | 0 <= i < |d.segments|
      ensures d.segments[i].filesize <= d.segments[i].vmsize
      ensures d.segments[i].fileoff + d.segments[i].filesize <= |d.file|
    {
      if i < n {
        FileFitsMemory(loads, elf.data, cfg, i);
      }
    }
    forall i, j | 0 <= i < j < |d.segments|
      ensures d.segments[i].vmaddr + d.segments[i].vmsize <= d.segments[j].vmaddr
           || d.segments[j].vmaddr + d.segments[j].vmsize <= d.segments[i].vmaddr
    {
      if j < n {
        assert VmDisjoint(segs[i], segs[j]);
      } else {
        VmEndCovers(segs, i);
      }
    }
  }

  lemma {:induction false} PartsDelivered(elf: Elf64, cfg: Config, opts: Options, st: State,
                                          rebase: seq<byte>, bind: seq<byte>)
    requires Parts(elf, cfg, opts, st, rebase, bind) && NoOverlap(Segments(LoadsOf(elf), cfg))
    ensures var d := Assemble(Segments(LoadsOf(elf), cfg), cfg, opts, st, rebase, bind).value.dylib;
      Delivers(d, Segments(LoadsOf(elf), cfg), st.image, cfg.headerReserve, rebase, bind)
  {
    hide Segments, DataEnd, VmEnd, FileEnd, FilesSeparated, Commands, HeaderSize, Dyld.Mappable, AllFit, HeaderBytes,
      SegmentCommands, ShimName;
    var segs := Segments(LoadsOf(elf), cfg);
    LayoutFits(LoadsOf(elf), elf.data, cfg);
    AssembledFile(segs, cfg, opts, st, rebase, bind);
    PartsMappable(elf, cfg, opts, st, rebase, bind);
    var d := Assemble(segs, cfg, opts, st, rebase, bind).value.dylib;
    forall i | 0 <= i < |segs| ensures Widens(d.segments[i], segs[i]) {
      FileFitsMemory(LoadsOf(elf), elf.data, cfg, i);
    }
    OwnSpans(d.segments, segs);
  }

  lemma {:induction false} OwnSpans(cmds: seq<SegmentCommand>, segs: seq<ImageSegment>)
    requires |cmds| >= |segs| && forall i :: 0 <= i < |segs| ==> cmds[i] == CommandOf(segs[i])
    ensures Spans(cmds, segs)
  {
    forall i, a | 0 <= i < |segs| && segs[i].vmaddr <= a < segs[i].vmaddr + segs[i].vmsize
      ensures CoveredAt(cmds, |segs|, a)
    {
      assert Dyld.Covers(cmds[i], a);
    }
  }

  lemma {:induction false} AssembledLibraries(segs: seq<ImageSegment>, cfg: Config, opts: Options, st: State,
                                              rebase: seq<byte>, bind: seq<byte>)
    requires Assemble(segs, cfg, opts, st, rebase, bind).Ok?
    ensures Assemble(segs, cfg, opts, st, rebase, bind).value.dylib.libraries == [ShimName(opts)]
  {
    hide Commands, SegmentCommands, AllFit, HeaderBytes, SliceAssign, VmEnd, Align, Align8, ShimName, CommandsOf;
  }

  lemma {:induction false} Phase3Emits(elf: Elf64, cfg: Config, opts: Options)
    requires Ready(elf, cfg, opts) && Translated(elf, cfg, opts).Ok?
    requires NoOverlap(Segments(LoadsOf(elf), cfg))
    ensures Relocated(elf, cfg, opts).Ok?
    ensures Emitted(elf, cfg, opts, Relocated(elf, cfg, opts).value, Translated(elf, cfg, opts).value.dylib)
  {
    hide Segments, DataEnd, Relocated, Translated, Assemble, ImageAfter, Delivers, RebaseProgram, BindProgram, Sort,
      WordsBacked, WordsApart, FilesSeparated;
    TranslationParts(elf, cfg, opts);
    var st := Relocated(elf, cfg, opts).value;
    RelocationLeaves(elf, cfg, opts);
    ImageSize(elf, cfg, opts, st);
    AssembledLibraries(Segments(LoadsOf(elf), cfg), cfg, opts, st, RebaseProgram(Sort(st.rebases, SELF)),
                       BindProgram(Sort(st.bindings, BINDING_LOC), 1));
    PartsDelivered(elf, cfg, opts, st, RebaseProgram(Sort(st.rebases, SELF)),
                   BindProgram(Sort(st.bindings, BINDING_LOC), 1));
  }

  /** The commands of Phase 3's output. */
  function OutputCommands(out: Output, cfg: Config, opts: Options): seq<LoadCommand>
    requires |out.dylib.segments| == |out.segments| + 1
  {
    Commands(SegmentCommands(out.segments, CommandsOf(out.segments), cfg.Slide()), out.dylib.segments[|out.segments|],
             opts, [out.dylib.info])
  }

  /** The output begins with the header of its commands, and read from the file they say what the output is. */
  lemma {:induction false} OutputRead(elf: Elf64, cfg: Config, opts: Options)
    requires Translated(elf, cfg, opts).Ok?
    ensures var out := Translated(elf, cfg, opts).value;
      && |out.dylib.segments| == |out.segments| + 1
      && MachReader.ReadFile(out.dylib.file)
         == Some(MachReader.MachFile(HEADER_FLAGS, MachReader.SeenAll(OutputCommands(out, cfg, opts))))
      && Dyld.ImageOf(out.dylib.file) == Some(out.dylib)
  {
    hide Segments, Relocated, Assemble, Dyld.ImageOf, MachReader.ReadFile;
    TranslationParts(elf, cfg, opts);
    var st := Relocated(elf, cfg, opts).value;
    AssembledRead(Segments(LoadsOf(elf), cfg), cfg, opts, st, RebaseProgram(Sort(st.rebases, SELF)),
                  BindProgram(Sort(st.bindings, BINDING_LOC), 1));
  }

  lemma {:induction false} AssembledRead(segs: seq<ImageSegment>, cfg: Config, opts: Options, st: State,
                                         rebase: seq<byte>, bind: seq<byte>)
    requires Assemble(segs, cfg, opts, st, rebase, bind).Ok?
    ensures var out := Assemble(segs, cfg, opts, st, rebase, bind).value;
      && |out.dylib.segments| == |out.segments| + 1
      && MachReader.ReadFile(out.dylib.file)
         == Some(MachReader.MachFile(HEADER_FLAGS, MachReader.SeenAll(OutputCommands(out, cfg, opts))))
      && Dyld.ImageOf(out.dylib.file) == Some(out.dylib)
  {
    hide Commands, SegmentCommands, AllFit, HeaderBytes, HeaderSize, SliceAssign, VmEnd, Align, Align8, ShimName,
      MachReader.ReadFile, Dyld.ImageOf, CommandsOf, MachReader.SeenAll;
    var out := Assemble(segs, cfg, opts, st, rebase, bind).value;
    var linkedit, info := out.dylib.segments[|segs|], out.dylib.info;
    var linkeditOff := Align(|st.image|);
    var bindOff := Align8(linkeditOff + |rebase|);
    var body := Overlay(Zeros(Align(linkeditOff + (bindOff - linkeditOff + |bind|))), 0, st.image);
    var fixed := Overlay(Overlay(body, linkeditOff, rebase), bindOff, bind);
    HeaderFirst(fixed, HeaderBytes(OutputCommands(out, cfg, opts), HEADER_FLAGS));
    InfoTail(info);
    HeaderSays(out.dylib.file, segs, CommandsOf(segs), cfg.Slide(), linkedit, opts, [info], info);
  }

  /** The rights a file's segments ought to have: read and execute first, then each load's, and to read __LINKEDIT. */
  predicate RightsAre(segs: seq<SegmentCommand>, loads: seq<ProgramHeader>) {
    && |segs| == |loads| + 1 > 1
    && segs[0].protection == 1 + 4 && segs[|loads|].protection == 1
    && forall i :: 1 <= i < |loads| ==> SameRights(segs[i].protection, loads[i].flags)
  }

  lemma {:induction false} RightsInFile(elf: Elf64, cfg: Config, opts: Options)
    requires Translated(elf, cfg, opts).Ok?
    ensures var image := Dyld.ImageOf(Translated(elf, cfg, opts).value.dylib.file);
      && image.Some? && RightsAre(image.value.segments, LoadsOf(elf))
      && image.value.info.DyldInfo? && image.value.info.exportSize == 0
  {
    hide Segments, Relocated, Dyld.ImageOf, MachReader.ReadFile, SameRights, OutputCommands, RebaseProgram,
      BindProgram, AllFit, HeaderBytes, SegmentCommands, ShimName, Commands, SliceAssign, Loads;
    OutputRead(elf, cfg, opts);
    SegmentRights(LoadsOf(elf), cfg, 0);
    forall i | 1 <= i < |LoadsOf(elf)|
      ensures SameRights(Segments(LoadsOf(elf), cfg)[i].protection, LoadsOf(elf)[i].flags)
    {
      SegmentRights(LoadsOf(elf), cfg, i);
    }
  }

  /** A fixup is in a writable segment exactly when its word's load is writable and not the first. */
  lemma {:induction false} FixupWritableIff(elf: Elf64, cfg: Config, opts: Options, j: nat)
    requires Ready(elf, cfg, opts) && j < |RelasOf(elf)|
    ensures var env := EnvOf(elf, cfg, opts);
      && Locate(env.segs, env.slide, RelasOf(elf)[j].offset).Some?
      && var i := Target(env, RelasOf(elf)[j]).loc.seg;
      && i < |LoadsOf(elf)| && WordIn(LoadsOf(elf)[i], RelasOf(elf)[j].offset)
      && (env.segs[i].protection / 2 % 2 == 1 <==> i > 0 && LoadsOf(elf)[i].flags / 2 % 2 == 1)
  {
    hide Segments, Loads, Relocations, Locate, Symbols, WordsBacked, WordsApart, FilesSeparated;
    var i := WordHome(elf, cfg, opts, j);
    SegmentRights(LoadsOf(elf), cfg, i);
  }

  /** Both sections of a segment's command lie in the segment, as far into memory as into the file. */
  lemma {:induction false} SectionsInside(elf: Elf64, cfg: Config, i: nat)
    requires WellFormed(LoadsOf(elf), elf.data, cfg) && i < |LoadsOf(elf)|
    ensures var seg := Segments(LoadsOf(elf), cfg)[i];
      var sections := Described(i, seg, CommandOf(seg), cfg.Slide()).sections;
      && |sections| == 2 && sections[0].addr == seg.vmaddr && sections[0].size == 0 && sections[0].align == 0
      && sections[1].align == 3
      && sections[1].addr == cfg.Slide() + LoadsOf(elf)[i].vaddr && sections[1].size == LoadsOf(elf)[i].filesz
      && forall k :: 0 <= k < 2 ==>
        && sections[k].segment == SegmentName(i, seg)
        && sections[k].offset - seg.fileoff == sections[k].addr - seg.vmaddr >= 0
        && sections[k].addr + sections[k].size <= seg.vmaddr + seg.vmsize
        && sections[k].offset + sections[k].size <= seg.fileoff + seg.filesize
  {
    hide Segments, FilesSeparated, SegmentName, SectionName, Align, Floor, Loads;
    SegmentAt(LoadsOf(elf), cfg, i);
  }

  /** Segments are named after their loads' flags. */
  lemma {:induction false} NamedByFlags(loads: seq<ProgramHeader>, cfg: Config, i: nat)
    requires Accepted(loads) && i < |loads|
    ensures var seg, writable := Segments(loads, cfg)[i], loads[i].flags / 2 % 2 == 1;
      && SegmentName(i, seg)
         == Padded(if i == 0 then "__TEXT" else if writable then "__ELF_DATA" else "__ELF_" + Decimal(i))
      && SectionName(i, seg)
         == Padded(if i == 0 then "__elf_rx" else if writable then "__elf_rw" else "__elf_" + Decimal(i))
  {
    hide Segments, Padded, Decimal;
    SegmentRights(loads, cfg, i);
  }

  /** Memory ranges that overlap make an output that dyld refuses, whatever the file. */
  lemma {:induction false} OverlapRefusal(elf: Elf64, cfg: Config, opts: Options, slide: int, lookup: Dyld.Lookup)
    requires Translated(elf, cfg, opts).Ok? && !NoOverlap(Segments(LoadsOf(elf), cfg))
    ensures Dyld.LoadFile(Translated(elf, cfg, opts).value.dylib.file, slide, lookup) == None
  {
    hide Segments, Relocated, Dyld.Load, Dyld.Mappable, Dyld.ImageOf, Dyld.OrdinalsKnown, OutputCommands,
      MachReader.ReadFile, AllFit, HeaderBytes, SegmentCommands, ShimName, Commands, SliceAssign, RebaseProgram,
      BindProgram;
    OutputRead(elf, cfg, opts);
    var segs := Segments(LoadsOf(elf), cfg);
    var i, j :| 0 <= i < j < |segs| && !VmDisjoint(segs[i], segs[j]);
    var d := Translated(elf, cfg, opts).value.dylib;
    assert d.segments[i] == CommandOf(segs[i]) && d.segments[j] == CommandOf(segs[j]);
    OverlapRefused(d, i, j, slide, Dyld.ByName(d.libraries, lookup));
  }

  /** A file that carries the relocated image and both programs loads, right exactly when the addends are kept. */
  lemma {:induction false} EmittedFile(elf: Elf64, cfg: Config, opts: Options, st: State, d: Dylib, slide: int,
                                       lookup: Dyld.Lookup)
    requires Emitted(elf, cfg, opts, st, d) && Dyld.ImageOf(d.file) == Some(d)
    ensures var loaded := Dyld.LoadFile(d.file, slide, lookup);
      && loaded.Some?
      && (SameProgram(elf, slide + cfg.Slide(), loaded.value, AndroidProgram(elf, opts, slide + cfg.Slide(), lookup))
          <==> AddendsKept(elf))
  {
    hide Emitted, Dyld.Load, Dyld.LoadFile, Dyld.ImageOf, SameProgram, AndroidMemory, AndroidProgram, AddendsArrive,
      AddendsKept;
    FileIsDylib(elf, cfg, opts, st, d, slide, lookup);
    LoadersAgreeIff(elf, cfg, opts, st, d, slide, Dyld.ByName([ShimName(opts)], lookup));
    SameResolver(elf, opts, slide + cfg.Slide(), lookup);
    EmittedArrives(elf, cfg, opts, st, d);
  }

  /**
   Loader equivalence for the translator: whenever it succeeds on a well-formed ELF file, then for every slide dyld may
   choose and every address the symbols may have in the dylibs it loads, dyld, given the bytes of the output, accepts
   them exactly when no two placed segments overlap, and then the program's memory is the Android loader's exactly when
   the file keeps its bind addends.
   */
  lemma {:induction false} Phase3Equivalence(elf: Elf64, cfg: Config, opts: Options, slide: int, lookup: Dyld.Lookup)
    requires Ready(elf, cfg, opts) && Translated(elf, cfg, opts).Ok?
    ensures var loaded := Dyld.LoadFile(Translated(elf, cfg, opts).value.dylib.file, slide, lookup);
      && (loaded.Some? <==> NoOverlap(Segments(LoadsOf(elf), cfg)))
      && (loaded.Some? ==>
           (SameProgram(elf, slide + cfg.Slide(), loaded.value, AndroidProgram(elf, opts, slide + cfg.Slide(), lookup))
            <==> AddendsKept(elf)))
  {
    hide Emitted, Dyld.Load, Dyld.LoadFile, Dyld.ImageOf, SameProgram, AndroidMemory, AndroidProgram, AddendsArrive,
      Relocated, Ready, NoOverlap, Segments, AddendsKept, Translated, MachReader.ReadFile, OutputCommands;
    TranslationParts(elf, cfg, opts);
    if !NoOverlap(Segments(LoadsOf(elf), cfg)) {
      OverlapRefusal(elf, cfg, opts, slide, lookup);
    } else {
      Phase3Emits(elf, cfg, opts);
      OutputRead(elf, cfg, opts);
      EmittedFile(elf, cfg, opts, Relocated(elf, cfg, opts).value, Translated(elf, cfg, opts).value.dylib, slide,
        lookup);
    }
  }

  lemma {:induction false} EmittedArrives(elf: Elf64, cfg: Config, opts: Options, st: State, d: Dylib)
    requires Emitted(elf, cfg, opts, st, d)
    ensures AddendsArrive(SortedBindings(st)) <==> AddendsKept(elf)
  {
    hide Ready, ImageAfter, AddendsArrive, AddendsKept, Delivers, Sort;
    ArriveIffKept(elf, cfg, opts, st);
  }

  /** When two loads share a page after the slide, the output is one that dyld refuses. */
  lemma {:induction false} SharedPageRefused(elf: Elf64, cfg: Config, opts: Options, slide: int, lookup: Dyld.Lookup)
    requires Translated(elf, cfg, opts).Ok? && cfg.imageBase % PAGE == 0
    requires Ascending(LoadsOf(elf)) && forall i :: 0 <= i < |LoadsOf(elf)| ==> LoadsOf(elf)[i].memsz > 0
    requires !Separated(LoadsOf(elf), cfg.Slide())
    ensures Dyld.LoadFile(Translated(elf, cfg, opts).value.dylib.file, slide, lookup) == None
  {
    hide Segments, Separated, Relocated, Dyld.LoadFile, NoOverlap;
    NoOverlapIff(LoadsOf(elf), cfg);
    OverlapRefusal(elf, cfg, opts, slide, lookup);
  }

  lemma {:induction false} OverlapRefused(d: Dylib, i: nat, j: nat, slide: int, resolve: Dyld.Resolver)
    requires i < j < |d.segments|
    requires d.segments[i].vmaddr + d.segments[i].vmsize > d.segments[j].vmaddr
    requires d.segments[j].vmaddr + d.segments[j].vmsize > d.segments[i].vmaddr
    ensures Dyld.Load(d, slide, resolve) == None
  {
  }
}
