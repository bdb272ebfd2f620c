/** Exactly when the translators succeed on a well-formed file. */
module Success {
  import opened Bytes
  import opened Leb128
  import opened Patches
  import opened ElfReader
  import opened Layout
  import opened Sorting
  import opened Fixups
  import opened MachO
  import opened Phase3
  import opened Images
  import opened RelocationMeaning
  import opened RelocatedImage
  import opened LoaderEquivalence
  import opened Phase3Correct
  import opened Phase4

  // ----- header room -----

  /**
   The bytes of a header with n two-section segments, __LINKEDIT and the two dylib names, before any other command.
   */
  function BaseHeader(n: nat, opts: Options): nat {
    32 + 232 * n + 72 + Align8(25 + |opts.shimInstall|) + Align8(25 + |opts.install|) + 24
  }

  predicate TwoSections(front: seq<LoadCommand>) {
    forall i :: 0 <= i < |front| ==> front[i].Segment? && |front[i].sections| == 2
  }

  lemma {:induction false} BaseBytes(front: seq<LoadCommand>, linkedit: SegmentCommand, opts: Options)
    requires TwoSections(front)
    ensures HeaderSize(Commands(front, linkedit, opts, [])) == BaseHeader(|front|, opts)
  {
    hide CommandBytes, Align8;
    SegmentBytes(front, 2);
    var end := Segment(Padded("__LINKEDIT"), linkedit, []);
    var shim, own := LoadCommand.Dylib(opts.shimInstall, false), LoadCommand.Dylib(opts.install, true);
    var version := BuildVersion(Version(opts.minIos));
    CommandBytesSnoc(front, end);
    CommandBytesSnoc(front + [end], shim);
    CommandBytesSnoc(front + [end] + [shim], own);
    CommandBytesSnoc(front + [end] + [shim] + [own], version);
    assert Commands(front, linkedit, opts, []) == front + [end] + [shim] + [own] + [version];
  }

  lemma {:induction false} HeaderBytes3(front: seq<LoadCommand>, linkedit: SegmentCommand, opts: Options,
                                        info: LoadCommand)
    requires TwoSections(front) && info.DyldInfo?
    ensures HeaderSize(Commands(front, linkedit, opts, [info])) == BaseHeader(|front|, opts) + 48
  {
    hide CommandBytes, BaseHeader;
    BaseBytes(front, linkedit, opts);
    CommandBytesSnoc(Commands(front, linkedit, opts, []), info);
    assert Commands(front, linkedit, opts, [info]) == Commands(front, linkedit, opts, []) + [info];
  }

  lemma {:induction false} HeaderBytes4(front: seq<LoadCommand>, linkedit: SegmentCommand, opts: Options,
                                        info: LoadCommand, symtab: LoadCommand)
    requires TwoSections(front) && info.DyldInfo? && symtab.Symtab?
    ensures HeaderSize(Commands(front, linkedit, opts, [info, symtab])) == BaseHeader(|front|, opts) + 72
  {
    hide CommandBytes, BaseHeader;
    HeaderBytes3(front, linkedit, opts, info);
    CommandBytesSnoc(Commands(front, linkedit, opts, [info]), symtab);
    assert Commands(front, linkedit, opts, [info, symtab]) == Commands(front, linkedit, opts, [info]) + [symtab];
  }

  // ----- field widths -----

  predicate FrontFits(front: seq<LoadCommand>) {
    forall i :: 0 <= i < |front| ==> Fits(front[i])
  }

  /** Commands fit their fields exactly when their segments', version's and link-edit fields do. */
  lemma {:induction false} CommandsFitIff(front: seq<LoadCommand>, linkedit: SegmentCommand, opts: Options,
                                          tail: seq<LoadCommand>)
    requires TwoSections(front) && HeaderSize(Commands(front, linkedit, opts, tail)) < TWO32
    ensures AllFit(Commands(front, linkedit, opts, tail))
       <==> FrontFits(front) && SegmentFits(linkedit) && Version(opts.minIos) < TWO32
            && forall i :: 0 <= i < |tail| ==> Fits(tail[i])
  {
    hide CommandBytes, Fits, Padded, Version, HeaderSize;
    var cs, n := Commands(front, linkedit, opts, tail), |front|;
    ManyCommands(cs);
    PartSize(cs, n + 1);
    PartSize(cs, n + 2);
    FixedFits(linkedit, opts);
    assert cs[n] == Segment(Padded("__LINKEDIT"), linkedit, []) && cs[n + 3] == BuildVersion(Version(opts.minIos));
    assert cs[n + 1] == LoadCommand.Dylib(opts.shimInstall, false)
      && cs[n + 2] == LoadCommand.Dylib(opts.install, true);
    assert forall i :: 0 <= i < n ==> cs[i] == front[i];
    assert forall i :: 0 <= i < |tail| ==> cs[n + 4 + i] == tail[i];
    SizedFits(cs);
  }

  lemma {:induction false} SizedFits(cs: seq<LoadCommand>)
    requires HeaderSize(cs) < TWO32 && |cs| <= HeaderSize(cs)
    ensures AllFit(cs) <==> forall i :: 0 <= i < |cs| ==> Fits(cs[i])
  {
    hide CommandBytes, Fits;
  }

  lemma {:induction false} FixedFits(linkedit: SegmentCommand, opts: Options)
    ensures Fits(Segment(Padded("__LINKEDIT"), linkedit, [])) <==> SegmentFits(linkedit)
    ensures Fits(BuildVersion(Version(opts.minIos))) <==> Version(opts.minIos) < TWO32
    ensures Fits(LoadCommand.Dylib(opts.shimInstall, false))
       <==> LoadCommand.Dylib(opts.shimInstall, false).Size() < TWO32
    ensures Fits(LoadCommand.Dylib(opts.install, true)) <==> LoadCommand.Dylib(opts.install, true).Size() < TWO32
  {
    hide Padded, Version, SegmentFits, Align8;
  }

  lemma {:induction false} ManyCommands(cs: seq<LoadCommand>)
    ensures |cs| <= HeaderSize(cs)
    decreases |cs|
  {
    hide Align8;
    if |cs| > 0 {
      ManyCommands(cs[..|cs| - 1]);
    }
  }

  lemma {:induction false} PartSize(cs: seq<LoadCommand>, i: nat)
    requires i < |cs|
    ensures cs[i].Size() <= HeaderSize(cs)
    decreases |cs|
  {
    hide Align8;
    if i < |cs| - 1 {
      PartSize(cs[..|cs| - 1], i);
    }
  }

  /** The numbers that must fit: the highest address, the file offsets up to the bind program, and its length. */
  predicate Numbers(segs: seq<ImageSegment>, opts: Options, linkeditOff: nat, rebase: seq<byte>, bind: seq<byte>) {
    && Align(VmEnd(segs)) < TWO64 && Align8(linkeditOff + |rebase|) < TWO32 && |bind| < TWO32
    && Version(opts.minIos) < TWO32
  }

  lemma {:induction false} PlacedCommandFits(seg: ImageSegment, ph: ProgramHeader, i: nat, slide: nat,
                                             command: SegmentCommand)
    requires Placed(seg, ph, slide) && ph.filesz <= ph.memsz && seg.protection < 8
    requires command.vmaddr == seg.vmaddr && command.fileoff == seg.fileoff && command.protection == seg.protection
    requires command.vmsize < TWO64 && command.filesize < TWO64
    requires seg.vmaddr + seg.vmsize < TWO64 && seg.fileoff + seg.filesize < TWO32
    ensures Fits(Described(i, seg, command, slide))
  {
    hide SegmentName, SectionName, Padded;
    var c := Described(i, seg, command, slide);
    assert c.Size() == 232;
    assert SectionFits(c.sections[0]) && SectionFits(c.sections[1]);
  }

  lemma {:induction false} SmallRights(protection: nat, flags: nat)
    requires SameRights(protection, flags)
    ensures protection < 8
  {
  }

  /** The first segments' commands fit, whatever sizes below 2^64 they are widened to. */
  lemma {:induction false} FrontFitsWhen(loads: seq<ProgramHeader>, data: seq<byte>, cfg: Config,
                                         commands: seq<SegmentCommand>)
    requires WellFormed(loads, data, cfg) && |commands| == |loads|
    requires var segs := Segments(loads, cfg);
      && Align(VmEnd(segs)) < TWO64 && DataEnd(segs) < TWO32
      && forall i :: 0 <= i < |segs| ==>
        && commands[i].vmaddr == segs[i].vmaddr && commands[i].fileoff == segs[i].fileoff
        && commands[i].protection == segs[i].protection && commands[i].vmsize < TWO64 && commands[i].filesize < TWO64
    ensures FrontFits(SegmentCommands(Segments(loads, cfg), commands, cfg.Slide()))
  {
    hide Segments, DataEnd, VmEnd, Described, Fits, FilesSeparated, Placed, PagedTo, Align, Floor, SameRights;
    var segs := Segments(loads, cfg);
    forall i | 0 <= i < |segs| ensures Fits(Described(i, segs[i], commands[i], cfg.Slide())) {
      SegmentAt(loads, cfg, i);
      SegmentRights(loads, cfg, i);
      if i > 0 {
        SmallRights(segs[i].protection, loads[i].flags);
      }
      VmEndCovers(segs, i);
      DataEndCovers(segs, i);
      FileEndCovers(segs[i]);
      PlacedCommandFits(segs[i], loads[i], i, cfg.Slide(), commands[i]);
    }
  }

  // ----- Phase 3 -----

  /** Every relocated word lies in one of the first sixteen loads, the ones an opcode can name. */
  predicate WordsNameable(elf: Elf64) {
    forall i, j :: 0 <= i < |LoadsOf(elf)| && 0 <= j < |RelasOf(elf)| ==>
      WordIn(LoadsOf(elf)[i], RelasOf(elf)[j].offset) ==> i <= 15
  }

  /** RELATIVE, or ABS64, GLOB_DAT or JUMP_SLOT of a symbol there is. */
  predicate RecordsKnown(elf: Elf64) {
    forall j :: 0 <= j < |RelasOf(elf)| ==>
      var rel := RelasOf(elf)[j];
      rel.rtype == 1027 || (rel.rtype in {257, 1025, 1026} && rel.symbolIndex < |Symbols(elf)|)
  }

  lemma {:induction false} KnownAre(symbols: seq<Symbol>, rel: Rela)
    ensures Known(symbols, rel)
       <==> rel.rtype == 1027 || (rel.rtype in {257, 1025, 1026} && rel.symbolIndex < |symbols|)
  {
  }

  lemma {:induction false} RelocatesIff(elf: Elf64, cfg: Config, opts: Options)
    requires Ready(elf, cfg, opts)
    ensures Accepted(LoadsOf(elf)) && (Relocated(elf, cfg, opts).Ok? <==> RecordsKnown(elf))
  {
    hide Segments, Loads, Relocations, Locate, Relocate, DataEnd, Copied, Symbols, FilesSeparated, WordsBacked,
      WordsApart, CopiesApart, Target, Known;
    var env, rels := EnvOf(elf, cfg, opts), RelasOf(elf);
    var n := DataEnd(env.segs);
    LayoutFits(LoadsOf(elf), elf.data, cfg);
    CopiedLength(elf.data, env.segs, Zeros(n));
    RelocateOkIff(env, State(ImageBefore(elf, cfg), [], [], NoCounts()), rels);
    forall j | 0 <= j < |rels|
      ensures Resolves(env, rels[j], n)
         <==> rels[j].rtype == 1027
              || (rels[j].rtype in {257, 1025, 1026} && rels[j].symbolIndex < |env.symbols|)
    {
      WordRoom(elf, cfg, opts, j);
      KnownAre(env.symbols, rels[j]);
    }
  }

  lemma {:induction false} WordRoom(elf: Elf64, cfg: Config, opts: Options, j: nat)
    requires Ready(elf, cfg, opts) && j < |RelasOf(elf)|
    ensures var env := EnvOf(elf, cfg, opts);
      Locate(env.segs, env.slide, RelasOf(elf)[j].offset).Some?
          && Target(env, RelasOf(elf)[j]).output + 8 <= DataEnd(env.segs)
  {
    hide Segments, Loads, Relocations, Locate, DataEnd, Symbols, FilesSeparated, WordsBacked, WordsApart, CopiesApart;
    LayoutFits(LoadsOf(elf), elf.data, cfg);
    var i := WordHome(elf, cfg, opts, j);
    SegmentAt(LoadsOf(elf), cfg, i);
  }

  lemma {:induction false} NameableAt(elf: Elf64, cfg: Config, opts: Options, j: nat)
    requires Ready(elf, cfg, opts) && j < |RelasOf(elf)|
    ensures var env := EnvOf(elf, cfg, opts);
      && Locate(env.segs, env.slide, RelasOf(elf)[j].offset).Some?
      && (Encodable(Target(env, RelasOf(elf)[j]).loc)
          <==> forall i :: 0 <= i < |LoadsOf(elf)| && WordIn(LoadsOf(elf)[i], RelasOf(elf)[j].offset) ==> i <= 15)
  {
    hide Segments, Loads, Relocations, Locate, FilesSeparated, WordsBacked, WordsApart;
    var h := WordHome(elf, cfg, opts, j);
    forall i | 0 <= i < |LoadsOf(elf)| && WordIn(LoadsOf(elf)[i], RelasOf(elf)[j].offset) ensures i == h {
      BackedOnce(LoadsOf(elf), cfg.Slide(), i, h, RelasOf(elf)[j].offset);
    }
  }

  lemma {:induction false} EncodableIff(elf: Elf64, cfg: Config, opts: Options, st: State)
    requires Ready(elf, cfg, opts) && ImageAfter(elf, cfg, opts, st)
    ensures AllEncodable(st.rebases) && BindingsEncodable(st.bindings) <==> WordsNameable(elf)
  {
    hide FilesSeparated, WordsBacked, WordsApart, Loads, Relocations, Locate, Target, Encodable, Disjoint, SameMemory,
      ApplyAll, ImageBefore, EnvOf, WordIn, BindingOf, Rebases, Bindings;
    var env, rels, n, m := EnvOf(elf, cfg, opts), RelasOf(elf), |st.image|, View(ImageBefore(elf, cfg));
    if WordsNameable(elf) {
      forall i | 0 <= i < |st.rebases| ensures Encodable(st.rebases[i]) {
        var j := RebaseOrigin(env, rels, n, st.rebases[i]);
        NameableAt(elf, cfg, opts, j);
      }
      forall i | 0 <= i < |st.bindings| ensures Encodable(st.bindings[i].loc) {
        var j := BindOrigin(env, rels, n, m, st.bindings[i]);
        NameableAt(elf, cfg, opts, j);
        BindingSits(env, rels[j], m);
      }
    }
    if AllEncodable(st.rebases) && BindingsEncodable(st.bindings) {
      forall j | 0 <= j < |rels| ensures Encodable(Target(env, rels[j]).loc) {
        assert Resolves(env, rels[j], n);
        if Internal(env, rels[j]) {
          RebaseMember(env, rels, n, j);
        } else {
          BindMember(env, rels, n, m, j);
          BindingSits(env, rels[j], m);
        }
      }
      forall i, j | 0 <= i < |LoadsOf(elf)| && 0 <= j < |rels| && WordIn(LoadsOf(elf)[i], rels[j].offset)
        ensures i <= 15
      {
        NameableAt(elf, cfg, opts, j);
      }
    }
  }

  lemma {:induction false} BindingSits(env: Env, rel: Rela, m: Memory)
    requires env.Valid() && Locate(env.segs, env.slide, rel.offset).Some? && rel.symbolIndex < |env.symbols|
    ensures BindingOf(env, rel, m).loc == Target(env, rel).loc
  {
  }

  /** Assembly's own commands. */
  function Commands3(segs: seq<ImageSegment>, cfg: Config, opts: Options, linkeditOff: nat, rebase: seq<byte>,
                     bind: seq<byte>): seq<LoadCommand> {
    var bindOff := Align8(linkeditOff + |rebase|);
    var size := bindOff - linkeditOff + |bind|;
    Commands(SegmentCommands(segs, CommandsOf(segs), cfg.Slide()),
             SegmentCommand(Align(VmEnd(segs)), Align(size), linkeditOff, size, 1), opts,
             [DyldInfo(linkeditOff, |rebase|, bindOff, |bind|, 0, 0)])
  }

  lemma {:induction false} Commands3FitIff(loads: seq<ProgramHeader>, data: seq<byte>, cfg: Config, opts: Options,
                                           rebase: seq<byte>, bind: seq<byte>)
    requires WellFormed(loads, data, cfg) && BaseHeader(|loads|, opts) + 48 <= cfg.headerReserve
    ensures var segs := Segments(loads, cfg);
      AllFit(Commands3(segs, cfg, opts, DataEnd(segs), rebase, bind))
      <==> Numbers(segs, opts, DataEnd(segs), rebase, bind)
  {
    hide Segments, DataEnd, VmEnd, Commands, BaseHeader, Version, Described, CommandBytes, Align8, FilesSeparated,
      Align, Floor, SegmentCommands, FrontFits;
    var segs := Segments(loads, cfg);
    var off, bindOff := DataEnd(segs), Align8(DataEnd(segs) + |rebase|);
    var size := bindOff - off + |bind|;
    var front := SegmentCommands(segs, CommandsOf(segs), cfg.Slide());
    var linkedit := SegmentCommand(Align(VmEnd(segs)), Align(size), off, size, 1);
    var info := DyldInfo(off, |rebase|, bindOff, |bind|, 0, 0);
    DescribedHaveTwo(segs, CommandsOf(segs), cfg.Slide());
    HeaderBytes3(front, linkedit, opts, info);
    LayoutFits(loads, data, cfg);
    LastOf(front, linkedit, opts, info);
    if off < TWO32 {
      CommandsFitIff(front, linkedit, opts, [info]);
      if Numbers(segs, opts, off, rebase, bind) {
        OwnCommandsFit(loads, data, cfg);
      }
    }
  }

  lemma {:induction false} LastOf(front: seq<LoadCommand>, linkedit: SegmentCommand, opts: Options, last: LoadCommand)
    ensures var cs := Commands(front, linkedit, opts, [last]); |cs| > 0 && cs[|cs| - 1] == last
  {
    hide Version, Padded;
  }

  lemma {:induction false} DescribedHaveTwo(segs: seq<ImageSegment>, commands: seq<SegmentCommand>, slide: nat)
    requires |commands| == |segs|
    ensures TwoSections(SegmentCommands(segs, commands, slide))
  {
    hide SegmentName, SectionName;
  }

  lemma {:induction false} OwnCommandsFit(loads: seq<ProgramHeader>, data: seq<byte>, cfg: Config)
    requires WellFormed(loads, data, cfg)
    requires Align(VmEnd(Segments(loads, cfg))) < TWO64 && DataEnd(Segments(loads, cfg)) < TWO32
    ensures FrontFits(SegmentCommands(Segments(loads, cfg), CommandsOf(Segments(loads, cfg)), cfg.Slide()))
  {
    hide Segments, DataEnd, VmEnd, FilesSeparated, Align, Floor, FrontFits, SegmentCommands;
    var segs := Segments(loads, cfg);
    forall i | 0 <= i < |segs| ensures segs[i].vmsize < TWO64 && segs[i].filesize < TWO64 {
      VmEndCovers(segs, i);
      DataEndCovers(segs, i);
      FileEndCovers(segs[i]);
    }
    FrontFitsWhen(loads, data, cfg, CommandsOf(segs));
  }

  lemma {:induction false} AssemblesIff(loads: seq<ProgramHeader>, data: seq<byte>, cfg: Config, opts: Options,
                                        st: State, rebase: seq<byte>, bind: seq<byte>)
    requires WellFormed(loads, data, cfg) && |st.image| == DataEnd(Segments(loads, cfg))
    ensures Assemble(Segments(loads, cfg), cfg, opts, st, rebase, bind).Ok?
        <==> BaseHeader(|loads|, opts) + 48 <= cfg.headerReserve
             && Numbers(Segments(loads, cfg), opts, |st.image|, rebase, bind)
  {
    hide Segments, DataEnd, Commands, HeaderSize, Overlay, VmEnd, SliceAssign, Align, Align8, BaseHeader, Numbers,
      AllFit, SegmentCommands, HeaderBytes, FilesSeparated;
    var segs, off := Segments(loads, cfg), |st.image|;
    LayoutFits(loads, data, cfg);
    AlignAligned(off);
    var size := Align8(off + |rebase|) - off + |bind|;
    DescribedHaveTwo(segs, CommandsOf(segs), cfg.Slide());
    HeaderBytes3(SegmentCommands(segs, CommandsOf(segs), cfg.Slide()),
                 SegmentCommand(Align(VmEnd(segs)), Align(size), off, size, 1), opts,
                 DyldInfo(off, |rebase|, Align8(off + |rebase|), |bind|, 0, 0));
    if BaseHeader(|loads|, opts) + 48 <= cfg.headerReserve {
      Commands3FitIff(loads, data, cfg, opts, rebase, bind);
    }
  }

  /** The numbers of the file's own translation fit. */
  predicate TranslationFits(elf: Elf64, cfg: Config, opts: Options)
    requires Accepted(LoadsOf(elf))
  {
    Relocated(elf, cfg, opts).Ok? &&
    var st := Relocated(elf, cfg, opts).value;
    && AllEncodable(Sort(st.rebases, SELF)) && BindingsEncodable(Sort(st.bindings, BINDING_LOC))
    && Numbers(Segments(LoadsOf(elf), cfg), opts, |st.image|, RebaseProgram(Sort(st.rebases, SELF)),
               BindProgram(Sort(st.bindings, BINDING_LOC), 1))
  }

  /**
   On a well-formed file the translation succeeds exactly when the file is an AArch64 shared object, the loop knows
   every record, an opcode can name every relocated word's segment, the load commands fit the reserve, and addresses
   and offsets fit their fields.
   */
  lemma {:induction false} TranslatesIff(elf: Elf64, cfg: Config, opts: Options)
    requires Ready(elf, cfg, opts)
    ensures Translated(elf, cfg, opts).Ok?
        <==> elf.machine == 183 && elf.etype == 3 && RecordsKnown(elf) && WordsNameable(elf)
             && BaseHeader(|LoadsOf(elf)|, opts) + 48 <= cfg.headerReserve && TranslationFits(elf, cfg, opts)
  {
    hide Segments, Loads, Relocated, ImageAfter, RecordsKnown, WordsNameable, BaseHeader, Assemble, Sort, Numbers,
      RebaseProgram, BindProgram, AllEncodable, BindingsEncodable, WordsBacked, WordsApart, FilesSeparated, DataEnd;
    RelocatesIff(elf, cfg, opts);
    if Relocated(elf, cfg, opts).Ok? {
      var st := Relocated(elf, cfg, opts).value;
      RelocationLeaves(elf, cfg, opts);
      EncodableIff(elf, cfg, opts, st);
      if AllEncodable(st.rebases) && BindingsEncodable(st.bindings) {
        LocsEncodable(st.rebases);
        BindingLocsEncodable(st.bindings);
        ImageSize(elf, cfg, opts, st);
        AssemblesIff(LoadsOf(elf), elf.data, cfg, opts, st, RebaseProgram(Sort(st.rebases, SELF)),
                     BindProgram(Sort(st.bindings, BINDING_LOC), 1));
      }
    }
  }

  // ----- files on which the numbers surely fit -----

  lemma {:induction false} RebaseLength(ls: seq<Loc>)
    requires AllEncodable(ls) && forall i :: 0 <= i < |ls| ==> ls[i].off < TWO64
    ensures |RebaseItems(ls)| <= 12 * |ls|
    decreases |ls|
  {
    hide Uleb;
    if |ls| > 0 {
      TenBytes(ls[0].off);
      RebaseLength(ls[1..]);
    }
  }

  /** Name, addend and offset all of bounded length. */
  predicate ShortBinding(b: Binding, longest: nat) {
    |b.shimSymbol| <= longest && b.loc.off < TWO64 && -(2 * TWO64) <= b.addend < 2 * TWO64
  }

  lemma {:induction false} BindLength(bs: seq<Binding>, longest: nat)
    requires BindingsEncodable(bs) && forall i :: 0 <= i < |bs| ==> ShortBinding(bs[i], longest)
    ensures |BindItems(bs)| <= (longest + 25) * |bs|
    decreases |bs|
  {
    hide Uleb, Sleb;
    if |bs| > 0 {
      TenBytes(bs[0].loc.off);
      TenBytes(bs[0].addend);
      BindLength(bs[1..], longest);
      assert (longest + 25) * |bs| == (longest + 25) * (|bs| - 1) + longest + 25;
    }
  }

  /**
   A caller's own bounds: addresses in 64 bits, prefixed names of at most so many bytes, and room below 4 GiB for twelve
   bytes a record after the image, and for a name and 25 bytes a record in the bind program.
   */
  predicate Modest(elf: Elf64, cfg: Config, opts: Options, longest: nat)
    requires Accepted(LoadsOf(elf))
  {
    var segs, k := Segments(LoadsOf(elf), cfg), |RelasOf(elf)|;
    && Align(VmEnd(segs)) < TWO64 && Version(opts.minIos) < TWO32
    && DataEnd(segs) + 12 * k + 10 < TWO32 && (longest + 25) * k + 3 < TWO32
    && (forall i :: 0 <= i < |Symbols(elf)| ==> |opts.prefix| + |Symbols(elf)[i].name| <= longest)
    && (forall j :: 0 <= j < k ==> -TWO64 <= RelasOf(elf)[j].addend < TWO64)
  }

  lemma {:induction false} OffsetFits(elf: Elf64, cfg: Config, opts: Options, j: nat)
    requires Ready(elf, cfg, opts) && j < |RelasOf(elf)|
    requires Align(VmEnd(Segments(LoadsOf(elf), cfg))) < TWO64
    ensures var env := EnvOf(elf, cfg, opts);
      Locate(env.segs, env.slide, RelasOf(elf)[j].offset).Some? && Target(env, RelasOf(elf)[j]).loc.off < TWO64
  {
    hide Segments, Loads, Relocations, Locate, VmEnd, Symbols, FilesSeparated, WordsBacked, WordsApart, Align, Floor;
    var i := WordHome(elf, cfg, opts, j);
    SegmentAt(LoadsOf(elf), cfg, i);
    VmEndCovers(Segments(LoadsOf(elf), cfg), i);
  }

  lemma {:induction false} ListLengths(env: Env, rels: seq<Rela>, n: nat, m: Memory)
    requires env.Valid() && AllResolve(env, rels, n)
    ensures |Rebases(env, rels, n)| <= |rels| && |Bindings(env, rels, n, m)| <= |rels|
    decreases |rels|
  {
    hide Resolves, BindingOf, Target;
    if |rels| > 0 {
      assert AllResolve(env, rels[..|rels| - 1], n);
      assert Resolves(env, rels[|rels| - 1], n);
      ListLengths(env, rels[..|rels| - 1], n, m);
    }
  }

  lemma {:induction false} SortLength<T>(xs: seq<T>, key: T -> Loc)
    ensures |Sort(xs, key)| == |xs|
  {
    hide Sort;
    SortContents(xs, key);
    assert |Sort(xs, key)| == |multiset(Sort(xs, key))| == |multiset(xs)| == |xs|;
  }

  lemma {:induction false} RebaseShort(elf: Elf64, cfg: Config, opts: Options, st: State, i: nat)
    requires Ready(elf, cfg, opts) && ImageAfter(elf, cfg, opts, st) && i < |SortedRebases(st)|
    requires Align(VmEnd(Segments(LoadsOf(elf), cfg))) < TWO64
    ensures SortedRebases(st)[i].off < TWO64
  {
    hide Segments, VmEnd, EnvOf, Sort, Align, Target, ApplyAll, Disjoint, SameMemory, Resolves, Internal, WordsBacked,
      WordsApart, FilesSeparated, Rebases, Bindings, ImageBefore, Relocations;
    SortContents(st.rebases, SELF);
    var l := SortedRebases(st)[i];
    assert l in multiset(Sort(st.rebases, SELF));
    assert l in st.rebases;
    var j := RebaseOrigin(EnvOf(elf, cfg, opts), RelasOf(elf), |st.image|, l);
    OffsetFits(elf, cfg, opts, j);
  }

  lemma {:induction false} ListCounts(elf: Elf64, cfg: Config, opts: Options, st: State)
    requires Accepted(LoadsOf(elf)) && ImageAfter(elf, cfg, opts, st)
    ensures |SortedRebases(st)| <= |RelasOf(elf)| && |SortedBindings(st)| <= |RelasOf(elf)|
  {
    hide Segments, EnvOf, Sort, ApplyAll, Disjoint, SameMemory, Resolves, ImageBefore, Relocations, Rebases, Bindings;
    ListLengths(EnvOf(elf, cfg, opts), RelasOf(elf), |st.image|, View(ImageBefore(elf, cfg)));
    SortLength(st.rebases, SELF);
    SortLength(st.bindings, BINDING_LOC);
  }

  lemma {:induction false} RebasesShort(elf: Elf64, cfg: Config, opts: Options, st: State)
    requires Ready(elf, cfg, opts) && ImageAfter(elf, cfg, opts, st) && AllEncodable(SortedRebases(st))
    requires Align(VmEnd(Segments(LoadsOf(elf), cfg))) < TWO64
    ensures |RebaseProgram(SortedRebases(st))| <= 12 * |RelasOf(elf)| + 2
  {
    hide WordsBacked, WordsApart, FilesSeparated, ImageAfter, Sort, Relocations, RebaseItems, Align;
    ListCounts(elf, cfg, opts, st);
    forall i | 0 <= i < |SortedRebases(st)| ensures SortedRebases(st)[i].off < TWO64 {
      RebaseShort(elf, cfg, opts, st, i);
    }
    RebaseLength(SortedRebases(st));
  }

  lemma {:induction false} BindShort(elf: Elf64, cfg: Config, opts: Options, st: State, longest: nat, i: nat)
    requires Ready(elf, cfg, opts) && ImageAfter(elf, cfg, opts, st) && i < |SortedBindings(st)|
    requires Modest(elf, cfg, opts, longest)
    ensures ShortBinding(SortedBindings(st)[i], longest)
  {
    hide Segments, VmEnd, DataEnd, EnvOf, Sort, Align, Target, ApplyAll, Disjoint, SameMemory, Resolves, Internal,
      WordsBacked, WordsApart, FilesSeparated, Rebases, Bindings, ImageBefore, Relocations, BindingOf, Symbols,
      Version, ShortBinding;
    SortContents(st.bindings, BINDING_LOC);
    var b := SortedBindings(st)[i];
    assert b in multiset(Sort(st.bindings, BINDING_LOC));
    assert b in st.bindings;
    var j := BindOrigin(EnvOf(elf, cfg, opts), RelasOf(elf), |st.image|, View(ImageBefore(elf, cfg)), b);
    OffsetFits(elf, cfg, opts, j);
    BindingShort(elf, cfg, opts, |st.image|, j, longest);
  }

  lemma {:induction false} BindsShort(elf: Elf64, cfg: Config, opts: Options, st: State, longest: nat)
    requires Ready(elf, cfg, opts) && ImageAfter(elf, cfg, opts, st) && BindingsEncodable(SortedBindings(st))
    requires Modest(elf, cfg, opts, longest)
    ensures |BindProgram(SortedBindings(st), 1)| <= (longest + 25) * |RelasOf(elf)| + 3
  {
    hide WordsBacked, WordsApart, FilesSeparated, ImageAfter, Modest, Sort, Relocations, BindItems, ShortBinding;
    ListCounts(elf, cfg, opts, st);
    forall i | 0 <= i < |SortedBindings(st)| ensures ShortBinding(SortedBindings(st)[i], longest) {
      BindShort(elf, cfg, opts, st, longest, i);
    }
    BindLength(SortedBindings(st), longest);
    Scaled(longest + 25, |SortedBindings(st)|, |RelasOf(elf)|);
  }

  lemma {:induction false} Scaled(a: nat, b: nat, c: nat)
    requires b <= c
    ensures a * b <= a * c
  {
  }

  lemma {:induction false} BindingShort(elf: Elf64, cfg: Config, opts: Options, n: nat, j: nat, longest: nat)
    requires Ready(elf, cfg, opts) && j < |RelasOf(elf)|
    requires Resolves(EnvOf(elf, cfg, opts), RelasOf(elf)[j], n) && !Internal(EnvOf(elf, cfg, opts), RelasOf(elf)[j])
    requires Target(EnvOf(elf, cfg, opts), RelasOf(elf)[j]).loc.off < TWO64 && Modest(elf, cfg, opts, longest)
    ensures ShortBinding(BindingOf(EnvOf(elf, cfg, opts), RelasOf(elf)[j], View(ImageBefore(elf, cfg))), longest)
  {
    hide Ready, Segments, VmEnd, DataEnd, Align, Locate, Symbols, Relocations, LoadWord, View, ImageBefore, Version;
    assert RelasOf(elf)[j].symbolIndex < |Symbols(elf)|;
  }

  /** On a modest file nothing but the records, the opcodes and the header room can stop the translation. */
  lemma {:induction false} ModestFits(elf: Elf64, cfg: Config, opts: Options, longest: nat)
    requires Ready(elf, cfg, opts) && RecordsKnown(elf) && WordsNameable(elf) && Modest(elf, cfg, opts, longest)
    ensures TranslationFits(elf, cfg, opts)
  {
    hide Ready, Segments, Relocated, ImageAfter, RecordsKnown, WordsNameable, Sort, VmEnd, DataEnd, Align, Align8,
      Version, RebaseProgram, BindProgram, AllEncodable, BindingsEncodable, Symbols;
    RelocatesIff(elf, cfg, opts);
    var st := Relocated(elf, cfg, opts).value;
    RelocationLeaves(elf, cfg, opts);
    EncodableIff(elf, cfg, opts, st);
    LocsEncodable(st.rebases);
    BindingLocsEncodable(st.bindings);
    ImageSize(elf, cfg, opts, st);
    RebasesShort(elf, cfg, opts, st);
    BindsShort(elf, cfg, opts, st, longest);
  }

  // ----- Phase 4 -----

  /** Then Phase 4's rebuilding fails only for want of header room, or with the trie ending past 4 GiB. */
  lemma {:induction false} RebuildsIff(elf: Elf64, cfg: Config, opts: Options, trie: seq<byte>)
    requires Ready(elf, cfg, opts) && Translated(elf, cfg, opts).Ok?
    ensures var out := Translated(elf, cfg, opts).value;
      && out.dylib.info.DyldInfo? && out.linkeditOff <= out.dylib.info.bindOff
      && (Rebuilt(out, cfg, opts, trie).Ok?
          <==> BaseHeader(|LoadsOf(elf)|, opts) + 72 <= cfg.headerReserve && ExportOff(out) + |trie| < TWO32)
  {
    hide Segments, Relocated, ImageAfter, BaseHeader, Assemble, Sort, RebaseProgram, BindProgram, WordsBacked,
      Numbers, WordsApart, FilesSeparated, DataEnd, VmEnd, Translated, Widens, Rebuilt, TranslationFits, ExportOff;
    TranslationParts(elf, cfg, opts);
    var st := Relocated(elf, cfg, opts).value;
    RelocationLeaves(elf, cfg, opts);
    ImageSize(elf, cfg, opts, st);
    var rebase, bind := RebaseProgram(Sort(st.rebases, SELF)), BindProgram(Sort(st.bindings, BINDING_LOC), 1);
    Phase3Shape(elf, cfg, opts, st, rebase, bind);
    WidenedFits(LoadsOf(elf), elf.data, cfg);
    AssemblesIff(LoadsOf(elf), elf.data, cfg, opts, st, rebase, bind);
    NumbersOf(LoadsOf(elf), cfg, opts, st, rebase, bind, Translated(elf, cfg, opts).value);
    RebuiltRoom(LoadsOf(elf), elf.data, Translated(elf, cfg, opts).value, cfg, opts, trie);
  }

  lemma {:induction false} NumbersOf(loads: seq<ProgramHeader>, cfg: Config, opts: Options, st: State,
                                     rebase: seq<byte>, bind: seq<byte>, out: Output)
    requires |loads| > 0 && Numbers(Segments(loads, cfg), opts, |st.image|, rebase, bind)
    requires out.dylib.info.DyldInfo? && out.linkeditOff == |st.image|
        && out.linkeditVm == Align(VmEnd(Segments(loads, cfg)))
    requires out.dylib.info.rebaseOff == out.linkeditOff && out.dylib.info.rebaseSize == |rebase|
    requires out.dylib.info.bindOff == Align8(out.linkeditOff + |rebase|) && out.dylib.info.bindSize == |bind|
    ensures OldFieldsFit(out, opts)
  {
    hide Segments, VmEnd, Align, Version;
  }

  /** Phase 3's numbers fit, as Phase 4 needs them. */
  predicate OldFieldsFit(out: Output, opts: Options)
    requires out.dylib.info.DyldInfo?
  {
    && out.linkeditVm < TWO64 && Version(opts.minIos) < TWO32 && out.linkeditOff < TWO32
    && out.dylib.info.rebaseOff < TWO32 && out.dylib.info.rebaseSize < TWO32
    && out.dylib.info.bindOff < TWO32 && out.dylib.info.bindSize < TWO32
  }

  lemma {:induction false} RebuiltRoom(loads: seq<ProgramHeader>, data: seq<byte>, out: Output, cfg: Config,
                                       opts: Options, trie: seq<byte>)
    requires WellFormed(loads, data, cfg) && out.segments == Segments(loads, cfg)
    requires out.dylib.info.DyldInfo? && out.linkeditOff <= out.dylib.info.bindOff && OldFieldsFit(out, opts)
    requires out.linkeditOff == DataEnd(out.segments) && out.linkeditVm == Align(VmEnd(out.segments))
    requires Widened(out.segments, out.linkeditOff, out.linkeditVm).Some?
    ensures Rebuilt(out, cfg, opts, trie).Ok?
        <==> BaseHeader(|out.segments|, opts) + 72 <= cfg.headerReserve && ExportOff(out) + |trie| < TWO32
  {
    hide Segments, DataEnd, VmEnd, Commands, HeaderSize, SliceAssign, Align, Align8, BaseHeader, Widened, RebuiltData,
      Version, SegmentCommands, HeaderBytes, AllFit, FrontFits, FilesSeparated;
    var info, strOff := out.dylib.info, ExportOff(out) + |trie|;
    var size := strOff + 1 - out.linkeditOff;
    var widened := Widened(out.segments, out.linkeditOff, out.linkeditVm).value;
    var front := SegmentCommands(out.segments, widened, cfg.Slide());
    var linkedit := SegmentCommand(out.linkeditVm, Align(size), out.linkeditOff, size, 1);
    var info4 := DyldInfo(info.rebaseOff, info.rebaseSize, info.bindOff, info.bindSize, ExportOff(out), |trie|);
    DescribedHaveTwo(out.segments, widened, cfg.Slide());
    HeaderBytes4(front, linkedit, opts, info4, Symtab(strOff, 0, strOff, 1));
    LayoutFits(loads, data, cfg);
    WidenedCommandsFit(loads, data, cfg, out);
    if BaseHeader(|out.segments|, opts) + 72 <= cfg.headerReserve {
      CommandsFitIff(front, linkedit, opts, [info4, Symtab(strOff, 0, strOff, 1)]);
      TailFitsIff(out, trie);
    }
  }

  lemma {:induction false} TailFitsIff(out: Output, trie: seq<byte>)
    requires out.dylib.info.DyldInfo? && out.linkeditOff <= out.dylib.info.bindOff
    requires out.linkeditVm < TWO64 && out.linkeditOff < TWO32
    requires out.dylib.info.rebaseOff < TWO32 && out.dylib.info.rebaseSize < TWO32
    requires out.dylib.info.bindOff < TWO32 && out.dylib.info.bindSize < TWO32
    ensures var info, strOff := out.dylib.info, ExportOff(out) + |trie|;
      var size := strOff + 1 - out.linkeditOff;
      var tail := [DyldInfo(info.rebaseOff, info.rebaseSize, info.bindOff, info.bindSize, ExportOff(out), |trie|),
                   Symtab(strOff, 0, strOff, 1)];
      SegmentFits(SegmentCommand(out.linkeditVm, Align(size), out.linkeditOff, size, 1))
          && (forall i :: 0 <= i < |tail| ==> Fits(tail[i]))
      <==> strOff < TWO32
  {
    hide Align, Align8;
    var info, strOff := out.dylib.info, ExportOff(out) + |trie|;
    var tail := [DyldInfo(info.rebaseOff, info.rebaseSize, info.bindOff, info.bindSize, ExportOff(out), |trie|),
                 Symtab(strOff, 0, strOff, 1)];
    assert Fits(tail[0]) <==> ExportOff(out) < TWO32 && |trie| < TWO32;
    assert Fits(tail[1]) <==> strOff < TWO32;
    PairFits(tail[0], tail[1]);
  }

  lemma {:induction false} PairFits(a: LoadCommand, b: LoadCommand)
    ensures (forall i :: 0 <= i < |[a, b]| ==> Fits([a, b][i])) <==> Fits(a) && Fits(b)
  {
    hide Fits;
    assert [a, b][0] == a && [a, b][1] == b;
  }

  lemma {:induction false} WidenedCommandsFit(loads: seq<ProgramHeader>, data: seq<byte>, cfg: Config, out: Output)
    requires WellFormed(loads, data, cfg) && out.segments == Segments(loads, cfg)
    requires out.linkeditOff == DataEnd(out.segments) < TWO32 && out.linkeditVm == Align(VmEnd(out.segments)) < TWO64
    requires Widened(out.segments, out.linkeditOff, out.linkeditVm).Some?
    ensures FrontFits(SegmentCommands(out.segments, Widened(out.segments, out.linkeditOff, out.linkeditVm).value,
                                      cfg.Slide()))
  {
    hide Segments, DataEnd, VmEnd, FilesSeparated, Align, Floor, FrontFits, SegmentCommands, Widened;
    var segs := out.segments;
    var widened := Widened(segs, out.linkeditOff, out.linkeditVm).value;
    WidenedAt(segs, out.linkeditOff, out.linkeditVm);
    forall i | 0 <= i < |segs| ensures widened[i].vmsize < TWO64 && widened[i].filesize < TWO64 {
      var k := if i + 1 < |segs| then i + 1 else i;
      VmEndCovers(segs, k);
      DataEndCovers(segs, k);
      FileEndCovers(segs[k]);
    }
    FrontFitsWhen(loads, data, cfg, widened);
  }

  /** Where a modest file's trie begins, at most. */
  lemma {:induction false} ModestExport(elf: Elf64, cfg: Config, opts: Options, longest: nat)
    requires Ready(elf, cfg, opts) && Translated(elf, cfg, opts).Ok? && Modest(elf, cfg, opts, longest)
    ensures var out, k := Translated(elf, cfg, opts).value, |RelasOf(elf)|;
      out.dylib.info.DyldInfo?
          && ExportOff(out) <= DataEnd(Segments(LoadsOf(elf), cfg)) + 12 * k + (longest + 25) * k + 20
  {
    hide Segments, Relocated, ImageAfter, BaseHeader, Assemble, Sort, RebaseProgram, BindProgram, WordsBacked,
      Version, WordsApart, FilesSeparated, DataEnd, VmEnd, Translated, Symbols, Align;
    TranslationParts(elf, cfg, opts);
    var st := Relocated(elf, cfg, opts).value;
    RelocationLeaves(elf, cfg, opts);
    ImageSize(elf, cfg, opts, st);
    Phase3Shape(elf, cfg, opts, st, RebaseProgram(SortedRebases(st)), BindProgram(SortedBindings(st), 1));
    RebasesShort(elf, cfg, opts, st);
    BindsShort(elf, cfg, opts, st, longest);
  }
}
