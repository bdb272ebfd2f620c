/** What dyld reads back from the header that Phases 3 and 4 write. */
module Headers {
  import opened Bytes
  import opened Wrappers
  import opened ElfReader
  import opened Layout
  import opened MachO
  import opened MachReader
  import opened Phase3
  import opened Dyld

  lemma {:induction false} HeadOf(a: seq<LoadCommand>, b: seq<LoadCommand>)
    requires |a| > 0
    ensures (a + b)[0] == a[0] && (a + b)[1..] == a[1..] + b
  {
  }

  lemma {:induction false} InHead(cs: seq<LoadCommand>)
    requires |cs| > 0
    ensures SegmentsIn(cs) == (if cs[0].Segment? then [cs[0].seg] else []) + SegmentsIn(cs[1..])
    ensures InfosIn(cs) == (if cs[0].DyldInfo? then [cs[0]] else []) + InfosIn(cs[1..])
    ensures LibrariesIn(cs) == (if cs[0].Dylib? && !cs[0].isId then [cs[0].install] else []) + LibrariesIn(cs[1..])
    ensures SymtabsIn(cs) == (if cs[0].Symtab? then [cs[0]] else []) + SymtabsIn(cs[1..])
  {
  }

  lemma {:induction false} InNone(cs: seq<LoadCommand>)
    requires |cs| == 0
    ensures SegmentsIn(cs) == []
    ensures InfosIn(cs) == []
    ensures LibrariesIn(cs) == []
    ensures SymtabsIn(cs) == []
  {
  }

  lemma {:induction false} InConcat(a: seq<LoadCommand>, b: seq<LoadCommand>)
    ensures SegmentsIn(a + b) == SegmentsIn(a) + SegmentsIn(b)
    ensures InfosIn(a + b) == InfosIn(a) + InfosIn(b)
    ensures LibrariesIn(a + b) == LibrariesIn(a) + LibrariesIn(b)
    ensures SymtabsIn(a + b) == SymtabsIn(a) + SymtabsIn(b)
    decreases |a|
  {
    hide SegmentsIn, InfosIn, LibrariesIn, SymtabsIn;
    if |a| == 0 {
      assert a + b == b;
      InNone(a);
    } else {
      InConcat(a[1..], b);
      HeadOf(a, b);
      InHead(a);
      InHead(a + b);
    }
  }

  lemma {:induction false} FrontIn(front: seq<LoadCommand>, segs: seq<SegmentCommand>)
    requires |front| == |segs| && forall i :: 0 <= i < |front| ==> front[i].Segment? && front[i].seg == segs[i]
    ensures SegmentsIn(front) == segs && InfosIn(front) == [] && LibrariesIn(front) == [] && SymtabsIn(front) == []
    decreases |front|
  {
    if |front| > 0 {
      FrontIn(front[1..], segs[1..]);
    }
  }

  lemma {:induction false} SeenConcat(a: seq<LoadCommand>, b: seq<LoadCommand>)
    ensures SeenAll(a + b) == SeenAll(a) + SeenAll(b)
  {
    hide Seen;
  }

  lemma {:induction false} OneIn(c: LoadCommand)
    ensures SegmentsIn([c]) == if c.Segment? then [c.seg] else []
    ensures InfosIn([c]) == if c.DyldInfo? then [c] else []
    ensures LibrariesIn([c]) == if c.Dylib? && !c.isId then [c.install] else []
    ensures SymtabsIn([c]) == if c.Symtab? then [c] else []
  {
    assert [c][1..] == [];
  }

  lemma {:induction false} SeenOne(c: LoadCommand)
    ensures SeenAll([c]) == [Seen(c)]
  {
    hide Seen;
  }

  /** The four commands that follow the segments. */
  function Middle(linkedit: SegmentCommand, opts: Options): seq<LoadCommand> {
    [Segment(Padded("__LINKEDIT"), linkedit, []), LoadCommand.Dylib(opts.shimInstall, false),
     LoadCommand.Dylib(opts.install, true), BuildVersion(Version(opts.minIos))]
  }

  lemma {:induction false} MiddleIn(linkedit: SegmentCommand, opts: Options)
    ensures var middle := SeenAll(Middle(linkedit, opts));
      && SegmentsIn(middle) == [linkedit] && InfosIn(middle) == [] && LibrariesIn(middle) == [ShimName(opts)]
      && SymtabsIn(middle) == []
  {
    hide Padded, Version, SegmentsIn, InfosIn, LibrariesIn, SymtabsIn, CStringAt;
    var cs := SeenAll(Middle(linkedit, opts));
    assert cs == [cs[0]] + ([cs[1]] + ([cs[2]] + [cs[3]]));
    InConcat([cs[0]], [cs[1]] + ([cs[2]] + [cs[3]]));
    InConcat([cs[1]], [cs[2]] + [cs[3]]);
    InConcat([cs[2]], [cs[3]]);
    OneIn(cs[0]);
    OneIn(cs[1]);
    OneIn(cs[2]);
    OneIn(cs[3]);
  }

  /** The commands' segments, libraries and link-edit parts are the ones they were made of, each once and in order. */
  lemma {:induction false} CommandsSay(segs: seq<ImageSegment>, commands: seq<SegmentCommand>, slide: nat,
                                       linkedit: SegmentCommand, opts: Options, tail: seq<LoadCommand>)
    requires |commands| == |segs|
    ensures var seen := SeenAll(Commands(SegmentCommands(segs, commands, slide), linkedit, opts, tail));
      && SegmentsIn(seen) == commands + [linkedit] + SegmentsIn(SeenAll(tail))
      && InfosIn(seen) == InfosIn(SeenAll(tail)) && LibrariesIn(seen) == [ShimName(opts)] + LibrariesIn(SeenAll(tail))
      && SymtabsIn(seen) == SymtabsIn(SeenAll(tail))
  {
    hide Padded, Version, SegmentName, SectionName, ShimName, SegmentsIn, InfosIn, LibrariesIn, SymtabsIn;
    var front := SegmentCommands(segs, commands, slide);
    var middle := Middle(linkedit, opts);
    assert Commands(front, linkedit, opts, tail) == (front + middle) + tail;
    SeenConcat(front + middle, tail);
    SeenConcat(front, middle);
    InConcat(SeenAll(front) + SeenAll(middle), SeenAll(tail));
    InConcat(SeenAll(front), SeenAll(middle));
    FrontIn(SeenAll(front), commands);
    MiddleIn(linkedit, opts);
  }

  lemma {:induction false} InfoTail(info: LoadCommand)
    requires info.DyldInfo?
    ensures var tail := SeenAll([info]);
      SegmentsIn(tail) == [] && InfosIn(tail) == [info] && LibrariesIn(tail) == [] && SymtabsIn(tail) == []
  {
    hide SegmentsIn, InfosIn, LibrariesIn, SymtabsIn;
    assert SeenAll([info]) == [info];
    OneIn(info);
  }

  lemma {:induction false} SymtabTail(info: LoadCommand, symtab: LoadCommand)
    requires info.DyldInfo? && symtab.Symtab?
    ensures var tail := SeenAll([info, symtab]);
      SegmentsIn(tail) == [] && InfosIn(tail) == [info] && LibrariesIn(tail) == [] && SymtabsIn(tail) == [symtab]
  {
    hide SegmentsIn, InfosIn, LibrariesIn, SymtabsIn;
    assert SeenAll([info, symtab]) == [info] + [symtab];
    InConcat([info], [symtab]);
    OneIn(info);
    OneIn(symtab);
  }

  lemma {:induction false} TwoLevel()
    ensures HEADER_FLAGS == 0x84 && HEADER_FLAGS / 0x80 % 2 == 1 && HEADER_FLAGS < TWO32
  {
  }

  /** dyld's view of a file that begins with such a header. */
  lemma {:induction false} HeaderSays(file: seq<byte>, segs: seq<ImageSegment>, commands: seq<SegmentCommand>,
                                      slide: nat, linkedit: SegmentCommand, opts: Options, tail: seq<LoadCommand>,
                                      info: LoadCommand)
    requires |commands| == |segs| && SegmentsIn(SeenAll(tail)) == [] && LibrariesIn(SeenAll(tail)) == []
    requires InfosIn(SeenAll(tail)) == [info]
    requires var cs := Commands(SegmentCommands(segs, commands, slide), linkedit, opts, tail);
      AllFit(cs) && HeaderSize(cs) <= |file| && file[..HeaderSize(cs)] == HeaderBytes(cs, HEADER_FLAGS)
    ensures var cs := Commands(SegmentCommands(segs, commands, slide), linkedit, opts, tail);
      && ReadFile(file) == Some(MachFile(HEADER_FLAGS, SeenAll(cs)))
      && ImageOf(file) == Some(Dylib.Dylib(file, commands + [linkedit], info, [ShimName(opts)]))
      && SymtabsIn(SeenAll(cs)) == SymtabsIn(SeenAll(tail))
  {
    hide SegmentCommands, Commands, AllFit, HeaderSize, HeaderBytes, ReadFile, ShimName, SegmentsIn, InfosIn,
      LibrariesIn, SymtabsIn, SeenAll;
    TwoLevel();
    HeaderRead(file, Commands(SegmentCommands(segs, commands, slide), linkedit, opts, tail), HEADER_FLAGS);
    CommandsSay(segs, commands, slide, linkedit, opts, tail);
    assert commands + [linkedit] + [] == commands + [linkedit] && [ShimName(opts)] + [] == [ShimName(opts)];
  }

  /** Written over the start of a file, a header is the file's first bytes. */
  lemma {:induction false} HeaderFirst(file: seq<byte>, header: seq<byte>)
    ensures var r := SliceAssign(file, 0, |header|, header); |header| <= |r| && r[..|header|] == header
  {
  }
}
