/** Phase 4: the Phase 3 file with __LINKEDIT rebuilt around an export trie and its segments made contiguous. */
module Phase4 {
  import opened Bytes
  import opened Wrappers
  import opened ElfReader
  import opened Layout
  import opened Sorting
  import opened Fixups
  import opened MachO
  import opened Phase3
  import opened Images
  import opened RelocatedImage
  import opened LoaderEquivalence
  import opened BindCondition
  import opened Phase3Correct
  import opened Headers
  import MachReader
  import Dyld

  datatype Error4 = Phase3Failed(error: Error) | TrieFailed | NegativeField | TooWide | CommandsTooLarge

  datatype Output4 = Output4(dylib: Dylib, symtab: LoadCommand)

  // ----- the file -----

  function Widened(segs: seq<ImageSegment>, endOff: nat, endVm: nat): (r: Option<seq<SegmentCommand>>)
    ensures r.Some? ==> |r.value| == |segs|
  {
    if |segs| == 0 then Some([])
    else
      var seg := segs[0];
      var nextOff := if |segs| > 1 then segs[1].fileoff else endOff;
      var nextVm := if |segs| > 1 then segs[1].vmaddr else endVm;
      match Widened(segs[1..], endOff, endVm)
      case None => None
      case Some(rest) =>
        if nextOff < seg.fileoff || nextVm < seg.vmaddr then None
        else Some([SegmentCommand(seg.vmaddr, nextVm - seg.vmaddr, seg.fileoff, nextOff - seg.fileoff, seg.protection)]
          + rest)
  }

  /** Grow with zeros or cut to exactly n bytes. */
  function Resize(s: seq<byte>, n: nat): (r: seq<byte>)
    ensures |r| == n
  {
    if |s| < n then s + Zeros(n - |s|) else s[..n]
  }

  function BindEnd(out: Output): nat
    requires out.dylib.info.DyldInfo?
  {
    out.dylib.info.bindOff + out.dylib.info.bindSize
  }

  function ExportOff(out: Output): nat
    requires out.dylib.info.DyldInfo?
  {
    Align8(BindEnd(out))
  }

  /** Cut or grow the file to end with the trie and a one-byte string table. */
  function RebuiltData(out: Output, trie: seq<byte>): seq<byte>
    requires out.dylib.info.DyldInfo?
  {
    var strOff := ExportOff(out) + |trie|;
    Overlay(Overlay(Resize(out.dylib.file, strOff + 1), ExportOff(out), trie), strOff, [0])
  }

  /** The Phase 3 output rewritten; an error when a widened size would be negative or the commands do not fit. */
  function Rebuilt(out: Output, cfg: Config, opts: Options, trie: seq<byte>): Result<Output4, Error4>
    requires out.dylib.info.DyldInfo? && out.linkeditOff <= out.dylib.info.bindOff
  {
    var info, strOff := out.dylib.info, ExportOff(out) + |trie|;
    var linkeditSize := strOff + 1 - out.linkeditOff;
    match Widened(out.segments, out.linkeditOff, out.linkeditVm)
    case None => Err(NegativeField)
    case Some(cmds) =>
      var linkedit := SegmentCommand(out.linkeditVm, Align(linkeditSize), out.linkeditOff, linkeditSize, 1);
      var info4 := DyldInfo(info.rebaseOff, info.rebaseSize, info.bindOff, info.bindSize, ExportOff(out), |trie|);
      var symtab := Symtab(strOff, 0, strOff, 1);
      var all := Commands(SegmentCommands(out.segments, cmds, cfg.Slide()), linkedit, opts, [info4, symtab]);
      if !AllFit(all) then Err(TooWide)
      else
        var header := HeaderBytes(all, HEADER_FLAGS);
        if |header| > cfg.headerReserve then Err(CommandsTooLarge)
        else
          var cleared := SliceAssign(RebuiltData(out, trie), 0, cfg.headerReserve, Zeros(cfg.headerReserve));
          Ok(Output4(Dylib.Dylib(SliceAssign(cleared, 0, |header|, header), cmds + [linkedit], info4, [ShimName(opts)]),
                     symtab))
  }

  // ----- geometry -----

  predicate Contiguous(segs: seq<SegmentCommand>) {
    forall i :: 0 <= i < |segs| - 1 ==>
      segs[i].fileoff + segs[i].filesize == segs[i + 1].fileoff && segs[i].vmaddr + segs[i].vmsize == segs[i + 1].vmaddr
  }

  /** The first segment that could follow segs, or the end of the image. */
  function NextOff(segs: seq<ImageSegment>, i: nat, endOff: nat): nat
    requires i < |segs|
  {
    if i + 1 < |segs| then segs[i + 1].fileoff else endOff
  }

  function NextVm(segs: seq<ImageSegment>, i: nat, endVm: nat): nat
    requires i < |segs|
  {
    if i + 1 < |segs| then segs[i + 1].vmaddr else endVm
  }

  predicate InOrder(segs: seq<ImageSegment>, endOff: nat, endVm: nat) {
    forall i :: 0 <= i < |segs| ==>
      segs[i].fileoff <= NextOff(segs, i, endOff) && segs[i].vmaddr <= NextVm(segs, i, endVm)
  }

  function WidenedCommand(segs: seq<ImageSegment>, i: nat, endOff: nat, endVm: nat): SegmentCommand
    requires i < |segs| && InOrder(segs, endOff, endVm)
  {
    SegmentCommand(segs[i].vmaddr, NextVm(segs, i, endVm) - segs[i].vmaddr,
                   segs[i].fileoff, NextOff(segs, i, endOff) - segs[i].fileoff, segs[i].protection)
  }

  // The segments after the first have the same successors by themselves.
  lemma {:induction false} RestFollows(segs: seq<ImageSegment>, endOff: nat, endVm: nat, i: nat)
    requires i + 1 < |segs|
    ensures segs[1..][i] == segs[i + 1]
    ensures NextOff(segs[1..], i, endOff) == NextOff(segs, i + 1, endOff)
    ensures NextVm(segs[1..], i, endVm) == NextVm(segs, i + 1, endVm)
  {
  }

  lemma {:induction false} RestInOrder(segs: seq<ImageSegment>, endOff: nat, endVm: nat)
    requires |segs| > 0
    ensures InOrder(segs, endOff, endVm)
       <==> InOrder(segs[1..], endOff, endVm)
            && segs[0].fileoff <= NextOff(segs, 0, endOff) && segs[0].vmaddr <= NextVm(segs, 0, endVm)
    ensures InOrder(segs, endOff, endVm) ==> forall i :: 0 <= i < |segs| - 1 ==>
      WidenedCommand(segs[1..], i, endOff, endVm) == WidenedCommand(segs, i + 1, endOff, endVm)
  {
    hide NextOff, NextVm;
    var rest := segs[1..];
    forall i | 0 <= i < |rest|
      ensures rest[i] == segs[i + 1] && NextOff(rest, i, endOff) == NextOff(segs, i + 1, endOff)
      ensures NextVm(rest, i, endVm) == NextVm(segs, i + 1, endVm)
    {
      RestFollows(segs, endOff, endVm, i);
    }
    if InOrder(rest, endOff, endVm) && segs[0].fileoff <= NextOff(segs, 0, endOff)
       && segs[0].vmaddr <= NextVm(segs, 0, endVm) {
      forall i | 0 <= i < |segs|
        ensures segs[i].fileoff <= NextOff(segs, i, endOff) && segs[i].vmaddr <= NextVm(segs, i, endVm)
      {
        if i > 0 {
          assert rest[i - 1].fileoff <= NextOff(rest, i - 1, endOff);
        }
      }
    }
    if InOrder(segs, endOff, endVm) {
      forall i | 0 <= i < |rest|
        ensures rest[i].fileoff <= NextOff(rest, i, endOff) && rest[i].vmaddr <= NextVm(rest, i, endVm)
      {
        assert segs[i + 1].fileoff <= NextOff(segs, i + 1, endOff);
      }
    }
  }

  /** Widening succeeds exactly on segments in order, and gives each one the room up to the next. */
  lemma {:induction false} WidenedAt(segs: seq<ImageSegment>, endOff: nat, endVm: nat)
    ensures Widened(segs, endOff, endVm).Some? <==> InOrder(segs, endOff, endVm)
    ensures Widened(segs, endOff, endVm).Some? ==>
      var r := Widened(segs, endOff, endVm).value;
      |r| == |segs| && forall i :: 0 <= i < |segs| ==> r[i] == WidenedCommand(segs, i, endOff, endVm)
    decreases |segs|
  {
    hide InOrder;
    if |segs| > 0 {
      WidenedAt(segs[1..], endOff, endVm);
      RestInOrder(segs, endOff, endVm);
    } else {
      NoneInOrder(segs, endOff, endVm);
    }
  }

  lemma {:induction false} NoneInOrder(segs: seq<ImageSegment>, endOff: nat, endVm: nat)
    requires |segs| == 0
    ensures InOrder(segs, endOff, endVm)
  {
  }

  lemma {:induction false} DataEndIsLast(loads: seq<ProgramHeader>, cfg: Config, n: nat)
    requires Accepted(loads) && 0 < n <= |loads|
    ensures DataEnd(Segments(loads, cfg)[..n]) == FileEnd(Segments(loads, cfg)[n - 1])
    decreases n
  {
    hide Segments, FileEnd;
    var segs := Segments(loads, cfg);
    assert segs[..n][..n - 1] == segs[..n - 1];
    if n > 1 {
      DataEndIsLast(loads, cfg, n - 1);
      FilesOrdered(loads, cfg, n - 2, n - 1);
      FileEndCovers(segs[n - 1]);
    }
  }

  /** Widened, a segment's file part ends in memory on the page where its load's file-backed part ends. */
  lemma {:induction false} FilePagesEnd(loads: seq<ProgramHeader>, cfg: Config, i: nat)
    requires Accepted(loads) && cfg.imageBase % PAGE == 0 && i < |loads|
    ensures var seg := Segments(loads, cfg)[i];
      seg.vmaddr + (FileEnd(seg) - seg.fileoff) == Align(cfg.Slide() + loads[i].vaddr + loads[i].filesz)
  {
    hide Segments, Align, Floor, Placed, FileEnd;
    SegmentAt(loads, cfg, i);
    PlacedPagesEnd(Segments(loads, cfg)[i], loads[i], cfg.Slide());
  }

  lemma {:induction false} PlacedPagesEnd(seg: ImageSegment, ph: ProgramHeader, slide: nat)
    requires Placed(seg, ph, slide) && seg.vmaddr % PAGE == 0
    ensures seg.vmaddr + (FileEnd(seg) - seg.fileoff) == Align(slide + ph.vaddr + ph.filesz)
  {
    hide Align;
    AlignShift(seg.fileoff, seg.filesize);
    AlignShift(seg.vmaddr, seg.filesize);
    assert seg.vmaddr + seg.filesize == slide + ph.vaddr + ph.filesz;
  }

  lemma {:induction false} NextFile(loads: seq<ProgramHeader>, cfg: Config, i: nat)
    requires Accepted(loads) && i < |loads|
    ensures var segs := Segments(loads, cfg); NextOff(segs, i, DataEnd(segs)) == FileEnd(segs[i])
  {
    hide Segments, FileEnd, DataEnd;
    if i + 1 < |loads| {
      SegmentAt(loads, cfg, i + 1);
    } else {
      DataEndIsLast(loads, cfg, |loads|);
      assert Segments(loads, cfg)[..|loads|] == Segments(loads, cfg);
    }
  }

  /** A widened segment that is not the last fits its memory exactly when the next load starts above its file pages. */
  lemma {:induction false} WidenedFitsIff(loads: seq<ProgramHeader>, cfg: Config, i: nat)
    requires Accepted(loads) && cfg.imageBase % PAGE == 0 && i + 1 < |loads|
    ensures var segs := Segments(loads, cfg);
      segs[i].vmaddr + (FileEnd(segs[i]) - segs[i].fileoff) <= segs[i + 1].vmaddr
      <==> BackedApart(loads[i], loads[i + 1], cfg.Slide())
  {
    hide Segments, FileEnd, Align, Floor, Placed, PagedTo;
    FilePagesEnd(loads, cfg, i);
    SegmentAt(loads, cfg, i + 1);
  }

  lemma {:induction false} NextRoom(loads: seq<ProgramHeader>, data: seq<byte>, cfg: Config, i: nat)
    requires WellFormed(loads, data, cfg) && i < |loads|
    ensures var segs := Segments(loads, cfg);
      segs[i].vmaddr + (FileEnd(segs[i]) - segs[i].fileoff) <= NextVm(segs, i, Align(VmEnd(segs)))
  {
    hide Segments, FileEnd, DataEnd, VmEnd, Align, BackedApart;
    var segs := Segments(loads, cfg);
    if i + 1 < |loads| {
      WidenedFitsIff(loads, cfg, i);
    } else {
      FileFitsMemory(loads, data, cfg, i);
      VmEndCovers(segs, i);
    }
  }

  /** On a well-formed file the widened segments exist, are contiguous, and still map the placed ones. */
  lemma {:induction false} WidenedFits(loads: seq<ProgramHeader>, data: seq<byte>, cfg: Config)
    requires WellFormed(loads, data, cfg)
    ensures var segs := Segments(loads, cfg);
      var r := Widened(segs, DataEnd(segs), Align(VmEnd(segs)));
      && r.Some? && |r.value| == |segs|
      && (forall i :: 0 <= i < |segs| ==>
           Widens(r.value[i], segs[i]) && r.value[i].filesize <= r.value[i].vmsize
           && r.value[i].fileoff + r.value[i].filesize == NextOff(segs, i, DataEnd(segs))
           && r.value[i].vmaddr + r.value[i].vmsize == NextVm(segs, i, Align(VmEnd(segs))))
  {
    hide Segments, FileEnd, DataEnd, VmEnd, FilesSeparated, Align, Widened;
    var segs := Segments(loads, cfg);
    WidenedAt(segs, DataEnd(segs), Align(VmEnd(segs)));
    forall i | 0 <= i < |segs|
      ensures NextOff(segs, i, DataEnd(segs)) == FileEnd(segs[i])
      ensures segs[i].vmaddr + (FileEnd(segs[i]) - segs[i].fileoff) <= NextVm(segs, i, Align(VmEnd(segs)))
      ensures segs[i].filesize <= FileEnd(segs[i]) - segs[i].fileoff
    {
      NextFile(loads, cfg, i);
      NextRoom(loads, data, cfg, i);
      FileEndCovers(segs[i]);
    }
  }

  // ----- contents -----

  /** Clearing the reserve and writing a header that fits it leaves the rest of the file alone. */
  lemma {:induction false} HeaderRewritten(data: seq<byte>, header: seq<byte>, reserve: nat)
    requires |header| <= reserve <= |data|
    ensures var file := SliceAssign(SliceAssign(data, 0, reserve, Zeros(reserve)), 0, |header|, header);
      |file| == |data| && forall x :: reserve <= x < |data| ==> file[x] == data[x]
  {
    hide SliceAssign;
    var cleared := SliceAssign(data, 0, reserve, Zeros(reserve));
    var file := SliceAssign(cleared, 0, |header|, header);
    HeaderOver(data, Zeros(reserve), reserve);
    HeaderOver(cleared, header, reserve);
    forall x | reserve <= x < |data| ensures file[x] == data[x] {
      assert file[x] == file[reserve..][x - reserve] && data[x] == data[reserve..][x - reserve];
    }
  }

  lemma {:induction false} RebuiltDataBytes(out: Output, trie: seq<byte>)
    requires out.dylib.info.DyldInfo? && out.linkeditOff <= out.dylib.info.bindOff && BindEnd(out) <= |out.dylib.file|
    ensures var data := RebuiltData(out, trie);
      && |data| == ExportOff(out) + |trie| + 1
      && (forall x :: 0 <= x < BindEnd(out) ==> data[x] == out.dylib.file[x])
      && data[ExportOff(out)..ExportOff(out) + |trie|] == trie
      && data[ExportOff(out) + |trie|] == 0
  {
    hide Align8;
  }

  lemma {:induction false} RebuiltBytes(out: Output, cfg: Config, opts: Options, trie: seq<byte>)
    requires out.dylib.info.DyldInfo? && out.linkeditOff <= out.dylib.info.bindOff
    requires cfg.headerReserve <= BindEnd(out) <= |out.dylib.file|
    requires Rebuilt(out, cfg, opts, trie).Ok?
    ensures var d := Rebuilt(out, cfg, opts, trie).value.dylib;
      && |d.file| == ExportOff(out) + |trie| + 1
      && (forall x :: cfg.headerReserve <= x < BindEnd(out) ==> d.file[x] == out.dylib.file[x])
      && d.file[ExportOff(out)..ExportOff(out) + |trie|] == trie
      && d.file[ExportOff(out) + |trie|] == 0
  {
    hide Commands, HeaderSize, Widened, RebuiltData, SliceAssign, AllFit, HeaderBytes, SegmentCommands, ShimName;
    var data := RebuiltData(out, trie);
    var r := Rebuilt(out, cfg, opts, trie).value;
    var widened := Widened(out.segments, out.linkeditOff, out.linkeditVm).value;
    var cmds := Commands(SegmentCommands(out.segments, widened, cfg.Slide()),
                         r.dylib.segments[|r.dylib.segments| - 1], opts, [r.dylib.info, r.symtab]);
    var header := HeaderBytes(cmds, HEADER_FLAGS);
    RebuiltDataBytes(out, trie);
    HeaderRewritten(data, header, cfg.headerReserve);
    assert r.dylib.file[ExportOff(out)..ExportOff(out) + |trie|] == data[ExportOff(out)..ExportOff(out) + |trie|];
  }

  lemma {:induction false} SliceKept(a: seq<byte>, b: seq<byte>, lo: nat, hi: nat)
    requires lo <= hi <= |a| && hi <= |b| && forall x :: lo <= x < hi ==> a[x] == b[x]
    ensures Slice(a, lo, hi) == Slice(b, lo, hi)
  {
  }

  // ----- Phase 4 refines Phase 3 -----

  /** What Phase 4 needs to know of the Phase 3 output. */
  lemma {:induction false} Phase3Shape(elf: Elf64, cfg: Config, opts: Options, st: State,
                                       rebase: seq<byte>, bind: seq<byte>)
    requires Parts(elf, cfg, opts, st, rebase, bind)
    ensures var segs, out := Segments(LoadsOf(elf), cfg), Assemble(Segments(LoadsOf(elf), cfg), cfg, opts, st,
                                                                   rebase, bind).value;
      && out.dylib.info.DyldInfo? && out.linkeditOff == |st.image| == DataEnd(segs)
          && out.linkeditOff <= out.dylib.info.bindOff
      && out.segments == segs && out.linkeditVm == Align(VmEnd(segs))
      && cfg.headerReserve <= out.linkeditOff && BindEnd(out) <= |out.dylib.file|
      && out.dylib.info.rebaseOff == out.linkeditOff && out.dylib.info.rebaseSize == |rebase|
      && out.dylib.info.bindOff == Align8(out.linkeditOff + |rebase|) && out.dylib.info.bindSize == |bind|
  {
    hide Segments, DataEnd, VmEnd, FilesSeparated, Commands, HeaderSize, AllFit, HeaderBytes, SegmentCommands,
      ShimName;
    LayoutFits(LoadsOf(elf), elf.data, cfg);
    AssembledFile(Segments(LoadsOf(elf), cfg), cfg, opts, st, rebase, bind);
  }

  lemma {:induction false} RebuiltSegments(elf: Elf64, cfg: Config, opts: Options, st: State,
                                           rebase: seq<byte>, bind: seq<byte>, trie: seq<byte>)
    requires Parts(elf, cfg, opts, st, rebase, bind)
    requires var out := Assemble(Segments(LoadsOf(elf), cfg), cfg, opts, st, rebase, bind).value;
      out.dylib.info.DyldInfo? && out.linkeditOff <= out.dylib.info.bindOff && Rebuilt(out, cfg, opts, trie).Ok?
    ensures var segs, out := Segments(LoadsOf(elf), cfg), Assemble(Segments(LoadsOf(elf), cfg), cfg, opts, st,
                                                                   rebase, bind).value;
      var d := Rebuilt(out, cfg, opts, trie).value.dylib;
      && |d.segments| == |segs| + 1
      && (forall i :: 0 <= i < |segs| ==> Widens(d.segments[i], segs[i]))
      && (forall i :: 0 <= i < |d.segments| ==> d.segments[i].filesize <= d.segments[i].vmsize)
      && Contiguous(d.segments) && Spans(d.segments, segs)
      && d.segments[|segs|].fileoff == out.linkeditOff
      && d.segments[|segs|].filesize == ExportOff(out) + |trie| + 1 - out.linkeditOff
  {
    hide Segments, DataEnd, VmEnd, FilesSeparated, Commands, HeaderSize, Widens, Widened, Assemble, AllFit,
      HeaderBytes, SegmentCommands, ShimName;
    Phase3Shape(elf, cfg, opts, st, rebase, bind);
    WidenedFits(LoadsOf(elf), elf.data, cfg);
    var segs := Segments(LoadsOf(elf), cfg);
    var out := Assemble(segs, cfg, opts, st, rebase, bind).value;
    var d := Rebuilt(out, cfg, opts, trie).value.dylib;
    var r := Widened(segs, DataEnd(segs), Align(VmEnd(segs))).value;
    assert d.segments[..|segs|] == r;
    forall i | 0 <= i < |segs| ensures d.segments[i] == r[i] && Widens(d.segments[i], segs[i]) {
      assert d.segments[i] == d.segments[..|segs|][i];
    }
    forall i | 0 <= i < |segs|
      ensures d.segments[i].fileoff + d.segments[i].filesize == d.segments[i + 1].fileoff
      ensures d.segments[i].vmaddr + d.segments[i].vmsize == d.segments[i + 1].vmaddr
    {
      if i + 1 < |segs| {
        WidensStart(d.segments[i + 1], segs[i + 1]);
      }
    }
    assert d.segments[|segs|].vmaddr == Align(VmEnd(segs));
    ContiguousSpans(d.segments, segs);
  }

  /** Commands that follow one another up to the end of the placed segments leave no gap in them. */
  lemma {:induction false} ContiguousSpans(cmds: seq<SegmentCommand>, segs: seq<ImageSegment>)
    requires Contiguous(cmds) && |cmds| == |segs| + 1 && cmds[|segs|].vmaddr >= VmEnd(segs)
    requires forall i :: 0 <= i < |segs| ==> Widens(cmds[i], segs[i])
    ensures Spans(cmds, segs)
  {
    hide FileEnd, VmEnd, Contiguous;
    forall i, a | 0 <= i < |segs| && segs[i].vmaddr <= a < segs[i].vmaddr + segs[i].vmsize
      ensures CoveredAt(cmds, |segs|, a)
    {
      VmEndCovers(segs, i);
      assert Widens(cmds[i], segs[i]);
      ContiguousCovers(cmds, i, |segs|, a);
    }
  }

  lemma {:induction false} ContiguousCovers(cmds: seq<SegmentCommand>, i: nat, n: nat, a: int)
    requires Contiguous(cmds) && i < n < |cmds| && cmds[i].vmaddr <= a < cmds[n].vmaddr
    ensures CoveredAt(cmds, n, a)
    decreases n - i
  {
    assert cmds[i].vmaddr + cmds[i].vmsize == cmds[i + 1].vmaddr;
    if !Dyld.Covers(cmds[i], a) {
      ContiguousCovers(cmds, i + 1, n, a);
    }
  }

  lemma {:induction false} WidensStart(cmd: SegmentCommand, seg: ImageSegment)
    requires Widens(cmd, seg)
    ensures cmd.vmaddr == seg.vmaddr && cmd.fileoff == seg.fileoff
  {
  }

  lemma {:induction false} ContiguousOrder(segs: seq<SegmentCommand>, i: nat, j: nat)
    requires Contiguous(segs) && i < j < |segs|
    ensures segs[i].vmaddr + segs[i].vmsize <= segs[j].vmaddr && segs[i].fileoff + segs[i].filesize <= segs[j].fileoff
    decreases j
  {
    if i + 1 < j {
      ContiguousOrder(segs, i, j - 1);
      assert segs[j - 1].vmaddr + segs[j - 1].vmsize == segs[j - 1 + 1].vmaddr;
    }
  }

  lemma {:induction false} RebuiltMappable(d: Dylib)
    requires Contiguous(d.segments) && |d.segments| > 0
    requires forall i :: 0 <= i < |d.segments| ==> d.segments[i].filesize <= d.segments[i].vmsize
    requires d.segments[|d.segments| - 1].fileoff + d.segments[|d.segments| - 1].filesize == |d.file|
    ensures Dyld.Mappable(d.file, d.segments)
  {
    hide Contiguous;
    forall i | 0 <= i < |d.segments| ensures d.segments[i].fileoff + d.segments[i].filesize <= |d.file| {
      if i < |d.segments| - 1 {
        ContiguousOrder(d.segments, i, |d.segments| - 1);
      }
    }
    forall i, j | 0 <= i < j < |d.segments|
      ensures d.segments[i].vmaddr + d.segments[i].vmsize <= d.segments[j].vmaddr
    {
      ContiguousOrder(d.segments, i, j);
    }
  }

  /** Above the header, nothing before the export trie moved. */
  lemma {:induction false} RebuiltContents(out: Output, cfg: Config, opts: Options, trie: seq<byte>,
                                           image: seq<byte>, rebase: seq<byte>, bind: seq<byte>)
    requires out.dylib.info.DyldInfo? && out.linkeditOff <= out.dylib.info.bindOff
    requires Rebuilt(out, cfg, opts, trie).Ok?
    requires cfg.headerReserve <= |image| == out.linkeditOff == out.dylib.info.rebaseOff
    requires BindEnd(out) <= |out.dylib.file|
    requires out.dylib.info.rebaseOff + out.dylib.info.rebaseSize <= out.dylib.info.bindOff
    requires forall x :: cfg.headerReserve <= x < |image| ==> x < |out.dylib.file| && out.dylib.file[x] == image[x]
    requires Slice(out.dylib.file, out.dylib.info.rebaseOff, out.dylib.info.rebaseOff + out.dylib.info.rebaseSize)
        == rebase
    requires Slice(out.dylib.file, out.dylib.info.bindOff, BindEnd(out)) == bind
    ensures var d := Rebuilt(out, cfg, opts, trie).value.dylib;
      && (forall x :: cfg.headerReserve <= x < |image| ==> x < |d.file| && d.file[x] == image[x])
      && d.info.DyldInfo?
      && Slice(d.file, d.info.rebaseOff, d.info.rebaseOff + d.info.rebaseSize) == rebase
      && Slice(d.file, d.info.bindOff, d.info.bindOff + d.info.bindSize) == bind
  {
    hide Commands, HeaderSize, Widened, Slice, RebuiltData, SliceAssign, AllFit, HeaderBytes, SegmentCommands,
      ShimName;
    RebuiltBytes(out, cfg, opts, trie);
    var d := Rebuilt(out, cfg, opts, trie).value.dylib;
    SliceKept(d.file, out.dylib.file, d.info.rebaseOff, d.info.rebaseOff + d.info.rebaseSize);
    SliceKept(d.file, out.dylib.file, d.info.bindOff, d.info.bindOff + d.info.bindSize);
  }

  lemma {:induction false} RebuiltDelivers(elf: Elf64, cfg: Config, opts: Options, st: State,
                                           rebase: seq<byte>, bind: seq<byte>, trie: seq<byte>)
    requires Parts(elf, cfg, opts, st, rebase, bind)
    requires var out := Assemble(Segments(LoadsOf(elf), cfg), cfg, opts, st, rebase, bind).value;
      out.dylib.info.DyldInfo? && out.linkeditOff <= out.dylib.info.bindOff && Rebuilt(out, cfg, opts, trie).Ok?
    ensures var out := Assemble(Segments(LoadsOf(elf), cfg), cfg, opts, st, rebase, bind).value;
      var d := Rebuilt(out, cfg, opts, trie).value.dylib;
      Delivers(d, Segments(LoadsOf(elf), cfg), st.image, cfg.headerReserve, rebase, bind)
  {
    hide Segments, DataEnd, VmEnd, FilesSeparated, Commands, HeaderSize, Widens, Widened, Assemble, Contiguous,
      Dyld.Mappable, Slice, Rebuilt, ExportOff, AllFit, HeaderBytes, SegmentCommands, ShimName;
    var segs := Segments(LoadsOf(elf), cfg);
    var out := Assemble(segs, cfg, opts, st, rebase, bind).value;
    var d := Rebuilt(out, cfg, opts, trie).value.dylib;
    Phase3Shape(elf, cfg, opts, st, rebase, bind);
    PartsInFile(elf, cfg, opts, st, rebase, bind);
    RebuiltContents(out, cfg, opts, trie, st.image, rebase, bind);
    RebuiltSegments(elf, cfg, opts, st, rebase, bind, trie);
    RebuiltBytes(out, cfg, opts, trie);
    RebuiltMappable(d);
  }

  lemma {:induction false} PartsInFile(elf: Elf64, cfg: Config, opts: Options, st: State,
                                       rebase: seq<byte>, bind: seq<byte>)
    requires Parts(elf, cfg, opts, st, rebase, bind)
    ensures var d := Assemble(Segments(LoadsOf(elf), cfg), cfg, opts, st, rebase, bind).value.dylib;
      && (forall x :: cfg.headerReserve <= x < |st.image| ==> x < |d.file| && d.file[x] == st.image[x])
      && d.info.DyldInfo?
      && Slice(d.file, d.info.rebaseOff, d.info.rebaseOff + d.info.rebaseSize) == rebase
      && Slice(d.file, d.info.bindOff, d.info.bindOff + d.info.bindSize) == bind
  {
    hide Segments, DataEnd, VmEnd, FilesSeparated, Commands, HeaderSize, Slice, AllFit, HeaderBytes, SegmentCommands,
      ShimName;
    LayoutFits(LoadsOf(elf), elf.data, cfg);
    AssembledFile(Segments(LoadsOf(elf), cfg), cfg, opts, st, rebase, bind);
  }

  lemma {:induction false} RebuiltLibraries(out: Output, cfg: Config, opts: Options, trie: seq<byte>)
    requires out.dylib.info.DyldInfo? && out.linkeditOff <= out.dylib.info.bindOff
    ensures Rebuilt(out, cfg, opts, trie).Ok? ==>
      Rebuilt(out, cfg, opts, trie).value.dylib.libraries == [ShimName(opts)]
  {
    hide Commands, SegmentCommands, AllFit, HeaderBytes, SliceAssign, Align, Align8, ShimName, Widened, RebuiltData;
  }

  /** The rebuilt dylib still carries the relocated image and the two programs. */
  lemma {:induction false} Phase4Emits(elf: Elf64, cfg: Config, opts: Options, trie: seq<byte>)
    requires Ready(elf, cfg, opts) && Translated(elf, cfg, opts).Ok?
    ensures var out := Translated(elf, cfg, opts).value;
      && out.dylib.info.DyldInfo? && out.linkeditOff <= out.dylib.info.bindOff && Relocated(elf, cfg, opts).Ok?
      && (Rebuilt(out, cfg, opts, trie).Ok? ==>
           Emitted(elf, cfg, opts, Relocated(elf, cfg, opts).value, Rebuilt(out, cfg, opts, trie).value.dylib))
  {
    hide Segments, DataEnd, Relocated, Translated, Assemble, Rebuilt, ImageAfter, Delivers, RebaseProgram,
      BindProgram, Sort, WordsBacked, WordsApart, FilesSeparated;
    TranslationParts(elf, cfg, opts);
    var st := Relocated(elf, cfg, opts).value;
    RelocationLeaves(elf, cfg, opts);
    ImageSize(elf, cfg, opts, st);
    var rebase, bind := RebaseProgram(Sort(st.rebases, SELF)), BindProgram(Sort(st.bindings, BINDING_LOC), 1);
    Phase3Shape(elf, cfg, opts, st, rebase, bind);
    RebuiltLibraries(Translated(elf, cfg, opts).value, cfg, opts, trie);
    if Rebuilt(Translated(elf, cfg, opts).value, cfg, opts, trie).Ok? {
      RebuiltDelivers(elf, cfg, opts, st, rebase, bind, trie);
    }
  }

  // ----- the rebuilt header -----

  /** The commands of the rebuilt file: Phase 3's with the widened segments, the trie's place, and a symbol table. */
  function RebuiltCommands(out: Output, r: Output4, cfg: Config, opts: Options): seq<LoadCommand>
    requires |r.dylib.segments| == |out.segments| + 1
  {
    var n := |out.segments|;
    Commands(SegmentCommands(out.segments, r.dylib.segments[..n], cfg.Slide()), r.dylib.segments[n], opts,
             [r.dylib.info, r.symtab])
  }

  /** The rebuilt file begins with the header of these commands, and read from the file they say what r says. */
  lemma {:induction false} RebuiltRead(out: Output, cfg: Config, opts: Options, trie: seq<byte>)
    requires out.dylib.info.DyldInfo? && out.linkeditOff <= out.dylib.info.bindOff
    requires Rebuilt(out, cfg, opts, trie).Ok?
    ensures var r := Rebuilt(out, cfg, opts, trie).value;
      && |r.dylib.segments| == |out.segments| + 1
      && Dyld.ImageOf(r.dylib.file) == Some(r.dylib)
      && (var cs := MachReader.SeenAll(RebuiltCommands(out, r, cfg, opts));
          && MachReader.ReadFile(r.dylib.file) == Some(MachReader.MachFile(HEADER_FLAGS, cs))
          && Dyld.SymtabsIn(cs) == [r.symtab])
  {
    hide Commands, SegmentCommands, AllFit, HeaderBytes, HeaderSize, SliceAssign, Align, Align8, ShimName, Widened,
      MachReader.ReadFile, Dyld.ImageOf, MachReader.SeenAll, RebuiltData, Dyld.SymtabsIn;
    var r, n := Rebuilt(out, cfg, opts, trie).value, |out.segments|;
    var widened := Widened(out.segments, out.linkeditOff, out.linkeditVm).value;
    assert r.dylib.segments[..n] == widened;
    HeaderFirst(SliceAssign(RebuiltData(out, trie), 0, cfg.headerReserve, Zeros(cfg.headerReserve)),
                HeaderBytes(RebuiltCommands(out, r, cfg, opts), HEADER_FLAGS));
    SymtabTail(r.dylib.info, r.symtab);
    HeaderSays(r.dylib.file, out.segments, widened, cfg.Slide(), r.dylib.segments[n], opts, [r.dylib.info, r.symtab],
               r.dylib.info);
  }

  /** Widening leaves every segment the rights Phase 3 gave it. */
  lemma {:induction false} RightsInRebuilt(elf: Elf64, cfg: Config, opts: Options, trie: seq<byte>)
    requires Translated(elf, cfg, opts).Ok?
    requires var out := Translated(elf, cfg, opts).value;
      out.dylib.info.DyldInfo? && out.linkeditOff <= out.dylib.info.bindOff && Rebuilt(out, cfg, opts, trie).Ok?
    ensures var image := Dyld.ImageOf(Rebuilt(Translated(elf, cfg, opts).value, cfg, opts, trie).value.dylib.file);
      image.Some? && RightsAre(image.value.segments, LoadsOf(elf))
  {
    hide Segments, Translated, Rebuilt, Dyld.ImageOf, MachReader.ReadFile, SameRights, RebuiltCommands;
    TranslationLayout(elf, cfg, opts);
    var out := Translated(elf, cfg, opts).value;
    RebuiltRead(out, cfg, opts, trie);
    RebuiltRights(out, cfg, opts, trie);
    SegmentRights(LoadsOf(elf), cfg, 0);
    forall i | 1 <= i < |LoadsOf(elf)|
      ensures SameRights(Segments(LoadsOf(elf), cfg)[i].protection, LoadsOf(elf)[i].flags)
    {
      SegmentRights(LoadsOf(elf), cfg, i);
    }
  }

  lemma {:induction false} RebuiltRights(out: Output, cfg: Config, opts: Options, trie: seq<byte>)
    requires out.dylib.info.DyldInfo? && out.linkeditOff <= out.dylib.info.bindOff
    requires Rebuilt(out, cfg, opts, trie).Ok?
    ensures var cmds := Rebuilt(out, cfg, opts, trie).value.dylib.segments;
      && |cmds| == |out.segments| + 1 && cmds[|out.segments|].protection == 1
      && forall i :: 0 <= i < |out.segments| ==> cmds[i].protection == out.segments[i].protection
  {
    hide Commands, SegmentCommands, AllFit, HeaderBytes, SliceAssign, Align, Align8, ShimName, Widened, RebuiltData;
    WidenedAt(out.segments, out.linkeditOff, out.linkeditVm);
    var w := Widened(out.segments, out.linkeditOff, out.linkeditVm).value;
    assert Rebuilt(out, cfg, opts, trie).value.dylib.segments[..|out.segments|] == w;
    forall i | 0 <= i < |out.segments|
      ensures Rebuilt(out, cfg, opts, trie).value.dylib.segments[i] == w[i]
    {
    }
  }

  // ----- the rebuilt file, loaded -----

  /**
   Loader equivalence carries over to the rebuilt file, and here dyld always accepts: a load whose zero-filled tail
   runs into the next load's pages does no harm once the segments are widened.
   */
  lemma {:induction false} Phase4Equivalence(elf: Elf64, cfg: Config, opts: Options, trie: seq<byte>,
                                             slide: int, lookup: Dyld.Lookup)
    requires Ready(elf, cfg, opts) && Translated(elf, cfg, opts).Ok?
    requires var out := Translated(elf, cfg, opts).value;
      out.dylib.info.DyldInfo? && out.linkeditOff <= out.dylib.info.bindOff && Rebuilt(out, cfg, opts, trie).Ok?
    ensures var out := Translated(elf, cfg, opts).value;
      var loaded := Dyld.LoadFile(Rebuilt(out, cfg, opts, trie).value.dylib.file, slide, lookup);
      && loaded.Some?
      && (SameProgram(elf, slide + cfg.Slide(), loaded.value, AndroidProgram(elf, opts, slide + cfg.Slide(), lookup))
          <==> AddendsKept(elf))
  {
    hide Emitted, Dyld.Load, Dyld.LoadFile, Dyld.ImageOf, SameProgram, AndroidMemory, AndroidProgram, AddendsArrive,
      Relocated, Ready, Rebuilt, AddendsKept, Translated, RebuiltCommands, MachReader.ReadFile;
    TranslationParts(elf, cfg, opts);
    Phase4Emits(elf, cfg, opts, trie);
    var st, out := Relocated(elf, cfg, opts).value, Translated(elf, cfg, opts).value;
    var d := Rebuilt(out, cfg, opts, trie).value.dylib;
    RebuiltRead(out, cfg, opts, trie);
    EmittedFile(elf, cfg, opts, st, d, slide, lookup);
  }

  /**
   Otherwise, when two loads share a file-backed page after the slide, dyld refuses the rebuilt file, whatever it holds.
   */
  lemma {:induction false} SharedFilePageRefused(elf: Elf64, cfg: Config, opts: Options, trie: seq<byte>,
                                                 slide: int, lookup: Dyld.Lookup)
    requires Translated(elf, cfg, opts).Ok? && cfg.imageBase % PAGE == 0
    requires var out := Translated(elf, cfg, opts).value;
      out.dylib.info.DyldInfo? && out.linkeditOff <= out.dylib.info.bindOff && Rebuilt(out, cfg, opts, trie).Ok?
    requires !FilesSeparated(LoadsOf(elf), cfg.Slide())
    ensures Dyld.LoadFile(Rebuilt(Translated(elf, cfg, opts).value, cfg, opts, trie).value.dylib.file, slide, lookup)
         == None
  {
    hide Segments, FilesSeparated, BackedApart, Relocated, Dyld.Load, FileEnd, Rebuilt, Translated, Dyld.ImageOf,
      Dyld.OrdinalsKnown, RebuiltCommands, MachReader.ReadFile;
    var i := CrampedNeighbour(LoadsOf(elf), cfg.Slide());
    TranslationLayout(elf, cfg, opts);
    var out := Translated(elf, cfg, opts).value;
    var d := Rebuilt(out, cfg, opts, trie).value.dylib;
    RebuiltCommand(out, cfg, opts, trie, i);
    RebuiltRead(out, cfg, opts, trie);
    WidenedFitsIff(LoadsOf(elf), cfg, i);
    NextFile(LoadsOf(elf), cfg, i);
    OversizeRefused(d, i, slide, Dyld.ByName(d.libraries, lookup));
  }

  lemma {:induction false} CrampedNeighbour(loads: seq<ProgramHeader>, slide: nat) returns (i: nat)
    requires !FilesSeparated(loads, slide)
    ensures i + 1 < |loads| && !BackedApart(loads[i], loads[i + 1], slide)
  {
    hide FilesSeparated, BackedApart;
    if forall k :: 0 <= k < |loads| - 1 ==> BackedApart(loads[k], loads[k + 1], slide) {
      NeighboursSuffice(loads, slide);
    }
    i :| 0 <= i < |loads| - 1 && !BackedApart(loads[i], loads[i + 1], slide);
  }

  lemma {:induction false} TranslationLayout(elf: Elf64, cfg: Config, opts: Options)
    requires Translated(elf, cfg, opts).Ok?
    ensures Accepted(LoadsOf(elf)) && Translated(elf, cfg, opts).value.segments == Segments(LoadsOf(elf), cfg)
  {
    hide Segments, Relocated;
  }

  /** The command of a segment before the last: its room is what lies between it and the next one. */
  lemma {:induction false} RebuiltCommand(out: Output, cfg: Config, opts: Options, trie: seq<byte>,
                                          i: nat)
    requires out.dylib.info.DyldInfo? && out.linkeditOff <= out.dylib.info.bindOff
    requires Rebuilt(out, cfg, opts, trie).Ok?
    requires i + 1 < |out.segments|
    ensures var cmds := Rebuilt(out, cfg, opts, trie).value.dylib.segments;
      && i < |cmds| && cmds[i].filesize == out.segments[i + 1].fileoff - out.segments[i].fileoff
      && cmds[i].vmsize == out.segments[i + 1].vmaddr - out.segments[i].vmaddr
  {
    hide Commands, Widened, RebuiltData, SliceAssign, Align, ExportOff, AllFit, HeaderBytes, SegmentCommands,
      ShimName;
    WidenedAt(out.segments, out.linkeditOff, out.linkeditVm);
    var w := Widened(out.segments, out.linkeditOff, out.linkeditVm).value;
    assert Rebuilt(out, cfg, opts, trie).value.dylib.segments[i] == w[i];
  }

  lemma {:induction false} OversizeRefused(d: Dylib, i: nat, slide: int, resolve: Dyld.Resolver)
    requires i < |d.segments| && d.segments[i].filesize > d.segments[i].vmsize
    ensures Dyld.Load(d, slide, resolve) == None
  {
  }

  /** Phase 4 changes nothing of what Phase 3 loads: where dyld takes both files, the program memory is the same. */
  lemma {:induction false} Phase4Refines(elf: Elf64, cfg: Config, opts: Options, trie: seq<byte>,
                                         slide: int, lookup: Dyld.Lookup)
    requires Ready(elf, cfg, opts) && Translated(elf, cfg, opts).Ok?
    requires var out := Translated(elf, cfg, opts).value;
      out.dylib.info.DyldInfo? && out.linkeditOff <= out.dylib.info.bindOff && Rebuilt(out, cfg, opts, trie).Ok?
    ensures var out := Translated(elf, cfg, opts).value;
      var m := Dyld.LoadFile(out.dylib.file, slide, lookup);
      var m' := Dyld.LoadFile(Rebuilt(out, cfg, opts, trie).value.dylib.file, slide, lookup);
      m'.Some? && (m.Some? ==> SameProgram(elf, slide + cfg.Slide(), m.value, m'.value))
  {
    hide Emitted, Dyld.Load, Dyld.LoadFile, Dyld.ImageOf, SameProgram, Relocated, WordsBacked, WordsApart,
      FilesSeparated, Rebuilt, Translated, NoOverlap, AndroidMemory, AndroidProgram, AddendsKept, Segments,
      RebuiltCommands, OutputCommands, MachReader.ReadFile;
    Phase4Equivalence(elf, cfg, opts, trie, slide, lookup);
    if NoOverlap(Segments(LoadsOf(elf), cfg)) {
      Phase3Emits(elf, cfg, opts);
      Phase4Emits(elf, cfg, opts, trie);
      var st, out := Relocated(elf, cfg, opts).value, Translated(elf, cfg, opts).value;
      var d, d' := out.dylib, Rebuilt(out, cfg, opts, trie).value.dylib;
      OutputRead(elf, cfg, opts);
      RebuiltRead(out, cfg, opts, trie);
      FileIsDylib(elf, cfg, opts, st, d, slide, lookup);
      FileIsDylib(elf, cfg, opts, st, d', slide, lookup);
      CarriersAgree(elf, cfg, opts, st, d, d', slide, Dyld.ByName([ShimName(opts)], lookup));
    } else {
      OverlapRefusal(elf, cfg, opts, slide, lookup);
    }
  }

  /**
   The shape Apple's tools insist on: n segments, contiguous in file and memory, none larger in the file than in memory,
   __LINKEDIT ending exactly with the file, and inside it the four parts in order, apart, and aligned.
   */
  predicate Tidy(d: Dylib, symtab: LoadCommand, n: nat, trie: seq<byte>) {
    var segs, info, size := d.segments, d.info, |d.file|;
    && |segs| == n > 0 && info.DyldInfo? && symtab.Symtab?
    && Contiguous(segs) && (forall i :: 0 <= i < |segs| ==> segs[i].filesize <= segs[i].vmsize)
    && segs[n - 1].fileoff + segs[n - 1].filesize == size
    && segs[n - 1].fileoff == info.rebaseOff
    && info.rebaseOff + info.rebaseSize <= info.bindOff < info.rebaseOff + info.rebaseSize + 8
    && info.bindOff + info.bindSize <= info.exportOff < info.bindOff + info.bindSize + 8
    && info.exportOff + info.exportSize == symtab.strOff
    && symtab.strOff + symtab.strSize == size && info.bindOff % 8 == 0 && info.exportOff % 8 == 0
    && d.file[info.exportOff..info.exportOff + info.exportSize] == trie
  }

  lemma {:induction false} RebuiltTidy(elf: Elf64, cfg: Config, opts: Options, trie: seq<byte>)
    requires Ready(elf, cfg, opts) && Translated(elf, cfg, opts).Ok?
    requires var out := Translated(elf, cfg, opts).value;
      out.dylib.info.DyldInfo? && out.linkeditOff <= out.dylib.info.bindOff && Rebuilt(out, cfg, opts, trie).Ok?
    ensures var r := Rebuilt(Translated(elf, cfg, opts).value, cfg, opts, trie).value;
      Tidy(r.dylib, r.symtab, |LoadsOf(elf)| + 1, trie)
  {
    hide Segments, DataEnd, VmEnd, Relocated, Translated, Assemble, ImageAfter, RebaseProgram, BindProgram, Sort,
      WordsBacked, WordsApart, FilesSeparated, Contiguous, Widens, Loads, Symbols, Align, Floor, AllFit, HeaderBytes,
      SegmentCommands, ShimName, Commands, SliceAssign;
    TranslationParts(elf, cfg, opts);
    var st := Relocated(elf, cfg, opts).value;
    RelocationLeaves(elf, cfg, opts);
    ImageSize(elf, cfg, opts, st);
    var rebase, bind := RebaseProgram(Sort(st.rebases, SELF)), BindProgram(Sort(st.bindings, BINDING_LOC), 1);
    Phase3Shape(elf, cfg, opts, st, rebase, bind);
    RebuiltSegments(elf, cfg, opts, st, rebase, bind, trie);
    RebuiltBytes(Translated(elf, cfg, opts).value, cfg, opts, trie);
  }

  /** Read from the rebuilt file's own bytes, its commands have that shape. */
  lemma {:induction false} Phase4Geometry(elf: Elf64, cfg: Config, opts: Options, trie: seq<byte>)
    requires Ready(elf, cfg, opts) && Translated(elf, cfg, opts).Ok?
    requires var out := Translated(elf, cfg, opts).value;
      out.dylib.info.DyldInfo? && out.linkeditOff <= out.dylib.info.bindOff && Rebuilt(out, cfg, opts, trie).Ok?
    ensures var file := Rebuilt(Translated(elf, cfg, opts).value, cfg, opts, trie).value.dylib.file;
      && Dyld.ImageOf(file).Some? && MachReader.ReadFile(file).Some?
      && var symtabs := Dyld.SymtabsIn(MachReader.ReadFile(file).value.commands);
      |symtabs| == 1 && Tidy(Dyld.ImageOf(file).value, symtabs[0], |LoadsOf(elf)| + 1, trie)
  {
    hide Ready, Translated, Rebuilt, Dyld.ImageOf, MachReader.ReadFile, RebuiltCommands, Tidy, Dyld.SymtabsIn, Loads,
      MachReader.SeenAll;
    RebuiltRead(Translated(elf, cfg, opts).value, cfg, opts, trie);
    RebuiltTidy(elf, cfg, opts, trie);
  }
}
