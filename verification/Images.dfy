/** What the assembled file contains, byte by byte, and what it maps to. */
module Images {
  import opened Bytes
  import opened ElfReader
  import opened Layout
  import opened MachO
  import opened Phase3

  /** What the translator assumes of the file and does not check. */
  predicate WellFormed(loads: seq<ProgramHeader>, data: seq<byte>, cfg: Config) {
    && Accepted(loads)
    && cfg.imageBase % PAGE == 0
    && FilesSeparated(loads, cfg.Slide())
    && forall i :: 0 <= i < |loads| ==> loads[i].filesz <= loads[i].memsz && loads[i].offset + loads[i].filesz <= |data|
  }

  lemma {:induction false} DataEndCovers(segs: seq<ImageSegment>, i: nat)
    requires i < |segs|
    ensures FileEnd(segs[i]) <= DataEnd(segs)
  {
    if i < |segs| - 1 {
      DataEndCovers(segs[..|segs| - 1], i);
    }
  }

  lemma {:induction false} DataEndAligned(segs: seq<ImageSegment>)
    ensures DataEnd(segs) % PAGE == 0
  {
    if |segs| > 0 {
      DataEndAligned(segs[..|segs| - 1]);
    }
  }

  lemma {:induction false} VmEndCovers(segs: seq<ImageSegment>, i: nat)
    requires i < |segs|
    ensures segs[i].vmaddr + segs[i].vmsize <= VmEnd(segs)
  {
    if i < |segs| - 1 {
      VmEndCovers(segs[..|segs| - 1], i);
    }
  }

  predicate CopyFits(data: seq<byte>, segs: seq<ImageSegment>, n: nat) {
    forall i :: 0 <= i < |segs| ==>
      segs[i].elfOffset + segs[i].elfFilesz <= |data| && segs[i].dataFileoff + segs[i].elfFilesz <= n
  }

  predicate InCopy(seg: ImageSegment, x: int) {
    seg.dataFileoff <= x < seg.dataFileoff + seg.elfFilesz
  }

  predicate CopiesApart(segs: seq<ImageSegment>) {
    forall i, j :: 0 <= i < j < |segs| ==> segs[i].dataFileoff + segs[i].elfFilesz <= segs[j].dataFileoff
  }

  function Source(data: seq<byte>, seg: ImageSegment, x: int): byte
    requires seg.elfOffset + seg.elfFilesz <= |data| && InCopy(seg, x)
  {
    data[seg.elfOffset + (x - seg.dataFileoff)]
  }

  /** One copy: the load's bytes in its place, everything else as before. */
  lemma {:induction false} CopyOne(data: seq<byte>, seg: ImageSegment, image: seq<byte>, x: nat)
    requires seg.elfOffset + seg.elfFilesz <= |data| && seg.dataFileoff + seg.elfFilesz <= |image| && x < |image|
    ensures var r := SliceAssign(image, seg.dataFileoff, seg.dataFileoff + seg.elfFilesz,
                                 Slice(data, seg.elfOffset, seg.elfOffset + seg.elfFilesz));
      |r| == |image| && r[x] == if InCopy(seg, x) then Source(data, seg, x) else image[x]
  {
    SliceAssignFits(image, seg.dataFileoff, Slice(data, seg.elfOffset, seg.elfOffset + seg.elfFilesz));
  }

  lemma {:induction false} CopiedLength(data: seq<byte>, segs: seq<ImageSegment>, image: seq<byte>)
    requires CopyFits(data, segs, |image|)
    ensures |Copied(data, segs, image)| == |image|
    decreases |segs|
  {
    hide SliceAssign, Slice;
    if |segs| > 0 {
      var n := |segs| - 1;
      CopiedLength(data, segs[..n], image);
      CopyLength(data, segs[n], Copied(data, segs[..n], image));
    }
  }

  lemma {:induction false} CopyLength(data: seq<byte>, seg: ImageSegment, image: seq<byte>)
    requires seg.elfOffset + seg.elfFilesz <= |data| && seg.dataFileoff + seg.elfFilesz <= |image|
    ensures |SliceAssign(image, seg.dataFileoff, seg.dataFileoff + seg.elfFilesz,
                         Slice(data, seg.elfOffset, seg.elfOffset + seg.elfFilesz))| == |image|
  {
  }

  predicate Owns(segs: seq<ImageSegment>, i: nat, x: int) {
    i < |segs| && InCopy(segs[i], x)
  }

  predicate Unowned(segs: seq<ImageSegment>, x: int) {
    forall j :: 0 <= j < |segs| ==> !InCopy(segs[j], x)
  }

  lemma {:induction false} UnownedByte(data: seq<byte>, segs: seq<ImageSegment>, image: seq<byte>, x: nat)
    requires CopyFits(data, segs, |image|) && x < |image| && Unowned(segs, x)
    ensures |Copied(data, segs, image)| == |image| && Copied(data, segs, image)[x] == image[x]
  {
    hide SliceAssign, Slice, Source;
    if |segs| > 0 {
      var n := |segs| - 1;
      CopiedLength(data, segs[..n], image);
      assert !InCopy(segs[n], x);
      UnownedByte(data, segs[..n], image, x);
      CopyOne(data, segs[n], Copied(data, segs[..n], image), x);
    }
  }

  /** The copy puts each load's bytes in its own place. */
  lemma {:induction false} OwnedByte(data: seq<byte>, segs: seq<ImageSegment>, image: seq<byte>, x: nat, i: nat)
    requires CopyFits(data, segs, |image|) && CopiesApart(segs) && x < |image| && Owns(segs, i, x)
    ensures |Copied(data, segs, image)| == |image| && Copied(data, segs, image)[x] == Source(data, segs[i], x)
  {
    hide SliceAssign, Slice, Source;
    var n := |segs| - 1;
    var front := segs[..n];
    assert CopyFits(data, front, |image|);
    CopiedLength(data, front, image);
    CopyOne(data, segs[n], Copied(data, front, image), x);
    if i < n {
      assert !InCopy(segs[n], x);
      assert CopiesApart(front);
      assert front[i] == segs[i];
      OwnedByte(data, front, image, x, i);
    }
  }

  lemma {:induction false} LayoutFits(loads: seq<ProgramHeader>, data: seq<byte>, cfg: Config)
    requires WellFormed(loads, data, cfg)
    ensures var segs := Segments(loads, cfg);
      CopyFits(data, segs, DataEnd(segs)) && CopiesApart(segs) && cfg.headerReserve <= DataEnd(segs)
      && DataEnd(segs) % PAGE == 0
  {
    hide Segments, Align, Floor;
    var segs := Segments(loads, cfg);
    forall i | 0 <= i < |segs|
      ensures segs[i].elfOffset + segs[i].elfFilesz <= |data|
      ensures segs[i].dataFileoff + segs[i].elfFilesz <= FileEnd(segs[i]) <= DataEnd(segs)
    {
      SegmentAt(loads, cfg, i);
      DataEndCovers(segs, i);
    }
    forall i, j | 0 <= i < j < |segs|
      ensures segs[i].dataFileoff + segs[i].elfFilesz <= segs[j].dataFileoff
    {
      FilesOrdered(loads, cfg, i, j);
      SegmentAt(loads, cfg, i);
      SegmentAt(loads, cfg, j);
    }
    SegmentAt(loads, cfg, 0);
    DataEndAligned(segs);
  }

  /** The image before relocation. */
  function CopiedImage(loads: seq<ProgramHeader>, data: seq<byte>, cfg: Config): seq<byte>
    requires |loads| > 0
  {
    Copied(data, Segments(loads, cfg), Zeros(DataEnd(Segments(loads, cfg))))
  }

  /** A load's file byte, found at its place in the copied image. */
  lemma {:induction false} CopiedLoadByte(loads: seq<ProgramHeader>, data: seq<byte>, cfg: Config, i: nat, k: nat)
    requires WellFormed(loads, data, cfg) && i < |loads| && k < loads[i].filesz
    ensures var segs, image := Segments(loads, cfg), CopiedImage(loads, data, cfg);
      |image| == DataEnd(segs) && segs[i].dataFileoff + k < |image|
          && image[segs[i].dataFileoff + k] == data[loads[i].offset + k]
  {
    hide Segments, Copied, DataEnd, CopiesApart, FilesSeparated, Align, Floor;
    var segs := Segments(loads, cfg);
    LayoutFits(loads, data, cfg);
    SegmentAt(loads, cfg, i);
    var x := segs[i].dataFileoff + k;
    assert InCopy(segs[i], x);
    OwnedByte(data, segs, Zeros(DataEnd(segs)), x, i);
    assert Source(data, segs[i], x) == data[loads[i].offset + k];
  }

  /** Between the header and the end of the image, whatever is not a load's byte is zero. */
  lemma {:induction false} CopiedPadding(loads: seq<ProgramHeader>, data: seq<byte>, cfg: Config, x: nat)
    requires WellFormed(loads, data, cfg) && x < DataEnd(Segments(loads, cfg))
    requires forall i :: 0 <= i < |loads| ==> !InCopy(Segments(loads, cfg)[i], x)
    ensures var image := CopiedImage(loads, data, cfg); |image| == DataEnd(Segments(loads, cfg)) && image[x] == 0
  {
    hide Segments, Copied, DataEnd, CopiesApart, FilesSeparated, Align, Floor;
    LayoutFits(loads, data, cfg);
    var segs := Segments(loads, cfg);
    UnownedByte(data, segs, Zeros(DataEnd(segs)), x);
  }

  // ----- the assembled file -----

  lemma {:induction false} HeaderOver(file: seq<byte>, header: seq<byte>, x: nat)
    requires |header| <= x <= |file|
    ensures var r := SliceAssign(file, 0, |header|, header);
      |r| == |file| && r[x..] == file[x..]
  {
  }

  lemma {:induction false} SliceAbove(a: seq<byte>, b: seq<byte>, x: nat, lo: nat, hi: nat)
    requires |a| == |b| && x <= |a| && a[x..] == b[x..] && x <= lo <= hi <= |a|
    ensures Slice(a, lo, hi) == b[lo..hi]
  {
    assert forall i :: x <= i < |a| ==> a[i] == a[x..][i - x] == b[x..][i - x] == b[i];
  }

  function Fixed(image: seq<byte>, rebase: seq<byte>, bind: seq<byte>): (r: seq<byte>)
    requires |image| % PAGE == 0
    ensures var bindOff := Align8(|image| + |rebase|);
      && |r| == Align(bindOff + |bind|)
      && r[..|image|] == image && r[|image|..|image| + |rebase|] == rebase && r[bindOff..bindOff + |bind|] == bind
  {
    var bindOff := Align8(|image| + |rebase|);
    Overlay(Overlay(Overlay(Zeros(Align(bindOff + |bind|)), 0, image), |image|, rebase), bindOff, bind)
  }

  lemma {:induction false} HeaderedFile(image: seq<byte>, rebase: seq<byte>, bind: seq<byte>, header: seq<byte>,
                                        reserve: nat)
    requires |image| % PAGE == 0 && |header| <= reserve <= |image|
    ensures var fixed, bindOff := Fixed(image, rebase, bind), Align8(|image| + |rebase|);
      var file := SliceAssign(fixed, 0, |header|, header);
      && |file| == |fixed| == Align(bindOff + |bind|)
      && (forall x :: reserve <= x < |image| ==> x < |file| && file[x] == image[x])
      && Slice(file, |image|, |image| + |rebase|) == rebase
      && Slice(file, bindOff, bindOff + |bind|) == bind
  {
    hide Slice, SliceAssign, Align, Align8, Fixed;
    var fixed, bindOff := Fixed(image, rebase, bind), Align8(|image| + |rebase|);
    var file := SliceAssign(fixed, 0, |header|, header);
    HeaderOver(fixed, header, reserve);
    SliceAbove(file, fixed, reserve, |image|, |image| + |rebase|);
    SliceAbove(file, fixed, reserve, bindOff, bindOff + |bind|);
    forall x | reserve <= x < |image| ensures x < |file| && file[x] == image[x] {
      assert file[reserve..][x - reserve] == fixed[reserve..][x - reserve];
      assert fixed[..|image|][x] == fixed[x];
    }
  }

  /** The parts of the assembled file: the image above the header, and the two programs, intact. */
  lemma {:induction false} AssembledFile(segs: seq<ImageSegment>, cfg: Config, opts: Options, st: State,
                                         rebase: seq<byte>, bind: seq<byte>)
    requires cfg.headerReserve <= |st.image| && |st.image| % PAGE == 0
    requires Assemble(segs, cfg, opts, st, rebase, bind).Ok?
    ensures var out := Assemble(segs, cfg, opts, st, rebase, bind).value;
      var info := out.dylib.info;
      && (forall x :: cfg.headerReserve <= x < |st.image| ==> x < |out.dylib.file| && out.dylib.file[x] == st.image[x])
      && out.linkeditOff == |st.image| && info.DyldInfo?
      && Slice(out.dylib.file, info.rebaseOff, info.rebaseOff + info.rebaseSize) == rebase
      && Slice(out.dylib.file, info.bindOff, info.bindOff + info.bindSize) == bind
      && out.linkeditOff + out.linkeditSize <= |out.dylib.file|
      && info.rebaseOff == out.linkeditOff && info.rebaseSize == |rebase|
      && info.bindOff == Align8(info.rebaseOff + |rebase|) && info.bindSize == |bind|
      && out.linkeditSize == info.bindOff + |bind| - out.linkeditOff
      && |out.dylib.file| == Align(out.linkeditOff + out.linkeditSize)
  {
    hide Commands, HeaderSize, Slice, SliceAssign, Align, Align8, AllFit, HeaderBytes, SegmentCommands, VmEnd,
      ShimName, CommandsOf;
    var out := Assemble(segs, cfg, opts, st, rebase, bind).value;
    AlignAligned(|st.image|);
    var cmds := Commands(SegmentCommands(segs, CommandsOf(segs), cfg.Slide()), out.dylib.segments[|segs|], opts,
                         [out.dylib.info]);
    var header := HeaderBytes(cmds, HEADER_FLAGS);
    HeaderedFile(st.image, rebase, bind, header, cfg.headerReserve);
    assert out.dylib.file == SliceAssign(Fixed(st.image, rebase, bind), 0, |header|, header);
  }
}
