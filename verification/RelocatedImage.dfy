/** The relocated image of a well-formed ELF file, and what both loaders map of it. */
module RelocatedImage {
  import opened Bytes
  import opened Patches
  import opened ElfReader
  import opened Layout
  import opened DyldMachines
  import opened MachO
  import opened Phase3
  import opened Images
  import opened RelocationMeaning
  import Bionic
  import Dyld

  // ----- what the ELF file must satisfy -----

  predicate WordIn(ph: ProgramHeader, v: nat) {
    ph.vaddr <= v && v + 8 <= ph.vaddr + ph.filesz
  }

  /** Every relocated word lies in the file-backed part of one load. */
  predicate WordsBacked(loads: seq<ProgramHeader>, rels: seq<Rela>) {
    forall j :: 0 <= j < |rels| ==> exists i :: 0 <= i < |loads| && WordIn(loads[i], rels[j].offset)
  }

  predicate WordsApart(rels: seq<Rela>) {
    forall i, j :: 0 <= i < j < |rels| ==> Apart(rels[i].offset, rels[j].offset)
  }

  predicate NoNullSymbol(rels: seq<Rela>) {
    forall j :: 0 <= j < |rels| ==> rels[j].rtype == R_RELATIVE || rels[j].symbolIndex != 0
  }

  function LoadsOf(elf: Elf64): seq<ProgramHeader> { Loads(elf.programHeaders) }

  function RelasOf(elf: Elf64): seq<Rela> { Relocations(elf.data, elf.sections) }

  predicate Ready(elf: Elf64, cfg: Config, opts: Options) {
    && WellFormed(LoadsOf(elf), elf.data, cfg)
    && WordsBacked(LoadsOf(elf), RelasOf(elf))
    && WordsApart(RelasOf(elf))
    && NoNullSymbol(RelasOf(elf))
    && NulFree(opts.prefix)
  }

  // ----- the two mappings -----

  /** A load's file-backed part ends before any later load begins. */
  lemma {:induction false} LaterAbove(loads: seq<ProgramHeader>, slide: nat, i: nat, j: nat)
    requires FilesSeparated(loads, slide) && i < j < |loads|
    ensures loads[i].vaddr + loads[i].filesz <= loads[j].vaddr
  {
    assert BackedApart(loads[i], loads[j], slide);
  }

  lemma {:induction false} BackedOnce(loads: seq<ProgramHeader>, slide: nat, i: nat, j: nat, v: int)
    requires FilesSeparated(loads, slide) && i < |loads| && j < |loads|
    requires loads[i].vaddr <= v < loads[i].vaddr + loads[i].filesz
    requires loads[j].vaddr <= v < loads[j].vaddr + loads[j].filesz
    ensures i == j
  {
    hide BackedApart, FilesSeparated;
    if i < j {
      LaterAbove(loads, slide, i, j);
    } else if j < i {
      LaterAbove(loads, slide, j, i);
    }
  }

  /** Load i is the last one that holds v, so the one whose contents are mapped there. */
  predicate Governs(loads: seq<ProgramHeader>, i: nat, v: int) {
    i < |loads| && Bionic.Holds(loads[i], v) && forall j :: i < j < |loads| ==> !Bionic.Holds(loads[j], v)
  }

  lemma {:induction false} SomeGoverns(loads: seq<ProgramHeader>, i: nat, v: int) returns (k: nat)
    requires i < |loads| && Bionic.Holds(loads[i], v)
    ensures Governs(loads, k, v)
    decreases |loads| - i
  {
    if j :| i < j < |loads| && Bionic.Holds(loads[j], v) {
      k := SomeGoverns(loads, j, v);
    } else {
      k := i;
    }
  }

  lemma {:induction false} BackedGoverns(loads: seq<ProgramHeader>, slide: nat, i: nat, v: int)
    requires FilesSeparated(loads, slide) && i < |loads| && loads[i].filesz <= loads[i].memsz
    requires loads[i].vaddr <= v < loads[i].vaddr + loads[i].filesz
    ensures Governs(loads, i, v)
  {
    hide FilesSeparated;
    forall j | i < j < |loads| ensures !Bionic.Holds(loads[j], v) {
      LaterAbove(loads, slide, i, j);
    }
  }

  function LoadByte(ph: ProgramHeader, data: seq<byte>, v: int): byte
    requires ph.offset + ph.filesz <= |data| && ph.vaddr <= v
  {
    if v - ph.vaddr < ph.filesz then data[ph.offset + (v - ph.vaddr)] else 0
  }

  lemma {:induction false} BionicAt(loads: seq<ProgramHeader>, data: seq<byte>, v: int, i: nat)
    requires Governs(loads, i, v) && loads[i].offset + loads[i].filesz <= |data|
    ensures Bionic.MappedByte(loads, data, v) == LoadByte(loads[i], data, v)
    decreases |loads|
  {
    var n := |loads| - 1;
    if i < n {
      assert !Bionic.Holds(loads[n], v);
      BionicAt(loads[..n], data, v, i);
    }
  }

  lemma {:induction false} DyldAt(file: seq<byte>, segs: seq<SegmentCommand>, a: int, i: nat)
    requires Dyld.Mappable(file, segs) && i < |segs| && Dyld.Covers(segs[i], a)
    ensures Dyld.MappedByte(file, segs, a)
         == if a - segs[i].vmaddr < segs[i].filesize then file[segs[i].fileoff + (a - segs[i].vmaddr)] else 0
  {
    var n := |segs| - 1;
    if i < n {
      assert segs[..n][i] == segs[i];
      assert Dyld.Mappable(file, segs[..n]);
      DyldAt(file, segs[..n], a, i);
    }
  }

  // ----- what an emitted dylib must deliver -----

  /** The command starts where the placed segment does, and maps of the file at most the zero padding after it. */
  predicate Widens(cmd: SegmentCommand, seg: ImageSegment) {
    && cmd.vmaddr == seg.vmaddr && cmd.fileoff == seg.fileoff
    && seg.filesize <= cmd.filesize <= FileEnd(seg) - seg.fileoff
  }

  /** Every address the placed segments span belongs to one of the commands made for them. */
  predicate Spans(cmds: seq<SegmentCommand>, segs: seq<ImageSegment>)
    requires |cmds| >= |segs|
  {
    forall i, a :: 0 <= i < |segs| && segs[i].vmaddr <= a < segs[i].vmaddr + segs[i].vmsize ==>
      CoveredAt(cmds, |segs|, a)
  }

  predicate CoveredAt(cmds: seq<SegmentCommand>, n: nat, a: int)
    requires n <= |cmds|
  {
    exists c :: 0 <= c < n && Dyld.Covers(cmds[c], a)
  }

  predicate Delivers(d: Dylib, segs: seq<ImageSegment>, image: seq<byte>, reserve: nat, rebase: seq<byte>,
                     bind: seq<byte>) {
    && |d.segments| > |segs|
    && (forall i :: 0 <= i < |segs| ==> Widens(d.segments[i], segs[i]))
    && Spans(d.segments, segs)
    && (forall x :: reserve <= x < |image| ==> x < |d.file| && d.file[x] == image[x])
    && Dyld.Mappable(d.file, d.segments)
    && d.info.DyldInfo?
    && Slice(d.file, d.info.rebaseOff, d.info.rebaseOff + d.info.rebaseSize) == rebase
    && Slice(d.file, d.info.bindOff, d.info.bindOff + d.info.bindSize) == bind
  }

  // ----- relocated words, in the file and in memory -----

  /** The load that holds a relocated word is the one its location was found in. */
  lemma {:induction false} WordHome(elf: Elf64, cfg: Config, opts: Options, j: nat) returns (i: nat)
    requires Ready(elf, cfg, opts) && j < |RelasOf(elf)|
    ensures i < |LoadsOf(elf)| && WordIn(LoadsOf(elf)[i], RelasOf(elf)[j].offset)
    ensures var env, rel := EnvOf(elf, cfg, opts), RelasOf(elf)[j];
      Locate(env.segs, env.slide, rel.offset).Some?
      && Target(env, rel).loc.seg == i
      && env.segs[i].vmaddr + Target(env, rel).loc.off == env.slide + rel.offset
      && Target(env, rel).output == env.segs[i].dataFileoff + (rel.offset - LoadsOf(elf)[i].vaddr)
  {
    hide Segments, FilesSeparated, Align, Floor;
    var loads, rel := LoadsOf(elf), RelasOf(elf)[j];
    i :| 0 <= i < |loads| && WordIn(loads[i], rel.offset);
    LocateCongruent(loads, cfg, rel.offset);
    var l := Locate(Segments(loads, cfg), cfg.Slide(), rel.offset).value;
    BackedOnce(loads, cfg.Slide(), i, l.loc.seg, rel.offset);
    SegmentAt(loads, cfg, i);
  }

  /** Distinct records name distinct, non-overlapping words of the image and of memory. */
  lemma {:induction false} TargetsApart(elf: Elf64, cfg: Config, opts: Options, j: nat, k: nat)
    requires Ready(elf, cfg, opts) && j < k < |RelasOf(elf)|
    ensures var env, rels := EnvOf(elf, cfg, opts), RelasOf(elf);
      Locate(env.segs, env.slide, rels[j].offset).Some? && Locate(env.segs, env.slide, rels[k].offset).Some?
      && Apart(Target(env, rels[j]).output, Target(env, rels[k]).output)
      && Target(env, rels[j]).loc != Target(env, rels[k]).loc
  {
    hide Segments, FilesSeparated, WordsBacked, DataEnd;
    var p := WordHome(elf, cfg, opts, j);
    var q := WordHome(elf, cfg, opts, k);
    LayoutFits(LoadsOf(elf), elf.data, cfg);
    SegmentAt(LoadsOf(elf), cfg, p);
    SegmentAt(LoadsOf(elf), cfg, q);
  }

  lemma {:induction false} PatchesDisjoint(elf: Elf64, cfg: Config, opts: Options, n: nat)
    requires Ready(elf, cfg, opts) && AllResolve(EnvOf(elf, cfg, opts), RelasOf(elf), n)
    ensures Disjoint(ImagePatches(EnvOf(elf, cfg, opts), RelasOf(elf), n))
  {
    var rels := RelasOf(elf);
    var ps := ImagePatches(EnvOf(elf, cfg, opts), rels, n);
    hide Ready, EnvOf, Target, ImageOp;
    forall j, k | 0 <= j < k < |ps| ensures Apart(ps[j].addr, ps[k].addr) {
      TargetsApart(elf, cfg, opts, j, k);
    }
  }

  // ----- the image -----

  function ImageBefore(elf: Elf64, cfg: Config): seq<byte>
    requires |LoadsOf(elf)| > 0
  {
    CopiedImage(LoadsOf(elf), elf.data, cfg)
  }

  ghost predicate ImageAfter(elf: Elf64, cfg: Config, opts: Options, st: State)
    requires Accepted(LoadsOf(elf))
  {
    var env, rels, image := EnvOf(elf, cfg, opts), RelasOf(elf), ImageBefore(elf, cfg);
    && |st.image| == |image| == DataEnd(env.segs)
    && AllResolve(env, rels, |image|)
    && Disjoint(ImagePatches(env, rels, |image|))
    && SameMemory(View(st.image), ApplyAll(View(image), ImagePatches(env, rels, |image|)))
    && st.rebases == Rebases(env, rels, |image|)
    && st.bindings == Bindings(env, rels, |image|, View(image))
  }

  lemma {:induction false} RelocationLeaves(elf: Elf64, cfg: Config, opts: Options)
    requires Ready(elf, cfg, opts) && Relocated(elf, cfg, opts).Ok?
    ensures ImageAfter(elf, cfg, opts, Relocated(elf, cfg, opts).value)
  {
    hide Segments, Copied, WordsBacked, WordsApart, FilesSeparated, Relocate, ApplyAll;
    var env, rels, image := EnvOf(elf, cfg, opts), RelasOf(elf), ImageBefore(elf, cfg);
    LayoutFits(LoadsOf(elf), elf.data, cfg);
    CopiedLength(elf.data, env.segs, Zeros(DataEnd(env.segs)));
    RelocateOkIff(env, State(image, [], [], NoCounts()), rels);
    PatchesDisjoint(elf, cfg, opts, |image|);
    RelocateMeaning(env, image, rels);
  }

  lemma {:induction false} ImageWord(elf: Elf64, cfg: Config, opts: Options, st: State, j: nat)
    requires Ready(elf, cfg, opts) && ImageAfter(elf, cfg, opts, st) && j < |RelasOf(elf)|
    ensures var env, rel, image := EnvOf(elf, cfg, opts), RelasOf(elf)[j], ImageBefore(elf, cfg);
      Resolves(env, rel, |image|)
      && LoadWord(View(st.image), Target(env, rel).output)
         == NewWord(ImageOp(env, rel), LoadWord(View(image), Target(env, rel).output))
  {
    hide EnvOf, ApplyAll, ImageBefore, Resolves, LoadWord, Disjoint, WordsBacked, WordsApart, FilesSeparated;
    var env, rels, image := EnvOf(elf, cfg, opts), RelasOf(elf), ImageBefore(elf, cfg);
    var ps := ImagePatches(env, rels, |image|);
    assert Resolves(env, rels[j], |image|);
    PatchedWord(View(image), ps, j);
    SameWord(View(st.image), ApplyAll(View(image), ps), ps[j].addr);
  }

  lemma {:induction false} CopiedWordByte(elf: Elf64, cfg: Config, i: nat, v: nat, bias: int)
    requires WellFormed(LoadsOf(elf), elf.data, cfg) && i < |LoadsOf(elf)|
    requires LoadsOf(elf)[i].vaddr <= v < LoadsOf(elf)[i].vaddr + LoadsOf(elf)[i].filesz
    ensures View(ImageBefore(elf, cfg))(Segments(LoadsOf(elf), cfg)[i].dataFileoff + (v - LoadsOf(elf)[i].vaddr))
         == Bionic.Mapped(LoadsOf(elf), elf.data, bias)(bias + v)
  {
    hide Segments, FilesSeparated, DataEnd, Copied, Bionic.MappedByte;
    CopiedLoadByte(LoadsOf(elf), elf.data, cfg, i, v - LoadsOf(elf)[i].vaddr);
    BackedGoverns(LoadsOf(elf), cfg.Slide(), i, v);
    BionicAt(LoadsOf(elf), elf.data, v, i);
  }

  /** Before relocation, a word of the image is the word the Android loader maps. */
  lemma {:induction false} CopiedWord(elf: Elf64, cfg: Config, opts: Options, j: nat, bias: int)
    requires Ready(elf, cfg, opts) && j < |RelasOf(elf)|
    ensures var env, rel, image := EnvOf(elf, cfg, opts), RelasOf(elf)[j], ImageBefore(elf, cfg);
      Locate(env.segs, env.slide, rel.offset).Some?
      && LoadWord(View(image), Target(env, rel).output)
         == LoadWord(Bionic.Mapped(LoadsOf(elf), elf.data, bias), bias + rel.offset)
  {
    hide Segments, ImageBefore, FilesSeparated, WordsBacked, WordsApart, Bionic.Mapped, LoadWord, View, Locate;
    var rel := RelasOf(elf)[j];
    var i := WordHome(elf, cfg, opts, j);
    var at := Target(EnvOf(elf, cfg, opts), rel).output;
    var m, n := View(ImageBefore(elf, cfg)), Bionic.Mapped(LoadsOf(elf), elf.data, bias);
    forall b | at <= b < at + 8 ensures m(b) == n(b - at + (bias + rel.offset)) {
      CopiedWordByte(elf, cfg, i, b - at + rel.offset, bias);
    }
    WordsAndBytes(m, n, at, bias + rel.offset);
  }

  /** Relocation touches only load bytes: the padding of the image stays zero. */
  lemma {:induction false} PaddingStaysZero(elf: Elf64, cfg: Config, opts: Options, st: State, x: nat)
    requires Ready(elf, cfg, opts) && ImageAfter(elf, cfg, opts, st) && x < |st.image|
    requires forall i :: 0 <= i < |LoadsOf(elf)| ==> !InCopy(Segments(LoadsOf(elf), cfg)[i], x)
    ensures st.image[x] == 0
  {
    hide Segments, FilesSeparated, WordsBacked, WordsApart, DataEnd, Copied, ApplyAll, Disjoint;
    var env, rels, image := EnvOf(elf, cfg, opts), RelasOf(elf), ImageBefore(elf, cfg);
    var ps := ImagePatches(env, rels, |image|);
    CopiedPadding(LoadsOf(elf), elf.data, cfg, x);
    forall j | 0 <= j < |ps| ensures !(ps[j].addr <= x < ps[j].addr + 8) {
      var i := WordHome(elf, cfg, opts, j);
      SegmentAt(LoadsOf(elf), cfg, i);
      assert !InCopy(env.segs[i], x);
    }
    UntouchedByte(View(image), ps, x);
    assert View(st.image)(x) == View(image)(x);
  }

  /** Within a segment's file pages, whatever is not its own load's byte belongs to no load. */
  lemma {:induction false} PaddingUnowned(loads: seq<ProgramHeader>, cfg: Config, i: nat, x: nat)
    requires Accepted(loads) && i < |loads|
    requires Segments(loads, cfg)[i].fileoff <= x < FileEnd(Segments(loads, cfg)[i])
    requires !InCopy(Segments(loads, cfg)[i], x)
    ensures Unowned(Segments(loads, cfg), x)
  {
    hide Segments, FileEnd;
    var segs := Segments(loads, cfg);
    SegmentAt(loads, cfg, i);
    forall k | 0 <= k < |segs| ensures !InCopy(segs[k], x) {
      SegmentAt(loads, cfg, k);
      if k < i {
        FilesOrdered(loads, cfg, k, i);
        FileEndCovers(segs[k]);
      } else if i < k {
        FilesOrdered(loads, cfg, i, k);
      }
    }
  }

  lemma {:induction false} FileEndCovers(seg: ImageSegment)
    ensures seg.fileoff + seg.filesize <= FileEnd(seg)
  {
  }

  lemma {:induction false} AboveHeader(loads: seq<ProgramHeader>, cfg: Config, i: nat)
    requires Accepted(loads) && i < |loads|
    ensures cfg.headerReserve <= Segments(loads, cfg)[i].dataFileoff
  {
    hide Segments, FileEnd;
    SegmentAt(loads, cfg, 0);
    SegmentAt(loads, cfg, i);
    if i > 0 {
      FilesOrdered(loads, cfg, 0, i);
      FileEndCovers(Segments(loads, cfg)[0]);
    }
  }

  /** Distinct file-backed addresses have distinct locations and file offsets, all above the header reserve. */
  lemma {:induction false} LocateInjective(loads: seq<ProgramHeader>, cfg: Config, v: nat, w: nat)
    requires Accepted(loads) && v != w
    requires forall i :: 0 <= i < |loads| ==>
      Segments(loads, cfg)[i].vmaddr <= cfg.Slide() + Segments(loads, cfg)[i].elfVaddr
    requires Locate(Segments(loads, cfg), cfg.Slide(), v).Some? && Locate(Segments(loads, cfg), cfg.Slide(), w).Some?
    ensures var a, b := Locate(Segments(loads, cfg), cfg.Slide(), v).value,
        Locate(Segments(loads, cfg), cfg.Slide(), w).value;
      a.loc != b.loc && a.output != b.output && cfg.headerReserve <= a.output
  {
    hide Segments, FileEnd, Locate, Align, Floor;
    var segs := Segments(loads, cfg);
    LocateCongruent(loads, cfg, v);
    LocateCongruent(loads, cfg, w);
    var i, j := Locate(segs, cfg.Slide(), v).value.loc.seg, Locate(segs, cfg.Slide(), w).value.loc.seg;
    SegmentAt(loads, cfg, i);
    SegmentAt(loads, cfg, j);
    AboveHeader(loads, cfg, i);
    FileEndCovers(segs[i]);
    FileEndCovers(segs[j]);
    if i < j {
      FilesOrdered(loads, cfg, i, j);
    } else if j < i {
      FilesOrdered(loads, cfg, j, i);
    }
  }

  lemma {:induction false} ImageSize(elf: Elf64, cfg: Config, opts: Options, st: State)
    requires Accepted(LoadsOf(elf)) && ImageAfter(elf, cfg, opts, st)
    ensures |st.image| == DataEnd(Segments(LoadsOf(elf), cfg))
  {
  }

  /** The byte dyld maps where command c covers, in terms of the image. */
  lemma {:induction false} MappedSegmentByte(d: Dylib, segs: seq<ImageSegment>, image: seq<byte>, reserve: nat,
                                             rebase: seq<byte>, bind: seq<byte>, c: nat, k: nat)
    requires Delivers(d, segs, image, reserve, rebase, bind) && c < |segs| && k < d.segments[c].vmsize
    requires reserve <= segs[c].fileoff + k && FileEnd(segs[c]) <= |image|
    ensures Dyld.MappedByte(d.file, d.segments, segs[c].vmaddr + k)
         == if k < d.segments[c].filesize then View(image)(segs[c].fileoff + k) else 0
    ensures k < d.segments[c].filesize ==> segs[c].fileoff + k < FileEnd(segs[c])
  {
    hide FileEnd, Slice, Spans;
    assert Widens(d.segments[c], segs[c]);
    DyldAt(d.file, d.segments, segs[c].vmaddr + k, c);
  }

  /** File-backed bytes are mapped by the load's own command. */
  lemma {:induction false} OwnCommand(d: Dylib, segs: seq<ImageSegment>, image: seq<byte>, reserve: nat,
                                      rebase: seq<byte>, bind: seq<byte>, i: nat, k: nat)
    requires Delivers(d, segs, image, reserve, rebase, bind) && i < |segs| && k < segs[i].filesize
    ensures i < |d.segments| && k < d.segments[i].filesize <= d.segments[i].vmsize
  {
    hide FileEnd, Slice, Spans;
    assert Widens(d.segments[i], segs[i]);
    FitsMemory(d.file, d.segments, i);
  }

  lemma {:induction false} FitsMemory(file: seq<byte>, cmds: seq<SegmentCommand>, i: nat)
    requires Dyld.Mappable(file, cmds) && i < |cmds|
    ensures cmds[i].filesize <= cmds[i].vmsize
  {
  }

  /** Where the file and memory offset k of segment c stand for address v. */
  lemma {:induction false} OffsetOf(loads: seq<ProgramHeader>, cfg: Config, c: nat, v: nat, k: nat)
    requires Accepted(loads) && c < |loads| && Segments(loads, cfg)[c].vmaddr + k == cfg.Slide() + v
    ensures cfg.headerReserve <= Segments(loads, cfg)[c].fileoff + k
    ensures InCopy(Segments(loads, cfg)[c], Segments(loads, cfg)[c].fileoff + k)
            <==> loads[c].vaddr <= v < loads[c].vaddr + loads[c].filesz
    ensures loads[c].vaddr <= v ==>
      Segments(loads, cfg)[c].fileoff + k == Segments(loads, cfg)[c].dataFileoff + (v - loads[c].vaddr)
  {
    hide Segments, FileEnd, Align, Floor;
    var segs := Segments(loads, cfg);
    SegmentAt(loads, cfg, c);
    SegmentAt(loads, cfg, 0);
    if c > 0 {
      FilesOrdered(loads, cfg, 0, c);
      FileEndCovers(segs[0]);
    }
  }

  /** An image byte that stands for a zero-filled address of the governing load is padding. */
  lemma {:induction false} TailIsPadding(elf: Elf64, cfg: Config, opts: Options, st: State, i: nat, c: nat, v: nat,
                                         k: nat)
    requires Ready(elf, cfg, opts) && ImageAfter(elf, cfg, opts, st)
    requires Governs(LoadsOf(elf), i, v) && v >= LoadsOf(elf)[i].vaddr + LoadsOf(elf)[i].filesz
    requires c < |LoadsOf(elf)| && Segments(LoadsOf(elf), cfg)[c].vmaddr + k == cfg.Slide() + v
    requires Segments(LoadsOf(elf), cfg)[c].fileoff + k < FileEnd(Segments(LoadsOf(elf), cfg)[c])
    ensures View(st.image)(Segments(LoadsOf(elf), cfg)[c].fileoff + k) == 0
  {
    hide Segments, FilesSeparated, WordsBacked, WordsApart, DataEnd, FileEnd, ImageAfter, View, Loads, Symbols,
      Relocations;
    var loads := LoadsOf(elf);
    var x := Segments(loads, cfg)[c].fileoff + k;
    OffsetOf(loads, cfg, c, v, k);
    ImageSize(elf, cfg, opts, st);
    DataEndCovers(Segments(loads, cfg), c);
    if c < i {
      LaterAbove(loads, cfg.Slide(), c, i);
    }
    assert !InCopy(Segments(loads, cfg)[c], x);
    PaddingUnowned(loads, cfg, c, x);
    PaddingStaysZero(elf, cfg, opts, st, x);
    ViewOf(st.image, x);
  }

  /** At a zero-filled address of the governing load, whichever command covers it maps a zero. */
  lemma {:induction false} MappedZero(elf: Elf64, cfg: Config, opts: Options, st: State, d: Dylib,
                                      rebase: seq<byte>, bind: seq<byte>, i: nat, c: nat, v: nat)
    requires Ready(elf, cfg, opts) && ImageAfter(elf, cfg, opts, st)
    requires Delivers(d, Segments(LoadsOf(elf), cfg), st.image, cfg.headerReserve, rebase, bind)
    requires Governs(LoadsOf(elf), i, v) && v >= LoadsOf(elf)[i].vaddr + LoadsOf(elf)[i].filesz
    requires c < |LoadsOf(elf)| && Dyld.Covers(d.segments[c], cfg.Slide() + v)
    ensures Dyld.MappedByte(d.file, d.segments, cfg.Slide() + v) == 0
  {
    hide Segments, FilesSeparated, WordsBacked, WordsApart, DataEnd, FileEnd, ImageAfter, Slice, Dyld.MappedByte,
      Dyld.Mappable, View, Spans, Loads, Symbols, Relocations, Governs;
    var segs := Segments(LoadsOf(elf), cfg);
    assert Widens(d.segments[c], segs[c]);
    var k := cfg.Slide() + v - segs[c].vmaddr;
    OffsetOf(LoadsOf(elf), cfg, c, v, k);
    ImageSize(elf, cfg, opts, st);
    DataEndCovers(segs, c);
    MappedSegmentByte(d, segs, st.image, cfg.headerReserve, rebase, bind, c, k);
    if k < d.segments[c].filesize {
      TailIsPadding(elf, cfg, opts, st, i, c, v, k);
    }
  }

  lemma {:induction false} BackedOffset(loads: seq<ProgramHeader>, cfg: Config, i: nat, v: nat) returns (k: nat)
    requires Accepted(loads) && i < |loads| && loads[i].vaddr <= v < loads[i].vaddr + loads[i].filesz
    ensures var seg := Segments(loads, cfg)[i];
      && seg.vmaddr + k == cfg.Slide() + v && k < seg.filesize && cfg.headerReserve <= seg.fileoff + k
      && seg.fileoff + k == seg.dataFileoff + (v - loads[i].vaddr)
  {
    hide Segments;
    SegmentAt(loads, cfg, i);
    k := cfg.Slide() + v - Segments(loads, cfg)[i].vmaddr;
    OffsetOf(loads, cfg, i, v, k);
  }

  lemma {:induction false} MappedBacked(elf: Elf64, cfg: Config, opts: Options, st: State, d: Dylib,
                                        rebase: seq<byte>, bind: seq<byte>, i: nat, v: nat)
    requires Ready(elf, cfg, opts) && ImageAfter(elf, cfg, opts, st)
    requires Delivers(d, Segments(LoadsOf(elf), cfg), st.image, cfg.headerReserve, rebase, bind)
    requires i < |LoadsOf(elf)| && LoadsOf(elf)[i].vaddr <= v < LoadsOf(elf)[i].vaddr + LoadsOf(elf)[i].filesz
    ensures Dyld.MappedByte(d.file, d.segments, cfg.Slide() + v)
            == View(st.image)(Segments(LoadsOf(elf), cfg)[i].dataFileoff + (v - LoadsOf(elf)[i].vaddr))
  {
    hide Segments, FilesSeparated, WordsBacked, WordsApart, DataEnd, FileEnd, ImageAfter, Slice, Dyld.MappedByte,
      Dyld.Mappable, View, Widens, Spans, Loads, Delivers;
    var segs := Segments(LoadsOf(elf), cfg);
    var k := BackedOffset(LoadsOf(elf), cfg, i, v);
    ImageSize(elf, cfg, opts, st);
    DataEndCovers(segs, i);
    OwnCommand(d, segs, st.image, cfg.headerReserve, rebase, bind, i, k);
    MappedSegmentByte(d, segs, st.image, cfg.headerReserve, rebase, bind, i, k);
  }

  /** What dyld maps at a load's address: the image's byte, or zero beyond the file-backed part. */
  lemma {:induction false} MappedImage(elf: Elf64, cfg: Config, opts: Options, st: State, d: Dylib,
                                       rebase: seq<byte>, bind: seq<byte>, slide: int, i: nat, v: int)
    requires Ready(elf, cfg, opts) && ImageAfter(elf, cfg, opts, st)
    requires Delivers(d, Segments(LoadsOf(elf), cfg), st.image, cfg.headerReserve, rebase, bind)
    requires Governs(LoadsOf(elf), i, v)
    ensures var ph, seg := LoadsOf(elf)[i], Segments(LoadsOf(elf), cfg)[i];
      Dyld.Mapped(d.file, d.segments, slide)(slide + cfg.Slide() + v)
      == if v - ph.vaddr < ph.filesz then View(st.image)(seg.dataFileoff + (v - ph.vaddr)) else 0
  {
    hide Segments, FilesSeparated, WordsBacked, WordsApart, DataEnd, FileEnd, ImageAfter, Slice, Dyld.MappedByte,
      Dyld.Mappable, View, Widens, Loads;
    var loads := LoadsOf(elf);
    if v - loads[i].vaddr < loads[i].filesz {
      MappedBacked(elf, cfg, opts, st, d, rebase, bind, i, v);
    } else {
      SegmentAt(loads, cfg, i);
      assert CoveredAt(d.segments, |loads|, cfg.Slide() + v);
      var c :| 0 <= c < |loads| && Dyld.Covers(d.segments[c], cfg.Slide() + v);
      MappedZero(elf, cfg, opts, st, d, rebase, bind, i, c, v);
    }
  }

  lemma {:induction false} ViewOf(s: seq<byte>, a: nat)
    requires a < |s|
    ensures View(s)(a) == s[a]
  {
  }
}
