/** Where Phase 3 puts each PT_LOAD, in the file and in memory. */
module Layout {
  import opened Wrappers
  import opened ElfReader
  import opened Sorting

  const PAGE: nat := 0x4000

  function Align(v: nat): (r: nat)
    ensures r % PAGE == 0 && v <= r < v + PAGE
  {
    (v + PAGE - 1) / PAGE * PAGE
  }

  function Floor(v: nat): (r: nat)
    ensures r % PAGE == 0 && r <= v < r + PAGE
  {
    v / PAGE * PAGE
  }

  function Align8(v: nat): (r: nat)
    ensures r % 8 == 0 && v <= r < v + 8
  {
    (v + 7) / 8 * 8
  }

  datatype Config = Config(imageBase: nat, headerReserve: nat) {
    function Slide(): nat { imageBase + headerReserve }
  }

  datatype ImageSegment = ImageSegment(
    vmaddr: nat, vmsize: nat, fileoff: nat, filesize: nat, protection: nat,
    elfVaddr: nat, elfOffset: nat, elfFilesz: nat, elfMemsz: nat, dataFileoff: nat)

  datatype LayoutError = NoLoads | FirstLoadNotRx

  predicate HasBit(flags: nat, bit: nat)
    requires bit > 0
  {
    flags / bit % 2 == 1
  }

  function MachProt(flags: nat): nat {
    (if HasBit(flags, 4) then 1 else 0) + (if HasBit(flags, 2) then 2 else 0) + (if HasBit(flags, 1) then 4 else 0)
  }

  function Loads(phs: seq<ProgramHeader>): (r: seq<ProgramHeader>) {
    if |phs| == 0 then []
    else Loads(phs[..|phs| - 1]) + if phs[|phs| - 1].ptype == PT_LOAD then [phs[|phs| - 1]] else []
  }

  function FirstSegment(ph: ProgramHeader, cfg: Config): ImageSegment {
    ImageSegment(cfg.imageBase, Align(cfg.headerReserve + ph.memsz), 0, cfg.headerReserve + ph.filesz, 5,
                 ph.vaddr, ph.offset, ph.filesz, ph.memsz, cfg.headerReserve)
  }

  function NextSegment(ph: ProgramHeader, cfg: Config, cursor: nat): ImageSegment {
    var vm := cfg.Slide() + ph.vaddr;
    var delta := vm - Floor(vm);
    var fileoff := Align(cursor);
    ImageSegment(Floor(vm), Align(delta + ph.memsz), fileoff, delta + ph.filesz, MachProt(ph.flags),
                 ph.vaddr, ph.offset, ph.filesz, ph.memsz, fileoff + delta)
  }

  function FileEnd(seg: ImageSegment): nat { Align(seg.fileoff + seg.filesize) }

  /** The layout of the given loads, each one placed from where the previous one ended. */
  function Segments(loads: seq<ProgramHeader>, cfg: Config): (segs: seq<ImageSegment>)
    requires |loads| > 0
    ensures |segs| == |loads|
  {
    var n := |loads| - 1;
    if n == 0 then [FirstSegment(loads[0], cfg)]
    else
      var front := Segments(loads[..n], cfg);
      front + [NextSegment(loads[n], cfg, FileEnd(front[n - 1]))]
  }

  predicate Accepted(loads: seq<ProgramHeader>) {
    |loads| > 0 && loads[0].vaddr == 0 && HasBit(loads[0].flags, 1)
  }

  lemma {:induction false} SegmentsSnoc(loads: seq<ProgramHeader>, cfg: Config, i: nat)
    requires 0 < i < |loads|
    ensures var front := Segments(loads[..i], cfg);
      Segments(loads[..i + 1], cfg) == front + [NextSegment(loads[i], cfg, FileEnd(front[i - 1]))]
  {
    assert loads[..i + 1][..i] == loads[..i];
  }

  lemma {:induction false} SegmentsOne(loads: seq<ProgramHeader>, cfg: Config)
    requires |loads| > 0
    ensures var first := FirstSegment(loads[0], cfg);
      Segments(loads[..1], cfg) == [first] && FileEnd(first) == Align(first.filesize)
  {
    hide Align, Floor;
  }

  lemma {:induction false} NextEnd(ph: ProgramHeader, cfg: Config, cursor: nat)
    ensures var vm := cfg.Slide() + ph.vaddr;
      FileEnd(NextSegment(ph, cfg, cursor)) == Align(Align(cursor) + (vm - Floor(vm)) + ph.filesz)
  {
    hide Align, Floor, MachProt, HasBit;
    var vm := cfg.Slide() + ph.vaddr;
    var seg := NextSegment(ph, cfg, cursor);
    assert seg.fileoff + seg.filesize == Align(cursor) + (vm - Floor(vm)) + ph.filesz;
  }

  lemma {:induction false} LayoutStep(loads: seq<ProgramHeader>, cfg: Config, i: nat, cursor: nat)
    requires 0 < i < |loads| && cursor == FileEnd(Segments(loads[..i], cfg)[i - 1])
    ensures var vm := cfg.Slide() + loads[i].vaddr;
      var segs := Segments(loads[..i], cfg) + [NextSegment(loads[i], cfg, cursor)];
      && Segments(loads[..i + 1], cfg) == segs
      && FileEnd(segs[i]) == Align(Align(cursor) + (vm - Floor(vm)) + loads[i].filesz)
  {
    hide Align, Floor, NextSegment, FileEnd;
    SegmentsSnoc(loads, cfg, i);
    NextEnd(loads[i], cfg, cursor);
  }

  lemma {:induction false} ExecutableBit(flags: nat)
    ensures HasBit(flags, 1) <==> flags % 2 == 1
  {
  }

  method LayoutSegments(elf: Elf64, cfg: Config) returns (r: Result<seq<ImageSegment>, LayoutError>)
    ensures r.Ok? <==> Accepted(Loads(elf.programHeaders))
    ensures r.Ok? <==> var loads := Loads(elf.programHeaders);
      |loads| > 0 && loads[0].vaddr == 0 && loads[0].flags % 2 == 1
    ensures r.Ok? ==> r.value == Segments(Loads(elf.programHeaders), cfg)
    ensures r.Err? ==> r.error == if Loads(elf.programHeaders) == [] then NoLoads else FirstLoadNotRx
  {
    hide Align, Floor, MachProt, HasBit, Loads, Segments, FirstSegment, NextSegment, FileEnd;
    var loads := Loads(elf.programHeaders);
    if |loads| == 0 {
      return Err(NoLoads);
    }
    ExecutableBit(loads[0].flags);
    if loads[0].vaddr != 0 || !HasBit(loads[0].flags, 1) {
      return Err(FirstLoadNotRx);
    }
    SegmentsOne(loads, cfg);
    var result := [FirstSegment(loads[0], cfg)];
    var cursor := Align(result[0].filesize);
    for i := 1 to |loads|
      invariant result == Segments(loads[..i], cfg)
      invariant cursor == FileEnd(result[i - 1])
    {
      LayoutStep(loads, cfg, i, cursor);
      var vm := cfg.Slide() + loads[i].vaddr;
      var delta := vm - Floor(vm);
      var fileoff := Align(cursor);
      result := result + [NextSegment(loads[i], cfg, cursor)];
      cursor := Align(fileoff + delta + loads[i].filesz);
    }
    assert loads[..|loads|] == loads;
    return Ok(result);
  }

  /** What every placed segment satisfies: file and memory are congruent, both ranges cover the load's bytes. */
  predicate Placed(seg: ImageSegment, ph: ProgramHeader, slide: nat) {
    && seg.elfVaddr == ph.vaddr && seg.elfOffset == ph.offset && seg.elfFilesz == ph.filesz && seg.elfMemsz == ph.memsz
    && seg.fileoff % PAGE == 0 && seg.vmsize % PAGE == 0
    && seg.vmaddr <= slide + ph.vaddr
    && seg.dataFileoff - seg.fileoff == slide + ph.vaddr - seg.vmaddr
    && seg.fileoff + seg.filesize == seg.dataFileoff + ph.filesz
    && slide + ph.vaddr + ph.memsz <= seg.vmaddr + seg.vmsize
  }

  predicate PagedTo(seg: ImageSegment, ph: ProgramHeader, slide: nat) {
    seg.vmaddr % PAGE == 0 && seg.vmaddr + seg.vmsize == Align(slide + ph.vaddr + ph.memsz)
  }

  lemma {:induction false} AlignShift(base: nat, v: nat)
    requires base % PAGE == 0
    ensures Align(base + v) == base + Align(v)
  {
  }

  lemma {:induction false} FirstPlaced(ph: ProgramHeader, cfg: Config)
    requires ph.vaddr == 0
    ensures Placed(FirstSegment(ph, cfg), ph, cfg.Slide())
    ensures cfg.imageBase % PAGE == 0 ==> PagedTo(FirstSegment(ph, cfg), ph, cfg.Slide())
  {
    if cfg.imageBase % PAGE == 0 {
      AlignShift(cfg.imageBase, cfg.headerReserve + ph.memsz);
    }
  }

  lemma {:induction false} NextPlaced(ph: ProgramHeader, cfg: Config, cursor: nat)
    ensures Placed(NextSegment(ph, cfg, cursor), ph, cfg.Slide())
    ensures PagedTo(NextSegment(ph, cfg, cursor), ph, cfg.Slide())
  {
    hide Align, Floor, MachProt, HasBit;
    var vm := cfg.Slide() + ph.vaddr;
    var delta, seg := vm - Floor(vm), NextSegment(ph, cfg, cursor);
    assert seg.vmaddr == Floor(vm) && seg.vmsize == Align(delta + ph.memsz) && seg.fileoff == Align(cursor);
    AlignShift(Floor(vm), delta + ph.memsz);
  }

  lemma {:induction false} AlignAligned(v: nat)
    requires v % PAGE == 0
    ensures Align(v) == v
  {
  }

  lemma {:induction false} SegmentAt(loads: seq<ProgramHeader>, cfg: Config, i: nat)
    requires Accepted(loads) && i < |loads|
    ensures Placed(Segments(loads, cfg)[i], loads[i], cfg.Slide())
    ensures Segments(loads, cfg)[i].vmaddr == if i == 0 then cfg.imageBase else Floor(cfg.Slide() + loads[i].vaddr)
    ensures cfg.imageBase % PAGE == 0 ==> PagedTo(Segments(loads, cfg)[i], loads[i], cfg.Slide())
    ensures i > 0 ==> Segments(loads, cfg)[i].fileoff == FileEnd(Segments(loads, cfg)[i - 1])
    ensures i == 0 ==> Segments(loads, cfg)[0] == FirstSegment(loads[0], cfg)
    decreases |loads|
  {
    hide Placed, PagedTo, Align, Floor;
    var n := |loads| - 1;
    if n == 0 {
      FirstPlaced(loads[0], cfg);
    } else {
      assert Accepted(loads[..n]);
      SegmentAt(loads[..n], cfg, if i == n then n - 1 else i);
      if i == n {
        var cursor := FileEnd(Segments(loads[..n], cfg)[n - 1]);
        NextPlaced(loads[n], cfg, cursor);
        AlignAligned(cursor);
      }
    }
  }

  // ----- protection -----

  /** Mach's read 1, write 2 and execute 4 are set exactly where ELF's PF_R 4, PF_W 2 and PF_X 1 are. */
  predicate SameRights(protection: nat, flags: nat) {
    && protection < 8
    && (protection % 2 == 1 <==> flags / 4 % 2 == 1)
    && (protection / 2 % 2 == 1 <==> flags / 2 % 2 == 1)
    && (protection / 4 % 2 == 1 <==> flags % 2 == 1)
  }

  lemma {:induction false} ProtectionBits(flags: nat)
    ensures SameRights(MachProt(flags), flags)
  {
  }

  /** The first segment may be read and executed, and every other one has its load's rights. */
  lemma {:induction false} SegmentRights(loads: seq<ProgramHeader>, cfg: Config, i: nat)
    requires Accepted(loads) && i < |loads|
    ensures var protection := Segments(loads, cfg)[i].protection;
      if i == 0 then protection == 1 + 4 else SameRights(protection, loads[i].flags)
    decreases |loads|
  {
    hide SameRights, Align, Floor, MachProt, HasBit;
    var n := |loads| - 1;
    if n > 0 {
      if i == n {
        ProtectionBits(loads[n].flags);
      } else {
        assert Accepted(loads[..n]);
        SegmentRights(loads[..n], cfg, i);
      }
    }
  }

  /** File ranges follow one another, page by page. */
  lemma {:induction false} FilesOrdered(loads: seq<ProgramHeader>, cfg: Config, i: nat, j: nat)
    requires Accepted(loads) && i < j < |loads|
    ensures FileEnd(Segments(loads, cfg)[i]) <= Segments(loads, cfg)[j].fileoff
    decreases j
  {
    SegmentAt(loads, cfg, j);
    if i < j - 1 {
      FilesOrdered(loads, cfg, i, j - 1);
    }
  }

  // ----- memory -----

  predicate Ascending(loads: seq<ProgramHeader>) {
    forall i, j :: 0 <= i < j < |loads| ==> loads[i].vaddr <= loads[j].vaddr
  }

  /** After sliding, each load starts on a page above the last page of every earlier one. */
  predicate Separated(loads: seq<ProgramHeader>, slide: nat) {
    forall i, j :: 0 <= i < j < |loads| ==> PagesApart(loads[i], loads[j], slide)
  }

  /** After sliding, each load starts on a page above the last file-backed page of every earlier one. */
  predicate FilesSeparated(loads: seq<ProgramHeader>, slide: nat) {
    forall i, j :: 0 <= i < j < |loads| ==> BackedApart(loads[i], loads[j], slide)
  }

  predicate BackedApart(a: ProgramHeader, b: ProgramHeader, slide: nat) {
    Align(slide + a.vaddr + a.filesz) <= Floor(slide + b.vaddr)
  }

  lemma {:induction false} AlignMonotone(v: nat, w: nat)
    requires v <= w
    ensures Align(v) <= Align(w)
  {
  }

  /** Loads that share no page at all share no file-backed page. */
  lemma {:induction false} SeparatedFiles(loads: seq<ProgramHeader>, slide: nat)
    requires Separated(loads, slide) && forall i :: 0 <= i < |loads| ==> loads[i].filesz <= loads[i].memsz
    ensures FilesSeparated(loads, slide)
  {
    hide Align, Floor;
    forall i, j | 0 <= i < j < |loads| ensures BackedApart(loads[i], loads[j], slide) {
      assert PagesApart(loads[i], loads[j], slide);
      AlignMonotone(slide + loads[i].vaddr + loads[i].filesz, slide + loads[i].vaddr + loads[i].memsz);
    }
  }

  /** It is enough to compare neighbours. */
  lemma {:induction false} NeighboursSuffice(loads: seq<ProgramHeader>, slide: nat)
    requires forall i :: 0 <= i < |loads| - 1 ==> BackedApart(loads[i], loads[i + 1], slide)
    ensures FilesSeparated(loads, slide)
  {
    hide BackedApart;
    forall i, j | 0 <= i < j < |loads| ensures BackedApart(loads[i], loads[j], slide) {
      NeighboursReach(loads, slide, i, j);
    }
  }

  lemma {:induction false} NeighboursReach(loads: seq<ProgramHeader>, slide: nat, i: nat, j: nat)
    requires forall k :: 0 <= k < |loads| - 1 ==> BackedApart(loads[k], loads[k + 1], slide)
    requires i < j < |loads|
    ensures BackedApart(loads[i], loads[j], slide)
    decreases j
  {
    hide Align, Floor;
    assert BackedApart(loads[j - 1], loads[j - 1 + 1], slide);
    if i < j - 1 {
      NeighboursReach(loads, slide, i, j - 1);
    }
  }

  predicate VmDisjoint(a: ImageSegment, b: ImageSegment) {
    a.vmaddr + a.vmsize <= b.vmaddr || b.vmaddr + b.vmsize <= a.vmaddr
  }

  predicate NoOverlap(segs: seq<ImageSegment>) {
    forall i, j :: 0 <= i < j < |segs| ==> VmDisjoint(segs[i], segs[j])
  }

  predicate PagesApart(a: ProgramHeader, b: ProgramHeader, slide: nat) {
    Align(slide + a.vaddr + a.memsz) <= Floor(slide + b.vaddr)
  }

  /** The range a load is given in memory reaches from below its first byte to above its last. */
  lemma {:induction false} MemoryRange(loads: seq<ProgramHeader>, cfg: Config, i: nat)
    requires Accepted(loads) && i < |loads|
    ensures var seg := Segments(loads, cfg)[i];
      seg.vmaddr <= cfg.Slide() + loads[i].vaddr
          && cfg.Slide() + loads[i].vaddr + loads[i].memsz <= seg.vmaddr + seg.vmsize
  {
    hide Segments, Align, Floor;
    SegmentAt(loads, cfg, i);
  }

  lemma {:induction false} ApartIsOrdered(loads: seq<ProgramHeader>, cfg: Config, i: nat, j: nat)
    requires Accepted(loads) && cfg.imageBase % PAGE == 0 && i < j < |loads|
    ensures PagesApart(loads[i], loads[j], cfg.Slide())
            <==> Segments(loads, cfg)[i].vmaddr + Segments(loads, cfg)[i].vmsize <= Segments(loads, cfg)[j].vmaddr
  {
    hide Segments, Align, Floor, Placed;
    SegmentAt(loads, cfg, i);
    SegmentAt(loads, cfg, j);
  }

  lemma {:induction false} DisjointOneWay(a: ImageSegment, b: ImageSegment)
    requires a.vmaddr < b.vmaddr + b.vmsize
    ensures VmDisjoint(a, b) <==> a.vmaddr + a.vmsize <= b.vmaddr
  {
  }

  lemma {:induction false} PairDisjointIff(loads: seq<ProgramHeader>, cfg: Config, i: nat, j: nat)
    requires Accepted(loads) && cfg.imageBase % PAGE == 0 && Ascending(loads)
    requires i < j < |loads| && loads[i].memsz > 0 && loads[j].memsz > 0
    ensures VmDisjoint(Segments(loads, cfg)[i], Segments(loads, cfg)[j]) <==>
        PagesApart(loads[i], loads[j], cfg.Slide())
  {
    hide Segments, Align, Floor, VmDisjoint, PagesApart;
    MemoryRange(loads, cfg, i);
    MemoryRange(loads, cfg, j);
    ApartIsOrdered(loads, cfg, i, j);
    DisjointOneWay(Segments(loads, cfg)[i], Segments(loads, cfg)[j]);
  }

  /** The emitted memory ranges are disjoint exactly when the slid loads do not share a page. */
  lemma {:induction false} NoOverlapIff(loads: seq<ProgramHeader>, cfg: Config)
    requires Accepted(loads) && cfg.imageBase % PAGE == 0 && Ascending(loads)
    requires forall i :: 0 <= i < |loads| ==> loads[i].memsz > 0
    ensures NoOverlap(Segments(loads, cfg)) <==> Separated(loads, cfg.Slide())
  {
    hide Segments, Align, Floor, VmDisjoint, PagesApart;
    forall i, j | 0 <= i < j < |loads|
      ensures VmDisjoint(Segments(loads, cfg)[i], Segments(loads, cfg)[j]) <==>
          PagesApart(loads[i], loads[j], cfg.Slide())
    {
      PairDisjointIff(loads, cfg, i, j);
    }
  }

  /** The layout of the repository's own fixture (tests/test_phase3.py:19-22) puts two loads in one page. */
  lemma {:induction false} FixtureOverlaps()
    ensures var loads := [ProgramHeader(1, 5, 0, 0, 0x100, 0x100), ProgramHeader(1, 6, 0x100, 0x2000, 0x100, 0x180)];
      Accepted(loads) && !NoOverlap(Segments(loads, Config(0, 0x10000)))
  {
    var loads := [ProgramHeader(1, 5, 0, 0, 0x100, 0x100), ProgramHeader(1, 6, 0x100, 0x2000, 0x100, 0x180)];
    var cfg := Config(0, 0x10000);
    assert Accepted(loads) && Ascending(loads);
    NoOverlapIff(loads, cfg);
    assert !PagesApart(loads[0], loads[1], cfg.Slide());
  }

  // ----- locations -----

  datatype Location = Location(loc: Loc, output: nat)

  predicate Backs(seg: ImageSegment, v: nat) {
    seg.elfVaddr <= v < seg.elfVaddr + seg.elfFilesz
  }

  function FindSegment(segs: seq<ImageSegment>, v: nat): (k: nat)
    ensures k <= |segs|
    ensures k < |segs| ==> Backs(segs[k], v)
    ensures forall j :: 0 <= j < k ==> !Backs(segs[j], v)
  {
    if |segs| == 0 || Backs(segs[0], v) then 0 else 1 + FindSegment(segs[1..], v)
  }

  /** The segment, file offset and segment offset of a virtual address; None outside the file-backed parts. */
  function Locate(segs: seq<ImageSegment>, slide: nat, v: nat): Option<Location>
    requires forall i :: 0 <= i < |segs| ==> segs[i].vmaddr <= slide + segs[i].elfVaddr
  {
    var k := FindSegment(segs, v);
    if k == |segs| then None
    else Some(Location(Loc(k, slide + v - segs[k].vmaddr), segs[k].dataFileoff + (v - segs[k].elfVaddr)))
  }

  /** File offset and memory address move together, whatever segment was found. */
  lemma {:induction false} LocateCongruent(loads: seq<ProgramHeader>, cfg: Config, v: nat)
    requires Accepted(loads)
    ensures forall i :: 0 <= i < |loads| ==>
        Segments(loads, cfg)[i].vmaddr <= cfg.Slide() + Segments(loads, cfg)[i].elfVaddr
    ensures match Locate(Segments(loads, cfg), cfg.Slide(), v)
      case None => forall i :: 0 <= i < |loads| ==> !(loads[i].vaddr <= v < loads[i].vaddr + loads[i].filesz)
      case Some(l) =>
        var seg := Segments(loads, cfg)[l.loc.seg];
        && l.loc.seg < |loads|
        && loads[l.loc.seg].vaddr <= v < loads[l.loc.seg].vaddr + loads[l.loc.seg].filesz
        && seg.vmaddr + l.loc.off == cfg.Slide() + v
        && l.output - seg.fileoff == l.loc.off
        && l.output < seg.fileoff + seg.filesize
  {
    var segs := Segments(loads, cfg);
    forall i | 0 <= i < |loads|
      ensures Placed(segs[i], loads[i], cfg.Slide())
    {
      SegmentAt(loads, cfg, i);
    }
    var k := FindSegment(segs, v);
    if k == |segs| {
      forall i | 0 <= i < |loads| ensures !(loads[i].vaddr <= v < loads[i].vaddr + loads[i].filesz) {
        assert !Backs(segs[i], v);
      }
    }
  }
}
