/** The memory dyld gives a dylib: map its segments at a slide, run the rebase program, then the bind program. */
module Dyld {
  import opened Bytes
  import opened Wrappers
  import opened Patches
  import opened Sorting
  import opened MachO
  import opened MachReader
  import opened DyldMachines

  predicate Covers(seg: SegmentCommand, a: int) {
    seg.vmaddr <= a < seg.vmaddr + seg.vmsize
  }

  function MappedByte(file: seq<byte>, segs: seq<SegmentCommand>, a: int): byte {
    if |segs| == 0 then 0
    else
      var seg := segs[|segs| - 1];
      if !Covers(seg, a) then MappedByte(file, segs[..|segs| - 1], a)
      else if a - seg.vmaddr < seg.filesize && seg.fileoff + (a - seg.vmaddr) < |file|
      then file[seg.fileoff + (a - seg.vmaddr)]
      else 0
  }

  function Mapped(file: seq<byte>, segs: seq<SegmentCommand>, slide: int): Memory {
    (a: int) => MappedByte(file, segs, a - slide)
  }

  // The address of a name in the dylib with the given ordinal.
  type Resolver = (int, seq<byte>) -> int

  /** What dyld insists on before mapping. */
  predicate Mappable(file: seq<byte>, segs: seq<SegmentCommand>) {
    && (forall i :: 0 <= i < |segs| ==>
         segs[i].filesize <= segs[i].vmsize && segs[i].fileoff + segs[i].filesize <= |file|)
    && (forall i, j :: 0 <= i < j < |segs| ==>
         segs[i].vmaddr + segs[i].vmsize <= segs[j].vmaddr || segs[j].vmaddr + segs[j].vmsize <= segs[i].vmaddr)
  }

  /** A fixup must name a whole word of one segment. */
  predicate Addressable(segs: seq<SegmentCommand>, l: Loc) {
    l.seg < |segs| && l.off + 8 <= segs[l.seg].vmsize
  }

  function Address(segs: seq<SegmentCommand>, slide: int, l: Loc): int
    requires Addressable(segs, l)
  {
    slide + segs[l.seg].vmaddr + l.off
  }

  function RebasePatches(segs: seq<SegmentCommand>, slide: int, ls: seq<Loc>): (ps: seq<Patch>)
    requires forall i :: 0 <= i < |ls| ==> Addressable(segs, ls[i])
    ensures |ps| == |ls|
    ensures forall i :: 0 <= i < |ls| ==> ps[i] == Patch(Address(segs, slide, ls[i]), Add(slide))
  {
    seq(|ls|, i requires 0 <= i < |ls| => Patch(Address(segs, slide, ls[i]), Add(slide)))
  }

  function BindPatches(segs: seq<SegmentCommand>, slide: int, bs: seq<BindAction>, resolve: Resolver): (ps: seq<Patch>)
    requires forall i :: 0 <= i < |bs| ==> Addressable(segs, bs[i].loc)
    ensures |ps| == |bs|
    ensures forall i :: 0 <= i < |bs| ==>
      ps[i] == Patch(Address(segs, slide, bs[i].loc), Set(resolve(bs[i].ordinal, bs[i].symbol) + bs[i].addend))
  {
    seq(|bs|, i requires 0 <= i < |bs| =>
      Patch(Address(segs, slide, bs[i].loc), Set(resolve(bs[i].ordinal, bs[i].symbol) + bs[i].addend)))
  }

  /** None when dyld would refuse the image. */
  function Load(d: Dylib, slide: int, resolve: Resolver): Option<Memory> {
    if !Mappable(d.file, d.segments) || !d.info.DyldInfo? then None
    else
      var info := d.info;
      match (RunRebase(Slice(d.file, info.rebaseOff, info.rebaseOff + info.rebaseSize), REBASE_START),
             RunBind(Slice(d.file, info.bindOff, info.bindOff + info.bindSize), BIND_START))
      case (Some(ls), Some(bs)) =>
        if !(forall i :: 0 <= i < |ls| ==> Addressable(d.segments, ls[i])) then None
        else if !(forall i :: 0 <= i < |bs| ==> Addressable(d.segments, bs[i].loc)) then None
        else Some(ApplyAll(ApplyAll(Mapped(d.file, d.segments, slide), RebasePatches(d.segments, slide, ls)),
                           BindPatches(d.segments, slide, bs, resolve)))
      case _ => None
  }

  // ----- from the file's own bytes -----

  function SegmentsIn(cs: seq<LoadCommand>): seq<SegmentCommand> {
    if |cs| == 0 then [] else (if cs[0].Segment? then [cs[0].seg] else []) + SegmentsIn(cs[1..])
  }

  function InfosIn(cs: seq<LoadCommand>): (r: seq<LoadCommand>)
    ensures forall i :: 0 <= i < |r| ==> r[i].DyldInfo?
  {
    if |cs| == 0 then [] else (if cs[0].DyldInfo? then [cs[0]] else []) + InfosIn(cs[1..])
  }

  /** The dylibs to load, in the order that bind ordinals count them. */
  function LibrariesIn(cs: seq<LoadCommand>): seq<seq<byte>> {
    if |cs| == 0 then []
    else (if cs[0].Dylib? && !cs[0].isId then [cs[0].install] else []) + LibrariesIn(cs[1..])
  }

  function SymtabsIn(cs: seq<LoadCommand>): seq<LoadCommand> {
    if |cs| == 0 then [] else (if cs[0].Symtab? then [cs[0]] else []) + SymtabsIn(cs[1..])
  }

  /** What dyld makes of a file: segments, the one fixup command, and libraries; only two-level binds are known. */
  function ImageOf(file: seq<byte>): Option<Dylib> {
    match ReadFile(file)
    case None => None
    case Some(m) =>
      if m.flags / 0x80 % 2 != 1 || |InfosIn(m.commands)| != 1 then None
      else Some(Dylib.Dylib(file, SegmentsIn(m.commands), InfosIn(m.commands)[0], LibrariesIn(m.commands)))
  }

  // The address of a symbol in the dylib with the given install name.
  type Lookup = (seq<byte>, seq<byte>) -> int

  function ByName(libraries: seq<seq<byte>>, lookup: Lookup): Resolver {
    (ordinal: int, symbol: seq<byte>) =>
      lookup(if 1 <= ordinal <= |libraries| then libraries[ordinal - 1] else [], symbol)
  }

  /** Every bind's ordinal names a library. */
  predicate OrdinalsKnown(d: Dylib)
    requires d.info.DyldInfo?
  {
    match RunBind(Slice(d.file, d.info.bindOff, d.info.bindOff + d.info.bindSize), BIND_START)
    case None => true
    case Some(bs) => forall i :: 0 <= i < |bs| ==> 1 <= bs[i].ordinal <= |d.libraries|
  }

  /** dyld, given nothing but the file. */
  function LoadFile(file: seq<byte>, slide: int, lookup: Lookup): Option<Memory> {
    match ImageOf(file)
    case None => None
    case Some(d) => if OrdinalsKnown(d) then Load(d, slide, ByName(d.libraries, lookup)) else None
  }
}
