/** A Mach-O file as the translators write it: the load commands, and their bytes. */
module MachO {
  import opened Bytes
  import opened Layout

  datatype SegmentCommand = SegmentCommand(vmaddr: nat, vmsize: nat, fileoff: nat, filesize: nat, protection: nat)

  type Name16 = s: seq<byte> | |s| == 16 witness seq(16, _ => 0)

  datatype Section = Section(name: Name16, segment: Name16, addr: nat, size: nat, offset: nat, align: nat)

  datatype LoadCommand =
    | Segment(name: Name16, seg: SegmentCommand, sections: seq<Section>)
    | Dylib(install: seq<byte>, isId: bool)
    | BuildVersion(version: nat)
    | DyldInfo(rebaseOff: nat, rebaseSize: nat, bindOff: nat, bindSize: nat, exportOff: nat, exportSize: nat)
    | Symtab(symOff: nat, symCount: nat, strOff: nat, strSize: nat)
  {
    function Size(): nat {
      match this
      case Segment(_, _, ss) => 72 + 80 * |ss|
      case Dylib(name, _) => Align8(24 + |name| + 1)
      case BuildVersion(_) => 24
      case DyldInfo(_, _, _, _, _, _) => 48
      case Symtab(_, _, _, _) => 24
    }
  }

  const LC_SYMTAB := 0x2
  const LC_LOAD_DYLIB := 0xC
  const LC_ID_DYLIB := 0xD
  const LC_SEGMENT_64 := 0x19
  const LC_BUILD_VERSION := 0x32
  const LC_DYLD_INFO_ONLY := 0x8000_0022

  const MH_MAGIC_64 := 0xFEED_FACF
  const CPU_TYPE_ARM64 := 0x0100_000C
  const MH_DYLIB := 6
  const MH_DYLDLINK := 0x4
  const MH_TWOLEVEL := 0x80
  const PLATFORM_IOS := 2

  // ----- names and numbers -----

  function Ascii(s: string): (r: seq<byte>)
    ensures |r| == |s|
  {
    seq(|s|, i requires 0 <= i < |s| => if s[i] < 128 as char then s[i] as int else 63)
  }

  /** name.encode("ascii")[:16].ljust(16, b"\0"). */
  function Padded(s: string): Name16 {
    if |s| < 16 then Ascii(s) + Zeros(16 - |s|) else Ascii(s)[..16]
  }

  function Decimal(n: nat): string {
    var digit := [(n % 10 + 48) as char];
    if n < 10 then digit else Decimal(n / 10) + digit
  }

  function Or(a: nat, b: nat): nat
    decreases a + b
  {
    if a == 0 then b else if b == 0 then a
    else 2 * Or(a / 2, b / 2) + if a % 2 == 1 || b % 2 == 1 then 1 else 0
  }

  /** The packed version number. */
  function Version(minIos: (nat, nat, nat)): nat {
    Or(Or(minIos.0 * 0x1_0000, minIos.1 * 0x100), minIos.2)
  }

  lemma {:induction false} OrHigh(high: nat, low: nat, bits: nat)
    requires low < Pow2(bits)
    ensures Or(high * Pow2(bits), low) == high * Pow2(bits) + low
    decreases bits
  {
    if high > 0 && low > 0 {
      assert bits > 0;
      var p := Pow2(bits - 1);
      Halved(high, p);
      OrHigh(high, low / 2, bits - 1);
      assert Or(high * (2 * p), low) == 2 * Or(high * p, low / 2) + low % 2;
    }
  }

  function Pow2(n: nat): (p: nat)
    ensures p > 0
  {
    if n == 0 then 1 else 2 * Pow2(n - 1)
  }

  lemma {:induction false} Halved(high: nat, p: nat)
    ensures high * (2 * p) / 2 == high * p && high * (2 * p) % 2 == 0
  {
    assert high * (2 * p) == 2 * (high * p);
  }

  /** A version X.Y.Z with Y and Z below 256 is packed as nibbles xxxx.yy.zz. */
  lemma {:induction false} VersionPacks(minIos: (nat, nat, nat))
    requires minIos.1 < 256 && minIos.2 < 256
    ensures Version(minIos) == 0x1_0000 * minIos.0 + 0x100 * minIos.1 + minIos.2
  {
    hide Or;
    assert Pow2(4) == 16 && Pow2(8) == 16 * Pow2(4) && Pow2(12) == 16 * Pow2(8) && Pow2(16) == 16 * Pow2(12);
    OrHigh(minIos.0, minIos.1 * 0x100, 16);
    OrHigh(minIos.0 * 0x100 + minIos.1, minIos.2, 8);
  }

  function DecimalValue(s: string): int {
    if |s| == 0 then 0 else 10 * DecimalValue(s[..|s| - 1]) + (s[|s| - 1] as int - 48)
  }

  lemma {:induction false} DecimalReads(n: nat)
    ensures DecimalValue(Decimal(n)) == n && |Decimal(n)| > 0
    decreases n
  {
    var s := Decimal(n);
    if n >= 10 {
      DecimalReads(n / 10);
      assert s[..|s| - 1] == Decimal(n / 10);
    } else {
      assert s[..0] == [];
    }
  }

  /** __TEXT, in ASCII, padded to sixteen bytes. */
  lemma {:induction false} TextName()
    ensures Padded("__TEXT") == [0x5F, 0x5F, 0x54, 0x45, 0x58, 0x54, 0, 0, 0, 0, 0, 0, 0, 0, 0, 0]
  {
  }

  // ----- sizes -----

  function CommandBytes(cs: seq<LoadCommand>): nat {
    if |cs| == 0 then 0 else CommandBytes(cs[..|cs| - 1]) + cs[|cs| - 1].Size()
  }

  /** The size of the Mach-O header followed by its load commands. */
  function HeaderSize(cs: seq<LoadCommand>): nat { 32 + CommandBytes(cs) }

  lemma {:induction false} CommandBytesSnoc(cs: seq<LoadCommand>, c: LoadCommand)
    ensures CommandBytes(cs + [c]) == CommandBytes(cs) + c.Size()
  {
    assert (cs + [c])[..|cs|] == cs;
  }

  lemma {:induction false} SegmentBytes(cs: seq<LoadCommand>, sections: nat)
    requires sections == 0 || sections == 2
    requires forall i :: 0 <= i < |cs| ==> cs[i].Segment? && |cs[i].sections| == sections
    ensures CommandBytes(cs) == if sections == 2 then 232 * |cs| else 72 * |cs|
    decreases |cs|
  {
    if |cs| > 0 {
      SegmentBytes(cs[..|cs| - 1], sections);
      assert cs[|cs| - 1].Size() == if sections == 2 then 232 else 72;
    }
  }

  // ----- bytes -----

  /** struct.pack accepts a section's fields. */
  predicate SectionFits(s: Section) {
    s.addr < TWO64 && s.size < TWO64 && s.offset < TWO32 && s.align < TWO32
  }

  predicate SegmentFits(s: SegmentCommand) {
    && s.vmaddr < TWO64 && s.vmsize < TWO64 && s.fileoff < TWO64 && s.filesize < TWO64
    && s.protection < TWO32 / 2
  }

  /** struct.pack accepts a command's fields. */
  predicate Fits(c: LoadCommand) {
    c.Size() < TWO32 &&
    match c
    case Segment(_, s, sections) => SegmentFits(s) && forall i :: 0 <= i < |sections| ==> SectionFits(sections[i])
    case Dylib(_, _) => true
    case BuildVersion(version) => version < TWO32
    case DyldInfo(a, b, c, d, e, f) => a < TWO32 && b < TWO32 && c < TWO32 && d < TWO32 && e < TWO32 && f < TWO32
    case Symtab(a, b, c, d) => a < TWO32 && b < TWO32 && c < TWO32 && d < TWO32
  }

  predicate AllFit(cs: seq<LoadCommand>) {
    |cs| < TWO32 && CommandBytes(cs) < TWO32 && forall i :: 0 <= i < |cs| ==> Fits(cs[i])
  }

  function U32(v: nat): (r: seq<byte>)
    ensures |r| == 4
  {
    PackLE(v, 4)
  }

  function U64(v: nat): (r: seq<byte>)
    ensures |r| == 8
  {
    PackLE(v, 8)
  }

  function SectionBytes(s: Section): (r: seq<byte>)
    ensures |r| == 80
  {
    s.name + s.segment + U64(s.addr) + U64(s.size) + U32(s.offset) + U32(s.align) + Zeros(24)
  }

  function SectionsBytes(ss: seq<Section>): (r: seq<byte>)
    ensures |r| == 80 * |ss|
  {
    if |ss| == 0 then [] else SectionBytes(ss[0]) + SectionsBytes(ss[1..])
  }

  function Encode(c: LoadCommand): (r: seq<byte>)
    ensures |r| == c.Size()
  {
    match c
    case Segment(name, s, sections) =>
      U32(LC_SEGMENT_64) + U32(c.Size()) + name + U64(s.vmaddr) + U64(s.vmsize) + U64(s.fileoff) + U64(s.filesize)
      + U32(s.protection) + U32(s.protection) + U32(|sections|) + U32(0) + SectionsBytes(sections)
    case Dylib(install, isId) =>
      U32(if isId then LC_ID_DYLIB else LC_LOAD_DYLIB) + U32(c.Size()) + U32(24) + U32(0) + U32(0x1_0000)
      + U32(0x1_0000) + install + Zeros(c.Size() - 24 - |install|)
    case BuildVersion(version) =>
      U32(LC_BUILD_VERSION) + U32(24) + U32(PLATFORM_IOS) + U32(version) + U32(version) + U32(0)
    case DyldInfo(rebaseOff, rebaseSize, bindOff, bindSize, exportOff, exportSize) =>
      U32(LC_DYLD_INFO_ONLY) + U32(48) + U32(rebaseOff) + U32(rebaseSize) + U32(bindOff) + U32(bindSize)
      + U32(0) + U32(0) + U32(0) + U32(0) + U32(exportOff) + U32(exportSize)
    case Symtab(symOff, symCount, strOff, strSize) =>
      U32(LC_SYMTAB) + U32(24) + U32(symOff) + U32(symCount) + U32(strOff) + U32(strSize)
  }

  function EncodeAll(cs: seq<LoadCommand>): (r: seq<byte>)
    ensures |r| == CommandBytes(cs)
  {
    if |cs| == 0 then [] else EncodeAll(cs[..|cs| - 1]) + Encode(cs[|cs| - 1])
  }

  /** The Mach-O header, then the commands. */
  function HeaderBytes(cs: seq<LoadCommand>, flags: nat): (r: seq<byte>)
    ensures |r| == HeaderSize(cs)
  {
    U32(MH_MAGIC_64) + U32(CPU_TYPE_ARM64) + U32(0) + U32(MH_DYLIB) + U32(|cs|) + U32(CommandBytes(cs)) + U32(flags)
    + U32(0) + EncodeAll(cs)
  }

  // ----- what the translators say of a file -----

  /** What dyld takes from a file; libraries are the dylibs that bind ordinals 1, 2 and so on name. */
  datatype Dylib = Dylib(file: seq<byte>, segments: seq<SegmentCommand>, info: LoadCommand, libraries: seq<seq<byte>>)

  function CommandOf(seg: ImageSegment): SegmentCommand {
    SegmentCommand(seg.vmaddr, seg.vmsize, seg.fileoff, seg.filesize, seg.protection)
  }

  function CommandsOf(segs: seq<ImageSegment>): (r: seq<SegmentCommand>)
    ensures |r| == |segs|
    ensures forall i :: 0 <= i < |segs| ==> r[i] == CommandOf(segs[i])
  {
    seq(|segs|, i requires 0 <= i < |segs| => CommandOf(segs[i]))
  }
}
