/** A reader of Mach-O headers: each command by the fixed offsets of its struct in Apple's mach-o/loader.h. */
module MachReader {
  import opened Bytes
  import opened Wrappers
  import opened ElfReader
  import opened MachO
  import Layout

  datatype MachFile = MachFile(flags: nat, commands: seq<LoadCommand>)

  // ----- reading -----

  function ReadSection(s: seq<byte>): Section
    requires |s| == 80
  {
    Section(s[..16], s[16..32], UnpackAt(s, 32, 8), UnpackAt(s, 40, 8), UnpackAt(s, 48, 4), UnpackAt(s, 52, 4))
  }

  function ReadSections(s: seq<byte>, n: nat): seq<Section>
    requires |s| == 80 * n
  {
    if n == 0 then [] else [ReadSection(s[..80])] + ReadSections(s[80..], n - 1)
  }

  /** Every right of the first word is in the second. */
  predicate RightsWithin(initial: nat, most: nat) {
    && (initial % 2 <= most % 2) && (initial / 2 % 2 <= most / 2 % 2) && (initial / 4 % 2 <= most / 4 % 2)
  }

  function ReadSegment(s: seq<byte>): Option<LoadCommand>
    requires |s| >= 8
  {
    if |s| < 72 || |s| != 72 + 80 * UnpackAt(s, 64, 4) then None
    else if !RightsWithin(UnpackAt(s, 60, 4), UnpackAt(s, 56, 4)) then None
    else Some(Segment(s[8..24], SegmentCommand(UnpackAt(s, 24, 8), UnpackAt(s, 32, 8), UnpackAt(s, 40, 8),
                                               UnpackAt(s, 48, 8), UnpackAt(s, 60, 4)),
                      ReadSections(s[72..], UnpackAt(s, 64, 4))))
  }

  function ReadDylib(s: seq<byte>): Option<LoadCommand>
    requires |s| >= 8
  {
    if |s| < 24 then None else Some(LoadCommand.Dylib(CStringAt(s, UnpackAt(s, 8, 4)), UnpackAt(s, 0, 4) == 0xD))
  }

  /** Only iOS is accepted. */
  function ReadVersion(s: seq<byte>): Option<LoadCommand>
    requires |s| >= 8
  {
    if |s| != 24 || UnpackAt(s, 8, 4) != 2 then None else Some(BuildVersion(UnpackAt(s, 12, 4)))
  }

  /** Weak and lazy binds are not understood, so there must be none. */
  function ReadInfo(s: seq<byte>): Option<LoadCommand>
    requires |s| >= 8
  {
    if |s| != 48 || UnpackAt(s, 28, 4) != 0 || UnpackAt(s, 36, 4) != 0 then None
    else Some(DyldInfo(UnpackAt(s, 8, 4), UnpackAt(s, 12, 4), UnpackAt(s, 16, 4), UnpackAt(s, 20, 4),
                       UnpackAt(s, 40, 4), UnpackAt(s, 44, 4)))
  }

  function ReadSymtab(s: seq<byte>): Option<LoadCommand>
    requires |s| >= 8
  {
    if |s| != 24 then None
    else Some(Symtab(UnpackAt(s, 8, 4), UnpackAt(s, 12, 4), UnpackAt(s, 16, 4), UnpackAt(s, 20, 4)))
  }

  /** One command, from exactly its own bytes. */
  function ReadCommand(s: seq<byte>): Option<LoadCommand>
    requires |s| >= 8
  {
    match UnpackAt(s, 0, 4)
    case 0x19 => ReadSegment(s)
    case 0xC => ReadDylib(s)
    case 0xD => ReadDylib(s)
    case 0x32 => ReadVersion(s)
    case 0x80000022 => ReadInfo(s)
    case 2 => ReadSymtab(s)
    case _ => None
  }

  /** n commands that fill s. */
  function ReadCommands(s: seq<byte>, n: nat): Option<seq<LoadCommand>>
    decreases n
  {
    if n == 0 then if |s| == 0 then Some([]) else None
    else if |s| < 8 then None
    else
      var size := UnpackAt(s, 4, 4);
      if size < 8 || size > |s| then None
      else
        match (ReadCommand(s[..size]), ReadCommands(s[size..], n - 1))
        case (Some(c), Some(cs)) => Some([c] + cs)
        case _ => None
  }

  /** A 64-bit ARM dylib's header and commands. */
  function ReadFile(file: seq<byte>): Option<MachFile> {
    if |file| < 32 || UnpackAt(file, 0, 4) != 0xFEEDFACF || UnpackAt(file, 4, 4) != 0x100000C
       || UnpackAt(file, 12, 4) != 6 || 32 + UnpackAt(file, 20, 4) > |file|
    then None
    else
      match ReadCommands(file[32..32 + UnpackAt(file, 20, 4)], UnpackAt(file, 16, 4))
      case None => None
      case Some(cs) => Some(MachFile(UnpackAt(file, 24, 4), cs))
  }

  // ----- what was written is read -----

  /** A command as a reader sees it: a dylib's name ends at its first NUL. */
  function Seen(c: LoadCommand): LoadCommand {
    if c.Dylib? then c.(install := CStringAt(c.install, 0)) else c
  }

  function SeenAll(cs: seq<LoadCommand>): (r: seq<LoadCommand>)
    ensures |r| == |cs| && forall i :: 0 <= i < |cs| ==> r[i] == Seen(cs[i])
  {
    seq(|cs|, i requires 0 <= i < |cs| => Seen(cs[i]))
  }

  lemma {:induction false} Word(s: seq<byte>, off: nat, v: nat)
    requires off + 4 <= |s| && s[off..off + 4] == U32(v) && v < TWO32
    ensures UnpackAt(s, off, 4) == v
  {
    hide PackLE, UnpackLE;
    UnpackPack(v, 4);
    assert Pow256(4) == TWO32;
  }

  lemma {:induction false} Long(s: seq<byte>, off: nat, v: nat)
    requires off + 8 <= |s| && s[off..off + 8] == U64(v) && v < TWO64
    ensures UnpackAt(s, off, 8) == v
  {
    hide PackLE, UnpackLE;
    UnpackPack(v, 8);
    Pow256Is64();
  }

  lemma {:induction false} SectionRead(sec: Section)
    requires SectionFits(sec)
    ensures ReadSection(SectionBytes(sec)) == sec
  {
    hide U32, U64, UnpackAt;
    var s := SectionBytes(sec);
    assert s[..16] == sec.name && s[16..32] == sec.segment;
    Long(s, 32, sec.addr);
    Long(s, 40, sec.size);
    Word(s, 48, sec.offset);
    Word(s, 52, sec.align);
  }

  lemma {:induction false} SectionsRead(ss: seq<Section>)
    requires forall i :: 0 <= i < |ss| ==> SectionFits(ss[i])
    ensures ReadSections(SectionsBytes(ss), |ss|) == ss
    decreases |ss|
  {
    hide ReadSection, SectionBytes, SectionFits;
    if |ss| > 0 {
      var s := SectionsBytes(ss);
      assert s[..80] == SectionBytes(ss[0]) && s[80..] == SectionsBytes(ss[1..]);
      SectionRead(ss[0]);
      SectionsRead(ss[1..]);
    }
  }

  lemma {:induction false} SegmentSlices(c: LoadCommand)
    requires c.Segment?
    ensures var s, seg := Encode(c), c.seg;
      && s[0..4] == U32(0x19) && s[8..24] == c.name
      && s[24..32] == U64(seg.vmaddr) && s[32..40] == U64(seg.vmsize)
      && s[40..48] == U64(seg.fileoff) && s[48..56] == U64(seg.filesize)
      && s[56..60] == U32(seg.protection) && s[60..64] == U32(seg.protection)
      && s[64..68] == U32(|c.sections|) && s[72..] == SectionsBytes(c.sections)
  {
    hide U32, U64, SectionsBytes;
    var s, seg := Encode(c), c.seg;
    var front := U32(0x19) + U32(c.Size()) + c.name + U64(seg.vmaddr) + U64(seg.vmsize) + U64(seg.fileoff)
                 + U64(seg.filesize);
    assert s[..56] == front;
    assert s[0..4] == front[0..4] && s[8..24] == front[8..24] && s[24..32] == front[24..32];
    assert s[32..40] == front[32..40] && s[40..48] == front[40..48] && s[48..56] == front[48..56];
  }

  lemma {:induction false} SegmentRead(c: LoadCommand)
    requires c.Segment? && Fits(c)
    ensures ReadCommand(Encode(c)) == Some(c)
  {
    hide U32, U64, UnpackAt, SectionsBytes, ReadSections, Encode;
    var s, seg := Encode(c), c.seg;
    SegmentSlices(c);
    Word(s, 0, 0x19);
    Long(s, 24, seg.vmaddr);
    Long(s, 32, seg.vmsize);
    Long(s, 40, seg.fileoff);
    Long(s, 48, seg.filesize);
    Word(s, 56, seg.protection);
    Word(s, 60, seg.protection);
    Word(s, 64, |c.sections|);
    SectionsRead(c.sections);
  }

  lemma {:induction false} NameRead(front: seq<byte>, name: seq<byte>, back: seq<byte>, i: nat)
    requires i <= |name| && |back| > 0 && back[0] == 0
    ensures CStringAt(front + name + back, |front| + i) == CStringAt(name, i)
    decreases |name| - i
  {
    if i < |name| {
      NameRead(front, name, back, i + 1);
      assert (front + name + back)[|front| + i] == name[i];
    } else {
      assert (front + name + back)[|front| + i] == 0;
    }
  }

  lemma {:induction false} DylibRead(c: LoadCommand)
    requires c.Dylib? && Fits(c)
    ensures ReadCommand(Encode(c)) == Some(Seen(c))
  {
    hide U32, UnpackAt, CStringAt, Layout.Align8;
    var s := Encode(c);
    Word(s, 0, if c.isId then 0xD else 0xC);
    Word(s, 8, 24);
    var back := Zeros(c.Size() - 24 - |c.install|);
    assert s == s[..24] + c.install + back;
    NameRead(s[..24], c.install, back, 0);
  }

  lemma {:induction false} VersionRead(c: LoadCommand)
    requires c.BuildVersion? && Fits(c)
    ensures ReadCommand(Encode(c)) == Some(c)
  {
    hide U32, UnpackAt;
    var s := Encode(c);
    assert s[0..4] == U32(0x32) && s[8..12] == U32(2) && s[12..16] == U32(c.version);
    Word(s, 0, 0x32);
    Word(s, 8, 2);
    Word(s, 12, c.version);
  }

  lemma {:induction false} InfoRead(c: LoadCommand)
    requires c.DyldInfo? && Fits(c)
    ensures ReadCommand(Encode(c)) == Some(c)
  {
    hide U32, UnpackAt;
    var s := Encode(c);
    assert s[0..4] == U32(0x8000_0022) && s[28..32] == U32(0) && s[36..40] == U32(0);
    assert s[8..12] == U32(c.rebaseOff) && s[12..16] == U32(c.rebaseSize);
    assert s[16..20] == U32(c.bindOff) && s[20..24] == U32(c.bindSize);
    assert s[40..44] == U32(c.exportOff) && s[44..48] == U32(c.exportSize);
    Word(s, 0, 0x8000_0022);
    Word(s, 8, c.rebaseOff);
    Word(s, 12, c.rebaseSize);
    Word(s, 16, c.bindOff);
    Word(s, 20, c.bindSize);
    Word(s, 28, 0);
    Word(s, 36, 0);
    Word(s, 40, c.exportOff);
    Word(s, 44, c.exportSize);
  }

  lemma {:induction false} SymtabRead(c: LoadCommand)
    requires c.Symtab? && Fits(c)
    ensures ReadCommand(Encode(c)) == Some(c)
  {
    hide U32, UnpackAt;
    var s := Encode(c);
    assert s[0..4] == U32(2) && s[8..12] == U32(c.symOff) && s[12..16] == U32(c.symCount);
    assert s[16..20] == U32(c.strOff) && s[20..24] == U32(c.strSize);
    Word(s, 0, 2);
    Word(s, 8, c.symOff);
    Word(s, 12, c.symCount);
    Word(s, 16, c.strOff);
    Word(s, 20, c.strSize);
  }

  lemma {:induction false} SizeRead(c: LoadCommand)
    requires Fits(c)
    ensures |Encode(c)| >= 8 && UnpackAt(Encode(c), 4, 4) == c.Size()
  {
    hide U32, U64, UnpackAt, SectionsBytes, Layout.Align8;
    var s := Encode(c);
    assert s[4..8] == U32(c.Size());
    Word(s, 4, c.Size());
  }

  lemma {:induction false} CommandRead(c: LoadCommand)
    requires Fits(c)
    ensures |Encode(c)| >= 8 && ReadCommand(Encode(c)) == Some(Seen(c))
  {
    hide Encode, ReadCommand, Fits;
    SizeRead(c);
    match c
    case Segment(_, _, _) => SegmentRead(c);
    case Dylib(_, _) => DylibRead(c);
    case BuildVersion(_) => VersionRead(c);
    case DyldInfo(_, _, _, _, _, _) => InfoRead(c);
    case Symtab(_, _, _, _) => SymtabRead(c);
  }

  lemma {:induction false} NoBytes(cs: seq<LoadCommand>)
    requires |cs| == 0
    ensures EncodeAll(cs) == []
  {
  }

  lemma {:induction false} EncodeLast(cs: seq<LoadCommand>)
    requires |cs| > 0
    ensures EncodeAll(cs) == EncodeAll(cs[..|cs| - 1]) + Encode(cs[|cs| - 1])
  {
    hide Encode;
  }

  lemma {:induction false} EncodeHead(cs: seq<LoadCommand>)
    requires |cs| > 0
    ensures EncodeAll(cs) == Encode(cs[0]) + EncodeAll(cs[1..])
    decreases |cs|
  {
    hide Encode, EncodeAll;
    var n := |cs| - 1;
    EncodeLast(cs);
    if n == 0 {
      NoBytes(cs[..0]);
      NoBytes(cs[1..]);
    } else {
      EncodeHead(cs[..n]);
      EncodeLast(cs[1..]);
      assert cs[..n][1..] == cs[1..][..n - 1];
    }
  }

  lemma {:induction false} CommandsRead(cs: seq<LoadCommand>)
    requires forall i :: 0 <= i < |cs| ==> Fits(cs[i])
    ensures ReadCommands(EncodeAll(cs), |cs|) == Some(SeenAll(cs))
    decreases |cs|
  {
    hide Encode, ReadCommand, Fits, Seen, UnpackAt, EncodeAll;
    if |cs| > 0 {
      EncodeHead(cs);
      var s, head, rest := EncodeAll(cs), Encode(cs[0]), EncodeAll(cs[1..]);
      SizeRead(cs[0]);
      CommandRead(cs[0]);
      assert s[..|head|] == head && s[|head|..] == rest;
      SameWord(s, head);
      CommandsRead(cs[1..]);
      assert SeenAll(cs) == [Seen(cs[0])] + SeenAll(cs[1..]);
    } else {
      NoBytes(cs);
    }
  }

  lemma {:induction false} SameWord(s: seq<byte>, head: seq<byte>)
    requires 8 <= |head| <= |s| && s[..|head|] == head
    ensures UnpackAt(s, 4, 4) == UnpackAt(head, 4, 4)
  {
    assert s[4..8] == s[..|head|][4..8];
  }

  /** A file that begins with the header of some commands is read as having those commands, and no others. */
  lemma {:induction false} HeaderRead(file: seq<byte>, cs: seq<LoadCommand>, flags: nat)
    requires AllFit(cs) && flags < TWO32 && HeaderSize(cs) <= |file|
    requires file[..HeaderSize(cs)] == HeaderBytes(cs, flags)
    ensures ReadFile(file) == Some(MachFile(flags, SeenAll(cs)))
  {
    hide U32, UnpackAt, EncodeAll, Fits, CommandBytes, ReadCommands;
    var h, n := HeaderBytes(cs, flags), HeaderSize(cs);
    Prefix(file, h, 0);
    Prefix(file, h, 4);
    Prefix(file, h, 12);
    Prefix(file, h, 16);
    Prefix(file, h, 20);
    Prefix(file, h, 24);
    Word(h, 0, 0xFEEDFACF);
    Word(h, 4, 0x100000C);
    Word(h, 12, 6);
    Word(h, 16, |cs|);
    Word(h, 20, CommandBytes(cs));
    Word(h, 24, flags);
    assert file[32..n] == file[..n][32..] == EncodeAll(cs);
    CommandsRead(cs);
  }

  lemma {:induction false} Prefix(file: seq<byte>, h: seq<byte>, off: nat)
    requires off + 4 <= |h| <= |file| && file[..|h|] == h
    ensures UnpackAt(file, off, 4) == UnpackAt(h, off, 4)
  {
    assert file[off..off + 4] == file[..|h|][off..off + 4];
  }
}
