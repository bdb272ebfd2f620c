# The relocating translator and its runtime shim, verified

The repository turns an AArch64 Android ELF library into a Mach-O dylib and gives the moved code a small C runtime to
call. This project models its three hard parts in Dafny and proves what they are for.

**The translator.** `Phase3` is the translator proper: it lays the PT_LOADs out at one slide, copies their bytes, runs
the relocation loop over a mutable image, and compiles what is left for load time into two byte programs, dyld's rebase
and bind opcodes. Two loaders are written down independently of it: `Bionic`, what an Android loader builds from the ELF
file, and `Dyld` with `MachReader` and `DyldMachines`, what dyld builds from nothing but the bytes of the output: read
the header and its commands, map segments, run both opcode machines, find each import in the dylib its ordinal names.
Every loader action is a word patch (`Patches`), and the relocation loop is shown to be a list of patches too
(`RelocationMeaning`). The end result is `Phase3Correct.Phase3Equivalence`: for every slide and every address of the
imports dyld takes the file exactly when no two placed segments overlap, and then the two memories are the same over
every PT_LOAD, zero-filled tail included, if and only if the ELF file keeps its bind addends (below). `Phase4` widens
the segments and rebuilds `__LINKEDIT` around an export trie; dyld takes its output also where a zero-filled tail runs
into the next load's page, and what it loads is the same. `Phase2` is the older translator, related to Phase 3 byte by
byte (`Phase2Relation`). `Success` says on which of the well-formed files each phase succeeds.

**The export trie.** `ExportTrie` keeps the source's form: node objects that are linked, then laid out in repeated passes
over their `offset` fields, then serialized. `TrieLayout` states the passes as a function and proves that they reach the
least self-consistent layout; `TrieCap` that the source's cap of 32 passes is never met by a trie under 2 MiB. `TrieWalk`
is a dyld-style reader of the bytes, which answers exactly like the dictionary.

**The shim's protocols.** `Semaphore`, `Futex`, `Once` and `TlsKeys` are step machines for any number of threads, with
every interleaving, spurious wakeups, and (for the futex) guest stores that take no lock. `Registry` is the linked list
of host mutexes and condition variables, a heap structure proved to be a map.

What the code assumes and does not check is named by predicates and appears as a hypothesis:

- `Images.WellFormed`: the first load is executable and at address 0 (which the code does check), loads lie within the
  file, `filesz <= memsz`, the image base is a page multiple, and after the slide each load starts on a 16 KiB page above
  the last file-backed page of every earlier one (neighbours suffice: `Layout.NeighboursSuffice`). A zero-filled tail may
  share a page with the next load. Where even file-backed pages are shared, as in the repository's fixtures
  (`Layout.FixtureOverlaps`; tests/test_phase4.py:14-17), dyld refuses Phase 4's output
  (`Phase4.SharedFilePageRefused`).
- `RelocatedImage.Ready`: also, every relocated word is wholly file-backed, relocated words do not overlap, no record
  names the null symbol, and the shim prefix holds no NUL.
- `Phase2Relation.Sane`: the part of this that comparing the two translators needs (`Phase2Relation.ReadyIsSane`).

`Example.File` is a family of files with two imports that meets every hypothesis, and on which every translator succeeds
(`Example.Translates`).

The bind emitter writes an addend only when it is nonzero, while dyld keeps the last one. `BindCondition.AddendsKept` is
the exact condition under which this does no harm, said of the ELF file alone: going up in address order, no imported
record whose addend is 0 (the file's own word included for ABS64) comes after one whose addend is not 0 mod 2^64 with
only zero addends between them. The equivalence theorems carry it as the right-hand side of an if-and-only-if, and
`Example.BothSides` has a file on each side: addends 0, 8 load right and addends 8, 0 load wrong, at every slide and
wherever the imports are. `DyldMachines.BindFaithfulIff` is the condition on the emitter by itself.

Where documentation and code differ, the model follows the code: `_special_sections` is never called, so no constructor
section is emitted, although tests/test_phase4.py:56 expects `__mod_init_func`.

## Model

| member | source | states |
|---|---|---|
| Phase3Correct.Phase3Equivalence | src/il2cppapk2ios/phase3.py:407-598 | loader equivalence: whenever translation of a well-formed file succeeds, for every slide and every address of the imports in the shim dylib, dyld, reading the output's bytes, accepts them iff no two placed segments overlap, and then its memory equals the Android loader's over every PT_LOAD iff the file keeps its bind addends |
| Phase3Correct.OutputRead | src/il2cppapk2ios/phase3.py:541-598 | read from the output's bytes, the header holds the commands written, in order; its segments are the placed ones and __LINKEDIT, its one fixup command is the one described, and its one library, the one bind ordinal 1 names, is the shim |
| MachReader.HeaderRead | src/il2cppapk2ios/phase3.py:544-598 | a file that begins with the header of commands whose fields fit is read, struct by struct, as exactly those commands |
| MachO.VersionPacks | src/il2cppapk2ios/phase3.py:215-226 | a version X.Y.Z with Y and Z below 256 is packed as X * 65536 + Y * 256 + Z |
| Phase3Correct.RightsInFile | src/il2cppapk2ios/phase3.py:85-93 | read from the output's bytes: the first segment may be read and executed, each other one read, written, executed iff its load has PF_R, PF_W, PF_X, and __LINKEDIT read |
| Phase3Correct.FixupWritableIff | src/il2cppapk2ios/phase3.py:285-335 | a fixup's segment is writable iff the load holding its word is writable and not the first |
| Phase3Correct.SectionsInside | src/il2cppapk2ios/phase3.py:155-213 | both sections of a segment lie in it, as far into memory as into the file; the second is the load's file bytes |
| Phase3Correct.NamedByFlags | src/il2cppapk2ios/phase3.py:299-304 | segments and sections are named by position and by the load's PF_W |
| BindCondition.ArriveIffKept | src/il2cppapk2ios/phase3.py:394-396 | every bind finds its own addend in dyld's register iff, in address order, no import of addend 0 follows one of nonzero addend with only zeros between: a condition on the file's records, words and symbols |
| BindCondition.LocationOrder | src/il2cppapk2ios/phase3.py:374-405 | sorting bindings by segment and offset sorts them by ELF address |
| Phase3Correct.SharedPageRefused | src/il2cppapk2ios/phase3.py:299-335 | when two non-empty ascending loads share a page after the slide, zero-filled tails included, dyld refuses Phase 3's output at every slide |
| Success.TranslatesIff | src/il2cppapk2ios/phase3.py:407-598 | a well-formed file translates iff it is an AArch64 shared object, its relocation types and symbols are known, every relocated word lies in one of the first sixteen loads, the commands fit the reserve, and the highest address, the file offsets, the bind program's length and the version fit their fields |
| Success.ModestFits | src/il2cppapk2ios/phase3.py:407-598 | a bound on addresses, name lengths and the number of records, checked on the file alone, under which everything fits its field |
| Success.RebuildsIff | src/il2cppapk2ios/phase4.py:282-408 | after that Phase 4 fails only for want of header room or when the trie ends past 4 GiB |
| Example.Translates | src/il2cppapk2ios/phase3.py:407-598 | each file of a family with two imports meets every hypothesis, and Phases 2, 3 and 4 succeed on it |
| Example.LoadsRightIff | src/il2cppapk2ios/phase3.py:394-396 | such a file with addends a, b is loaded as on Android iff a is 0 or b is not |
| Example.BothSides | src/il2cppapk2ios/phase3.py:394-396 | inputs for both sides: addends 0, 8 load right, and addends 8, 0 load wrong, at every slide and wherever the imports are |
| Phase3Correct.PartsMappable | src/il2cppapk2ios/phase3.py:514-598 | if no two placed segments overlap, the assembled file's segments fit the file, have filesize <= vmsize, and do not overlap in memory |
| LoaderEquivalence.LoadersAgreeIff | src/il2cppapk2ios/phase3.py:422-512 | any dylib that carries the relocated image and both programs loads to the Android memory iff each carried addend equals the intended one mod 2^64 |
| LoaderEquivalence.DyldLoads | src/il2cppapk2ios/phase3.py:511-512 | both emitted programs run to completion, every fixup lies in a segment, and the result is exactly the listed slides and binds |
| LoaderEquivalence.InternalWord | src/il2cppapk2ios/phase3.py:446-454 | a word resolved inside the file is slid exactly once: loaded value = file value + slide mod 2^64 |
| LoaderEquivalence.ExternalWord | src/il2cppapk2ios/phase3.py:470-493 | a bound word holds the resolver's address for the shim symbol plus the carried addend, and is never slid |
| LoaderEquivalence.PlainByte | src/il2cppapk2ios/phase3.py:422-512 | a byte outside every relocated word is loaded as mapped |
| LoaderEquivalence.AddendsArriveIff | src/il2cppapk2ios/phase3.py:394-396 | addends arrive if no zero addend follows a nonzero one in sorted order, and for addends below 2^64 in size only then |
| LoaderEquivalence.CarriersAgree | src/il2cppapk2ios/phase3.py:511-538 | two dylibs that carry the same image and programs load to the same program memory |
| RelocatedImage.RelocationLeaves | src/il2cppapk2ios/phase3.py:422-509 | on a well-formed file the loop leaves the copied image with one patch for each record, on disjoint words |
| RelocatedImage.ImageWord | src/il2cppapk2ios/phase3.py:446-509 | each relocated word of the image is its record's patch of the word first copied there |
| RelocatedImage.CopiedWord | src/il2cppapk2ios/phase3.py:424-429 | before relocation, a relocated word of the image is the word the Android loader maps |
| RelocatedImage.PaddingStaysZero | src/il2cppapk2ios/phase3.py:422-509 | image bytes outside every load's copy are zero after relocation |
| RelocatedImage.MappedImage | src/il2cppapk2ios/phase3.py:328-337 | dyld maps, at slide + v, the image's byte for v in the last load that holds v, and zero from filesz to memsz |
| RelocationMeaning.RelocateOkIff | src/il2cppapk2ios/phase3.py:442-509 | the loop succeeds iff each record by itself has a file-backed location, room for its word, a supported type and a known symbol |
| RelocationMeaning.RelocateMeaning | src/il2cppapk2ios/phase3.py:442-509 | on disjoint words the loop equals independent patches of the first image, and every bind addend reads that first image, although the loop mutates it |
| RelocationLaws.OrderIndependent | src/il2cppapk2ios/phase3.py:442-512 | permuting the records changes neither the image nor the sorted rebase and bind lists |
| RelocationLaws.Conservation | src/il2cppapk2ios/phase3.py:442-509 | every record gives one rebase or one bind, counted under its own type |
| RelocationLaws.ReaderAgrees | src/il2cppapk2ios/elf.py:160-172 | rebases = sum of patched; rebases + binds = RELA records; per type, patched + bound = the reader's own count |
| DyldMachines.RebaseProgramMeaning | src/il2cppapk2ios/phase3.py:358-371 | the rebase machine visits exactly the emitted locations, in order |
| DyldMachines.BindProgramMeaning | src/il2cppapk2ios/phase3.py:374-405 | the bind machine performs one bind for each entry, with exact names, ordinal and locations, and the addend the register holds |
| DyldMachines.BindMeaningAt | src/il2cppapk2ios/phase3.py:391-403 | bind i gets the carried addend of the first i + 1 entries |
| DyldMachines.CarriedIsLatest | src/il2cppapk2ios/phase3.py:394-396 | the carried addend is the latest nonzero one, or zero when there is none |
| DyldMachines.BindFaithfulIff | src/il2cppapk2ios/phase3.py:373-405 | the program does what the list says iff no zero addend follows a nonzero one |
| DyldMachines.SecondInheritsAddend | src/il2cppapk2ios/phase3.py:394-396 | an input that fails it: addends 8, 0 are both performed with 8 |
| Fixups.RebaseStream | src/il2cppapk2ios/phase3.py:358-371 | the emitter fails iff a segment index exceeds 15, and otherwise writes the program of the sorted locations |
| Fixups.BindStream | src/il2cppapk2ios/phase3.py:374-405 | the emitter fails iff the ordinal is not in 1..15 or a segment index exceeds 15, and otherwise writes the program of the stably sorted bindings |
| Sorting.SortOrdered | src/il2cppapk2ios/phase3.py:362 | the sort orders by segment, then offset |
| Sorting.SortContents | src/il2cppapk2ios/phase3.py:383-386 | the sort keeps every entry, with multiplicity |
| Sorting.SortStable | src/il2cppapk2ios/phase3.py:383-386 | the sort keeps entries with one key in their order |
| Sorting.SortOfPermutation | src/il2cppapk2ios/phase3.py:383-386 | lists with equal contents, whose keys determine entries, sort to the same list |
| Phase3.RunRelocations | src/il2cppapk2ios/phase3.py:442-509 | the loop that patches the image in place computes Relocate, including which error it stops with |
| Phase3.CopyLoads | src/il2cppapk2ios/phase3.py:422-429 | the copying loop builds the zero image with each load's slice assigned in turn, Python's clipping included |
| Phase3.Translate | src/il2cppapk2ios/phase3.py:407-598 | the whole translation, error cases included, is Translated |
| Images.OwnedByte | src/il2cppapk2ios/phase3.py:424-429 | each load's bytes arrive at its own place in the image |
| Images.CopiedPadding | src/il2cppapk2ios/phase3.py:422-429 | image bytes of no load are zero |
| Images.AssembledFile | src/il2cppapk2ios/phase3.py:514-598 | the file holds the image above the header reserve and both programs intact at their announced offsets, bind 8-aligned; header and commands overlap nothing else |
| Layout.LayoutSegments | src/il2cppapk2ios/phase3.py:259-326 | the moving-cursor loop computes Segments, and rejects exactly a file without loads or whose first load is not executable at address 0 |
| Layout.SegmentAt | src/il2cppapk2ios/phase3.py:269-325 | each segment is page-aligned in the file, congruent between file and memory, covers its load's bytes, and starts where the previous one's last file page ends |
| Layout.FilesOrdered | src/il2cppapk2ios/phase3.py:291-325 | segment file ranges are disjoint and increasing, for any number of loads |
| Layout.NoOverlapIff | src/il2cppapk2ios/phase3.py:293-316 | segment memory ranges are disjoint iff no two slid loads share a page |
| Layout.NeighboursSuffice | src/il2cppapk2ios/phase3.py:299-335 | file-backed pages are apart for every two loads when they are for neighbours |
| Layout.SegmentRights | src/il2cppapk2ios/phase3.py:85-93 | the first segment may be read and executed; every other segment's read, write and execute bits are its load's |
| Layout.FixtureOverlaps | tests/test_phase3.py:19-22 | the fixture's two loads overlap in memory after the slide |
| Layout.LocateCongruent | src/il2cppapk2ios/phase3.py:328-337 | a location is found iff some load backs the address; file offset and address move together |
| RelocatedImage.LocateInjective | src/il2cppapk2ios/phase3.py:328-337 | distinct file-backed addresses have distinct locations and file offsets, all above the header reserve |
| ElfReader.DynamicSymbols | src/il2cppapk2ios/elf.py:120-139 | the reading loop returns the symbols of the first SHT_DYNSYM section, stopping at a record that does not fit |
| ElfReader.SymbolTable | src/il2cppapk2ios/elf.py:120-139 | symbol i is the record i strides into the first dynamic symbol table, named from the table it links to; the list ends where the next record would not begin or not fit |
| ElfReader.SymbolRoundTrip | src/il2cppapk2ios/elf.py:130-138 | a record of any name offset, info, other, section, value and size reads back with its own info, section and value and the name at its offset |
| ElfReader.CStringMeaning | src/il2cppapk2ios/elf.py:97-104 | a name is the bytes from its offset to the first NUL, or to the end of the table |
| ElfReader.SectionTable | src/il2cppapk2ios/phase3.py:339-355 | relocation i is the record i strides into its section, with the same end |
| ElfReader.RelaRoundTrip | src/il2cppapk2ios/phase3.py:346-355 | a record of any 32-bit type and symbol and any signed 64-bit addend reads back as itself |
| ElfReader.CStringAt | src/il2cppapk2ios/elf.py:97-104 | names hold no NUL byte |
| ElfReader.IterRelocations | src/il2cppapk2ios/phase3.py:339-355 | the generator yields every RELA record in section order |
| ElfReader.RelocationCounts | src/il2cppapk2ios/elf.py:160-172 | the counter holds exactly the number of records of each type |
| Bytes.UnpackPack | src/il2cppapk2ios/phase3.py:447-452 | reading back a stored word gives it mod 256^n |
| Patches.PatchedWord | src/il2cppapk2ios/phase3.py:447-452 | disjoint word patches act independently of one another |
| Leb128.EncodeUleb | src/il2cppapk2ios/phase3.py:96-107 | the loop computes the unsigned encoding, and rejects negative values |
| Leb128.EncodeSleb | src/il2cppapk2ios/phase3.py:110-124 | the loop ends for every integer under the arithmetic shift and computes the signed encoding |
| Leb128.UlebRoundTrip | src/il2cppapk2ios/phase4.py:51-62 | an independent reader returns the value and the bytes after it |
| Leb128.SlebRoundTrip | src/il2cppapk2ios/phase3.py:110-124 | the same for signed values, negative ones included |
| Leb128.UlebShortest | src/il2cppapk2ios/phase3.py:96-107 | no byte string that reads as the value is shorter |
| Leb128.SlebShortest | src/il2cppapk2ios/phase3.py:110-124 | the same for signed values |
| Leb128.UlebMonotone | src/il2cppapk2ios/phase4.py:51-62 | a larger value is never encoded shorter |
| Phase4.WidenedAt | src/il2cppapk2ios/phase4.py:321-337 | widening succeeds iff the segments are in order, and gives each the room up to the next one |
| Phase4.Phase4Equivalence | src/il2cppapk2ios/phase4.py:282-408 | on every well-formed file, also where a zero-filled tail shares the next load's page, dyld, reading the rebuilt file's bytes, accepts them, and its memory is the Android loader's iff the file keeps its bind addends |
| Phase4.RebuiltRead | src/il2cppapk2ios/phase4.py:310-408 | read from the rebuilt file's bytes, the header holds the widened segments and __LINKEDIT, the one fixup command with the trie's place, the shim as the one library, and the one symbol table |
| Phase4.RightsInRebuilt | src/il2cppapk2ios/phase4.py:321-337 | widening leaves every segment the rights of its load |
| Phase4.WidenedFitsIff | src/il2cppapk2ios/phase4.py:321-337 | a widened segment fits its memory iff the next load starts on a page above its last file-backed page |
| Phase4.SharedFilePageRefused | src/il2cppapk2ios/phase4.py:321-337 | when any two loads share a file-backed page, dyld, reading the rebuilt file's bytes, refuses them at every slide |
| Phase4.Phase4Refines | src/il2cppapk2ios/phase4.py:282-408 | the rebuilt file loads, and where Phase 3's does too, to the same program memory |
| Phase4.Phase4Geometry | src/il2cppapk2ios/phase4.py:282-351 | the commands read from the rebuilt file: segments contiguous in file and memory with filesize <= vmsize; __LINKEDIT ends at EOF; rebase, bind, export and string ranges follow one another inside it, bind and export 8-aligned, the export range holding the trie |
| Phase4Exports.CollectExports | src/il2cppapk2ios/phase4.py:202-217 | the dictionary holds exactly the defined, named, global or weak functions and objects, the last definition winning |
| Phase4Exports.ExportsAre | src/il2cppapk2ios/phase4.py:202-217 | the keys are "_" followed by the names of symbols with st_info 0x11, 0x12, 0x21 or 0x22, a nonempty name and a nonzero section, each at the last such symbol's value past the reserve |
| Phase4Exports.LastDefinition | src/il2cppapk2ios/phase4.py:202-217 | the symbol a name stands for is its last exported one |
| Phase4Exports.SortedItems | src/il2cppapk2ios/phase4.py:73 | the dictionary's items in name order |
| Phase4Exports.OneOrder | src/il2cppapk2ios/phase4.py:73 | a dictionary has only one list of items in name order |
| Phase4Exports.Translate | src/il2cppapk2ios/phase4.py:253-408 | the whole of Phase 4: it fails only as Phase 3, the serializer or the rebuilding fails, the serializer not for a trie under 2 MiB with at most 255 children a node, and on success the trie it embeds answers every lookup with the export dictionary |
| ExportTrie.SetDefault | src/il2cppapk2ios/phase4.py:76 | the child under a character is found or added, and the linked nodes still spell a prefix-closed set of paths |
| ExportTrie.Insert | src/il2cppapk2ios/phase4.py:73-78 | one name adds exactly its missing prefixes and sets one payload, leaving the others |
| ExportTrie.BuildNodes | src/il2cppapk2ios/phase4.py:71-78 | the linked nodes are exactly the prefixes of the names, payloads exactly at the names |
| ExportTrie.Visit | src/il2cppapk2ios/phase4.py:80-87 | the traversal lists each node below once, parents before children |
| ExportTrie.EncodeHeapNode | src/il2cppapk2ios/phase4.py:89-99 | a node's bytes: payload, count, and sorted edges with the offsets the children hold now; it fails iff there are more than 255 children |
| ExportTrie.LayoutPass | src/il2cppapk2ios/phase4.py:104-111 | the in-place pass computes the next layout from the previous one alone, and reports a change iff there is one |
| ExportTrie.LayOut | src/il2cppapk2ios/phase4.py:101-114 | the loop ends with the converged layout, or with the error it raises after 32 passes or for a wide node |
| ExportTrie.BuildExportTrie | src/il2cppapk2ios/phase4.py:65-119 | on success a dyld-style lookup of every byte string over the bytes gives the dictionary's answer; under 2 MiB it fails iff a node has over 255 children |
| TrieCap.ExportsConverge | src/il2cppapk2ios/phase4.py:101-114 | 24 passes converge for every dictionary's trie that stays under 2 MiB with three bytes for every child offset, so the cap of 32 is never met there |
| TrieCap.CapSuffices | src/il2cppapk2ios/phase4.py:101-114 | the same of any tree of nodes at least as big as the serializer's |
| TrieLayout.LeastLayout | src/il2cppapk2ios/phase4.py:101-114 | the layout reached stores every node's true position and is pointwise the least that does |
| TrieLayout.ConvergesBelow | src/il2cppapk2ios/phase4.py:104-111 | offsets never decrease from pass to pass |
| TrieLayout.PassBound | src/il2cppapk2ios/phase4.py:101-114 | 2 + (total final ULEB width - number of edges) passes suffice |
| TrieLayout.AlwaysConverges | src/il2cppapk2ios/phase4.py:101-114 | without the cap the loop ends for every trie |
| TrieWalk.LookupIsMap | src/il2cppapk2ios/phase4.py:65-119 | the walk returns the mapped address for each exported name and not-found for every other string, prefixes and extensions included; it ends and stays in bounds |
| Utf8.PrefixFree | src/il2cppapk2ios/phase4.py:97 | no character's encoding is a prefix of another's, so at most one edge label matches |
| Phase2.MapLoads | src/il2cppapk2ios/translate.py:144-187 | the moving-cursor loop computes Mapped, or fails when there is no load |
| Phase2.MappedAt | src/il2cppapk2ios/translate.py:152-184 | each load is placed congruently from the page its slid address falls in, the first after the header page and each other after the previous load's last page |
| Phase2.RunRelocations | src/il2cppapk2ios/translate.py:250-299 | the loop that patches the image in place computes Relocate, including which error it stops with |
| Phase2.Translate | src/il2cppapk2ios/translate.py:219-344 | the whole of Phase 2, error cases included, is Translated |
| Phase2Relation.Phase2Read | src/il2cppapk2ios/translate.py:301-344 | read from Phase 2's bytes, the header holds a header segment and one segment for each load, with the load's rights |
| Phase2Relation.BooksAgree | src/il2cppapk2ios/translate.py:240-299 | on any file both accept, patched counters are equal and the unresolved (offset, type, symbol) sequence is Phase 3's bindings sequence |
| Phase2Relation.UnresolvedAre | src/il2cppapk2ios/translate.py:271-281 | what Phase 2 leaves unresolved is every import of the file, in record order, with its record's own addend |
| Phase2Relation.Phase2SucceedsIff | src/il2cppapk2ios/translate.py:219-344 | where Phase 3 succeeds, Phase 2 does iff its slide is not below its header, the commands fit one page, and addresses and sizes fit 64 bits |
| Phase2Relation.FilesAgree | src/il2cppapk2ios/translate.py:228-238 | outside relocated words both files hold, at corresponding places, the ELF file's byte |
| Phase2Relation.WordsDifferBySlide | src/il2cppapk2ios/translate.py:250-299 | words resolved inside the file differ by the difference of the slides mod 2^64; imported words still hold the ELF file's word in both |
| Semaphore.StepKeeps | src/il2cppapk2ios/templates/posix_compat.c:282-324 | every step of every thread keeps mutual exclusion, the counter's balance, and enough wakeups pending |
| Semaphore.CounterIsBalance | src/il2cppapk2ios/templates/posix_compat.c:282-324 | in every interleaving, with the mutex free: value = initial + completed posts - completed waits (mod 2^32, overflows counted), the guest's word shows it, and waits never outnumber initial + posts |
| Semaphore.CallsAccounted | src/il2cppapk2ios/templates/posix_compat.c:282-324 | every sem_wait and every sem_post begun is completed, as what it is, or under way |
| Semaphore.ReadReturnsBalance | src/il2cppapk2ios/templates/posix_compat.c:313-324 | sem_getvalue is about to return the counter as it stands, the same balance |
| Semaphore.NeverBelowZero | src/il2cppapk2ios/templates/posix_compat.c:289-293 | no wait subtracts from zero |
| Semaphore.NoLostWakeup | src/il2cppapk2ios/templates/posix_compat.c:289-308 | while a thread sleeps, at least value threads are woken and not yet resumed |
| Semaphore.Progress | src/il2cppapk2ios/templates/posix_compat.c:282-324 | unless all calls in progress sleep on zero, some call can take its own next step |
| Futex.RunExclusive | src/il2cppapk2ios/templates/runtime_compat.c:59-117 | a thread is in a critical section exactly when it owns the node's mutex |
| Futex.ReturnMeansDifferent | src/il2cppapk2ios/templates/runtime_compat.c:59-98 | a wait that returns 0 or EAGAIN has loaded a different word under the mutex and has held it since |
| Futex.ReturnCodes | src/il2cppapk2ios/templates/runtime_compat.c:66-98 | over every run: a wait returns EAGAIN iff its first load differed from its own argument, 0 iff that load was equal and a later one differed, and ETIMEDOUT iff a timeout ended its last sleep |
| Futex.SleeperCheckedSince | src/il2cppapk2ios/templates/runtime_compat.c:66-89 | a sleeper last found the word equal, under the mutex, after the latest broadcast |
| Futex.WakeWakes | src/il2cppapk2ios/templates/runtime_compat.c:108-114 | a wake of more than one wakes every sleeper, any other wakes exactly one where anyone sleeps, and nothing else changes |
| Futex.NeverMissedIff | src/il2cppapk2ios/templates/runtime_compat.c:66-117 | waking at least n after every store rules out, in every run, a stale sleeper with no writer yet to broadcast iff n >= 2 |
| Futex.NoMissedWake | src/il2cppapk2ios/templates/runtime_compat.c:66-117 | if every store is followed by a wake of at least two, a sleeper whose value the word no longer has implies a writer yet to broadcast |
| Futex.QuietSleepersAgree | src/il2cppapk2ios/templates/runtime_compat.c:66-117 | then, with no call running, every sleeper sleeps on the word's own value |
| Futex.WakeOfOneLeavesOne | src/il2cppapk2ios/templates/runtime_compat.c:109-113 | an input that fails it: a wake of one leaves a second sleeper behind |
| Once.RunningIffOneWinner | src/il2cppapk2ios/templates/pthread_compat.c:580-611 | the word is 1 exactly while one thread is between its exchange and its store of 2 |
| Once.RunsOnceBeforeReturn | src/il2cppapk2ios/templates/pthread_compat.c:580-611 | init_routine starts at most once and has finished before any call returns |
| Once.ExchangeAfterZero | src/il2cppapk2ios/templates/pthread_compat.c:590-605 | a thread tries the exchange only after its own load found 0 |
| Once.SomeoneMovesOn | src/il2cppapk2ios/templates/pthread_compat.c:580-611 | while a call is in progress some thread has a step that is not spinning |
| Once.MovesBounded | src/il2cppapk2ios/templates/pthread_compat.c:580-611 | there are at most five steps that do not spin for each call |
| Registry.ObjectList.Find | src/il2cppapk2ios/templates/pthread_compat.c:76-83 | the search finds the key's node iff the map has the key |
| Registry.ObjectList.Insert | src/il2cppapk2ios/templates/pthread_compat.c:107-112 | head insertion adds one entry and disturbs no other |
| Registry.ObjectList.Remove | src/il2cppapk2ios/templates/pthread_compat.c:168-184 | removal through the pointer cursor deletes exactly the key's entry and returns its node |
| Registry.ObjectList.GetMutexNode | src/il2cppapk2ios/templates/pthread_compat.c:114-129 | lazy get returns the registered mutex, or creates one of the type decoded from the guest's word |
| Registry.ObjectList.GetCondNode | src/il2cppapk2ios/templates/pthread_compat.c:154-166 | the same for condition variables, created with clock 0 |
| Registry.ObjectList.InitMutex | src/il2cppapk2ios/templates/pthread_compat.c:213-235 | init replaces the mutex by one of the attribute's type and writes the type bits; out of memory leaves none registered |
| Registry.ObjectList.InitCond | src/il2cppapk2ios/templates/pthread_compat.c:289-310 | init replaces the condition variable by one with the attribute's clock |
| Registry.ObjectList.DestroyObject | src/il2cppapk2ios/templates/pthread_compat.c:237-250 | destroy removes the entry, clears the guest's word, and returns the host's code, or 0 when nothing was registered |
| Registry.NodeIsEntry | src/il2cppapk2ios/templates/pthread_compat.c:76-83 | with one node for each key, every node is its key's entry in the map |
| Registry.OneNodePerKey | src/il2cppapk2ios/templates/pthread_compat.c:76-184 | in the linked list every method keeps valid, a key has a node iff the map has it, and never two |
| RegistryLaws.ObjectLasts | src/il2cppapk2ios/templates/pthread_compat.c:76-325 | no operation but init or destroy of the same key changes its object, whatever the guest stores |
| RegistryLaws.InitDecidesType | src/il2cppapk2ios/templates/pthread_compat.c:213-235 | from a successful mutex_init on, every use finds one host mutex of the type asked for |
| RegistryLaws.InitByNibble | src/il2cppapk2ios/templates/pthread_compat.c:227-231 | for any attribute value: the mutex behaves by its low four bits, and the word stored holds the lowest two at bit 14 |
| RegistryLaws.GuestsTypeDecides | src/il2cppapk2ios/templates/pthread_compat.c:65-74 | after any run of attribute calls, mutex_init and any run without another init or destroy: the owner's second lock succeeds iff the last accepted settype was 1, reports a deadlock iff it was 2, and blocks otherwise |
| RegistryLaws.SetTypeSets | src/il2cppapk2ios/templates/pthread_compat.c:202-211 | settype accepts exactly the types 0, 1 and 2, and changes an attribute's low four bits only |
| RegistryLaws.StaticWordDecides | src/il2cppapk2ios/templates/pthread_compat.c:60-74 | a mutex the guest initialised by storing its first word behaves the same way by bits 14 and 15 of that word |
| RegistryLaws.StaticInitialisers | src/il2cppapk2ios/templates/pthread_compat.c:60-74 | a lazy create from the words 0, 0x4000 and 0x8000 gives a plain, a recursive and an error-checking mutex |
| RegistryLaws.DestroyForgets | src/il2cppapk2ios/templates/pthread_compat.c:237-250 | after a destroy and any run that does not use or init the key again, the next use gets a new host object, of the type decoded from the last word written there since, the default if none was |
| RegistryLaws.LazyTypeAgreesIff | src/il2cppapk2ios/templates/pthread_compat.c:60-74 | the type decoded from the stored word equals the type asked for iff the type nibble is below 4 or its low two bits are 0 or 3 |
| RegistryLaws.LazyAfterFailedInit | src/il2cppapk2ios/templates/pthread_compat.c:213-235 | after an init that ran out of memory and any such run, the next use creates the type decoded from the last word written; with no write since, it is the type asked for under the same condition |
| RegistryLaws.BuiltAttributesAgree | src/il2cppapk2ios/templates/pthread_compat.c:186-211 | every attribute built through the interface meets that condition |
| RegistryLaws.InitDecidesClock | src/il2cppapk2ios/templates/pthread_compat.c:289-310 | from a successful cond_init on, every use finds one condition variable with the attribute's clock, or clock 0 without one |
| RegistryLaws.CondDestroyForgets | src/il2cppapk2ios/templates/pthread_compat.c:312-325 | after a cond_destroy and any run that does not use or init it, the next use gets a new condition variable with clock 0 |
| RegistryLaws.DestroyAnswers | src/il2cppapk2ios/templates/pthread_compat.c:237-250 | destroy returns the host's code as long as the object is there, clears the word, returns success once it is gone, and refuses the null pointer |
| TlsKeys.KeyTable.Create | src/il2cppapk2ios/templates/pthread_compat.c:500-524 | the scan takes the first free slot and no other |
| TlsKeys.KeyTable.LookUp | src/il2cppapk2ios/templates/pthread_compat.c:526-542 | the lookup yields the live slot's host key, and nothing for a free or out-of-range key |
| TlsKeys.KeyTable.Release | src/il2cppapk2ios/templates/pthread_compat.c:544-558 | deletion frees exactly the live slot it names and yields its host key |
| TlsKeys.FullIffAllLive | src/il2cppapk2ios/templates/pthread_compat.c:508-524 | EAGAIN comes from the table iff all slots are live; otherwise a free slot is taken or, if the host refuses, nothing changes |
| TlsKeys.HostKeysDistinct | src/il2cppapk2ios/templates/pthread_compat.c:500-558 | in every interleaving live slots hold distinct live host keys, also apart from keys still being deleted |
| TlsKeys.LookupGoesForwardIff | src/il2cppapk2ios/templates/pthread_compat.c:526-578 | get, set and delete reach the host iff the key is one of the 256 numbers and its slot is live |
| TlsKeys.CreatedKeyWorks | src/il2cppapk2ios/templates/pthread_compat.c:500-578 | a key just created, number 0 included, is used through the host key granted for it, and reads null |
| TlsKeys.ReadsLastSet | src/il2cppapk2ios/templates/pthread_compat.c:560-578 | with no key deleted while in use, the value under a live key is the one the thread last set in the key's lifetime, although slots and host keys are reused |
| TlsKeys.GetReturnsLastSet | src/il2cppapk2ios/templates/pthread_compat.c:560-566 | so a get in progress returns that value |
| TlsKeys.DeleteDuringSet | src/il2cppapk2ios/templates/pthread_compat.c:544-578 | without that duty a set can land in another key: a run that shows it |

## Left out

- File reading and writing, the temporary file of Phase 4, the report dictionaries, `cli.py`, `apk.py` and `macho.py`.
- Parsing of the ELF header and of the header tables (`src/il2cppapk2ios/elf.py:68-112`): an ELF file is its data, its program headers and its section headers.
- The page size is the default 16 KiB throughout; it is a constructor parameter in the source. The Android loader's memory is compared on the bytes of the PT_LOADs, not on the rest of their pages.
- The reader of headers knows the commands the translators write: weak and lazy binds, and any other command, it calls malformed. The words of a command that dyld does not use (dylib versions, SDK version, reserved words) are written as the source writes them, but no statement is about them.
- Install names are byte strings, and segment names are ASCII.
- Symbol names are byte strings in Phases 2 and 3: replacement of malformed UTF-8 by `decode("utf-8", "replace")` is not modelled there, and in Phase 4 it is an arbitrary decoding function. The shim symbol is the byte concatenation of prefix and name.
- The relocation counter is keyed by type number, not by type name.
- ELF features the code ignores: IFUNC and weak undefined symbols, TLS, symbol preemption and versions, code signing.
- `_special_sections` and `_segment_with_sections` (`src/il2cppapk2ios/phase4.py:157-251`), which `translate` never calls.
- dyld's machines handle pointer-typed fixups of the classic opcodes; threaded binds are malformed to them, and bind flags are ignored.
- ExportTrie.LayOut: stops with an error after 32 passes as the source does; that 32 suffice is proved below 2 MiB (`TrieCap.ExportsConverge`), and above that only the pass bound in the final layout's terms.
- ExportTrie.Visit: the source's `visit` recurses once for each character of a name, so a very long name meets Python's recursion limit; that error is not modelled.
- Phase4Exports.SortedItems: sorts the dictionary by insertion from an arbitrary enumeration; the source calls the library sort.
- Lists and sort loops of the library (`sorted`) are modelled as functions with the ordering, stability and contents they promise.
- Semaphore creation: the list of semaphores with `sem_init`'s EBUSY and null checks; the machine starts when `sem_init` has returned, for one semaphore. `sem_getvalue` is present as a locked read.
- Futex nodes are found or created under one lock and never removed, so the machine has the one node of one word; running out of memory and the null address are left out, a wait's failure other than a timeout too. Time is only that a timed wait may end.
- Futex.NoMissedWake: the return value of wake, which is the count asked for and not the number woken, plays no part.
- Fairness: progress theorems say that a step is possible and bounded, not that a scheduler takes it.
- Atomics are sequentially consistent steps; the acquire and release orders of `pthread_once` are not weakened.
- Registry: sequential, because concurrent init or destroy of an object in use is undefined in POSIX and unguarded here. Guest objects are told apart by address and only their first word is kept, so objects that overlap without having the same address are not modelled. The state of a host mutex or condition variable (locked, waiting) is left out.
- TLS destructors, and values of a key used while it is being deleted beyond the example run.
- Timespec arithmetic, signals, sockets, stdio, stat, mmap, directory and thread-attribute adapters, `shimgen.py`, `ios_host`, the scripts and the assembly file: tables and field copies that would only add easy members.
