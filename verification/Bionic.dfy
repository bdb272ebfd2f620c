/**
 The memory an Android loader gives the program: PT_LOADs mapped at a load bias (System V gABI, chapter 5), then the
 RELA records applied in order. ABS64 adds the word already in place, the rule the translators follow.
 */
module Bionic {
  import opened Bytes
  import opened Patches
  import opened ElfReader

  predicate Holds(ph: ProgramHeader, v: int) {
    ph.vaddr <= v < ph.vaddr + ph.memsz
  }

  /** The mapped byte at virtual address v: file bytes, then zeros up to memsz; a later load covers an earlier one. */
  function MappedByte(loads: seq<ProgramHeader>, data: seq<byte>, v: int): byte {
    if |loads| == 0 then 0
    else
      var ph := loads[|loads| - 1];
      if !Holds(ph, v) then MappedByte(loads[..|loads| - 1], data, v)
      else if v - ph.vaddr < ph.filesz && ph.offset + (v - ph.vaddr) < |data| then data[ph.offset + (v - ph.vaddr)]
      else 0
  }

  function Mapped(loads: seq<ProgramHeader>, data: seq<byte>, bias: int): Memory {
    (a: int) => MappedByte(loads, data, a - bias)
  }

  // The address the dynamic linker finds for an undefined name.
  type Resolver = seq<byte> -> int

  function SymbolAddress(symbols: seq<Symbol>, index: nat, bias: int, resolve: Resolver): int {
    if index == 0 || index >= |symbols| then 0
    else if symbols[index].shndx == 0 then resolve(symbols[index].name)
    else bias + symbols[index].value
  }

  /** Type 1027 is R_AARCH64_RELATIVE and 257 is R_AARCH64_ABS64 (ELF for the Arm 64-bit Architecture, section 5.7). */
  function RelocationPatch(symbols: seq<Symbol>, rel: Rela, bias: int, resolve: Resolver): Patch {
    var s := SymbolAddress(symbols, rel.symbolIndex, bias, resolve);
    Patch(bias + rel.offset,
          if rel.rtype == 1027 then Set(bias + rel.addend)
          else if rel.rtype == 257 then Add(s + rel.addend)
          else Set(s + rel.addend))
  }

  function RelocationPatches(symbols: seq<Symbol>, rels: seq<Rela>, bias: int, resolve: Resolver): (ps: seq<Patch>)
    ensures |ps| == |rels|
    ensures forall i :: 0 <= i < |rels| ==> ps[i] == RelocationPatch(symbols, rels[i], bias, resolve)
  {
    seq(|rels|, i requires 0 <= i < |rels| => RelocationPatch(symbols, rels[i], bias, resolve))
  }

  function Load(loads: seq<ProgramHeader>, data: seq<byte>, symbols: seq<Symbol>, rels: seq<Rela>, bias: int,
                resolve: Resolver): Memory {
    ApplyAll(Mapped(loads, data, bias), RelocationPatches(symbols, rels, bias, resolve))
  }
}
