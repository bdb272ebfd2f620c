/** Phase 4's export dictionary, and the whole of Phase 4. */
module Phase4Exports {
  import opened Bytes
  import opened Wrappers
  import opened ElfReader
  import opened Layout
  import opened MachO
  import opened Phase3
  import opened DyldMachines
  import opened Phase4
  import TrieWalk
  import opened TrieLayout
  import ExportTrie
  import TrieCap
  import LoaderEquivalence
  import Utf8

  const STB_GLOBAL := 1
  const STB_WEAK := 2
  const STT_OBJECT := 1
  const STT_FUNC := 2

  // How symbol name bytes become characters.
  type Decoder = seq<byte> -> string

  predicate Exported(s: Symbol, decode: Decoder) {
    && s.shndx != SHN_UNDEF && decode(s.name) != ""
    && (s.info / 16 == STB_GLOBAL || s.info / 16 == STB_WEAK)
    && (s.info % 16 == STT_FUNC || s.info % 16 == STT_OBJECT)
  }

  function ExportName(s: Symbol, decode: Decoder): string { "_" + decode(s.name) }

  predicate Defines(s: Symbol, decode: Decoder, name: string) {
    Exported(s, decode) && ExportName(s, decode) == name
  }

  /** The last symbol exported under a name. */
  function LastDefinition(symbols: seq<Symbol>, decode: Decoder, name: string): (r: Option<nat>)
    ensures r.None? ==> forall i :: 0 <= i < |symbols| ==> !Defines(symbols[i], decode, name)
    ensures r.Some? ==> r.value < |symbols| && Defines(symbols[r.value], decode, name)
    ensures r.Some? ==> forall i :: r.value < i < |symbols| ==> !Defines(symbols[i], decode, name)
  {
    if |symbols| == 0 then None
    else if Defines(symbols[|symbols| - 1], decode, name) then Some(|symbols| - 1)
    else
      var front := symbols[..|symbols| - 1];
      assert forall i :: 0 <= i < |front| ==> front[i] == symbols[i];
      LastDefinition(front, decode, name)
  }

  /** The dictionary holds exactly the exported names, each at its last definition's offset from the image base. */
  ghost predicate IsExports(exports: map<string, nat>, symbols: seq<Symbol>, reserve: nat, decode: Decoder) {
    forall name :: match LastDefinition(symbols, decode, name)
      case None => name !in exports
      case Some(i) => name in exports && exports[name] == reserve + symbols[i].value
  }

  lemma {:induction false} ExportsSnoc(exports: map<string, nat>, symbols: seq<Symbol>, reserve: nat,
                                       decode: Decoder, s: Symbol)
    requires IsExports(exports, symbols, reserve, decode)
    ensures IsExports(if Exported(s, decode) then exports[ExportName(s, decode) := reserve + s.value] else exports,
                      symbols + [s], reserve, decode)
  {
    hide Exported, ExportName;
    assert (symbols + [s])[..|symbols|] == symbols;
  }

  method CollectExports(symbols: seq<Symbol>, reserve: nat, decode: Decoder) returns (exports: map<string, nat>)
    ensures IsExports(exports, symbols, reserve, decode)
  {
    exports := map[];
    for i := 0 to |symbols|
      invariant IsExports(exports, symbols[..i], reserve, decode)
    {
      hide IsExports;
      ExportsSnoc(exports, symbols[..i], reserve, decode, symbols[i]);
      assert symbols[..i + 1] == symbols[..i] + [symbols[i]];
      if Exported(symbols[i], decode) {
        exports := exports[ExportName(symbols[i], decode) := reserve + symbols[i].value];
      }
    }
    assert symbols[..|symbols|] == symbols;
  }

  // ----- the dictionary in the symbol table's own terms -----

  /** A named, defined function or object of global or weak binding: Elf64_Sym's st_info has binding above type. */
  predicate Visible(s: Symbol, decode: Decoder) {
    s.shndx != 0 && decode(s.name) != "" && s.info in {0x11, 0x12, 0x21, 0x22}
  }

  lemma {:induction false} VisibleIsExported(s: Symbol, decode: Decoder)
    ensures Visible(s, decode) <==> Exported(s, decode)
  {
  }

  predicate VisibleAs(symbols: seq<Symbol>, decode: Decoder, i: nat, name: string) {
    i < |symbols| && Visible(symbols[i], decode) && name == "_" + decode(symbols[i].name)
  }

  /** The keys are the visible symbols' names behind an underscore, and each stands for the last symbol so named. */
  lemma {:induction false} ExportsAre(exports: map<string, nat>, symbols: seq<Symbol>, reserve: nat, decode: Decoder,
                                      name: string)
    requires IsExports(exports, symbols, reserve, decode)
    ensures name in exports <==> exists i :: 0 <= i < |symbols| && VisibleAs(symbols, decode, i, name)
    ensures name in exports ==> exists i ::
      && 0 <= i < |symbols| && VisibleAs(symbols, decode, i, name) && exports[name] == reserve + symbols[i].value
      && forall j :: i < j < |symbols| ==> !VisibleAs(symbols, decode, j, name)
  {
    hide Exported, Visible;
    forall i: nat | i < |symbols|
      ensures VisibleAs(symbols, decode, i, name) <==> Defines(symbols[i], decode, name)
    {
      VisibleIsExported(symbols[i], decode);
    }
    var last := LastDefinition(symbols, decode, name);
    if last.Some? {
      assert VisibleAs(symbols, decode, last.value, name);
    }
  }

  // What decoding UTF-8 promises, replacing malformed bytes: no NUL comes from other bytes.
  ghost predicate KeepsNulFree(decode: Decoder) {
    forall name :: NulFree(name) ==> Utf8.NoNul(decode(name))
  }

  /** The reader stops names at their NUL, so no exported name holds one. */
  lemma {:induction false} ExportedNamesNulFree(elf: Elf64, exports: map<string, nat>, reserve: nat, decode: Decoder)
    requires IsExports(exports, Symbols(elf), reserve, decode) && KeepsNulFree(decode)
    ensures TrieWalk.NulFreeNames(exports)
  {
    hide Symbols;
    forall name | name in exports ensures Utf8.NoNul(name) {
      var i := LastDefinition(Symbols(elf), decode, name).value;
      LoaderEquivalence.SymbolNames(elf, i);
    }
  }

  // ----- the items in name order -----

  type Item = (string, nat)

  /** Character by character, a proper prefix first. */
  predicate Before(a: string, b: string) {
    |b| > 0 && (|a| == 0 || a[0] < b[0] || (a[0] == b[0] && Before(a[1..], b[1..])))
  }

  lemma {:induction false} BeforeTotal(a: string, b: string)
    ensures a == b || Before(a, b) || Before(b, a)
    ensures !(Before(a, b) && Before(b, a))
    ensures !Before(a, a)
    decreases |a|
  {
    if |a| > 0 {
      BeforeTotal(a[1..], a[1..]);
      if |b| > 0 && a[0] == b[0] {
        BeforeTotal(a[1..], b[1..]);
        assert a[1..] == b[1..] ==> [a[0]] + a[1..] == [b[0]] + b[1..];
      }
    }
  }

  lemma {:induction false} BeforeTransitive(a: string, b: string, c: string)
    requires Before(a, b) && Before(b, c)
    ensures Before(a, c)
    decreases |a|
  {
    if |a| > 0 && a[0] == b[0] == c[0] {
      BeforeTransitive(a[1..], b[1..], c[1..]);
    }
  }

  predicate InNameOrder(items: seq<Item>) {
    forall i, j :: 0 <= i < j < |items| ==> Before(items[i].0, items[j].0)
  }

  function InsertItem(items: seq<Item>, x: Item): (r: seq<Item>)
    ensures |r| == |items| + 1
    ensures forall y :: y in r <==> y == x || y in items
  {
    if |items| == 0 then [x]
    else
      var n := |items| - 1;
      assert items == items[..n] + [items[n]];
      if Before(items[n].0, x.0) then items + [x] else InsertItem(items[..n], x) + [items[n]]
  }

  lemma {:induction false} InsertExports(items: seq<Item>, x: Item)
    requires x.0 !in ExportTrie.ExportsOf(items)
    ensures ExportTrie.ExportsOf(InsertItem(items, x)) == ExportTrie.ExportsOf(items)[x.0 := x.1]
    decreases |items|
  {
    var r := InsertItem(items, x);
    if |items| > 0 && !Before(items[|items| - 1].0, x.0) {
      InsertExports(items[..|items| - 1], x);
      assert r[..|r| - 1] == InsertItem(items[..|items| - 1], x);
    } else {
      assert r[..|r| - 1] == items;
    }
  }

  lemma {:induction false} InsertOrdered(items: seq<Item>, x: Item)
    requires InNameOrder(items) && forall y :: y in items ==> y.0 != x.0
    ensures InNameOrder(InsertItem(items, x))
    decreases |items|
  {
    var r := InsertItem(items, x);
    if |items| > 0 {
      var n := |items| - 1;
      var last := items[n];
      BeforeTotal(last.0, x.0);
      if Before(last.0, x.0) {
        forall i | 0 <= i < n ensures Before(items[i].0, x.0) {
          BeforeTransitive(items[i].0, last.0, x.0);
        }
      } else {
        InsertOrdered(items[..n], x);
        forall i | 0 <= i < n + 1 ensures Before(r[i].0, last.0) {
          assert r[i] in InsertItem(items[..n], x);
        }
      }
    }
  }

  lemma {:induction false} NamesOf(items: seq<Item>, name: string)
    ensures name in ExportTrie.ExportsOf(items) <==> exists y :: y in items && y.0 == name
    decreases |items|
  {
    if |items| > 0 {
      var n := |items| - 1;
      assert items == items[..n] + [items[n]];
      NamesOf(items[..n], name);
    }
  }

  /** The dictionary's items sorted by name; names being distinct, there is only one such list. */
  method SortedItems(exports: map<string, nat>) returns (items: seq<Item>)
    ensures ExportTrie.ExportsOf(items) == exports && InNameOrder(items)
  {
    items := [];
    var rest := exports.Keys;
    while rest != {}
      invariant rest <= exports.Keys && InNameOrder(items)
      invariant ExportTrie.ExportsOf(items) == map n | n in exports && n !in rest :: exports[n]
      decreases |rest|
    {
      var n :| n in rest;
      NamesOf(items, n);
      InsertExports(items, (n, exports[n]));
      InsertOrdered(items, (n, exports[n]));
      items := InsertItem(items, (n, exports[n]));
      rest := rest - {n};
    }
  }

  /** Two lists in name order with the same dictionary are the same list. */
  lemma {:induction false} OneOrder(xs: seq<Item>, ys: seq<Item>)
    requires InNameOrder(xs) && InNameOrder(ys) && ExportTrie.ExportsOf(xs) == ExportTrie.ExportsOf(ys)
    ensures xs == ys
    decreases |xs|
  {
    assert |xs| > 0 ==> xs[|xs| - 1].0 in ExportTrie.ExportsOf(xs);
    assert |ys| > 0 ==> ys[|ys| - 1].0 in ExportTrie.ExportsOf(ys);
    if |xs| > 0 && |ys| > 0 {
      var x, y := xs[|xs| - 1], ys[|ys| - 1];
      LastIsGreatest(xs, y.0);
      LastIsGreatest(ys, x.0);
      BeforeTotal(x.0, y.0);
      FrontExports(xs);
      FrontExports(ys);
      OneOrder(xs[..|xs| - 1], ys[..|ys| - 1]);
      assert xs == xs[..|xs| - 1] + [x] && ys == ys[..|ys| - 1] + [y];
    }
  }

  lemma {:induction false} LastIsGreatest(xs: seq<Item>, name: string)
    requires InNameOrder(xs) && |xs| > 0 && name in ExportTrie.ExportsOf(xs)
    ensures name == xs[|xs| - 1].0 || Before(name, xs[|xs| - 1].0)
  {
    NamesOf(xs, name);
  }

  lemma {:induction false} FrontExports(xs: seq<Item>)
    requires InNameOrder(xs) && |xs| > 0
    ensures ExportTrie.ExportsOf(xs[..|xs| - 1]) == ExportTrie.ExportsOf(xs) - {xs[|xs| - 1].0}
  {
    var n := |xs| - 1;
    NamesOf(xs[..n], xs[n].0);
    if y :| y in xs[..n] && y.0 == xs[n].0 {
      BeforeTotal(y.0, y.0);
    }
  }

  lemma {:induction false} TranslatedInfo(elf: Elf64, cfg: Config, opts: Options)
    requires Translated(elf, cfg, opts).Ok?
    ensures var out := Translated(elf, cfg, opts).value;
      out.dylib.info.DyldInfo? && out.linkeditOff <= out.dylib.info.bindOff
  {
    hide Relocated, Segments, AllFit, HeaderBytes, SegmentCommands, ShimName, Phase3.Commands, SliceAssign;
  }

  /**
   Phase 4 from the ELF file: Phase 3, then the rebuilt file around a trie that answers with the export dictionary.
   shape is the trie before its layout, whose serialization is the only thing besides Phase 3 and the rebuilding that
   can fail.
   */
  method Translate(elf: Elf64, cfg: Config, opts: Options, decode: Decoder)
    returns (r: Result<Output4, Error4>, exports: map<string, nat>, trie: seq<byte>, ghost shape: Shape,
             ghost paths: seq<string>)
    requires KeepsNulFree(decode)
    ensures match Translated(elf, cfg, opts)
      case Err(e) => r == Err(Phase3Failed(e))
      case Ok(out) =>
        && out.dylib.info.DyldInfo? && out.linkeditOff <= out.dylib.info.bindOff
        && IsExports(exports, Symbols(elf), cfg.headerReserve, decode) && TrieWalk.Represents(shape, paths, exports)
        && (TrieCap.Small(shape) && NarrowEdges(shape) ==> ExportTrie.Serialized(shape).Ok?)
        && match ExportTrie.Serialized(shape)
           case Err(_) => r == Err(TrieFailed)
           case Ok(bytes) => trie == bytes && r == Rebuilt(out, cfg, opts, trie)
    ensures r.Ok? ==> forall q :: TrieWalk.Answers(exports, q, TrieWalk.Walk(trie, 0, q))
  {
    hide Translated, Rebuilt, IsExports, KeepsNulFree, TrieCap.Small, NarrowEdges, TrieWalk.Answers, TrieWalk.Walk,
      TrieWalk.NulFreeNames, ExportTrie.Serialized, TrieWalk.Represents;
    exports, trie, shape, paths := map[], [], [], [];
    var symbols := DynamicSymbols(elf);
    var phase3 := Phase3.Translate(elf, cfg, opts);
    if phase3.Err? {
      return Err(Phase3Failed(phase3.error)), exports, trie, shape, paths;
    }
    TranslatedInfo(elf, cfg, opts);
    exports := CollectExports(symbols, cfg.headerReserve, decode);
    ExportedNamesNulFree(elf, exports, cfg.headerReserve, decode);
    var items := SortedItems(exports);
    var bytes;
    bytes, shape, paths := ExportTrie.BuildExportTrie(items);
    if bytes.Err? {
      return Err(TrieFailed), exports, trie, shape, paths;
    }
    trie := bytes.value;
    r := Rebuilt(phase3.value, cfg, opts, bytes.value);
  }
}
