/** The classic dyld fixup programs: their emitters. */
module Fixups {
  import opened Bytes
  import opened Wrappers
  import opened Leb128
  import opened Sorting

  const REBASE_DONE: byte := 0x00
  const REBASE_SET_TYPE_IMM: byte := 0x10
  const REBASE_SET_SEGMENT_AND_OFFSET_ULEB: byte := 0x20
  const REBASE_DO_IMM_TIMES: byte := 0x50

  const BIND_DONE: byte := 0x00
  const BIND_SET_DYLIB_ORDINAL_IMM: byte := 0x10
  const BIND_SET_SYMBOL_TRAILING_FLAGS_IMM: byte := 0x40
  const BIND_SET_TYPE_IMM: byte := 0x50
  const BIND_SET_ADDEND_SLEB: byte := 0x60
  const BIND_SET_SEGMENT_AND_OFFSET_ULEB: byte := 0x70
  const BIND_DO_BIND: byte := 0x90

  const TYPE_POINTER := 1

  datatype FixupError = TooManySegments | BadOrdinal

  datatype Binding = Binding(
    vaddr: nat,
    rtype: nat,
    symbol: seq<byte>,
    shimSymbol: seq<byte>,
    symbolType: nat,
    loc: Loc,
    addend: int)

  const SELF: Loc -> Loc := (l: Loc) => l
  const BINDING_LOC: Binding -> Loc := (b: Binding) => b.loc

  predicate Encodable(l: Loc) { l.seg <= 15 }

  predicate AllEncodable(ls: seq<Loc>) {
    forall i :: 0 <= i < |ls| ==> Encodable(ls[i])
  }

  predicate BindingsEncodable(bs: seq<Binding>) {
    forall i :: 0 <= i < |bs| ==> Encodable(bs[i].loc)
  }

  function RebaseItem(l: Loc): seq<byte>
    requires Encodable(l)
  {
    [REBASE_SET_SEGMENT_AND_OFFSET_ULEB + l.seg] + Uleb(l.off) + [REBASE_DO_IMM_TIMES + 1]
  }

  function RebaseItems(ls: seq<Loc>): seq<byte>
    requires AllEncodable(ls)
  {
    if |ls| == 0 then [] else RebaseItem(ls[0]) + RebaseItems(ls[1..])
  }

  function RebaseProgram(ls: seq<Loc>): seq<byte>
    requires AllEncodable(ls)
  {
    [REBASE_SET_TYPE_IMM + TYPE_POINTER] + RebaseItems(ls) + [REBASE_DONE]
  }

  lemma {:induction false} RebaseItemsSnoc(ls: seq<Loc>, l: Loc)
    requires AllEncodable(ls) && Encodable(l)
    ensures RebaseItems(ls + [l]) == RebaseItems(ls) + RebaseItem(l)
  {
    if |ls| == 0 {
      assert ls + [l] == [l];
    } else {
      RebaseItemsSnoc(ls[1..], l);
      assert (ls + [l])[1..] == ls[1..] + [l];
    }
  }

  lemma {:induction false} SortEncodable<T>(xs: seq<T>, key: T -> Loc)
    ensures (forall i :: 0 <= i < |xs| ==> Encodable(key(xs[i])))
       <==> (forall i :: 0 <= i < |Sort(xs, key)| ==> Encodable(key(Sort(xs, key)[i])))
  {
    SortContents(xs, key);
    var s := Sort(xs, key);
    forall i | 0 <= i < |xs| ensures exists j :: 0 <= j < |xs| && xs[i] == s[j] {
      assert xs[i] in multiset(s);
    }
    forall i | 0 <= i < |xs| ensures exists j :: 0 <= j < |xs| && s[i] == xs[j] {
      assert s[i] in multiset(xs);
    }
  }

  lemma {:induction false} LocsEncodable(ls: seq<Loc>)
    ensures AllEncodable(ls) <==> AllEncodable(Sort(ls, SELF))
  {
    SortEncodable(ls, SELF);
  }

  method EmitRebases(todo: seq<Loc>) returns (r: Option<seq<byte>>)
    ensures r.Some? <==> AllEncodable(todo)
    ensures r.Some? ==> r.value == RebaseItems(todo)
  {
    var stream: seq<byte> := [];
    for i := 0 to |todo|
      invariant AllEncodable(todo[..i])
      invariant stream == RebaseItems(todo[..i])
    {
      var l := todo[i];
      if l.seg > 15 {
        return None;
      }
      RebaseItemsSnoc(todo[..i], l);
      assert todo[..i + 1] == todo[..i] + [l];
      var uleb := EncodeUleb(l.off);
      stream := stream + ([REBASE_SET_SEGMENT_AND_OFFSET_ULEB + l.seg] + uleb.value + [REBASE_DO_IMM_TIMES + 1]);
    }
    assert todo[..|todo|] == todo;
    return Some(stream);
  }

  /** The emitter: sorted locations, one SET/DO pair each, or an error above sixteen segments. */
  method RebaseStream(locations: seq<Loc>) returns (r: Result<seq<byte>, FixupError>)
    ensures r.Ok? <==> AllEncodable(locations)
    ensures r.Ok? ==> AllEncodable(Sort(locations, SELF))
    ensures r.Ok? ==> r.value == RebaseProgram(Sort(locations, SELF))
    ensures r.Err? ==> r.error == TooManySegments
  {
    LocsEncodable(locations);
    var items := EmitRebases(Sort(locations, SELF));
    if items.None? {
      return Err(TooManySegments);
    }
    return Ok([REBASE_SET_TYPE_IMM + TYPE_POINTER] + items.value + [REBASE_DONE]);
  }

  /** The addend is written only when it is nonzero. */
  function BindItem(b: Binding): seq<byte>
    requires Encodable(b.loc)
  {
    [BIND_SET_SYMBOL_TRAILING_FLAGS_IMM] + b.shimSymbol + [0]
    + (if b.addend != 0 then [BIND_SET_ADDEND_SLEB] + Sleb(b.addend) else [])
    + [BIND_SET_SEGMENT_AND_OFFSET_ULEB + b.loc.seg] + Uleb(b.loc.off) + [BIND_DO_BIND]
  }

  function BindItems(bs: seq<Binding>): seq<byte>
    requires BindingsEncodable(bs)
  {
    if |bs| == 0 then [] else BindItem(bs[0]) + BindItems(bs[1..])
  }

  function BindProgram(bs: seq<Binding>, ordinal: nat): seq<byte>
    requires ordinal <= 15
    requires BindingsEncodable(bs)
  {
    [BIND_SET_DYLIB_ORDINAL_IMM + ordinal, BIND_SET_TYPE_IMM + TYPE_POINTER] + BindItems(bs) + [BIND_DONE]
  }

  lemma {:induction false} BindItemsSnoc(bs: seq<Binding>, b: Binding)
    requires BindingsEncodable(bs) && Encodable(b.loc)
    ensures BindItems(bs + [b]) == BindItems(bs) + BindItem(b)
  {
    if |bs| == 0 {
      assert bs + [b] == [b];
    } else {
      BindItemsSnoc(bs[1..], b);
      assert (bs + [b])[1..] == bs[1..] + [b];
    }
  }

  method EmitBind(b: Binding) returns (item: seq<byte>)
    requires Encodable(b.loc)
    ensures item == BindItem(b)
  {
    item := [BIND_SET_SYMBOL_TRAILING_FLAGS_IMM];
    item := item + b.shimSymbol + [0];
    if b.addend != 0 {
      var sleb := EncodeSleb(b.addend);
      item := item + ([BIND_SET_ADDEND_SLEB] + sleb);
    }
    item := item + [BIND_SET_SEGMENT_AND_OFFSET_ULEB + b.loc.seg];
    var uleb := EncodeUleb(b.loc.off);
    item := item + uleb.value;
    item := item + [BIND_DO_BIND];
  }

  lemma {:induction false} BindingLocsEncodable(bs: seq<Binding>)
    ensures BindingsEncodable(bs) <==> BindingsEncodable(Sort(bs, BINDING_LOC))
  {
    SortEncodable(bs, BINDING_LOC);
  }

  method EmitBinds(todo: seq<Binding>) returns (r: Option<seq<byte>>)
    ensures r.Some? <==> BindingsEncodable(todo)
    ensures r.Some? ==> r.value == BindItems(todo)
  {
    var stream: seq<byte> := [];
    for i := 0 to |todo|
      invariant BindingsEncodable(todo[..i])
      invariant stream == BindItems(todo[..i])
    {
      var b := todo[i];
      if b.loc.seg > 15 {
        return None;
      }
      BindItemsSnoc(todo[..i], b);
      assert todo[..i + 1] == todo[..i] + [b];
      var item := EmitBind(b);
      stream := stream + item;
    }
    assert todo[..|todo|] == todo;
    return Some(stream);
  }

  method BindStream(bindings: seq<Binding>, shimOrdinal: int) returns (r: Result<seq<byte>, FixupError>)
    ensures r.Ok? <==> 1 <= shimOrdinal <= 15 && BindingsEncodable(bindings)
    ensures r.Ok? ==> BindingsEncodable(Sort(bindings, BINDING_LOC))
    ensures r.Ok? ==> r.value == BindProgram(Sort(bindings, BINDING_LOC), shimOrdinal)
    ensures r.Err? ==> r.error == if 1 <= shimOrdinal <= 15 then TooManySegments else BadOrdinal
  {
    if !(1 <= shimOrdinal <= 15) {
      return Err(BadOrdinal);
    }
    BindingLocsEncodable(bindings);
    var items := EmitBinds(Sort(bindings, BINDING_LOC));
    if items.None? {
      return Err(TooManySegments);
    }
    return Ok([BIND_SET_DYLIB_ORDINAL_IMM + shimOrdinal, BIND_SET_TYPE_IMM + TYPE_POINTER] + items.value + [BIND_DONE]);
  }
}
