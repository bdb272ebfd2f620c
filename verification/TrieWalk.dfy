/**
 A symbol lookup over export-trie bytes in the manner of dyld (the format comments of <mach-o/loader.h>), and its
 agreement with the map the trie was built from.
 */
module TrieWalk {
  import opened Bytes
  import opened Leb128
  import opened TrieLayout
  import opened DyldMachines
  import Utf8

  // ----- the reader -----

  datatype WalkResult = Found(flags: nat, address: nat) | NotFound | Malformed

  datatype Scan = Take(offset: nat, rest: seq<byte>) | NoEdge | Bad

  /** The first of n edges whose label begins q, with what q has left after it. */
  function ScanEdges(s: seq<byte>, n: nat, q: seq<byte>): Scan
    decreases n
  {
    if n == 0 then NoEdge
    else
      match ReadCString(s)
      case None => Bad
      case Some((text, s1)) =>
        match ReadUleb(s1)
        case None => Bad
        case Some((offset, s2)) =>
          if text <= q then Take(offset, q[|text|..]) else ScanEdges(s2, n - 1, q)
  }

  function ReadTerminal(s: seq<byte>): WalkResult {
    match ReadUleb(s)
    case None => Malformed
    case Some((flags, s1)) =>
      match ReadUleb(s1)
      case None => Malformed
      case Some((address, _)) => Found(flags, address)
  }

  /** Look q up from the node at byte offset at. An edge that consumes nothing makes the trie malformed. */
  function Walk(t: seq<byte>, at: nat, q: seq<byte>): WalkResult
    decreases |q|
  {
    if at >= |t| then Malformed
    else
      match ReadUleb(t[at..])
      case None => Malformed
      case Some((size, s)) =>
        if |q| == 0 && size != 0 then
          if size > |s| then Malformed else ReadTerminal(s[..size])
        else if size >= |s| then Malformed
        else
          match ScanEdges(s[size + 1..], s[size], q)
          case Bad => Malformed
          case NoEdge => NotFound
          case Take(offset, rest) =>
            if offset == 0 then NotFound
            else if |rest| >= |q| then Malformed
            else Walk(t, offset, rest)
  }

  // ----- what a trie stands for -----

  type Exports = map<string, nat>

  function Payload(address: nat): seq<byte> { Uleb(0) + Uleb(address) }

  predicate DistinctEdges(n: Node) {
    forall d, e :: 0 <= d < e < |n.edges| ==> n.edges[d].ch != n.edges[e].ch
  }

  predicate HasEdge(n: Node, c: char) {
    exists e :: 0 <= e < |n.edges| && n.edges[e].ch == c
  }

  predicate EdgesSpell(shape: Shape, paths: seq<string>, i: nat)
    requires ChildrenAfter(shape) && |paths| == |shape| && i < |shape|
  {
    forall e :: 0 <= e < |shape[i].edges| ==> paths[shape[i].edges[e].child] == paths[i] + [shape[i].edges[e].ch]
  }

  /** Node i spells paths[i]; its payload and its edges are those the exports call for. */
  ghost predicate NodeRight(shape: Shape, paths: seq<string>, exports: Exports, i: nat)
    requires ChildrenAfter(shape) && |paths| == |shape| && i < |shape|
  {
    && shape[i].terminal == (if paths[i] in exports then Payload(exports[paths[i]]) else [])
    && DistinctEdges(shape[i])
    && EdgesSpell(shape, paths, i)
    && forall name :: name in exports && paths[i] < name ==> HasEdge(shape[i], name[|paths[i]|])
  }

  ghost predicate Represents(shape: Shape, paths: seq<string>, exports: Exports) {
    && ChildrenAfter(shape) && |paths| == |shape| > 0 && paths[0] == ""
    && (forall i :: 0 <= i < |shape| ==> NodeRight(shape, paths, exports, i))
    && (forall i :: 0 < i < |shape| ==> Needed(exports, paths[i]))
  }

  ghost predicate Needed(exports: Exports, path: string) {
    exists name :: name in exports && path <= name
  }

  predicate NulFreeNames(exports: Exports) {
    forall name :: name in exports ==> Utf8.NoNul(name)
  }

  predicate EdgesNoNul(shape: Shape) {
    forall i, e :: 0 <= i < |shape| && 0 <= e < |shape[i].edges| ==> shape[i].edges[e].ch != '\0'
  }

  // ----- the reader meets the encoder -----

  lemma {:induction false} EmitSplit(shape: Shape, off: Offsets, i: nat, n: nat) returns (rest: seq<byte>)
    requires ChildrenAfter(shape) && |off| == |shape| && i < n <= |shape|
    ensures Emit(shape, off, n) == Emit(shape, off, i) + EncodeNode(shape[i], off) + rest
    decreases n
  {
    hide EncodeNode;
    if i == n - 1 {
      rest := [];
    } else {
      var r := EmitSplit(shape, off, i, n - 1);
      rest := r + EncodeNode(shape[n - 1], off);
      assert Emit(shape, off, n) == Emit(shape, off, n - 1) + EncodeNode(shape[n - 1], off);
    }
  }

  /** In a self-consistent layout, the bytes at a node's offset begin with that node. */
  lemma {:induction false} NodeAt(shape: Shape, off: Offsets, i: nat) returns (rest: seq<byte>)
    requires ChildrenAfter(shape) && Fixed(shape, off) && i < |shape|
    ensures off[i] < |Emit(shape, off, |shape|)|
    ensures Emit(shape, off, |shape|)[off[i]..] == EncodeNode(shape[i], off) + rest
  {
    hide Emit, EncodeNode;
    rest := EmitSplit(shape, off, i, |shape|);
    assert off[i] == Next(shape, off)[i];
    AfterPrefix(Emit(shape, off, i), EncodeNode(shape[i], off), rest);
  }

  lemma {:induction false} AfterPrefix(a: seq<byte>, b: seq<byte>, c: seq<byte>)
    ensures (a + b + c)[|a|..] == b + c
  {
  }

  lemma {:induction false} ScanOne(e: Edge, off: Offsets, n: nat, q: seq<byte>, tail: seq<byte>)
    requires e.child < |off| && e.ch != '\0' && n > 0
    ensures ScanEdges(EdgeBytes(e, off) + tail, n, q)
         == if Utf8.Encode(e.ch) <= q then Take(off[e.child], q[|Utf8.Encode(e.ch)|..]) else ScanEdges(tail, n - 1, q)
  {
    hide Utf8.Encode, Uleb, ReadUleb, ReadCString;
    var text := Utf8.Encode(e.ch);
    Utf8.EncodeNoNul(e.ch);
    var s1 := Uleb(off[e.child]) + tail;
    assert EdgeBytes(e, off) + tail == text + [0] + s1;
    CStringRoundTrip(text, s1);
    UlebRoundTrip(off[e.child], tail);
  }

  /** The edge among edges whose label begins q, if any. */
  function Chosen(edges: seq<Edge>, q: seq<byte>): (k: nat)
    ensures k <= |edges|
    ensures k < |edges| ==> Utf8.Encode(edges[k].ch) <= q
    ensures forall j :: 0 <= j < k ==> !(Utf8.Encode(edges[j].ch) <= q)
  {
    if |edges| == 0 || Utf8.Encode(edges[0].ch) <= q then 0 else 1 + Chosen(edges[1..], q)
  }

  lemma {:induction false} ScanFinds(edges: seq<Edge>, off: Offsets, q: seq<byte>, tail: seq<byte>)
    requires ChildrenIn(edges, |off|) && forall e :: 0 <= e < |edges| ==> edges[e].ch != '\0'
    ensures var k := Chosen(edges, q);
      ScanEdges(EdgesBytes(edges, off) + tail, |edges|, q)
      == if k == |edges| then NoEdge else Take(off[edges[k].child], q[|Utf8.Encode(edges[k].ch)|..])
    decreases |edges|
  {
    hide Utf8.Encode, EdgeBytes;
    if |edges| > 0 {
      var rest := EdgesBytes(edges[1..], off) + tail;
      assert EdgesBytes(edges, off) + tail == EdgeBytes(edges[0], off) + rest;
      ScanOne(edges[0], off, |edges|, q, rest);
      ScanFinds(edges[1..], off, q, tail);
    }
  }

  /** Reading a node's bytes: its payload at the end of the query, otherwise the edge that goes on. */
  lemma {:induction false} WalkNode(t: seq<byte>, at: nat, n: Node, off: Offsets, q: seq<byte>, rest: seq<byte>)
    requires ChildrenIn(n.edges, |off|) && |n.edges| <= 255 && forall e :: 0 <= e < |n.edges| ==> n.edges[e].ch != '\0'
    requires at < |t| && t[at..] == EncodeNode(n, off) + rest
    ensures var k := Chosen(n.edges, q);
      Walk(t, at, q) ==
      if |q| == 0 && n.terminal != [] then ReadTerminal(n.terminal)
      else if k == |n.edges| then NotFound
      else if off[n.edges[k].child] == 0 then NotFound
      else Walk(t, off[n.edges[k].child], q[|Utf8.Encode(n.edges[k].ch)|..])
  {
    hide Utf8.Encode, Uleb, ReadUleb, ReadTerminal, EdgesBytes, Chosen, ScanEdges;
    var s := n.terminal + ([|n.edges|] + EdgesBytes(n.edges, off) + rest);
    assert t[at..] == Uleb(|n.terminal|) + s;
    UlebRoundTrip(|n.terminal|, s);
    assert s[..|n.terminal|] == n.terminal;
    assert s[|n.terminal| + 1..] == EdgesBytes(n.edges, off) + rest;
    ScanFinds(n.edges, off, q, rest);
  }

  // ----- lookup is the map -----

  /** Some exported name is node i's path followed by a string spelled q. */
  ghost predicate Exporting(exports: Exports, path: string, q: seq<byte>, s: string) {
    path + s in exports && Utf8.EncodeAll(s) == q
  }

  lemma {:induction false} SpellingStarts(s: string, q: seq<byte>)
    requires Utf8.EncodeAll(s) == q
    ensures |q| == 0 <==> |s| == 0
    ensures |s| > 0 ==> Utf8.Encode(s[0]) <= q && Utf8.EncodeAll(s[1..]) == q[|Utf8.Encode(s[0])|..]
  {
  }

  lemma {:induction false} EdgeExists(shape: Shape, paths: seq<string>, exports: Exports, i: nat, s: string)
    requires Represents(shape, paths, exports) && i < |shape| && paths[i] + s in exports && |s| > 0
    ensures HasEdge(shape[i], s[0])
  {
    assert NodeRight(shape, paths, exports, i);
    var name := paths[i] + s;
    assert paths[i] < name && name[|paths[i]|] == s[0];
  }

  /** No two encodings start alike, so the scan stops at the edge for c if there is one. */
  lemma {:induction false} ChoosesEdge(n: Node, c: char, q: seq<byte>)
    requires HasEdge(n, c) && Utf8.Encode(c) <= q
    ensures var k := Chosen(n.edges, q); k < |n.edges| && n.edges[k].ch == c
  {
    hide Utf8.Encode, Chosen;
    var e :| 0 <= e < |n.edges| && n.edges[e].ch == c;
    var k := Chosen(n.edges, q);
    assert k <= e;
    Utf8.PrefixFree(c, n.edges[k].ch, q);
  }

  /** Going down the chosen edge keeps exactly the exports that are spelled this way. */
  lemma {:induction false} DescendKeeps(shape: Shape, paths: seq<string>, exports: Exports, i: nat, q: seq<byte>,
                                        s: string)
    requires Represents(shape, paths, exports) && i < |shape| && |q| > 0
    requires Exporting(exports, paths[i], q, s)
    ensures var k := Chosen(shape[i].edges, q);
      && k < |shape[i].edges| && s != "" && s[0] == shape[i].edges[k].ch
      && Exporting(exports, paths[shape[i].edges[k].child], q[|Utf8.Encode(shape[i].edges[k].ch)|..], s[1..])
  {
    hide Utf8.Encode, Utf8.EncodeAll, NodeRight, HasEdge, Chosen;
    SpellingStarts(s, q);
    EdgeExists(shape, paths, exports, i, s);
    ChoosesEdge(shape[i], s[0], q);
    var k := Chosen(shape[i].edges, q);
    ChildSpells(shape, paths, exports, i, k);
    assert paths[shape[i].edges[k].child] + s[1..] == paths[i] + s;
  }

  lemma {:induction false} ChildSpells(shape: Shape, paths: seq<string>, exports: Exports, i: nat, k: nat)
    requires Represents(shape, paths, exports) && i < |shape| && k < |shape[i].edges|
    ensures paths[shape[i].edges[k].child] == paths[i] + [shape[i].edges[k].ch]
  {
    assert NodeRight(shape, paths, exports, i);
  }

  lemma {:induction false} DescendOnly(shape: Shape, paths: seq<string>, exports: Exports, i: nat, k: nat,
                                       q: seq<byte>, s: string)
    requires Represents(shape, paths, exports) && i < |shape| && k < |shape[i].edges|
    requires Utf8.Encode(shape[i].edges[k].ch) <= q
    requires Exporting(exports, paths[shape[i].edges[k].child], q[|Utf8.Encode(shape[i].edges[k].ch)|..], s)
    ensures Exporting(exports, paths[i], q, [shape[i].edges[k].ch] + s)
  {
    hide Utf8.Encode;
    assert NodeRight(shape, paths, exports, i);
    var c := shape[i].edges[k].ch;
    assert paths[shape[i].edges[k].child] + s == paths[i] + ([c] + s);
    assert ([c] + s)[1..] == s;
  }

  lemma {:induction false} PayloadRead(address: nat)
    ensures Payload(address) != [] && ReadTerminal(Payload(address)) == Found(0, address)
  {
    hide Uleb, ReadUleb;
    UlebRoundTrip(0, Uleb(address));
    UlebRoundTrip(address, []);
    assert Uleb(address) + [] == Uleb(address);
  }

  ghost predicate Ready(shape: Shape, paths: seq<string>, exports: Exports, off: Offsets) {
    && Represents(shape, paths, exports)
    && NarrowEdges(shape) && EdgesNoNul(shape)
    && |off| == |shape| && Fixed(shape, off)
  }

  lemma {:induction false} ChildrenLater(shape: Shape, off: Offsets, i: nat)
    requires ChildrenAfter(shape) && Fixed(shape, off) && 0 < i < |shape|
    ensures off[i] > 0
  {
    hide EncodeNode;
    assert off[i] == Next(shape, off)[i];
    EmitGrows(shape, off, 1, i);
    assert Emit(shape, off, 1) == Emit(shape, off, 0) + EncodeNode(shape[0], off);
  }

  /** The walk from node i, as the node's record says it goes. */
  lemma {:induction false} WalkStep(shape: Shape, paths: seq<string>, exports: Exports, off: Offsets, i: nat,
                                    q: seq<byte>)
    requires Ready(shape, paths, exports, off) && i < |shape|
    ensures var t, n, k := Emit(shape, off, |shape|), shape[i], Chosen(shape[i].edges, q);
      Walk(t, off[i], q) ==
      if |q| == 0 && n.terminal != [] then ReadTerminal(n.terminal)
      else if k == |n.edges| then NotFound
      else Walk(t, off[n.edges[k].child], q[|Utf8.Encode(n.edges[k].ch)|..])
  {
    hide Utf8.Encode, Emit, EncodeNode, NodeRight, ReadTerminal, Walk, Fixed;
    var t, n := Emit(shape, off, |shape|), shape[i];
    var rest := NodeAt(shape, off, i);
    WalkNode(t, off[i], n, off, q, rest);
    var k := Chosen(n.edges, q);
    if k < |n.edges| {
      ChildrenLater(shape, off, n.edges[k].child);
    }
  }

  lemma {:induction false} NoLabelIsEmpty(edges: seq<Edge>)
    ensures Chosen(edges, []) == |edges|
    decreases |edges|
  {
    if |edges| > 0 {
      assert |Utf8.Encode(edges[0].ch)| > 0;
      NoLabelIsEmpty(edges[1..]);
    }
  }

  /** At the end of the query the node's own payload decides. */
  lemma {:induction false} WalkEnds(shape: Shape, paths: seq<string>, exports: Exports, off: Offsets, i: nat)
    requires Ready(shape, paths, exports, off) && i < |shape|
    ensures Walk(Emit(shape, off, |shape|), off[i], [])
         == if paths[i] in exports then Found(0, exports[paths[i]]) else NotFound
    ensures forall s :: Exporting(exports, paths[i], [], s) <==> s == "" && paths[i] in exports
  {
    hide Utf8.Encode, Emit, EncodeNode, ReadTerminal, Walk, Fixed, Payload, NarrowEdges;
    assert NodeRight(shape, paths, exports, i);
    WalkStep(shape, paths, exports, off, i, []);
    NoLabelIsEmpty(shape[i].edges);
    if paths[i] in exports {
      PayloadRead(exports[paths[i]]);
    }
    forall s ensures Exporting(exports, paths[i], [], s) <==> s == "" && paths[i] in exports {
      assert paths[i] + "" == paths[i];
      if Utf8.EncodeAll(s) == [] {
        SpellingStarts(s, []);
      }
    }
  }

  lemma {:induction false} ChildPath(shape: Shape, paths: seq<string>, exports: Exports, i: nat, k: nat, s: string)
    requires Represents(shape, paths, exports) && i < |shape| && k < |shape[i].edges|
    requires s != "" && s[0] == shape[i].edges[k].ch
    ensures paths[shape[i].edges[k].child] + s[1..] == paths[i] + s
  {
    assert NodeRight(shape, paths, exports, i);
  }

  /** From node i, the walk finds q exactly when an export spells it below that node. */
  lemma {:induction false} WalkFrom(shape: Shape, paths: seq<string>, exports: Exports, off: Offsets, i: nat,
                                    q: seq<byte>)
    requires Ready(shape, paths, exports, off) && i < |shape|
    ensures var r := Walk(Emit(shape, off, |shape|), off[i], q);
      && (forall s :: Exporting(exports, paths[i], q, s) ==> r == Found(0, exports[paths[i] + s]))
      && ((forall s :: !Exporting(exports, paths[i], q, s)) ==> r == NotFound)
    decreases |q|
  {
    hide Utf8.Encode, Emit, Walk, Chosen, Fixed, ReadTerminal, Payload, NarrowEdges, Exporting, NodeRight;
    WalkStep(shape, paths, exports, off, i, q);
    if |q| == 0 {
      assert q == [];
      WalkEnds(shape, paths, exports, off, i);
      assert paths[i] + "" == paths[i];
      assert Exporting(exports, paths[i], q, "") <==> paths[i] in exports;
    } else {
      var n, k := shape[i], Chosen(shape[i].edges, q);
      if k < |n.edges| {
        var child, rest := n.edges[k].child, q[|Utf8.Encode(n.edges[k].ch)|..];
        WalkFrom(shape, paths, exports, off, child, rest);
        forall s | Exporting(exports, paths[i], q, s)
          ensures s != "" && Exporting(exports, paths[child], rest, s[1..]) && paths[child] + s[1..] == paths[i] + s
        {
          DescendKeeps(shape, paths, exports, i, q, s);
          assert NodeRight(shape, paths, exports, i);
          ChildPath(shape, paths, exports, i, k, s);
        }
        forall s | Exporting(exports, paths[child], rest, s)
          ensures Exporting(exports, paths[i], q, [n.edges[k].ch] + s)
        {
          DescendOnly(shape, paths, exports, i, k, q, s);
        }
      } else {
        forall s ensures !Exporting(exports, paths[i], q, s) {
          if Exporting(exports, paths[i], q, s) {
            DescendKeeps(shape, paths, exports, i, q, s);
          }
        }
      }
    }
  }

  /** What dyld should find for a symbol name spelled q. */
  ghost predicate Answers(exports: Exports, q: seq<byte>, r: WalkResult) {
    && (forall name :: name in exports && Utf8.EncodeAll(name) == q ==> r == Found(0, exports[name]))
    && ((forall name :: name in exports ==> Utf8.EncodeAll(name) != q) ==> r == NotFound)
  }

  /**
   Export trie correctness: over the serialized bytes, the lookup of any byte string gives the exported address when it
   spells an exported name, and "not found" for every other string, prefixes and extensions included.
   */
  lemma {:induction false} LookupIsMap(shape: Shape, paths: seq<string>, exports: Exports, off: Offsets, q: seq<byte>)
    requires Ready(shape, paths, exports, off)
    ensures Answers(exports, q, Walk(Emit(shape, off, |shape|), 0, q))
  {
    hide Emit, Walk, Fixed, NarrowEdges, NodeRight, Utf8.EncodeAll;
    assert off[0] == 0 && paths[0] == "" by {
      RootFirst(shape, paths, exports, off);
    }
    WalkFrom(shape, paths, exports, off, 0, q);
    forall name | name in exports && Utf8.EncodeAll(name) == q
      ensures Exporting(exports, paths[0], q, name) && paths[0] + name == name
    {
      assert "" + name == name;
    }
    forall s | Exporting(exports, paths[0], q, s) ensures s in exports && Utf8.EncodeAll(s) == q {
      assert "" + s == s;
    }
  }

  lemma {:induction false} RootFirst(shape: Shape, paths: seq<string>, exports: Exports, off: Offsets)
    requires Ready(shape, paths, exports, off)
    ensures off[0] == 0 && paths[0] == ""
  {
    assert off[0] == Next(shape, off)[0];
  }
}
