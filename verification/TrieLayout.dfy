/**
 The export trie as a list of nodes in preorder, its byte encoding, and the layout loop's mathematics: the offsets are
 a fixed point because an edge stores its child's offset as a ULEB whose width depends on the layout.
 */
module TrieLayout {
  import opened Bytes
  import opened Wrappers
  import opened Leb128
  import Utf8

  datatype Edge = Edge(ch: char, child: nat)
  datatype Node = Node(terminal: seq<byte>, edges: seq<Edge>)
  type Shape = seq<Node>
  type Offsets = seq<nat>

  /** Preorder: every child is listed after its parent. */
  predicate ChildrenAfter(shape: Shape) {
    forall i, e :: 0 <= i < |shape| && 0 <= e < |shape[i].edges| ==> i < shape[i].edges[e].child < |shape|
  }

  // The child count is one byte.
  predicate NarrowEdges(shape: Shape) {
    forall i :: 0 <= i < |shape| ==> |shape[i].edges| <= 255
  }

  predicate ChildrenIn(edges: seq<Edge>, n: nat) {
    forall e :: 0 <= e < |edges| ==> edges[e].child < n
  }

  function EdgeBytes(e: Edge, off: Offsets): seq<byte>
    requires e.child < |off|
  {
    Utf8.Encode(e.ch) + [0] + Uleb(off[e.child])
  }

  function EdgesBytes(edges: seq<Edge>, off: Offsets): seq<byte>
    requires ChildrenIn(edges, |off|)
  {
    if |edges| == 0 then [] else EdgeBytes(edges[0], off) + EdgesBytes(edges[1..], off)
  }

  function EncodeNode(n: Node, off: Offsets): (s: seq<byte>)
    requires ChildrenIn(n.edges, |off|)
    ensures |s| >= 2
  {
    Uleb(|n.terminal|) + n.terminal + [|n.edges| % 256] + EdgesBytes(n.edges, off)
  }

  /** The bytes of the first n nodes. */
  function Emit(shape: Shape, off: Offsets, n: nat): seq<byte>
    requires ChildrenAfter(shape) && |off| == |shape| && n <= |shape|
  {
    if n == 0 then [] else Emit(shape, off, n - 1) + EncodeNode(shape[n - 1], off)
  }

  /** One layout pass: where each node starts when the edges store the offsets off. */
  function Next(shape: Shape, off: Offsets): (r: Offsets)
    requires ChildrenAfter(shape) && |off| == |shape|
    ensures |r| == |shape|
  {
    seq(|shape|, i requires 0 <= i < |shape| => |Emit(shape, off, i)|)
  }

  /** A self-consistent layout: every stored offset is the node's true position. */
  predicate Fixed(shape: Shape, off: Offsets)
    requires ChildrenAfter(shape)
  {
    |off| == |shape| && Next(shape, off) == off
  }

  predicate Below(a: Offsets, b: Offsets) {
    |a| == |b| && forall i :: 0 <= i < |a| ==> a[i] <= b[i]
  }

  /** At most the given number of passes, stopping at the first that changes nothing. */
  function Converge(shape: Shape, off: Offsets, passes: nat): (r: Option<Offsets>)
    requires ChildrenAfter(shape) && |off| == |shape|
    ensures r.Some? ==> |r.value| == |shape|
    decreases passes
  {
    if passes == 0 then None
    else if Next(shape, off) == off then Some(off)
    else Converge(shape, Next(shape, off), passes - 1)
  }

  function Origin(n: nat): (r: Offsets)
    ensures |r| == n
  {
    seq(n, _ => 0)
  }

  // ----- monotonicity -----

  lemma {:induction false} EdgesMonotone(edges: seq<Edge>, a: Offsets, b: Offsets)
    requires Below(a, b) && ChildrenIn(edges, |a|)
    ensures |EdgesBytes(edges, a)| <= |EdgesBytes(edges, b)|
    decreases |edges|
  {
    if |edges| > 0 {
      UlebMonotone(a[edges[0].child], b[edges[0].child]);
      EdgesMonotone(edges[1..], a, b);
    }
  }

  lemma {:induction false} EmitMonotone(shape: Shape, a: Offsets, b: Offsets, n: nat)
    requires ChildrenAfter(shape) && |a| == |shape| && Below(a, b) && n <= |shape|
    ensures |Emit(shape, a, n)| <= |Emit(shape, b, n)|
    decreases n
  {
    if n > 0 {
      EmitMonotone(shape, a, b, n - 1);
      EdgesMonotone(shape[n - 1].edges, a, b);
    }
  }

  lemma {:induction false} NextMonotone(shape: Shape, a: Offsets, b: Offsets)
    requires ChildrenAfter(shape) && |a| == |shape| && Below(a, b)
    ensures Below(Next(shape, a), Next(shape, b))
  {
    forall i | 0 <= i < |shape| ensures Next(shape, a)[i] <= Next(shape, b)[i] {
      EmitMonotone(shape, a, b, i);
    }
  }

  // ----- the least fixed point -----

  /** Passes from below never descend, and never pass a layout that is at least its own next pass. */
  lemma {:induction false} ConvergesBelow(shape: Shape, off: Offsets, passes: nat, bound: Offsets)
    requires ChildrenAfter(shape) && |off| == |shape| && Below(off, Next(shape, off))
    requires Below(off, bound) && Below(Next(shape, bound), bound)
    requires Converge(shape, off, passes).Some?
    ensures Fixed(shape, Converge(shape, off, passes).value)
    ensures Below(off, Converge(shape, off, passes).value) && Below(Converge(shape, off, passes).value, bound)
    decreases passes
  {
    hide Next;
    if Next(shape, off) != off {
      var next := Next(shape, off);
      NextMonotone(shape, off, next);
      NextMonotone(shape, off, bound);
      ConvergesBelow(shape, next, passes - 1, bound);
    }
  }

  /** The loop's result is self-consistent and pointwise the least such layout. */
  lemma {:induction false} LeastLayout(shape: Shape, passes: nat, other: Offsets)
    requires ChildrenAfter(shape) && Converge(shape, Origin(|shape|), passes).Some? && Fixed(shape, other)
    ensures var r := Converge(shape, Origin(|shape|), passes).value;
      Fixed(shape, r) && Below(r, other)
  {
    ConvergesBelow(shape, Origin(|shape|), passes, other);
  }

  // ----- how many passes -----

  /** The total width of all stored child offsets. */
  function EdgeWidths(edges: seq<Edge>, off: Offsets): nat
    requires ChildrenIn(edges, |off|)
  {
    if |edges| == 0 then 0 else |Uleb(off[edges[0].child])| + EdgeWidths(edges[1..], off)
  }

  function Widths(shape: Shape, off: Offsets, n: nat): nat
    requires ChildrenAfter(shape) && |off| == |shape| && n <= |shape|
  {
    if n == 0 then 0 else Widths(shape, off, n - 1) + EdgeWidths(shape[n - 1].edges, off)
  }

  lemma {:induction false} EdgeWidthsMonotone(edges: seq<Edge>, a: Offsets, b: Offsets)
    requires Below(a, b) && ChildrenIn(edges, |a|)
    ensures EdgeWidths(edges, a) <= EdgeWidths(edges, b)
    ensures EdgeWidths(edges, a) == EdgeWidths(edges, b) ==> |EdgesBytes(edges, a)| == |EdgesBytes(edges, b)|
    decreases |edges|
  {
    if |edges| > 0 {
      UlebMonotone(a[edges[0].child], b[edges[0].child]);
      EdgeWidthsMonotone(edges[1..], a, b);
    }
  }

  lemma {:induction false} WidthsMonotone(shape: Shape, a: Offsets, b: Offsets, n: nat)
    requires ChildrenAfter(shape) && |a| == |shape| && Below(a, b) && n <= |shape|
    ensures Widths(shape, a, n) <= Widths(shape, b, n)
    ensures Widths(shape, a, n) == Widths(shape, b, n) ==> forall k :: 0 <= k <= n ==>
        |Emit(shape, a, k)| == |Emit(shape, b, k)|
    decreases n
  {
    if n > 0 {
      WidthsMonotone(shape, a, b, n - 1);
      EdgeWidthsMonotone(shape[n - 1].edges, a, b);
    }
  }

  lemma {:induction false} SameWidthsSamePass(shape: Shape, a: Offsets, b: Offsets)
    requires ChildrenAfter(shape) && |a| == |shape| && Below(a, b)
    ensures Widths(shape, a, |shape|) == Widths(shape, b, |shape|) ==> Next(shape, a) == Next(shape, b)
  {
    WidthsMonotone(shape, a, b, |shape|);
  }

  /** A pass that changes a layout reached by a pass must have widened some edge. */
  lemma {:induction false} ChangeWidens(shape: Shape, off: Offsets)
    requires ChildrenAfter(shape) && |off| == |shape| && Below(off, Next(shape, off))
    requires Next(shape, Next(shape, off)) != Next(shape, off)
    ensures Widths(shape, off, |shape|) < Widths(shape, Next(shape, off), |shape|)
  {
    var next := Next(shape, off);
    WidthsMonotone(shape, off, next, |shape|);
    SameWidthsSamePass(shape, off, next);
  }

  /** Enough passes: two, and one for every byte by which some self-consistent layout is wider. */
  lemma {:induction false} ConvergesWithin(shape: Shape, off: Offsets, passes: nat, bound: Offsets)
    requires ChildrenAfter(shape) && |off| == |shape| && Below(off, Next(shape, off))
    requires Below(off, bound) && Below(Next(shape, bound), bound)
    requires passes >= 2 + Widths(shape, bound, |shape|) - Widths(shape, off, |shape|)
    ensures Converge(shape, off, passes).Some?
    decreases passes
  {
    var next := Next(shape, off);
    NextMonotone(shape, off, next);
    NextMonotone(shape, off, bound);
    WidthsMonotone(shape, off, bound, |shape|);
    if next != off && Next(shape, next) != next {
      ChangeWidens(shape, off);
      WidthsMonotone(shape, next, bound, |shape|);
      ConvergesWithin(shape, next, passes - 1, bound);
    }
  }

  // ----- every trie has a self-consistent layout -----

  lemma {:induction false} PowBeatsSquare(w: nat)
    ensures (w + 1) * (w + 1) <= Pow128(w)
    decreases w
  {
    if w > 0 {
      PowBeatsSquare(w - 1);
      assert (w + 1) * (w + 1) == w * w + 2 * w + 1;
      assert w * w >= w;
    }
  }

  predicate WidthsWithin(off: Offsets, w: nat) {
    forall i :: 0 <= i < |off| ==> |Uleb(off[i])| <= w
  }

  lemma {:induction false} EdgesWithin(edges: seq<Edge>, off: Offsets, w: nat)
    requires ChildrenIn(edges, |off|) && WidthsWithin(off, w)
    ensures |EdgesBytes(edges, off)| <= |edges| * (5 + w)
    decreases |edges|
  {
    if |edges| > 0 {
      EdgesWithin(edges[1..], off, w);
      assert |edges| * (5 + w) == (|edges| - 1) * (5 + w) + (5 + w);
    }
  }

  function EdgeCount(shape: Shape, n: nat): nat
    requires n <= |shape|
  {
    if n == 0 then 0 else EdgeCount(shape, n - 1) + |shape[n - 1].edges|
  }

  function OwnBytes(shape: Shape, n: nat): nat
    requires n <= |shape|
  {
    if n == 0 then 0
    else
      OwnBytes(shape, n - 1) + |Uleb(|shape[n - 1].terminal|)| + |shape[n - 1].terminal| + 1
      + 5 * |shape[n - 1].edges|
  }

  lemma {:induction false} Distribute(a: int, b: int, w: int)
    ensures (a + b) * w == a * w + b * w
  {
  }

  lemma {:induction false} NodeWithin(n: Node, off: Offsets, w: nat)
    requires ChildrenIn(n.edges, |off|) && WidthsWithin(off, w)
    ensures |EncodeNode(n, off)| <= |Uleb(|n.terminal|)| + |n.terminal| + 1 + 5 * |n.edges| + |n.edges| * w
  {
    hide Uleb;
    EdgesWithin(n.edges, off, w);
    Distribute(5, w, |n.edges|);
  }

  lemma {:induction false} EmitWithin(shape: Shape, off: Offsets, n: nat, w: nat)
    requires ChildrenAfter(shape) && |off| == |shape| && n <= |shape| && WidthsWithin(off, w)
    ensures |Emit(shape, off, n)| <= OwnBytes(shape, n) + EdgeCount(shape, n) * w
    decreases n
  {
    hide EncodeNode, Uleb;
    if n > 0 {
      EmitWithin(shape, off, n - 1, w);
      NodeWithinAt(shape, off, n - 1, w);
      Distribute(EdgeCount(shape, n - 1), |shape[n - 1].edges|, w);
    }
  }

  lemma {:induction false} NodeWithinAt(shape: Shape, off: Offsets, i: nat, w: nat)
    requires ChildrenAfter(shape) && |off| == |shape| && i < |shape| && WidthsWithin(off, w)
    ensures ChildrenIn(shape[i].edges, |off|)
    ensures |EncodeNode(shape[i], off)| <= |Uleb(|shape[i].terminal|)| + |shape[i].terminal| + 1
        + 5 * |shape[i].edges| + |shape[i].edges| * w
  {
    NodeWithin(shape[i], off, w);
  }

  lemma {:induction false} EmitGrows(shape: Shape, off: Offsets, i: nat, n: nat)
    requires ChildrenAfter(shape) && |off| == |shape| && i <= n <= |shape|
    ensures |Emit(shape, off, i)| <= |Emit(shape, off, n)|
    decreases n
  {
    if i < n {
      EmitGrows(shape, off, i, n - 1);
    }
  }

  lemma {:induction false} RoomyWidth(b: nat, e: nat, w: nat)
    requires w == b + e + 1
    ensures b + e * w < Pow128(w)
  {
    PowBeatsSquare(w);
    assert e * w <= w * w;
    assert (w + 1) * (w + 1) == w * w + 2 * w + 1;
  }

  /** A layout that is at least its own next pass: give every node the same, large enough, offset. */
  lemma {:induction false} RoomyLayout(shape: Shape) returns (bound: Offsets)
    requires ChildrenAfter(shape)
    ensures |bound| == |shape| && Below(Next(shape, bound), bound)
  {
    hide Emit, OwnBytes, EdgeCount, Pow128, Uleb;
    var n := |shape|;
    var b, e := OwnBytes(shape, n), EdgeCount(shape, n);
    var w := b + e + 1;
    var x := Pow128(w) - 1;
    bound := seq(n, _ => x);
    UlebWithin(x, w);
    EmitWithin(shape, bound, n, w);
    RoomyWidth(b, e, w);
    forall i | 0 <= i < n ensures Next(shape, bound)[i] <= bound[i] {
      EmitGrows(shape, bound, i, n);
    }
  }

  /** Without its cap the loop always ends: some number of passes suffices, and so does any larger one. */
  lemma {:induction false} AlwaysConverges(shape: Shape) returns (enough: nat)
    requires ChildrenAfter(shape)
    ensures forall passes: nat :: passes >= enough ==> Converge(shape, Origin(|shape|), passes).Some?
  {
    hide Next, Widths;
    var bound := RoomyLayout(shape);
    enough := 2 + Widths(shape, bound, |shape|);
    forall passes: nat | passes >= enough ensures Converge(shape, Origin(|shape|), passes).Some? {
      ConvergesWithin(shape, Origin(|shape|), passes, bound);
    }
  }

  lemma {:induction false} OriginWidths(shape: Shape, n: nat)
    requires ChildrenAfter(shape) && n <= |shape|
    ensures Widths(shape, Origin(|shape|), n) == EdgeCount(shape, n)
    decreases n
  {
    if n > 0 {
      OriginWidths(shape, n - 1);
      OriginEdgeWidths(shape[n - 1].edges, |shape|);
    }
  }

  lemma {:induction false} OriginEdgeWidths(edges: seq<Edge>, n: nat)
    requires ChildrenIn(edges, n)
    ensures EdgeWidths(edges, Origin(n)) == |edges|
    decreases |edges|
  {
    if |edges| > 0 {
      OriginEdgeWidths(edges[1..], n);
    }
  }

  /** The pass count, in the final layout's own terms: two, plus each stored offset's bytes beyond the first. */
  lemma {:induction false} PassBound(shape: Shape, final: Offsets, passes: nat)
    requires ChildrenAfter(shape) && Fixed(shape, final)
    requires passes >= 2 + Widths(shape, final, |shape|) - EdgeCount(shape, |shape|)
    ensures Converge(shape, Origin(|shape|), passes).Some?
  {
    hide Widths;
    OriginWidths(shape, |shape|);
    ConvergesWithin(shape, Origin(|shape|), passes, final);
  }
}
