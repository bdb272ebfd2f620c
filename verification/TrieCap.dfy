/**
 Why the cap of thirty-two passes is enough for every export trie under two mebibytes: a pass moves the nodes by what
 the pass before it widened, and since a node takes four bytes or more, few of them can cross a width boundary at a
 time.
 */
module TrieCap {
  import opened Leb128
  import opened Sorting
  import opened TrieLayout
  import opened TrieWalk
  import Utf8

  const LIMIT: nat := 0x20_0000

  // ----- what every export trie satisfies -----

  /** The children of the first n nodes, edge by edge. */
  function Kids(shape: Shape, n: nat): seq<nat>
    requires n <= |shape|
  {
    if n == 0 then [] else Kids(shape, n - 1) + ChildrenOf(shape[n - 1].edges)
  }

  function ChildrenOf(edges: seq<Edge>): seq<nat> {
    if |edges| == 0 then [] else [edges[0].child] + ChildrenOf(edges[1..])
  }

  /** No node is the child of two edges. */
  predicate OneParent(shape: Shape) {
    NoRepeats(Kids(shape, |shape|))
  }

  /** Every node has a payload or an edge, and so takes at least four bytes. */
  predicate Heavy(shape: Shape) {
    forall i :: 0 <= i < |shape| ==> |shape[i].terminal| >= 2 || |shape[i].edges| >= 1
  }

  // ----- spacing -----

  predicate Spaced(off: Offsets) {
    forall i, j :: 0 <= i <= j < |off| ==> off[j] - off[i] >= 4 * (j - i)
  }

  lemma {:induction false} HeavyNode(n: Node, off: Offsets)
    requires ChildrenIn(n.edges, |off|) && (|n.terminal| >= 2 || |n.edges| >= 1)
    ensures |EncodeNode(n, off)| >= 4
  {
    hide Uleb, Utf8.Encode;
  }

  lemma {:induction false} EmitSpacing(shape: Shape, off: Offsets, i: nat, j: nat)
    requires ChildrenAfter(shape) && |off| == |shape| && Heavy(shape) && i <= j <= |shape|
    ensures |Emit(shape, off, j)| - |Emit(shape, off, i)| >= 4 * (j - i)
    decreases j
  {
    hide EncodeNode;
    if i < j {
      EmitSpacing(shape, off, i, j - 1);
      HeavyNode(shape[j - 1], off);
    }
  }

  lemma {:induction false} PassSpaced(shape: Shape, off: Offsets)
    requires ChildrenAfter(shape) && |off| == |shape| && Heavy(shape)
    ensures Spaced(Next(shape, off))
  {
    hide Emit;
    forall i, j | 0 <= i <= j < |shape| ensures Next(shape, off)[j] - Next(shape, off)[i] >= 4 * (j - i) {
      EmitSpacing(shape, off, i, j);
    }
  }

  // ----- shifting -----

  lemma {:induction false} EdgesShift(edges: seq<Edge>, a: Offsets, b: Offsets)
    requires |a| == |b| && ChildrenIn(edges, |a|)
    ensures |EdgesBytes(edges, b)| - |EdgesBytes(edges, a)| == EdgeWidths(edges, b) - EdgeWidths(edges, a)
    decreases |edges|
  {
    hide Uleb, Utf8.Encode;
    if |edges| > 0 {
      EdgesShift(edges[1..], a, b);
    }
  }

  lemma {:induction false} EmitShift(shape: Shape, a: Offsets, b: Offsets, n: nat)
    requires ChildrenAfter(shape) && |a| == |b| == |shape| && n <= |shape|
    ensures |Emit(shape, b, n)| - |Emit(shape, a, n)| == Widths(shape, b, n) - Widths(shape, a, n)
    decreases n
  {
    hide Uleb;
    if n > 0 {
      EmitShift(shape, a, b, n - 1);
      EdgesShift(shape[n - 1].edges, a, b);
    }
  }

  /** How far the pass from b is ahead of the pass from a: at most by what b is wider. */
  lemma {:induction false} PassShift(shape: Shape, a: Offsets, b: Offsets, i: nat)
    requires ChildrenAfter(shape) && |a| == |shape| && Below(a, b) && i < |shape|
    ensures Next(shape, b)[i] <= Next(shape, a)[i] + (Widths(shape, b, |shape|) - Widths(shape, a, |shape|))
  {
    hide Emit;
    EmitShift(shape, a, b, i);
    WidthsGap(shape, a, b, i, |shape|);
  }

  lemma {:induction false} WidthsGap(shape: Shape, a: Offsets, b: Offsets, i: nat, n: nat)
    requires ChildrenAfter(shape) && |a| == |shape| && Below(a, b) && i <= n <= |shape|
    ensures Widths(shape, b, i) - Widths(shape, a, i) <= Widths(shape, b, n) - Widths(shape, a, n)
    decreases n
  {
    if i < n {
      WidthsGap(shape, a, b, i, n - 1);
      EdgeWidthsMonotone(shape[n - 1].edges, a, b);
    }
  }

  // ----- crossing a boundary -----

  /** The first node at or above the boundary. */
  function Cut(off: Offsets, boundary: nat): (p: nat)
    ensures p <= |off| && (p < |off| ==> off[p] >= boundary)
    ensures forall i :: 0 <= i < p ==> off[i] < boundary
  {
    if |off| == 0 then 0
    else
      var p := Cut(off[..|off| - 1], boundary);
      if p < |off| - 1 || off[|off| - 1] >= boundary then p else |off|
  }

  lemma {:induction false} CutMoves(a: Offsets, b: Offsets, c: nat, boundary: nat)
    requires Below(a, b) && Spaced(a) && forall i :: 0 <= i < |a| ==> b[i] <= a[i] + c
    ensures Cut(b, boundary) <= Cut(a, boundary) <= Cut(b, boundary) + (c + 3) / 4
  {
    var p, q := Cut(a, boundary), Cut(b, boundary);
    assert p < |a| ==> a[p] <= b[p];
    if q < p {
      assert a[p - 1] - a[q] >= 4 * (p - 1 - q);
      assert a[q] + c >= b[q] >= boundary > a[p - 1];
    }
  }

  // ----- widths, counted by boundary -----

  lemma {:induction false} UlebWidth(v: nat)
    requires v < LIMIT
    ensures |Uleb(v)| == 1 + (if v >= 128 then 1 else 0) + (if v >= 16384 then 1 else 0)
  {
    var u := v / 128;
    if v >= 128 {
      assert v >= 16384 <==> u >= 128;
      if u >= 128 {
        assert u / 128 < 128;
        assert |Uleb(u / 128)| == 1;
      }
      assert |Uleb(u)| == if u >= 128 then 2 else 1;
    }
  }

  function CountFrom(kids: seq<nat>, p: nat): nat {
    if |kids| == 0 then 0 else (if kids[0] >= p then 1 else 0) + CountFrom(kids[1..], p)
  }

  predicate KidsIn(kids: seq<nat>, n: nat) {
    forall i :: 0 <= i < |kids| ==> kids[i] < n
  }

  function SumWidths(kids: seq<nat>, off: Offsets): nat
    requires KidsIn(kids, |off|)
  {
    if |kids| == 0 then 0 else |Uleb(off[kids[0]])| + SumWidths(kids[1..], off)
  }

  lemma {:induction false} SumIsCounts(kids: seq<nat>, off: Offsets)
    requires KidsIn(kids, |off|) && Spaced(off) && forall i :: 0 <= i < |off| ==> off[i] < LIMIT
    ensures SumWidths(kids, off) == |kids| + CountFrom(kids, Cut(off, 128)) + CountFrom(kids, Cut(off, 16384))
    decreases |kids|
  {
    hide Uleb;
    if |kids| > 0 {
      var k := kids[0];
      SumIsCounts(kids[1..], off);
      UlebWidth(off[k]);
      CutSplits(off, 128, k);
      CutSplits(off, 16384, k);
    }
  }

  lemma {:induction false} CutSplits(off: Offsets, boundary: nat, k: nat)
    requires Spaced(off) && k < |off|
    ensures off[k] >= boundary <==> k >= Cut(off, boundary)
  {
    var p := Cut(off, boundary);
    if k >= p {
      assert off[k] - off[p] >= 4 * (k - p);
    }
  }

  lemma {:induction false} CountStep(kids: seq<nat>, q: nat)
    ensures CountFrom(kids, q) == CountFrom(kids, q + 1) + multiset(kids)[q]
    decreases |kids|
  {
    if |kids| > 0 {
      CountStep(kids[1..], q);
      assert kids == [kids[0]] + kids[1..];
    }
  }

  lemma {:induction false} CountGap(kids: seq<nat>, q: nat, p: nat)
    requires NoRepeats(kids) && q <= p
    ensures CountFrom(kids, p) <= CountFrom(kids, q) <= CountFrom(kids, p) + (p - q)
    decreases p - q
  {
    if q < p {
      CountGap(kids, q + 1, p);
      CountStep(kids, q);
      NoRepeatsIsCount(kids);
    }
  }

  lemma {:induction false} SumJoins(a: seq<nat>, b: seq<nat>, off: Offsets)
    requires KidsIn(a, |off|) && KidsIn(b, |off|)
    ensures SumWidths(a + b, off) == SumWidths(a, off) + SumWidths(b, off)
    decreases |a|
  {
    if |a| == 0 {
      assert a + b == b;
    } else {
      SumJoins(a[1..], b, off);
      assert (a + b)[1..] == a[1..] + b;
    }
  }

  lemma {:induction false} EdgeSum(edges: seq<Edge>, off: Offsets)
    requires ChildrenIn(edges, |off|)
    ensures KidsIn(ChildrenOf(edges), |off|) && EdgeWidths(edges, off) == SumWidths(ChildrenOf(edges), off)
    decreases |edges|
  {
    hide Uleb;
    if |edges| > 0 {
      EdgeSum(edges[1..], off);
    }
  }

  lemma {:induction false} WidthsAreSum(shape: Shape, off: Offsets, n: nat)
    requires ChildrenAfter(shape) && |off| == |shape| && n <= |shape|
    ensures KidsIn(Kids(shape, n), |off|) && Widths(shape, off, n) == SumWidths(Kids(shape, n), off)
    decreases n
  {
    hide SumWidths, EdgeWidths, ChildrenOf;
    if n > 0 {
      WidthsAreSum(shape, off, n - 1);
      EdgeSum(shape[n - 1].edges, off);
      SumJoins(Kids(shape, n - 1), ChildrenOf(shape[n - 1].edges), off);
    } else {
      EmptySum(off);
    }
  }

  lemma {:induction false} EmptySum(off: Offsets)
    ensures SumWidths([], off) == 0
  {
  }

  /**
   Between two spaced layouts a shift of c apart, at most (c + 3) / 4 stored offsets cross each of the two boundaries.
   */
  lemma {:induction false} WidensLittle(shape: Shape, a: Offsets, b: Offsets, c: nat)
    requires ChildrenAfter(shape) && OneParent(shape) && |a| == |shape| && Below(a, b) && Spaced(a) && Spaced(b)
    requires forall i :: 0 <= i < |shape| ==> b[i] <= a[i] + c && b[i] < LIMIT
    ensures Widths(shape, b, |shape|) - Widths(shape, a, |shape|) <= 2 * ((c + 3) / 4)
  {
    hide SumWidths, CountFrom, Widths, Kids, Cut;
    var kids := Kids(shape, |shape|);
    WidthsAreSum(shape, a, |shape|);
    WidthsAreSum(shape, b, |shape|);
    SumIsCounts(kids, a);
    SumIsCounts(kids, b);
    CutMoves(a, b, c, 128);
    CutMoves(a, b, c, 16384);
    CountGap(kids, Cut(b, 128), Cut(a, 128));
    CountGap(kids, Cut(b, 16384), Cut(a, 16384));
  }

  // ----- the passes -----

  /** The offsets after t passes. */
  function Pass(shape: Shape, t: nat): (off: Offsets)
    requires ChildrenAfter(shape)
    ensures |off| == |shape|
  {
    if t == 0 then Origin(|shape|) else Next(shape, Pass(shape, t - 1))
  }

  function Width(shape: Shape, t: nat): nat
    requires ChildrenAfter(shape)
  {
    Widths(shape, Pass(shape, t), |shape|)
  }

  /** A trie that stays under the limit even with three bytes for every stored offset. */
  predicate Small(shape: Shape)
    requires ChildrenAfter(shape)
  {
    |Emit(shape, Wide(shape), |shape|)| < LIMIT
  }

  function Wide(shape: Shape): (off: Offsets)
    ensures |off| == |shape|
  {
    seq(|shape|, _ => LIMIT - 1)
  }

  lemma {:induction false} PassesAscend(shape: Shape, t: nat)
    requires ChildrenAfter(shape) && Small(shape)
    ensures Below(Pass(shape, t), Pass(shape, t + 1)) && Below(Pass(shape, t), Wide(shape))
    decreases t
  {
    hide Emit;
    if t > 0 {
      PassesAscend(shape, t - 1);
      NextMonotone(shape, Pass(shape, t - 1), Pass(shape, t));
      NextMonotone(shape, Pass(shape, t - 1), Wide(shape));
      forall i | 0 <= i < |shape| ensures Next(shape, Wide(shape))[i] < LIMIT {
        EmitGrows(shape, Wide(shape), i, |shape|);
      }
    }
  }

  lemma {:induction false} PassesBelow(shape: Shape, t: nat, m: nat)
    requires ChildrenAfter(shape) && Small(shape)
    ensures Below(Pass(shape, t), Pass(shape, t + m)) && Width(shape, t) <= Width(shape, t + m)
    decreases m
  {
    hide Pass, Widths;
    if m > 0 {
      PassesBelow(shape, t, m - 1);
      PassesAscend(shape, t + m - 1);
    }
    WidthsMonotone(shape, Pass(shape, t), Pass(shape, t + m), |shape|);
  }

  predicate Bounded(shape: Shape) {
    ChildrenAfter(shape) && OneParent(shape) && Heavy(shape) && Small(shape)
  }

  /** What m passes widen after pass s + 1 is bounded by what the m passes before them widened. */
  lemma {:induction false} Decay(shape: Shape, s: nat, m: nat)
    requires Bounded(shape)
    ensures Width(shape, s + 1 + m) - Width(shape, s + 1) <= 2 * ((Width(shape, s + m) - Width(shape, s) + 3) / 4)
  {
    hide Emit, Widths, OneParent, Heavy, Small;
    var a, b := Pass(shape, s + 1), Pass(shape, s + 1 + m);
    assert a == Next(shape, Pass(shape, s)) && b == Next(shape, Pass(shape, s + m));
    PassesBelow(shape, s, m);
    PassesBelow(shape, s + 1, m);
    PassesAscend(shape, s + 1 + m);
    PassSpaced(shape, Pass(shape, s));
    PassSpaced(shape, Pass(shape, s + m));
    var c := Width(shape, s + m) - Width(shape, s);
    forall i | 0 <= i < |shape| ensures b[i] <= a[i] + c && b[i] < LIMIT {
      PassShift(shape, Pass(shape, s), Pass(shape, s + m), i);
      assert b[i] <= Wide(shape)[i];
    }
    WidensLittle(shape, a, b, c);
  }

  function Pow2(n: nat): (p: nat)
    ensures p > 0
  {
    if n == 0 then 1 else 2 * Pow2(n - 1)
  }

  lemma {:induction false} SumAtMost(kids: seq<nat>, off: Offsets)
    requires KidsIn(kids, |off|) && forall i :: 0 <= i < |off| ==> off[i] < LIMIT
    ensures |kids| <= SumWidths(kids, off) <= 3 * |kids|
    decreases |kids|
  {
    hide Uleb;
    if |kids| > 0 {
      SumAtMost(kids[1..], off);
      UlebWidth(off[kids[0]]);
    }
  }

  lemma {:induction false} CountAll(kids: seq<nat>, n: nat)
    requires KidsIn(kids, n)
    ensures CountFrom(kids, 0) == |kids| && CountFrom(kids, n) == 0
    decreases |kids|
  {
    if |kids| > 0 {
      CountAll(kids[1..], n);
    }
  }

  lemma {:induction false} FirstPassWidens(shape: Shape)
    requires Bounded(shape)
    ensures Width(shape, 1) - Width(shape, 0) <= Pow2(20)
  {
    hide Emit, Widths, Kids, SumWidths, CountFrom, Small, Heavy;
    var kids, n := Kids(shape, |shape|), |shape|;
    PassesAscend(shape, 0);
    PassesAscend(shape, 1);
    WidthsAreSum(shape, Pass(shape, 0), n);
    WidthsAreSum(shape, Pass(shape, 1), n);
    InLimit(shape, 0);
    InLimit(shape, 1);
    SumAtMost(kids, Pass(shape, 0));
    SumAtMost(kids, Pass(shape, 1));
    CountAll(kids, n);
    CountGap(kids, 0, n);
    if n > 0 {
      PassSpaced(shape, Pass(shape, 0));
      assert Pass(shape, 1)[n - 1] - Pass(shape, 1)[0] >= 4 * (n - 1);
    }
    Pow2Is();
  }

  lemma {:induction false} InLimit(shape: Shape, t: nat)
    requires ChildrenAfter(shape) && Small(shape)
    ensures forall i :: 0 <= i < |shape| ==> Pass(shape, t)[i] < LIMIT
  {
    hide Pass, Small;
    PassesAscend(shape, t);
    forall i | 0 <= i < |shape| ensures Pass(shape, t)[i] < LIMIT {
      assert Pass(shape, t)[i] <= Wide(shape)[i];
    }
  }

  lemma {:induction false} Pow2Is()
    ensures Pow2(20) == 0x10_0000 && Pow2(2) == 4
  {
    assert Pow2(5) == 32;
    assert Pow2(10) == 32 * Pow2(5);
    assert Pow2(15) == 32 * Pow2(10);
    assert Pow2(20) == 32 * Pow2(15);
  }

  /** Each pass widens at most half of what the one before it did, down to four. */
  lemma {:induction false} Halves(shape: Shape, t: nat)
    requires Bounded(shape) && t <= 18
    ensures Width(shape, t + 1) - Width(shape, t) <= Pow2(20 - t)
    decreases t
  {
    hide Bounded, Width;
    if t == 0 {
      FirstPassWidens(shape);
    } else {
      Halves(shape, t - 1);
      Decay(shape, t - 1, 1);
      assert Pow2(20 - (t - 1)) == 4 * Pow2(20 - t - 1) && Pow2(20 - t) == 2 * Pow2(20 - t - 1);
    }
  }

  /** From the twentieth pass on, all later ones together widen at most two bytes. */
  lemma {:induction false} Tail(shape: Shape, m: nat)
    requires Bounded(shape)
    ensures Width(shape, 20) - Width(shape, 19) <= 2
    ensures Width(shape, 20 + m) - Width(shape, 20) <= 2
    decreases m
  {
    hide Bounded, Width;
    Halves(shape, 18);
    Pow2Is();
    Decay(shape, 18, 1);
    if m > 0 {
      Tail(shape, m - 1);
      Decay(shape, 19, m);
    }
  }

  lemma {:induction false} SettledPass(shape: Shape, t: nat)
    requires Bounded(shape) && Width(shape, t) == Width(shape, t + 1)
    ensures Next(shape, Pass(shape, t + 1)) == Pass(shape, t + 1)
  {
    hide OneParent, Heavy, Small, Widths;
    PassesAscend(shape, t);
    SameWidthsSamePass(shape, Pass(shape, t), Pass(shape, t + 1));
  }

  lemma {:induction false} ConvergesFrom(shape: Shape, k: nat, t: nat, passes: nat)
    requires ChildrenAfter(shape) && k <= t < k + passes && Next(shape, Pass(shape, t)) == Pass(shape, t)
    ensures Converge(shape, Pass(shape, k), passes).Some?
    decreases t - k
  {
    hide Next;
    if Next(shape, Pass(shape, k)) != Pass(shape, k) {
      ConvergesFrom(shape, k + 1, t, passes - 1);
    }
  }

  /** Twenty-four passes are always enough for such a trie, so a cap of thirty-two is never met. */
  lemma {:induction false} CapSuffices(shape: Shape, passes: nat)
    requires Bounded(shape) && passes >= 24
    ensures Converge(shape, Origin(|shape|), passes).Some?
  {
    hide Width, OneParent, Heavy, Small;
    Tail(shape, 3);
    PassesBelow(shape, 20, 1);
    PassesBelow(shape, 21, 1);
    PassesBelow(shape, 22, 1);
    var t: nat :=
      if Width(shape, 20) == Width(shape, 21) then 20 else if Width(shape, 21) == Width(shape, 22) then 21 else 22;
    SettledPass(shape, t);
    ConvergesFrom(shape, 0, t + 1, passes);
  }

  // ----- export tries are such tries -----

  lemma {:induction false} ChildOrigin(edges: seq<Edge>, j: nat)
    requires j < |ChildrenOf(edges)|
    ensures |ChildrenOf(edges)| == |edges| && ChildrenOf(edges)[j] == edges[j].child
    decreases |edges|
  {
    if j > 0 {
      ChildOrigin(edges[1..], j - 1);
    } else if |edges| > 1 {
      ChildOrigin(edges[1..], 0);
    }
  }

  lemma {:induction false} KidOrigin(shape: Shape, n: nat, j: nat) returns (i: nat, e: nat)
    requires n <= |shape| && j < |Kids(shape, n)|
    ensures i < n && e < |shape[i].edges| && shape[i].edges[e].child == Kids(shape, n)[j]
    decreases n
  {
    hide ChildrenOf;
    if j < |Kids(shape, n - 1)| {
      i, e := KidOrigin(shape, n - 1, j);
    } else {
      i, e := n - 1, j - |Kids(shape, n - 1)|;
      ChildOrigin(shape[n - 1].edges, e);
    }
  }

  lemma {:induction false} SnocEqual(p: string, c: char, q: string, d: char)
    requires p + [c] == q + [d]
    ensures p == q && c == d
  {
    assert |p| == |q|;
    assert (p + [c])[..|p|] == p && (q + [d])[..|q|] == q;
    assert (p + [c])[|p|] == c && (q + [d])[|q|] == d;
  }

  lemma {:induction false} ChildPathIs(shape: Shape, paths: seq<string>, exports: Exports, i: nat, e: nat)
    requires Represents(shape, paths, exports) && i < |shape| && e < |shape[i].edges|
    ensures i < |paths| && shape[i].edges[e].child < |paths|
    ensures paths[shape[i].edges[e].child] == paths[i] + [shape[i].edges[e].ch]
    ensures DistinctEdges(shape[i])
  {
    assert NodeRight(shape, paths, exports, i);
  }

  lemma {:induction false} SameChildSameEdge(shape: Shape, paths: seq<string>, exports: Exports, i: nat, e: nat,
                                             k: nat, f: nat)
    requires Represents(shape, paths, exports) && NoRepeats(paths)
    requires i < |shape| && e < |shape[i].edges| && k < |shape| && f < |shape[k].edges|
    requires shape[i].edges[e].child == shape[k].edges[f].child
    ensures i == k && e == f
  {
    hide Represents, DistinctEdges;
    ChildPathIs(shape, paths, exports, i, e);
    ChildPathIs(shape, paths, exports, k, f);
    SnocEqual(paths[i], shape[i].edges[e].ch, paths[k], shape[k].edges[f].ch);
    SamePath(paths, i, k);
    SameLabel(shape[i], e, f);
  }

  lemma {:induction false} SamePath(paths: seq<string>, i: nat, k: nat)
    requires NoRepeats(paths) && i < |paths| && k < |paths| && paths[i] == paths[k]
    ensures i == k
  {
  }

  lemma {:induction false} SameLabel(n: Node, e: nat, f: nat)
    requires DistinctEdges(n) && e < |n.edges| && f < |n.edges| && n.edges[e].ch == n.edges[f].ch
    ensures e == f
  {
  }

  lemma {:induction false} KidsDistinct(shape: Shape, paths: seq<string>, exports: Exports, n: nat)
    requires Represents(shape, paths, exports) && NoRepeats(paths) && n <= |shape|
    ensures NoRepeats(Kids(shape, n))
    decreases n
  {
    hide Represents, ChildrenOf;
    if n > 0 {
      KidsDistinct(shape, paths, exports, n - 1);
      var kids, front := Kids(shape, n), Kids(shape, n - 1);
      forall j, l | 0 <= j < l < |kids| ensures kids[j] != kids[l] {
        if l >= |front| {
          var f := l - |front|;
          ChildOrigin(shape[n - 1].edges, f);
          if j < |front| {
            var i, e := KidOrigin(shape, n - 1, j);
            if kids[j] == kids[l] {
              SameChildSameEdge(shape, paths, exports, i, e, n - 1, f);
            }
          } else {
            ChildOrigin(shape[n - 1].edges, j - |front|);
            if kids[j] == kids[l] {
              SameChildSameEdge(shape, paths, exports, n - 1, j - |front|, n - 1, f);
            }
          }
        }
      }
    }
  }

  lemma {:induction false} NodesHeavy(shape: Shape, paths: seq<string>, exports: Exports)
    requires Represents(shape, paths, exports) && exports != map[]
    ensures Heavy(shape)
  {
    hide Uleb;
    forall i | 0 <= i < |shape| ensures |shape[i].terminal| >= 2 || |shape[i].edges| >= 1 {
      assert NodeRight(shape, paths, exports, i);
      var name :| name in exports && paths[i] <= name by {
        if i == 0 {
          var any :| any in exports;
          assert paths[0] <= any;
        } else {
          assert Needed(exports, paths[i]);
        }
      }
      assert name == paths[i] || |paths[i]| < |name|;
      if paths[i] !in exports {
        assert paths[i] < name;
        assert HasEdge(shape[i], name[|paths[i]|]);
      }
    }
  }

  /** The cap never fires on the trie of a dictionary that stays under the limit with three bytes for every offset. */
  lemma {:induction false} ExportsConverge(shape: Shape, paths: seq<string>, exports: Exports, passes: nat)
    requires Represents(shape, paths, exports) && NoRepeats(paths) && Small(shape) && passes >= 24
    ensures Converge(shape, Origin(|shape|), passes).Some?
  {
    if exports == map[] {
      assert |shape| > 1 ==> Needed(exports, paths[1]);
      assert Next(shape, Origin(1)) == Origin(1);
    } else {
      hide Small, Represents;
      Ordered(shape, paths, exports);
      KidsDistinct(shape, paths, exports, |shape|);
      NodesHeavy(shape, paths, exports);
      CapSuffices(shape, passes);
    }
  }

  lemma {:induction false} Ordered(shape: Shape, paths: seq<string>, exports: Exports)
    requires Represents(shape, paths, exports)
    ensures ChildrenAfter(shape)
  {
  }
}
