/** The export trie as the source builds it: linked nodes updated in place, laid out in repeated passes, serialized. */
module ExportTrie {
  import opened Bytes
  import opened Wrappers
  import opened Leb128
  import opened TrieLayout
  import opened TrieWalk
  import Sorting
  import TrieCap
  import Utf8

  class TrieNode {
    var terminal: seq<byte>
    var order: seq<char> // the child dictionary's keys, oldest first
    var children: map<char, TrieNode>
    var offset: nat

    constructor ()
      ensures terminal == [] && order == [] && children == map[] && offset == 0
    {
      terminal, order, children, offset := [], [], map[], 0;
    }
  }

  // Every node under its path from the root.
  type Nodes = map<string, TrieNode>

  predicate Distinct(s: seq<char>) {
    forall i, j :: 0 <= i < j < |s| ==> s[i] != s[j]
  }

  /** A node at path p with these children has exactly those the path set calls for. */
  ghost predicate LinkedAs(order: seq<char>, children: map<char, TrieNode>, at: Nodes, p: string) {
    && Distinct(order)
    && (forall c :: c in order <==> c in children)
    && (forall c :: c in children <==> p + [c] in at)
    && (forall c :: c in children && p + [c] in at ==> children[c] == at[p + [c]])
  }

  ghost predicate Linked(at: Nodes, p: string)
    requires p in at
    reads at.Values`order, at.Values`children
  {
    LinkedAs(at[p].order, at[p].children, at, p)
  }

  lemma {:induction false} Snoc(p: string, c: char, q: string, d: char)
    ensures q + [d] == p + [c] <==> q == p && d == c
    ensures (p + [c])[..|p + [c]| - 1] == p
  {
    assert (p + [c])[..|p|] == p && (p + [c])[|p|] == c;
    assert (q + [d])[..|q|] == q && (q + [d])[|q|] == d;
  }

  lemma {:induction false} LinkSelf(order: seq<char>, children: map<char, TrieNode>, at: Nodes, p: string, c: char,
                                    child: TrieNode)
    requires LinkedAs(order, children, at, p) && c !in children
    ensures LinkedAs(order + [c], children[c := child], at[p + [c] := child], p)
  {
    forall d ensures p + [d] == p + [c] <==> d == c {
      Snoc(p, c, p, d);
    }
  }

  lemma {:induction false} LinkOther(order: seq<char>, children: map<char, TrieNode>, at: Nodes, q: string,
                                     p: string, c: char, child: TrieNode)
    requires LinkedAs(order, children, at, q) && q != p
    ensures LinkedAs(order, children, at[p + [c] := child], q)
  {
    forall d ensures q + [d] != p + [c] {
      Snoc(p, c, q, d);
    }
  }

  lemma {:induction false} LinkNew(at: Nodes, p: string, c: char, child: TrieNode)
    requires (forall q :: q in at && |q| > 0 ==> q[..|q| - 1] in at) && p + [c] !in at
    ensures LinkedAs([], map[], at[p + [c] := child], p + [c])
  {
    forall d ensures p + [c] + [d] !in at && p + [c] + [d] != p + [c] {
      Snoc(p + [c], d, p, c);
    }
  }

  ghost predicate Injective(at: Nodes) {
    forall p, q :: p in at && q in at && at[p] == at[q] ==> p == q
  }

  ghost predicate Tree(at: Nodes)
    reads at.Values`order, at.Values`children
  {
    && "" in at && Injective(at)
    && (forall p :: p in at && |p| > 0 ==> p[..|p| - 1] in at)
    && (forall p :: p in at ==> Linked(at, p))
  }

  /** Payloads sit at the inserted names and nowhere else. */
  ghost predicate Terminals(at: Nodes, exports: Exports)
    reads at.Values`terminal
  {
    forall p :: p in at ==> at[p].terminal == if p in exports then Payload(exports[p]) else []
  }

  ghost predicate Spelled(at: Nodes, exports: Exports, current: string) {
    forall p :: p in at ==> p <= current || Needed(exports, p)
  }

  lemma {:induction false} ChildIn(order: seq<char>, children: map<char, TrieNode>, at: Nodes, p: string, c: char)
    requires LinkedAs(order, children, at, p)
    ensures c in children <==> p + [c] in at
    ensures c in children ==> children[c] == at[p + [c]]
  {
  }

  ghost predicate Present(at: Nodes, exports: Exports) {
    forall name :: name in exports ==> name in at
  }

  /** at' extends at by nodes that did not exist before. */
  twostate predicate Extends(at: Nodes, new at': Nodes)
    reads at'.Values`offset
  {
    && (forall p :: p in at ==> p in at' && at'[p] == at[p])
    && (forall p :: p in at' && p !in at ==> fresh(at'[p]) && at'[p].offset == 0)
  }

  lemma {:induction false} OnePath(at: Nodes, p: string, q: string)
    requires Injective(at) && p in at && q in at && p != q
    ensures at[p] != at[q]
  {
  }

  lemma {:induction false} TreeInjective(at: Nodes)
    requires Tree(at)
    ensures Injective(at)
  {
  }

  lemma {:induction false} InjectiveNew(at: Nodes, path: string, child: TrieNode)
    requires Injective(at) && forall q :: q in at ==> at[q] != child
    ensures Injective(at[path := child])
  {
  }

  lemma {:induction false} ParentsNew(at: Nodes, p: string, c: char, child: TrieNode)
    requires p in at && forall q :: q in at && |q| > 0 ==> q[..|q| - 1] in at
    ensures forall q :: q in at[p + [c] := child] && |q| > 0 ==> q[..|q| - 1] in at[p + [c] := child]
  {
    Snoc(p, c, p, c);
  }

  method AddChild(node: TrieNode, c: char, ghost at: Nodes, ghost p: string) returns (child: TrieNode, ghost at': Nodes)
    requires Tree(at) && p in at && at[p] == node && p + [c] !in at
    modifies node`order, node`children
    ensures fresh(child) && child.terminal == [] && child.offset == 0
    ensures at' == at[p + [c] := child]
    ensures Tree(at')
  {
    hide LinkedAs, Injective;
    assert Linked(at, p);
    ChildIn(node.order, node.children, at, p, c);
    child := new TrieNode();
    InjectiveNew(at, p + [c], child);
    ParentsNew(at, p, c, child);
    at' := at[p + [c] := child];
    LinkSelf(node.order, node.children, at, p, c, child);
    LinkNew(at, p, c, child);
    Snoc(p, c, p, c);
    forall q | q in at && q != p ensures at[q] != node && LinkedAs(at[q].order, at[q].children, at', q) {
      OnePath(at, q, p);
      assert Linked(at, q);
      LinkOther(at[q].order, at[q].children, at, q, p, c, child);
    }
    node.children := node.children[c := child];
    node.order := node.order + [c];
  }

  /** children.setdefault(c, TrieNode()): the child under c, made if missing. */
  method SetDefault(node: TrieNode, c: char, ghost at: Nodes, ghost p: string)
    returns (child: TrieNode, ghost at': Nodes)
    requires Tree(at) && p in at && at[p] == node
    modifies node`order, node`children
    ensures Tree(at') && p + [c] in at' && at'[p + [c]] == child
    ensures at' == at || (p + [c] !in at && at' == at[p + [c] := child] && fresh(child)
                          && child.terminal == [] && child.offset == 0)
  {
    hide LinkedAs;
    assert Linked(at, p);
    ChildIn(node.order, node.children, at, p, c);
    if c in node.children {
      child, at' := node.children[c], at;
    } else {
      child, at' := AddChild(node, c, at, p);
    }
  }

  /** Spelling out a new name keeps every path needed. */
  lemma {:induction false} SpelledAfter(at: Nodes, exports: Exports, name: string, address: nat)
    requires Spelled(at, exports, name)
    ensures Spelled(at, exports[name := address], "")
  {
    var more := exports[name := address];
    assert name in more;
    forall p | p in at ensures Needed(more, p) {
      if Needed(exports, p) {
        var n :| n in exports && p <= n;
        assert n in more;
      } else {
        assert p <= name;
      }
    }
  }

  lemma {:induction false} TerminalsKept(at: Nodes, exports: Exports, path: string, child: TrieNode)
    requires Terminals(at, exports) && path !in exports && child.terminal == []
    ensures Terminals(at[path := child], exports)
  {
  }

  lemma {:induction false} SpelledKept(at: Nodes, exports: Exports, name: string, k: nat, child: TrieNode)
    requires Spelled(at, exports, name) && k <= |name|
    ensures Spelled(at[name[..k] := child], exports, name)
  {
    hide Needed;
  }

  lemma {:induction false} NotExported(at: Nodes, exports: Exports, path: string)
    requires Present(at, exports) && path !in at
    ensures path !in exports
  {
  }

  lemma {:induction false} PresentKept(at: Nodes, exports: Exports, path: string, child: TrieNode)
    requires Present(at, exports)
    ensures Present(at[path := child], exports)
  {
  }

  lemma {:induction false} PrefixStep(name: string, k: nat)
    requires k < |name|
    ensures name[..k + 1] == name[..k] + [name[k]]
  {
  }

  lemma {:induction false} StartSpelled(at: Nodes, exports: Exports, name: string)
    requires Spelled(at, exports, "")
    ensures Spelled(at, exports, name)
  {
    hide Needed;
    forall p | p in at && !Needed(exports, p) ensures p <= name {
      assert p <= "";
    }
  }

  /** A name's node, reached character by character. */
  method Reach(root: TrieNode, name: string, ghost at: Nodes, ghost exports: Exports)
    returns (node: TrieNode, ghost at': Nodes)
    requires Tree(at) && at[""] == root && Terminals(at, exports) && Present(at, exports) && Spelled(at, exports, "")
    modifies at.Values`order, at.Values`children
    ensures Tree(at') && Extends(at, at')
    ensures name in at' && at'[name] == node
    ensures Terminals(at', exports) && Present(at', exports) && Spelled(at', exports, name)
  {
    hide Tree, Needed, Payload, Spelled, Terminals, Present;
    RootIn(at);
    node := root;
    StartSpelled(at, exports, name);
    at' := at;
    assert name[..0] == "";
    for k := 0 to |name|
      invariant Tree(at') && Extends(at, at')
      invariant name[..k] in at' && at'[name[..k]] == node
      invariant Terminals(at', exports)
      invariant Present(at', exports)
      invariant Spelled(at', exports, name)
    {
      PrefixStep(name, k);
      ghost var before := at';
      node, at' := SetDefault(node, name[k], at', name[..k]);
      if at' != before {
        NotExported(before, exports, name[..k + 1]);
        TerminalsKept(before, exports, name[..k + 1], node);
        SpelledKept(before, exports, name, k + 1, node);
        PresentKept(before, exports, name[..k + 1], node);
      }
    }
    assert name[..|name|] == name;
  }

  /** One export: walk its characters down the trie, making what is missing, and set the payload at the end. */
  method Insert(root: TrieNode, name: string, address: nat, ghost at: Nodes, ghost exports: Exports)
    returns (ghost at': Nodes)
    requires Tree(at) && at[""] == root && Terminals(at, exports) && Present(at, exports) && Spelled(at, exports, "")
    modifies at.Values`order, at.Values`children, at.Values`terminal
    ensures Tree(at') && Extends(at, at')
    ensures Terminals(at', exports[name := address])
    ensures Present(at', exports[name := address]) && Spelled(at', exports[name := address], "")
  {
    hide Tree, Injective, Spelled, Payload;
    var node;
    node, at' := Reach(root, name, at, exports);
    TreeInjective(at');
    SpelledAfter(at', exports, name, address);
    forall p | p in at' && p != name ensures at'[p] != node {
      OnePath(at', p, name);
    }
    node.terminal := Payload(address);
  }

  // ----- building -----

  /** The dictionary a list of items stands for. */
  function ExportsOf(items: seq<(string, nat)>): Exports {
    if |items| == 0 then map[]
    else ExportsOf(items[..|items| - 1])[items[|items| - 1].0 := items[|items| - 1].1]
  }

  /** A finished trie: every node spells a needed path, payloads sit exactly at the exported names. */
  ghost predicate Built(at: Nodes, exports: Exports)
    reads at.Values`order, at.Values`children, at.Values`terminal
  {
    Tree(at) && Terminals(at, exports) && Present(at, exports) && Spelled(at, exports, "")
  }

  lemma {:induction false} StartBuilt(root: TrieNode)
    requires root.terminal == [] && root.order == [] && root.children == map[]
    ensures Built(map["" := root], map[])
  {
    var at: Nodes := map["" := root];
    assert Linked(at, "");
  }

  method BuildNodes(items: seq<(string, nat)>) returns (root: TrieNode, ghost at: Nodes)
    ensures Built(at, ExportsOf(items)) && "" in at && at[""] == root
    ensures forall p :: p in at ==> fresh(at[p]) && at[p].offset == 0
  {
    hide Tree, Terminals, Present, Spelled;
    root := new TrieNode();
    at := map["" := root];
    StartBuilt(root);
    for i := 0 to |items|
      invariant Built(at, ExportsOf(items[..i])) && "" in at && at[""] == root
      invariant forall p :: p in at ==> fresh(at[p]) && at[p].offset == 0
    {
      assert items[..i + 1][..i] == items[..i];
      RootIn(at);
      at := Insert(root, items[i].0, items[i].1, at, ExportsOf(items[..i]));
      RootIn(at);
    }
    assert items[..|items|] == items;
  }

  lemma {:induction false} RootIn(at: Nodes)
    requires Tree(at)
    ensures "" in at
  {
  }

  // ----- the node list -----

  /** No path comes after one it is a prefix of: parents first, and no path twice. */
  predicate Preorder(paths: seq<string>) {
    forall i, j :: 0 <= i < j < |paths| ==> !(paths[j] <= paths[i])
  }

  lemma {:induction false} PrefixIn(at: Nodes, p: string, q: string)
    requires Tree(at) && q in at && p <= q
    ensures p in at
    decreases |q|
  {
    hide Linked;
    if |p| < |q| {
      PrefixIn(at, p, q[..|q| - 1]);
    } else {
      assert p == q;
    }
  }

  lemma {:induction false} BranchIn(at: Nodes, p: string, q: string)
    requires Tree(at) && p in at && q in at && p < q
    ensures q[|p|] in at[p].order && p + [q[|p|]] in at && p + [q[|p|]] <= q
  {
    assert p + [q[|p|]] == q[..|p| + 1];
    PrefixIn(at, p + [q[|p|]], q);
    assert Linked(at, p);
  }

  ghost function Under(at: Nodes, p: string): set<string> {
    set q | q in at && p <= q
  }

  ghost predicate Lists(nodes: seq<TrieNode>, paths: seq<string>, at: Nodes) {
    && |nodes| == |paths|
    && (forall i :: 0 <= i < |paths| ==> paths[i] in at && nodes[i] == at[paths[i]])
    && Preorder(paths)
  }

  lemma {:induction false} PreorderJoin(p: string, a: seq<string>, b: seq<string>, c: char)
    requires Preorder(a) && Preorder(b)
    requires forall i :: 0 <= i < |b| ==> p + [c] <= b[i]
    requires forall i :: 0 <= i < |a| ==> a[i] == p || (p < a[i] && a[i][|p|] != c)
    ensures Preorder(a + b)
  {
    forall i, j | 0 <= i < |a| && 0 <= j < |b| ensures !(b[j] <= a[i]) {
      assert b[j][|p|] == (p + [c])[|p|] == c;
      assert |b[j]| > |p|;
    }
    var s := a + b;
    forall i, j | 0 <= i < j < |s| ensures !(s[j] <= s[i]) {
      if i < |a| <= j {
        assert s[j] == b[j - |a|];
      }
    }
  }

  /** The whole subtrie at p. */
  ghost predicate Listing(nodes: seq<TrieNode>, paths: seq<string>, at: Nodes, p: string) {
    && Lists(nodes, paths, at) && |paths| > 0 && paths[0] == p
    && (forall i :: 0 <= i < |paths| ==> p <= paths[i])
    && (forall q :: q in Under(at, p) ==> q in paths)
  }

  /** The node at p and its branches through the characters in done. */
  ghost predicate Partial(nodes: seq<TrieNode>, paths: seq<string>, at: Nodes, p: string, done: seq<char>) {
    && Lists(nodes, paths, at) && |paths| > 0 && paths[0] == p
    && (forall i :: 0 <= i < |paths| ==> paths[i] == p || (p < paths[i] && paths[i][|p|] in done))
    && (forall q :: q in at && p < q && q[|p|] in done ==> q in paths)
  }

  lemma {:induction false} OrderChild(order: seq<char>, children: map<char, TrieNode>, at: Nodes, p: string, k: nat)
    requires LinkedAs(order, children, at, p) && k < |order|
    ensures order[k] in children && p + [order[k]] in at && children[order[k]] == at[p + [order[k]]]
    ensures order[k] !in order[..k]
  {
    assert order[k] in order;
  }

  lemma {:induction false} CoverStep(at: Nodes, p: string, order: seq<char>, k: nat, paths: seq<string>,
                                     below: seq<string>)
    requires k < |order|
    requires forall q :: q in at && p < q && q[|p|] in order[..k] ==> q in paths
    requires forall q :: q in Under(at, p + [order[k]]) ==> q in below
    ensures forall q :: q in at && p < q && q[|p|] in order[..k + 1] ==> q in paths + below
  {
    forall q | q in at && p < q && q[|p|] in order[..k + 1] ensures q in paths + below {
      if q[|p|] in order[..k] {
        assert q in paths;
      } else {
        assert order[..k + 1] == order[..k] + [order[k]];
        assert p + [order[k]] == q[..|p| + 1];
        assert q in Under(at, p + [order[k]]);
      }
    }
  }

  lemma {:induction false} PartialStep(at: Nodes, p: string, order: seq<char>, k: nat,
                                       nodes: seq<TrieNode>, paths: seq<string>, below: seq<TrieNode>,
                                       belowPaths: seq<string>)
    requires k < |order| && order[k] !in order[..k]
    requires Partial(nodes, paths, at, p, order[..k]) && Listing(below, belowPaths, at, p + [order[k]])
    ensures Partial(nodes + below, paths + belowPaths, at, p, order[..k + 1])
  {
    var c := order[k];
    forall i | 0 <= i < |belowPaths| ensures p < belowPaths[i] && belowPaths[i][|p|] == c {
      assert p + [c] <= belowPaths[i];
      assert belowPaths[i][|p|] == (p + [c])[|p|];
    }
    PreorderJoin(p, paths, belowPaths, c);
    CoverStep(at, p, order, k, paths, belowPaths);
    assert order[..k + 1] == order[..k] + [c];
  }

  lemma {:induction false} PartialDone(nodes: seq<TrieNode>, paths: seq<string>, at: Nodes, p: string)
    requires Tree(at) && p in at && Partial(nodes, paths, at, p, at[p].order)
    ensures Listing(nodes, paths, at, p)
  {
    hide Linked;
    forall q | q in Under(at, p) ensures q in paths {
      if q != p {
        BranchIn(at, p, q);
      } else {
        assert paths[0] == p;
      }
    }
  }

  lemma {:induction false} UnderShrinks(at: Nodes, p: string, c: char)
    requires p in at
    ensures Under(at, p + [c]) < Under(at, p)
  {
    assert p !in Under(at, p + [c]) && p in Under(at, p);
  }

  /** The recursive listing: the node, then its children's listings in dictionary order. */
  method Visit(node: TrieNode, ghost p: string, ghost at: Nodes)
    returns (nodes: seq<TrieNode>, ghost paths: seq<string>)
    requires Tree(at) && p in at && at[p] == node
    ensures Listing(nodes, paths, at, p)
    ensures forall n :: n in nodes <==> exists q :: q in at && p <= q && at[q] == n
    ensures forall i, j :: 0 <= i < j < |nodes| ==> nodes[i] != nodes[j]
    decreases Under(at, p)
  {
    hide LinkedAs, Partial, Listing, Under;
    nodes, paths := [node], [p];
    assert Linked(at, p);
    PartialStart(node, at, p);
    for k := 0 to |node.order|
      invariant Partial(nodes, paths, at, p, node.order[..k])
    {
      var c := node.order[k];
      OrderChild(node.order, node.children, at, p, k);
      UnderShrinks(at, p, c);
      var below;
      ghost var belowPaths;
      below, belowPaths := Visit(node.children[c], p + [c], at);
      PartialStep(at, p, node.order, k, nodes, paths, below, belowPaths);
      nodes, paths := nodes + below, paths + belowPaths;
    }
    assert node.order[..|node.order|] == node.order;
    PartialDone(nodes, paths, at, p);
    ListedNodes(nodes, paths, at, p);
  }

  /** A listing names every node below once. */
  lemma {:induction false} ListedNodes(nodes: seq<TrieNode>, paths: seq<string>, at: Nodes, p: string)
    requires Injective(at) && Listing(nodes, paths, at, p)
    ensures forall n :: n in nodes <==> exists q :: q in at && p <= q && at[q] == n
    ensures forall i, j :: 0 <= i < j < |nodes| ==> nodes[i] != nodes[j]
  {
    forall i, j | 0 <= i < j < |nodes| ensures nodes[i] != nodes[j] {
      assert !(paths[j] <= paths[i]);
    }
    forall q | q in at && p <= q ensures at[q] in nodes {
      assert q in Under(at, p);
      var i :| 0 <= i < |paths| && paths[i] == q;
      assert nodes[i] == at[q];
    }
    forall n | n in nodes ensures exists q :: q in at && p <= q && at[q] == n {
      var i :| 0 <= i < |nodes| && nodes[i] == n;
      assert at[paths[i]] == n;
    }
  }

  lemma {:induction false} PartialStart(node: TrieNode, at: Nodes, p: string)
    requires p in at && at[p] == node
    ensures forall order: seq<char> {:trigger order[..0]} :: Partial([node], [p], at, p, order[..0])
  {
  }

  // ----- the trie as a shape -----

  function InsertChar(c: char, s: seq<char>): seq<char> {
    if |s| == 0 || c <= s[0] then [c] + s else [s[0]] + InsertChar(c, s[1..])
  }

  /** sorted(), on the keys of one dictionary. */
  function SortChars(s: seq<char>): seq<char> {
    if |s| == 0 then [] else InsertChar(s[0], SortChars(s[1..]))
  }

  lemma {:induction false} InsertCharKeeps(c: char, s: seq<char>)
    requires Distinct(s) && c !in s
    ensures Distinct(InsertChar(c, s)) && |InsertChar(c, s)| == |s| + 1
    ensures forall d :: d in InsertChar(c, s) <==> d == c || d in s
    decreases |s|
  {
    if !(|s| == 0 || c <= s[0]) {
      InsertCharKeeps(c, s[1..]);
      assert s == [s[0]] + s[1..];
      assert s[0] !in s[1..];
    }
  }

  lemma {:induction false} SortCharsKeeps(s: seq<char>)
    requires Distinct(s)
    ensures Distinct(SortChars(s)) && |SortChars(s)| == |s|
    ensures forall d :: d in SortChars(s) <==> d in s
    decreases |s|
  {
    if |s| > 0 {
      SortCharsKeeps(s[1..]);
      assert s == [s[0]] + s[1..];
      assert s[0] !in s[1..];
      InsertCharKeeps(s[0], SortChars(s[1..]));
    }
  }

  ghost function IndexOf(paths: seq<string>, q: string): (i: nat)
    requires q in paths
    ensures i < |paths| && paths[i] == q
  {
    var i :| 0 <= i < |paths| && paths[i] == q;
    i
  }

  /** Every child named by keys is listed. */
  ghost predicate ChildrenListed(keys: seq<char>, paths: seq<string>, p: string) {
    forall e :: 0 <= e < |keys| ==> p + [keys[e]] in paths
  }

  ghost function EdgesFor(keys: seq<char>, paths: seq<string>, p: string): (r: seq<Edge>)
    requires ChildrenListed(keys, paths, p)
    ensures |r| == |keys|
    ensures forall e :: 0 <= e < |keys| ==> r[e] == Edge(keys[e], IndexOf(paths, p + [keys[e]]))
  {
    seq(|keys|, e requires 0 <= e < |keys| => Edge(keys[e], IndexOf(paths, p + [keys[e]])))
  }

  lemma {:induction false} KeysListed(nodes: seq<TrieNode>, paths: seq<string>, at: Nodes, i: nat)
    requires Tree(at) && Listing(nodes, paths, at, "") && i < |nodes|
    ensures Distinct(nodes[i].order) && ChildrenListed(SortChars(nodes[i].order), paths, paths[i])
    ensures forall c :: c in SortChars(nodes[i].order) <==> c in nodes[i].children
    ensures forall c :: c in nodes[i].children ==> paths[i] + [c] in at && nodes[i].children[c] == at[paths[i] + [c]]
    ensures forall c :: paths[i] + [c] in at ==> c in nodes[i].children
  {
    assert Linked(at, paths[i]);
    SortCharsKeeps(nodes[i].order);
    var keys := SortChars(nodes[i].order);
    forall e | 0 <= e < |keys| ensures paths[i] + [keys[e]] in paths {
      assert keys[e] in keys;
      assert paths[i] + [keys[e]] in Under(at, "");
    }
  }

  /** Node i of the heap is node i of the shape, its children named by their place in the listing. */
  ghost predicate NodeMirrors(nodes: seq<TrieNode>, shape: Shape, i: nat)
    requires |shape| == |nodes| && i < |nodes|
    reads nodes`terminal, nodes`order, nodes`children
  {
    var keys, edges := SortChars(nodes[i].order), shape[i].edges;
    && nodes[i].terminal == shape[i].terminal && |edges| == |keys|
    && forall e :: 0 <= e < |edges| ==>
      && edges[e].ch == keys[e] && keys[e] in nodes[i].children
      && edges[e].child < |nodes| && nodes[i].children[keys[e]] == nodes[edges[e].child]
  }

  ghost predicate Mirrors(nodes: seq<TrieNode>, shape: Shape)
    reads nodes`terminal, nodes`order, nodes`children
  {
    |shape| == |nodes| && forall i :: 0 <= i < |nodes| ==> NodeMirrors(nodes, shape, i)
  }

  /** The node as a shape lists it. */
  ghost predicate Shaped(nodes: seq<TrieNode>, paths: seq<string>, n: Node, i: nat)
    requires i < |nodes| && |paths| == |nodes|
    reads nodes`terminal, nodes`order
  {
    && n.terminal == nodes[i].terminal
    && ChildrenListed(SortChars(nodes[i].order), paths, paths[i])
    && n.edges == EdgesFor(SortChars(nodes[i].order), paths, paths[i])
  }

  lemma {:induction false} ShapeNode(nodes: seq<TrieNode>, paths: seq<string>, at: Nodes, i: nat) returns (n: Node)
    requires Tree(at) && Listing(nodes, paths, at, "") && i < |nodes|
    ensures Shaped(nodes, paths, n, i)
  {
    KeysListed(nodes, paths, at, i);
    n := Node(nodes[i].terminal, EdgesFor(SortChars(nodes[i].order), paths, paths[i]));
  }

  lemma {:induction false} MakeShape(nodes: seq<TrieNode>, paths: seq<string>, at: Nodes) returns (shape: Shape)
    requires Tree(at) && Listing(nodes, paths, at, "")
    ensures |shape| == |nodes| && forall i :: 0 <= i < |nodes| ==> Shaped(nodes, paths, shape[i], i)
  {
    hide Tree, Shaped;
    shape := [];
    while |shape| < |nodes|
      invariant |shape| <= |nodes| && forall i :: 0 <= i < |shape| ==> Shaped(nodes, paths, shape[i], i)
    {
      var n := ShapeNode(nodes, paths, at, |shape|);
      shape := shape + [n];
    }
  }

  lemma {:induction false} ShapedMirrors(nodes: seq<TrieNode>, paths: seq<string>, at: Nodes, shape: Shape, i: nat)
    requires Tree(at) && Listing(nodes, paths, at, "") && |shape| == |nodes| && i < |nodes|
    requires Shaped(nodes, paths, shape[i], i)
    ensures NodeMirrors(nodes, shape, i)
  {
    hide Tree, Distinct;
    KeysListed(nodes, paths, at, i);
    var keys := SortChars(nodes[i].order);
    forall e | 0 <= e < |keys| ensures keys[e] in nodes[i].children {
      assert keys[e] in keys;
    }
  }

  lemma {:induction false} ShapedHasEdge(nodes: seq<TrieNode>, paths: seq<string>, at: Nodes, n: Node,
                                         exports: Exports, i: nat, name: string)
    requires Tree(at) && Present(at, exports) && Listing(nodes, paths, at, "") && i < |nodes|
    requires Shaped(nodes, paths, n, i)
    requires name in exports && paths[i] < name
    ensures HasEdge(n, name[|paths[i]|])
  {
    hide Linked;
    KeysListed(nodes, paths, at, i);
    var keys, c := SortChars(nodes[i].order), name[|paths[i]|];
    BranchIn(at, paths[i], name);
    assert c in keys;
    var e :| 0 <= e < |keys| && keys[e] == c;
    assert n.edges[e].ch == c;
  }

  lemma {:induction false} ShapedSpells(nodes: seq<TrieNode>, paths: seq<string>, at: Nodes, shape: Shape, i: nat)
    requires Tree(at) && Listing(nodes, paths, at, "") && |shape| == |nodes| && i < |nodes|
    requires Shaped(nodes, paths, shape[i], i)
    requires ChildrenAfter(shape)
    ensures DistinctEdges(shape[i]) && EdgesSpell(shape, paths, i)
  {
    hide Tree;
    KeysListed(nodes, paths, at, i);
    SortCharsKeeps(nodes[i].order);
  }

  /** The shape represents the exports. */
  lemma {:induction false} ShapedNodeRight(nodes: seq<TrieNode>, paths: seq<string>, at: Nodes, shape: Shape,
                                           exports: Exports, i: nat)
    requires Built(at, exports) && Listing(nodes, paths, at, "") && |shape| == |nodes| && i < |nodes|
    requires Shaped(nodes, paths, shape[i], i)
    requires ChildrenAfter(shape)
    ensures NodeRight(shape, paths, exports, i)
  {
    hide Tree, Spelled, Present, DistinctEdges, EdgesSpell, HasEdge, EdgesFor, Payload;
    ShapedSpells(nodes, paths, at, shape, i);
    forall name | name in exports && paths[i] < name ensures HasEdge(shape[i], name[|paths[i]|]) {
      ShapedHasEdge(nodes, paths, at, shape[i], exports, i, name);
    }
    assert paths[i] in at && nodes[i] == at[paths[i]];
  }

  lemma {:induction false} ShapedChildAfter(nodes: seq<TrieNode>, paths: seq<string>, at: Nodes, shape: Shape,
                                            i: nat, e: nat)
    requires Listing(nodes, paths, at, "") && |shape| == |nodes| && i < |nodes| && Shaped(nodes, paths, shape[i], i)
    requires e < |shape[i].edges|
    ensures i < shape[i].edges[e].child < |shape|
  {
    var j := shape[i].edges[e].child;
    assert paths[j] == paths[i] + [shape[i].edges[e].ch];
    assert paths[i] <= paths[j] && paths[i] != paths[j];
  }

  /** The heap trie has a shape that mirrors it and represents the exports. */
  lemma {:induction false} TrieShape(nodes: seq<TrieNode>, paths: seq<string>, at: Nodes, exports: Exports)
    returns (shape: Shape)
    requires Built(at, exports) && Listing(nodes, paths, at, "")
    ensures Mirrors(nodes, shape) && Represents(shape, paths, exports)
  {
    hide NodeMirrors, NodeRight, Shaped, Tree, Terminals, Present;
    shape := MakeShape(nodes, paths, at);
    forall i, e | 0 <= i < |shape| && 0 <= e < |shape[i].edges| ensures i < shape[i].edges[e].child < |shape| {
      ShapedChildAfter(nodes, paths, at, shape, i, e);
    }
    forall i | 0 <= i < |nodes| ensures NodeMirrors(nodes, shape, i) && NodeRight(shape, paths, exports, i) {
      ShapedMirrors(nodes, paths, at, shape, i);
      ShapedNodeRight(nodes, paths, at, shape, exports, i);
    }
    forall i | 0 < i < |shape| ensures Needed(exports, paths[i]) {
      assert paths[i] in at;
      assert !(paths[i] <= paths[0]);
    }
  }

  // ----- encoding and layout, in place -----

  datatype TrieError = TooManyChildren | NoConvergence

  const PASSES: nat := 32

  lemma {:induction false} EdgesSnoc(edges: seq<Edge>, off: Offsets, k: nat)
    requires ChildrenIn(edges, |off|) && k < |edges|
    ensures EdgesBytes(edges[..k + 1], off) == EdgesBytes(edges[..k], off) + EdgeBytes(edges[k], off)
    decreases |edges|
  {
    hide EdgeBytes;
    if k == 0 {
      assert edges[..1][1..] == [];
      assert edges[..0] == [];
    } else {
      EdgesSnoc(edges[1..], off, k - 1);
      assert edges[..k + 1][1..] == edges[1..][..k];
      assert edges[..k][1..] == edges[1..][..k - 1];
    }
  }

  /** The children's offsets, as node i will store them. */
  ghost predicate StoresFrom(nodes: seq<TrieNode>, shape: Shape, i: nat, off: Offsets)
    requires |shape| == |nodes| == |off| && i < |nodes|
    reads nodes`offset
  {
    forall e :: 0 <= e < |shape[i].edges| && shape[i].edges[e].child < |nodes| ==>
      nodes[shape[i].edges[e].child].offset == off[shape[i].edges[e].child]
  }

  method EncodeHeapNode(node: TrieNode, ghost nodes: seq<TrieNode>, ghost shape: Shape, ghost i: nat,
                        ghost off: Offsets)
    returns (r: Option<seq<byte>>)
    requires |shape| == |nodes| == |off| && i < |nodes| && nodes[i] == node
    requires NodeMirrors(nodes, shape, i) && ChildrenIn(shape[i].edges, |off|) && StoresFrom(nodes, shape, i, off)
    ensures r == if |shape[i].edges| > 255 then None else Some(EncodeNode(shape[i], off))
  {
    hide Utf8.Encode, Uleb;
    var keys := SortChars(node.order);
    var size := EncodeUleb(|node.terminal|);
    if |keys| > 255 {
      return None;
    }
    ghost var edges := shape[i].edges;
    var tail: seq<byte> := [];
    assert edges[..0] == [];
    for e := 0 to |keys|
      invariant tail == EdgesBytes(edges[..e], off)
    {
      var child := node.children[keys[e]];
      var uleb := EncodeUleb(child.offset);
      EdgesSnoc(edges, off, e);
      tail := tail + (Utf8.Encode(keys[e]) + [0] + uleb.value);
    }
    assert edges[..|keys|] == edges;
    return Some(size.value + node.terminal + [|keys|] + tail);
  }

  ghost predicate OffsetsAre(nodes: seq<TrieNode>, off: Offsets)
    reads nodes`offset
  {
    |off| == |nodes| && forall i :: 0 <= i < |nodes| ==> nodes[i].offset == off[i]
  }

  predicate DistinctNodes(nodes: seq<TrieNode>) {
    forall i, j :: 0 <= i < j < |nodes| ==> nodes[i] != nodes[j]
  }

  lemma {:induction false} NextStarts(shape: Shape, off: Offsets, i: nat)
    requires ChildrenAfter(shape) && |off| == |shape| && i <= |shape|
    ensures i == 0 ==> Emit(shape, off, i) == []
    ensures i < |shape| ==> Next(shape, off)[i] == |Emit(shape, off, i)|
    ensures i < |shape| ==> Emit(shape, off, i + 1) == Emit(shape, off, i) + EncodeNode(shape[i], off)
  {
  }

  /**
   One pass: offsets are rewritten as the nodes are measured. Children come later in the list, so every node is measured
   with the offsets its children had before the pass.
   */
  method LayoutPass(nodes: seq<TrieNode>, ghost shape: Shape, ghost off: Offsets) returns (r: Option<bool>)
    requires Mirrors(nodes, shape) && ChildrenAfter(shape) && DistinctNodes(nodes) && OffsetsAre(nodes, off)
    modifies nodes`offset
    ensures r.Some? <==> NarrowEdges(shape)
    ensures r.Some? ==> OffsetsAre(nodes, Next(shape, off)) && r.value == (Next(shape, off) != off)
  {
    hide NodeMirrors, EncodeNode, Emit, Next;
    var cursor, changed := 0, false;
    ghost var next := Next(shape, off);
    NextStarts(shape, off, 0);
    for i := 0 to |nodes|
      invariant cursor == |Emit(shape, off, i)|
      invariant forall k :: 0 <= k < |nodes| ==> nodes[k].offset == if k < i then next[k] else off[k]
      invariant changed <==> exists k :: 0 <= k < i && next[k] != off[k]
      invariant forall k :: 0 <= k < i ==> |shape[k].edges| <= 255
    {
      NextStarts(shape, off, i);
      if nodes[i].offset != cursor {
        nodes[i].offset := cursor;
        changed := true;
      }
      assert NodeMirrors(nodes, shape, i);
      var bytes := EncodeHeapNode(nodes[i], nodes, shape, i, off);
      if bytes.None? {
        return None;
      }
      cursor := cursor + |bytes.value|;
    }
    assert changed ==> next != off;
    return Some(changed);
  }

  function LaidOut(shape: Shape): (r: Result<Offsets, TrieError>)
    requires ChildrenAfter(shape)
    ensures r.Ok? ==> |r.value| == |shape|
  {
    if !NarrowEdges(shape) then Err(TooManyChildren)
    else
      match Converge(shape, Origin(|shape|), PASSES)
      case None => Err(NoConvergence)
      case Some(off) => Ok(off)
  }

  /** Passes until one changes nothing, at most thirty-two. */
  method LayOut(nodes: seq<TrieNode>, ghost shape: Shape) returns (r: Result<(), TrieError>)
    requires Mirrors(nodes, shape) && ChildrenAfter(shape) && DistinctNodes(nodes) && OffsetsAre(nodes, Origin(|nodes|))
    modifies nodes`offset
    ensures match LaidOut(shape)
      case Err(e) => r == Err(e)
      case Ok(off) => r == Ok(()) && OffsetsAre(nodes, off)
  {
    hide Next, NodeMirrors, Emit;
    ghost var off := Origin(|nodes|);
    for pass := 0 to PASSES
      invariant |off| == |shape| && OffsetsAre(nodes, off)
      invariant pass > 0 ==> NarrowEdges(shape)
      invariant Converge(shape, off, PASSES - pass) == Converge(shape, Origin(|shape|), PASSES)
    {
      var changed := LayoutPass(nodes, shape, off);
      if changed.None? {
        return Err(TooManyChildren);
      }
      if !changed.value {
        return Ok(());
      }
      off := Next(shape, off);
    }
    return Err(NoConvergence);
  }

  method Serialize(nodes: seq<TrieNode>, ghost shape: Shape, ghost off: Offsets) returns (out: seq<byte>)
    requires Mirrors(nodes, shape) && ChildrenAfter(shape) && NarrowEdges(shape) && OffsetsAre(nodes, off)
    ensures out == Emit(shape, off, |shape|)
  {
    hide NodeMirrors, EncodeNode;
    out := [];
    for i := 0 to |nodes|
      invariant out == Emit(shape, off, i)
    {
      assert NodeMirrors(nodes, shape, i);
      var bytes := EncodeHeapNode(nodes[i], nodes, shape, i, off);
      out := out + bytes.value;
    }
  }

  /** What serialization gives for a trie of this shape. */
  function Serialized(shape: Shape): Result<seq<byte>, TrieError>
    requires ChildrenAfter(shape)
  {
    match LaidOut(shape)
    case Err(e) => Err(e)
    case Ok(off) => Ok(Emit(shape, off, |shape|))
  }

  lemma {:induction false} EdgesOfNames(shape: Shape, paths: seq<string>, exports: Exports)
    requires Represents(shape, paths, exports) && NulFreeNames(exports)
    ensures EdgesNoNul(shape)
  {
    hide HasEdge;
    forall i, e | 0 <= i < |shape| && 0 <= e < |shape[i].edges| ensures shape[i].edges[e].ch != '\0' {
      assert NodeRight(shape, paths, exports, i);
      var child := shape[i].edges[e].child;
      assert Needed(exports, paths[child]);
      var name :| name in exports && paths[child] <= name;
      assert name[|paths[i]|] == paths[child][|paths[i]|] == shape[i].edges[e].ch;
    }
  }

  /** Serialized bytes answer every lookup with the map the trie represents. */
  lemma {:induction false} SerializedAnswers(shape: Shape, paths: seq<string>, exports: Exports, q: seq<byte>)
    requires Represents(shape, paths, exports) && NulFreeNames(exports) && Serialized(shape).Ok?
    ensures Answers(exports, q, Walk(Serialized(shape).value, 0, q))
  {
    hide NodeRight, Next, Emit, Walk, Answers, Needed;
    EdgesOfNames(shape, paths, exports);
    var bound := RoomyLayout(shape);
    ConvergesBelow(shape, Origin(|shape|), PASSES, bound);
    LookupIsMap(shape, paths, exports, LaidOut(shape).value, q);
  }

  /** The cap on passes never fires below the size limit: there, only a node with over 255 children can fail. */
  lemma {:induction false} SmallSerializes(shape: Shape, paths: seq<string>, exports: Exports)
    requires Represents(shape, paths, exports) && Sorting.NoRepeats(paths) && TrieCap.Small(shape)
    ensures Serialized(shape).Ok? <==> NarrowEdges(shape)
  {
    hide NodeRight, TrieCap.Small, Converge, Emit;
    TrieCap.ExportsConverge(shape, paths, exports, PASSES);
  }

  lemma {:induction false} ListedPaths(nodes: seq<TrieNode>, paths: seq<string>, at: Nodes, p: string)
    requires Listing(nodes, paths, at, p)
    ensures Sorting.NoRepeats(paths)
  {
    forall i, j | 0 <= i < j < |paths| ensures paths[i] != paths[j] {
      assert !(paths[j] <= paths[i]);
    }
  }

  /**
   The serializer, from the items of the export dictionary. When it succeeds, the bytes answer every dyld lookup with
   that dictionary. It fails for a node with over 255 children or a layout not settled after thirty-two passes; the
   second cannot happen to a trie under two mebibytes.
   */
  method BuildExportTrie(items: seq<(string, nat)>)
    returns (r: Result<seq<byte>, TrieError>, ghost shape: Shape, ghost paths: seq<string>)
    ensures Represents(shape, paths, ExportsOf(items)) && Sorting.NoRepeats(paths)
    ensures r == Serialized(shape)
    ensures TrieCap.Small(shape) ==> (r.Ok? <==> NarrowEdges(shape))
    ensures r.Ok? && NulFreeNames(ExportsOf(items)) ==> forall q :: Answers(ExportsOf(items), q, Walk(r.value, 0, q))
  {
    hide Walk, Answers, Tree, Terminals, Present, Spelled, Represents, NodeMirrors, TrieCap.Small;
    var root;
    ghost var at;
    root, at := BuildNodes(items);
    RootIn(at);
    var nodes;
    nodes, paths := Visit(root, "", at);
    shape := TrieShape(nodes, paths, at, ExportsOf(items));
    RepresentsOrdered(shape, paths, ExportsOf(items));
    ListedPaths(nodes, paths, at, "");
    if TrieCap.Small(shape) {
      SmallSerializes(shape, paths, ExportsOf(items));
    }
    var laid := LayOut(nodes, shape);
    if laid.Err? {
      return Err(laid.error), shape, paths;
    }
    var out := Serialize(nodes, shape, LaidOut(shape).value);
    r := Ok(out);
    if NulFreeNames(ExportsOf(items)) {
      forall q ensures Answers(ExportsOf(items), q, Walk(out, 0, q)) {
        SerializedAnswers(shape, paths, ExportsOf(items), q);
      }
    }
  }

  lemma {:induction false} RepresentsOrdered(shape: Shape, paths: seq<string>, exports: Exports)
    requires Represents(shape, paths, exports)
    ensures ChildrenAfter(shape)
  {
  }
}
