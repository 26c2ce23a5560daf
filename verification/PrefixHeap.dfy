/** The nodes of mjl_prefixtree.c in memory, with their parent links, seen as a
    map from nodes to their fields. A Focus is a subtree with the path above it,
    parent links included. A lemma for each of the four ways to place a prefix
    says that the map after the relinking holds the tree with the subtree that
    is to stand there; the trees themselves, and what is true of them, are in
    PrefixTrie. */
module PrefixHeap {
  import opened Wrappers
  import opened Ip4Bits
  import opened PrefixTrie

  class PrefixNode {
    var pref: Option<Prefix>
    var parent: PrefixNode?
    var left: PrefixNode?
    var right: PrefixNode?
    var bit: nat

    /** prefixtree_node_alloc. */
    constructor (pref: Option<Prefix>, bit: nat)
      ensures this.pref == pref && this.bit == bit && parent == null && left == null && right == null
    {
      this.pref, this.bit := pref, bit;
      parent, left, right := null, null, null;
    }
  }

  type NodeTree = Tree<PrefixNode>
  type Path = seq<Frame<PrefixNode>>

  datatype Rec = Rec(pref: Option<Prefix>, parent: PrefixNode?, left: PrefixNode?, right: PrefixNode?, bit: nat)
  type Heap = map<PrefixNode, Rec>

  ghost function Snap(nodes: set<PrefixNode>): (h: Heap)
    reads nodes
    ensures h.Keys == nodes
    ensures forall n :: n in nodes ==> h[n] == Rec(n.pref, n.parent, n.left, n.right, n.bit)
  {
    map n | n in nodes :: Rec(n.pref, n.parent, n.left, n.right, n.bit)
  }

  function Link(r: Rec, left: bool): PrefixNode? {
    if left then r.left else r.right
  }

  function Turn(r: Rec, left: bool, v: PrefixNode?): Rec {
    if left then r.(left := v) else r.(right := v)
  }

  /** The pointer x stands for the tree t below the node parent. */
  ghost predicate Rep(h: Heap, t: NodeTree, x: PrefixNode?, parent: PrefixNode?) {
    match t
    case Leaf => x == null
    case Node(n, _, bit, pref, l, r) =>
      && x == n && n in h && h[n].bit == bit && h[n].pref == pref && h[n].parent == parent
      && Rep(h, l, h[n].left, n) && Rep(h, r, h[n].right, n)
  }

  function Top(path: Path): PrefixNode? {
    if path == [] then null else path[|path| - 1].node
  }

  /** The nodes of the path are linked down to v, and back up. */
  ghost predicate PathRep(h: Heap, path: Path, v: PrefixNode?) {
    path != [] ==>
      var f, up := path[|path| - 1], path[..|path| - 1];
      && f.node in h && h[f.node].bit == f.bit && h[f.node].pref == f.pref && h[f.node].parent == Top(up)
      && Link(h[f.node], f.wentLeft) == v && Rep(h, f.other, Link(h[f.node], !f.wentLeft), f.node)
      && PathRep(h, up, f.node)
  }

  ghost predicate Apart(t: NodeTree, path: Path) {
    Distinct(t) && DistinctPath(path) && Nodes(t) !! PathNodes(path)
  }

  ghost predicate Focus(h: Heap, t: NodeTree, x: PrefixNode?, path: Path) {
    Rep(h, t, x, Top(path)) && PathRep(h, path, x) && Apart(t, path)
  }

  ghost predicate Agrees(h: Heap, g: Heap, s: set<PrefixNode>) {
    forall n :: n in s && n in h ==> n in g && g[n] == h[n]
  }

  lemma {:induction false} RepKeep(h: Heap, g: Heap, t: NodeTree, x: PrefixNode?, parent: PrefixNode?)
    requires Rep(h, t, x, parent) && Agrees(h, g, Nodes(t))
    ensures Rep(g, t, x, parent)
  {
    if t.Node? {
      RepKeep(h, g, t.left, h[t.node].left, t.node);
      RepKeep(h, g, t.right, h[t.node].right, t.node);
    }
  }

  lemma {:induction false} PathKeep(h: Heap, g: Heap, path: Path, v: PrefixNode?)
    requires PathRep(h, path, v) && Agrees(h, g, PathNodes(path))
    ensures PathRep(g, path, v)
    decreases |path|
  {
    if path != [] {
      var f := path[|path| - 1];
      RepKeep(h, g, f.other, Link(h[f.node], !f.wentLeft), f.node);
      PathKeep(h, g, path[..|path| - 1], f.node);
    }
  }

  lemma {:induction false} RepNodes(h: Heap, t: NodeTree, x: PrefixNode?, parent: PrefixNode?)
    requires Rep(h, t, x, parent)
    ensures Nodes(t) <= h.Keys && (x == null <==> t.Leaf?) && (t.Node? ==> x == t.node && x in Nodes(t))
  {
    if t.Node? {
      RepNodes(h, t.left, h[t.node].left, t.node);
      RepNodes(h, t.right, h[t.node].right, t.node);
    }
  }

  lemma {:induction false} PathInHeap(h: Heap, path: Path, v: PrefixNode?)
    requires PathRep(h, path, v)
    ensures PathNodes(path) <= h.Keys
    decreases |path|
  {
    if path != [] {
      var f := path[|path| - 1];
      RepNodes(h, f.other, Link(h[f.node], !f.wentLeft), f.node);
      PathInHeap(h, path[..|path| - 1], f.node);
    }
  }

  // ---------- Moving the focus ----------

  lemma FocusDown(h: Heap, t: NodeTree, path: Path, left: bool)
    requires t.Node? && Focus(h, t, t.node, path)
    ensures t.node in h && h[t.node].bit == t.bit && h[t.node].pref == t.pref && h[t.node].parent == Top(path)
    ensures Link(h[t.node], left) == null <==> Child(t, left).Leaf?
    ensures Focus(h, Child(t, left), Link(h[t.node], left), path + [FrameOf(t, left)])
  {
    var f := FrameOf(t, left);
    assert (path + [f])[..|path|] == path;
    assert PathNodes(path + [f]) == {f.node} + Nodes(f.other) + PathNodes(path);
    RepNodes(h, Child(t, left), Link(h[t.node], left), t.node);
  }

  lemma FocusUp(h: Heap, t: NodeTree, x: PrefixNode?, path: Path)
    requires path != [] && Focus(h, t, x, path)
    ensures var f := path[|path| - 1];
            f.node in h && h[f.node].bit == f.bit &&
            Focus(h, Under(f, t), f.node, path[..|path| - 1])
  {
    var f := path[|path| - 1];
    assert PathNodes(path) == {f.node} + Nodes(f.other) + PathNodes(path[..|path| - 1]);
  }

  // The pointer to the whole tree when x hangs below the path.
  function Root(path: Path, x: PrefixNode?): PrefixNode? {
    if path == [] then x else path[0].node
  }

  /** The whole tree is in memory when a subtree and its path are. */
  lemma {:induction false} FocusPlug(h: Heap, t: NodeTree, x: PrefixNode?, path: Path)
    requires Focus(h, t, x, path)
    ensures Rep(h, Plug(t, path), Root(path, x), null) && Distinct(Plug(t, path))
    ensures Nodes(Plug(t, path)) == Nodes(t) + PathNodes(path)
    decreases |path|
  {
    PlugNodes(t, path);
    if path != [] {
      FocusUp(h, t, x, path);
      FocusPlug(h, Under(path[|path| - 1], t), path[|path| - 1].node, path[..|path| - 1]);
    }
  }

  // ---------- Insertions in memory ----------

  /** Memory after v has taken the place of what hangs below the path. */
  function Hung(h: Heap, path: Path, v: PrefixNode): Heap
    requires path != [] ==> path[|path| - 1].node in h
  {
    if path == [] then h
    else
      var f := path[|path| - 1];
      h[f.node := Turn(h[f.node], f.wentLeft, v)]
  }

  lemma HungPath(h: Heap, path: Path, x: PrefixNode?, v: PrefixNode)
    requires PathRep(h, path, x) && DistinctPath(path)
    ensures path != [] ==> path[|path| - 1].node in h
    ensures PathRep(Hung(h, path, v), path, v)
    ensures forall n :: n in h && n !in PathNodes(path) ==> n in Hung(h, path, v) && Hung(h, path, v)[n] == h[n]
  {
    if path != [] {
      var f := path[|path| - 1];
      var g := Hung(h, path, v);
      RepKeep(h, g, f.other, Link(h[f.node], !f.wentLeft), f.node);
      PathKeep(h, g, path[..|path| - 1], f.node);
    }
  }

  // the node gets its prefix
  lemma SetFocus(h: Heap, x: NodeTree, path: Path, p: Prefix)
    requires x.Node? && Focus(h, x, x.node, path)
    ensures x.node in h
    ensures var u: NodeTree := Node(x.node, x.net, x.bit, Some(p), x.left, x.right);
            Focus(h[x.node := h[x.node].(pref := Some(p))], u, x.node, path)
  {
    var g := h[x.node := h[x.node].(pref := Some(p))];
    RepKeep(h, g, x.left, h[x.node].left, x.node);
    RepKeep(h, g, x.right, h[x.node].right, x.node);
    PathKeep(h, g, path, x.node);
    var u: NodeTree := Node(x.node, x.net, x.bit, Some(p), x.left, x.right);
    assert Nodes(u) == Nodes(x);
  }

  // a new node below it
  function Below(h: Heap, x: PrefixNode, left: bool, n: PrefixNode, p: Prefix): Heap
    requires x in h
  {
    h[n := Rec(Some(p), x, null, null, p.len)][x := Turn(h[x], left, n)]
  }

  lemma BelowFocus(h: Heap, x: NodeTree, path: Path, p: Prefix, n: PrefixNode, left: bool)
    requires x.Node? && Focus(h, x, x.node, path) && n !in h && Child(x, left).Leaf?
    ensures x.node in h
    ensures var u := if left then Node(x.node, x.net, x.bit, x.pref, Fresh(n, p), x.right)
                     else Node(x.node, x.net, x.bit, x.pref, x.left, Fresh(n, p));
            Focus(Below(h, x.node, left, n, p), u, x.node, path) && Nodes(u) == Nodes(x) + {n}
  {
    var g := Below(h, x.node, left, n, p);
    RepNodes(h, x, x.node, Top(path));
    PathInHeap(h, path, x.node);
    RepKeep(h, g, Child(x, !left), Link(h[x.node], !left), x.node);
    PathKeep(h, g, path, x.node);
    assert Nodes(Fresh(n, p)) == {n} && Distinct(Fresh(n, p)) && Rep(g, Fresh(n, p), n, x.node);
  }

  // a new node above it
  function Above(h: Heap, x: PrefixNode, path: Path, left: bool, n: PrefixNode, p: Prefix): Heap
    requires x in h && (path != [] ==> path[|path| - 1].node in h)
  {
    Hung(h[n := Turn(Rec(Some(p), Top(path), null, null, p.len), left, x)][x := h[x].(parent := n)], path, n)
  }

  lemma Reparent(h: Heap, g: Heap, x: NodeTree, parent: PrefixNode?, n: PrefixNode)
    requires x.Node? && Distinct(x) && Rep(h, x, x.node, parent)
    requires x.node in g && g[x.node] == h[x.node].(parent := n) && Agrees(h, g, Nodes(x) - {x.node})
    ensures Rep(g, x, x.node, n)
  {
    RepKeep(h, g, x.left, h[x.node].left, x.node);
    RepKeep(h, g, x.right, h[x.node].right, x.node);
  }

  lemma AboveFocus(h: Heap, x: NodeTree, path: Path, p: Prefix, n: PrefixNode, left: bool)
    requires x.Node? && Focus(h, x, x.node, path) && n !in h
    ensures x.node in h && (path != [] ==> path[|path| - 1].node in h)
    ensures var u: NodeTree := if left then Node(n, p.net, p.len, Some(p), x, Leaf)
                               else Node(n, p.net, p.len, Some(p), Leaf, x);
            Focus(Above(h, x.node, path, left, n, p), u, n, path) && Nodes(u) == Nodes(x) + {n}
  {
    RepNodes(h, x, x.node, Top(path));
    PathInHeap(h, path, x.node);
    var h1 := h[n := Turn(Rec(Some(p), Top(path), null, null, p.len), left, x.node)][x.node := h[x.node].(parent := n)];
    PathKeep(h, h1, path, x.node);
    HungPath(h1, path, x.node, n);
    Reparent(h, Hung(h1, path, n), x, Top(path), n);
  }

  // a new branch node above it and the new node
  function Branched(h: Heap, x: PrefixNode, path: Path, left: bool, n: PrefixNode, g: PrefixNode, p: Prefix,
                    bit: nat): Heap
    requires x in h && (path != [] ==> path[|path| - 1].node in h)
  {
    var h1 := h[n := Rec(Some(p), g, null, null, p.len)][x := h[x].(parent := g)];
    Hung(h1[g := Turn(Turn(Rec(None, Top(path), null, null, bit), left, n), !left, x)], path, g)
  }

  lemma BranchedFocus(h: Heap, x: NodeTree, path: Path, p: Prefix, bit: nat, n: PrefixNode, g: PrefixNode, left: bool)
    requires x.Node? && Focus(h, x, x.node, path) && n !in h && g !in h && n != g && left == GoesLeft(p.net, bit)
    ensures x.node in h && (path != [] ==> path[|path| - 1].node in h)
    ensures var u: NodeTree := Forked(x, p, bit, n, g);
            Focus(Branched(h, x.node, path, left, n, g, p, bit), u, g, path) && Nodes(u) == Nodes(x) + {n, g}
  {
    RepNodes(h, x, x.node, Top(path));
    PathInHeap(h, path, x.node);
    var h1 := h[n := Rec(Some(p), g, null, null, p.len)][x.node := h[x.node].(parent := g)];
    var h2 := h1[g := Turn(Turn(Rec(None, Top(path), null, null, bit), left, n), !left, x.node)];
    PathKeep(h, h2, path, x.node);
    HungPath(h2, path, x.node, g);
    var r := Hung(h2, path, g);
    Reparent(h, r, x, Top(path), g);
    assert Nodes(Fresh(n, p)) == {n} && Distinct(Fresh(n, p)) && Rep(r, Fresh(n, p), n, g);
  }
}
