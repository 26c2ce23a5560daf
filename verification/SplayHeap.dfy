/** The nodes of mjl_splaytree.c in memory, seen as a map from nodes to their
    fields: when they hold a tree, when they hold the path above a subtree, and
    what rotations do to them. A Focus is a subtree with the path above it, and
    while a node is splayed the link above the subtree is stale: it still leads
    to the node that was there before, as in the source, which turns it in the
    next round. */
module SplayHeap {
  import opened SplayTree

  class SplayNode {
    const item: Item
    var left: SplayNode?
    var right: SplayNode?

    constructor (item: Item)
      ensures this.item == item && left == null && right == null
    {
      this.item := item;
      left, right := null, null;
    }
  }

  type NodeTree = Tree<SplayNode>
  type Path = seq<Frame<SplayNode>>

  datatype Rec = Rec(item: Item, left: SplayNode?, right: SplayNode?)
  type Heap = map<SplayNode, Rec>

  ghost function Snap(nodes: set<SplayNode>): (h: Heap)
    reads nodes
    ensures h.Keys == nodes
    ensures forall n :: n in nodes ==> h[n] == Rec(n.item, n.left, n.right)
  {
    map n | n in nodes :: Rec(n.item, n.left, n.right)
  }

  function Link(r: Rec, left: bool): SplayNode? {
    if left then r.left else r.right
  }

  function Turn(r: Rec, left: bool, v: SplayNode?): Rec {
    if left then r.(left := v) else r.(right := v)
  }

  /** The pointer x stands for the tree t. */
  ghost predicate Rep(h: Heap, t: NodeTree, x: SplayNode?) {
    match t
    case Leaf => x == null
    case Node(n, item, l, r) =>
      x == n && n in h && h[n].item == item && Rep(h, l, h[n].left) && Rep(h, r, h[n].right)
  }

  ghost predicate FrameRep(h: Heap, f: Frame<SplayNode>, v: SplayNode?) {
    && f.node in h && h[f.node].item == f.item && Link(h[f.node], f.wentLeft) == v
    && Rep(h, f.other, Link(h[f.node], !f.wentLeft))
  }

  /** The nodes of the path are linked down to v. */
  ghost predicate PathRep(h: Heap, path: Path, v: SplayNode?) {
    path != [] ==>
      var f := path[|path| - 1];
      FrameRep(h, f, v) && PathRep(h, path[..|path| - 1], f.node)
  }

  ghost predicate Apart(t: NodeTree, path: Path) {
    Distinct(t) && DistinctPath(path) && Nodes(t) !! PathNodes(path)
  }

  // Memory holds the tree t at x, and above it the path, whose last link is v.
  ghost predicate Focus(h: Heap, t: NodeTree, x: SplayNode?, path: Path, v: SplayNode?) {
    Rep(h, t, x) && PathRep(h, path, v) && Apart(t, path)
  }

  // Two heaps that differ at most in the given nodes.
  ghost predicate SameBut(h: Heap, g: Heap, touched: set<SplayNode>) {
    h.Keys == g.Keys && forall n :: n in h && n !in touched ==> g[n] == h[n]
  }

  ghost predicate Agree(h: Heap, g: Heap, s: set<SplayNode>) {
    forall n :: n in s && n in h ==> n in g && g[n] == h[n]
  }

  // ---------- Frames ----------

  lemma {:induction false} RepKeep(h: Heap, g: Heap, t: NodeTree, x: SplayNode?)
    requires Rep(h, t, x) && Agree(h, g, Nodes(t))
    ensures Rep(g, t, x)
  {
    if t.Node? {
      RepKeep(h, g, t.left, h[t.node].left);
      RepKeep(h, g, t.right, h[t.node].right);
    }
  }

  lemma {:induction false} PathKeep(h: Heap, g: Heap, path: Path, v: SplayNode?)
    requires PathRep(h, path, v) && Agree(h, g, PathNodes(path))
    ensures PathRep(g, path, v)
    decreases |path|
  {
    if path != [] {
      var f := path[|path| - 1];
      RepKeep(h, g, f.other, Link(h[f.node], !f.wentLeft));
      PathKeep(h, g, path[..|path| - 1], f.node);
    }
  }

  lemma {:induction false} RepNodes(h: Heap, t: NodeTree, x: SplayNode?)
    requires Rep(h, t, x)
    ensures Nodes(t) <= h.Keys && (x == null <==> t.Leaf?) && (t.Node? ==> x == t.node && x in Nodes(t))
  {
    if t.Node? {
      RepNodes(h, t.left, h[t.node].left);
      RepNodes(h, t.right, h[t.node].right);
    }
  }

  // ---------- Rotations ----------

  /** splaytree_rotate, where below is the left or the right child of above. */
  function Rotated(h: Heap, above: SplayNode, below: SplayNode, left: bool): (g: Heap)
    requires above in h && below in h
    ensures g.Keys == h.Keys
  {
    h[above := Turn(h[above], left, Link(h[below], !left))][below := Turn(h[below], !left, above)]
  }

  lemma RotateZig(h: Heap, t: NodeTree, p: Frame<SplayNode>)
    requires t.Node? && Rep(h, t, t.node) && FrameRep(h, p, t.node)
    requires Distinct(t) && p.node !in Nodes(t) && p.node !in Nodes(p.other) && Nodes(t) !! Nodes(p.other)
    ensures var g := Rotated(h, p.node, t.node, p.wentLeft);
            Rep(g, Zig(t, p), t.node) && SameBut(h, g, {p.node, t.node})
  {
    var g := Rotated(h, p.node, t.node, p.wentLeft);
    RepKeep(h, g, t.left, h[t.node].left);
    RepKeep(h, g, t.right, h[t.node].right);
    RepKeep(h, g, p.other, Link(h[p.node], !p.wentLeft));
  }

  function ZigZigged(h: Heap, g: SplayNode, p: SplayNode, c: SplayNode, left: bool): (r: Heap)
    requires g in h && p in h && c in h
    ensures r.Keys == h.Keys
  {
    Rotated(Rotated(h, g, p, left), p, c, left)
  }

  function ZigZagged(h: Heap, g: SplayNode, p: SplayNode, c: SplayNode, left: bool): (r: Heap)
    requires g in h && p in h && c in h
    ensures r.Keys == h.Keys
  {
    var h1 := Rotated(h, p, c, left);
    Rotated(h1[g := Turn(h1[g], !left, c)], g, c, !left)
  }

  // What both double rotations need of the three nodes involved.
  ghost predicate Three(h: Heap, t: NodeTree, p: Frame<SplayNode>, g: Frame<SplayNode>) {
    && t.Node? && Rep(h, t, t.node) && FrameRep(h, p, t.node) && FrameRep(h, g, p.node)
    && Distinct(t) && p.node !in Nodes(t) && g.node !in Nodes(t) && p.node != g.node
    && (forall n :: n in Nodes(p.other) ==> n !in Nodes(t) && n != p.node && n != g.node)
    && (forall n :: n in Nodes(g.other) ==> n !in Nodes(t) && n != p.node && n != g.node)
  }

  lemma RotateZigZig(h: Heap, t: NodeTree, p: Frame<SplayNode>, g: Frame<SplayNode>)
    requires Three(h, t, p, g) && p.wentLeft == g.wentLeft
    ensures var r := ZigZigged(h, g.node, p.node, t.node, p.wentLeft);
            Rep(r, ZigZig(t, p, g), t.node) && SameBut(h, r, {g.node, p.node, t.node})
  {
    var s := p.wentLeft;
    var r := ZigZigged(h, g.node, p.node, t.node, s);
    RepKeep(h, r, t.left, h[t.node].left);
    RepKeep(h, r, t.right, h[t.node].right);
    RepKeep(h, r, p.other, Link(h[p.node], !s));
    RepKeep(h, r, g.other, Link(h[g.node], !s));
    assert r[g.node] == Turn(h[g.node], s, Link(h[p.node], !s));
    assert r[p.node] == Turn(Turn(h[p.node], !s, g.node), s, Link(h[t.node], !s));
    assert r[t.node] == Turn(h[t.node], !s, p.node);
  }

  lemma RotateZigZag(h: Heap, t: NodeTree, p: Frame<SplayNode>, g: Frame<SplayNode>)
    requires Three(h, t, p, g) && p.wentLeft != g.wentLeft
    ensures var r := ZigZagged(h, g.node, p.node, t.node, p.wentLeft);
            Rep(r, ZigZag(t, p, g), t.node) && SameBut(h, r, {g.node, p.node, t.node})
  {
    var s := p.wentLeft;
    var r := ZigZagged(h, g.node, p.node, t.node, s);
    RepKeep(h, r, t.left, h[t.node].left);
    RepKeep(h, r, t.right, h[t.node].right);
    RepKeep(h, r, p.other, Link(h[p.node], !s));
    RepKeep(h, r, g.other, Link(h[g.node], s));
    assert r[p.node] == Turn(h[p.node], s, Link(h[t.node], !s));
    assert r[g.node] == Turn(h[g.node], !s, Link(h[t.node], s));
    assert r[t.node] == Turn(Turn(h[t.node], !s, p.node), s, g.node);
  }

  // ---------- One call of splay2 on the path ----------

  function SplayOnce(t: NodeTree, path: Path): (r: NodeTree)
    requires t.Node?
    ensures r.Node? && r.node == t.node && r.item == t.item
  {
    var k := |path|;
    if k == 0 then t else if k == 1 then Zig(t, path[0]) else SplayTree.Splay2(t, path[k - 1], path[k - 2])
  }

  function Rest(path: Path): (r: Path)
    ensures path != [] ==> |r| < |path|
  {
    if |path| < 2 then [] else path[..|path| - 2]
  }

  /** What splaytree_splay2 does to memory. */
  function Splayed2(h: Heap, t: NodeTree, path: Path): (r: Heap)
    requires t.Node? && t.node in h && forall f :: f in path ==> f.node in h
    ensures r.Keys == h.Keys
  {
    var k := |path|;
    if k == 0 then h
    else if k == 1 then Rotated(h, path[0].node, t.node, path[0].wentLeft)
    else
      var p, g := path[k - 1], path[k - 2];
      if p.wentLeft == g.wentLeft then ZigZigged(h, g.node, p.node, t.node, p.wentLeft)
      else ZigZagged(h, g.node, p.node, t.node, p.wentLeft)
  }

  lemma SplayUnfold(t: NodeTree, path: Path)
    requires t.Node?
    ensures SplayTree.Splay(t, path) == SplayTree.Splay(SplayOnce(t, path), Rest(path))
    ensures path == [] ==> SplayTree.Splay(t, path) == t
  {
  }

  lemma {:induction false} PathInHeap(h: Heap, path: Path, v: SplayNode?)
    requires PathRep(h, path, v)
    ensures PathNodes(path) <= h.Keys && forall f :: f in path ==> f.node in PathNodes(path)
    decreases |path|
  {
    if path != [] {
      var f, up := path[|path| - 1], path[..|path| - 1];
      RepNodes(h, f.other, Link(h[f.node], !f.wentLeft));
      PathInHeap(h, up, f.node);
      assert path == up + [f];
    }
  }

  // The two frames next to the subtree, taken apart.
  lemma LastTwo(h: Heap, t: NodeTree, path: Path)
    requires t.Node? && Focus(h, t, t.node, path, t.node) && |path| >= 2
    ensures var p, g := path[|path| - 1], path[|path| - 2];
            Three(h, t, p, g) && PathRep(h, Rest(path), g.node)
  {
    var k := |path|;
    var up := path[..k - 1];
    assert up[..k - 2] == Rest(path) && up[k - 2] == path[k - 2];
    assert PathRep(h, up, path[k - 1].node);
    hide Rep, Distinct, Nodes;
    TwoApart(t, path);
  }

  lemma TwoApart(t: NodeTree, path: Path)
    requires t.Node? && Apart(t, path) && |path| >= 2
    ensures var p, g, up := path[|path| - 1], path[|path| - 2], PathNodes(Rest(path));
            && PathNodes(path) == {p.node} + Nodes(p.other) + {g.node} + Nodes(g.other) + up
            && DistinctPath(Rest(path)) && Distinct(p.other) && Distinct(g.other)
            && p.node !in Nodes(p.other) && g.node !in Nodes(g.other) && p.node != g.node
            && up !! ({p.node} + Nodes(p.other) + {g.node} + Nodes(g.other))
            && ({p.node} + Nodes(p.other)) !! ({g.node} + Nodes(g.other))
            && (Nodes(t) !! ({p.node} + Nodes(p.other)) && Nodes(t) !! ({g.node} + Nodes(g.other)))
  {
    hide Nodes, Distinct;
    var k := |path|;
    var up := path[..k - 1];
    assert up[..k - 2] == Rest(path) && up[k - 2] == path[k - 2];
    assert DistinctPath(up);
  }

  lemma ApartOnce(t: NodeTree, path: Path)
    requires t.Node? && Apart(t, path)
    ensures Apart(SplayOnce(t, path), Rest(path))
    ensures Nodes(SplayOnce(t, path)) + PathNodes(Rest(path)) == Nodes(t) + PathNodes(path)
    ensures |path| >= 2 ==> path[|path| - 2].node in Nodes(SplayOnce(t, path))
  {
    if |path| == 1 {
      assert path[..0] == [] && PathNodes(path) == {path[0].node} + Nodes(path[0].other) + PathNodes([]);
      var z := Zig(t, path[0]);
      assert Nodes(z) == Nodes(t) + {path[0].node} + Nodes(path[0].other);
      assert Distinct(z);
    } else if |path| >= 2 {
      hide Splay2, Nodes, Distinct, PathNodes, DistinctPath;
      var p, g := path[|path| - 1], path[|path| - 2];
      TwoApart(t, path);
      Splay2Distinct(t, p, g);
      Splay2Nodes(t, p, g);
    }
  }

  /** A call of splaytree_splay2 takes the tree and its path one step on. */
  lemma Splay2Focus(h: Heap, t: NodeTree, path: Path)
    requires t.Node? && t.node in h && (forall f :: f in path ==> f.node in h)
    requires Focus(h, t, t.node, path, t.node)
    ensures var r := Splayed2(h, t, path);
            SameBut(h, r, Nodes(t) + PathNodes(path)) &&
            Focus(r, SplayOnce(t, path), t.node, Rest(path), if |path| >= 2 then path[|path| - 2].node else null)
  {
    hide Nodes, PathNodes, Distinct, DistinctPath, Zig, ZigZig, ZigZag, ZigZigged, ZigZagged, Rotated, Rep, PathRep,
         FrameRep;
    var r := Splayed2(h, t, path);
    ApartOnce(t, path);
    PathInHeap(h, path, t.node);
    RepNodes(h, t, t.node);
    var k := |path|;
    if k == 1 {
      OneFrame(h, t, path);
      RotateZig(h, t, path[0]);
    } else if k >= 2 {
      var p, g := path[k - 1], path[k - 2];
      LastTwo(h, t, path);
      TwoApart(t, path);
      ApexNode(t);
      if p.wentLeft == g.wentLeft {
        RotateZigZig(h, t, p, g);
      } else {
        RotateZigZag(h, t, p, g);
      }
      PathKeep(h, r, Rest(path), g.node);
      assert p in path && g in path;
    }
    assert PathRep(r, [], null) by { EmptyPath(r, null); }
  }

  lemma ApexNode(t: NodeTree)
    requires t.Node?
    ensures t.node in Nodes(t)
  {
  }

  lemma EmptyPath(h: Heap, v: SplayNode?)
    ensures PathRep(h, [], v)
  {
  }

  lemma OneFrame(h: Heap, t: NodeTree, path: Path)
    requires t.Node? && Focus(h, t, t.node, path, t.node) && |path| == 1
    ensures var p := path[0];
            FrameRep(h, p, t.node) && Distinct(t) && p.node !in Nodes(t) && p.node !in Nodes(p.other) &&
            Nodes(t) !! Nodes(p.other) && p in path
  {
    assert PathNodes(path) == {path[0].node} + Nodes(path[0].other) + PathNodes(path[..0]);
  }

  /** Linking the splayed child where the old top of its subtree still hangs. */
  lemma Relink(h: Heap, t: NodeTree, path: Path, keep: SplayNode?)
    requires t.Node? && path != [] && Focus(h, t, t.node, path, keep)
    ensures var p := path[|path| - 1];
            p.node in h && Link(h[p.node], p.wentLeft) == keep &&
            var g := h[p.node := Turn(h[p.node], p.wentLeft, t.node)];
            Focus(g, t, t.node, path, t.node) && SameBut(h, g, PathNodes(path))
  {
    var p := path[|path| - 1];
    var g := h[p.node := Turn(h[p.node], p.wentLeft, t.node)];
    RepKeep(h, g, t, t.node);
    RepKeep(h, g, p.other, Link(h[p.node], !p.wentLeft));
    PathKeep(h, g, path[..|path| - 1], p.node);
  }

  // The other link of a frame never leads into the subtree below it.
  lemma OtherLink(h: Heap, t: NodeTree, x: SplayNode?, path: Path, v: SplayNode?)
    requires path != [] && Focus(h, t, x, path, v)
    ensures var p := path[|path| - 1];
            p.node in h && p.node !in Nodes(t) && Link(h[p.node], !p.wentLeft) !in Nodes(t) &&
              Link(h[p.node], p.wentLeft) == v
  {
    var p := path[|path| - 1];
    RepNodes(h, p.other, Link(h[p.node], !p.wentLeft));
  }
}
