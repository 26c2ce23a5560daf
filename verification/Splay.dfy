/** mjl_splaytree.c: the splay tree, with its nodes linked in memory and its
    paths on the block stack. The ghost field tree is the tree that the nodes
    hold; Contents is the sequence of its items in order. Every operation is
    proved against the functions of SplayTree: what the splayed tree is, where a
    key is found or added, and what is left when the root is removed; the cost
    of a splay is counted in calls of splaytree_splay2, which is what the bounds
    of SplayCost are about. */
module Splay {
  import opened Wrappers
  import opened SplayTree
  import opened SplayHeap
  import opened SplayStack
  import opened SplayCost

  /** The nodes of a path, as they were pushed: root first. */
  function Trail(path: Path): seq<SplayNode> {
    if path == [] then [] else Trail(path[..|path| - 1]) + [path[|path| - 1].node]
  }

  function Parent(path: Path): SplayNode? {
    if path == [] then null else path[|path| - 1].node
  }

  function Grandparent(path: Path): SplayNode? {
    if |path| < 2 then null else path[|path| - 2].node
  }

  /** splaytree_rotate; left says on which side of the one the other is. */
  method Rotate(above: SplayNode, below: SplayNode, ghost left: bool, ghost nodes: set<SplayNode>)
    requires above in nodes && below in nodes && above != below
    requires Link(Snap(nodes)[above], left) == below && Link(Snap(nodes)[above], !left) != below
    modifies above, below
    ensures Snap(nodes) == Rotated(old(Snap(nodes)), above, below, left)
  {
    if above.left == below {
      var temp := below.right;
      below.right := above;
      above.left := temp;
    } else {
      var temp := below.left;
      below.left := above;
      above.right := temp;
    }
  }

  // What the links of the last two frames are.
  lemma Links(h: Heap, t: NodeTree, path: Path)
    requires t.Node? && Focus(h, t, t.node, path, t.node)
    ensures t.node in h && forall f :: f in path ==> f.node in h
    ensures path != [] ==>
              var p := path[|path| - 1];
              p in path && p.node != t.node && Link(h[p.node], p.wentLeft) == t.node &&
              Link(h[p.node], !p.wentLeft) != t.node
    ensures |path| >= 2 ==>
              var p, g := path[|path| - 1], path[|path| - 2];
              g in path && g.node != t.node && g.node != p.node && Link(h[g.node], g.wentLeft) == p.node &&
              Link(h[g.node], !g.wentLeft) != p.node && Link(h[g.node], !g.wentLeft) != t.node
  {
    hide Nodes, PathNodes, Distinct, DistinctPath, Rep, PathRep;
    PathInHeap(h, path, t.node);
    RepNodes(h, t, t.node);
    if |path| >= 2 {
      LastTwo(h, t, path);
      TwoApart(t, path);
      var p, g := path[|path| - 1], path[|path| - 2];
      RepNodes(h, p.other, Link(h[p.node], !p.wentLeft));
      RepNodes(h, g.other, Link(h[g.node], !g.wentLeft));
    } else if path != [] {
      OtherLink(h, t, t.node, path, t.node);
    }
  }

  /** splaytree_splay2. */
  method SplayTwo(child: SplayNode, parent: SplayNode?, grandparent: SplayNode?,
                  ghost t: NodeTree, ghost path: Path, ghost nodes: set<SplayNode>)
    requires t.Node? && child == t.node && parent == Parent(path) && grandparent == Grandparent(path)
    requires Focus(Snap(nodes), t, child, path, child)
    modifies nodes
    ensures SameBut(old(Snap(nodes)), Snap(nodes), Nodes(t) + PathNodes(path))
    ensures Focus(Snap(nodes), SplayOnce(t, path), child, Rest(path), Grandparent(path))
  {
    hide Focus, Snap, Rotated, SplayOnce, Rest, Nodes, PathNodes, SameBut;
    ghost var h := Snap(nodes);
    Links(h, t, path);
    if parent == null {
    } else if grandparent == null {
      Rotate(parent, child, path[0].wentLeft, nodes);
    } else if (parent.left == child && grandparent.left == parent) ||
              (parent.right == child && grandparent.right == parent) {
      Rotate(grandparent, parent, path[|path| - 2].wentLeft, nodes);
      Twice(h, grandparent, parent, child, path[|path| - 2].wentLeft);
      Rotate(parent, child, path[|path| - 1].wentLeft, nodes);
    } else {
      ZigZag(child, parent, grandparent, path[|path| - 1].wentLeft, nodes);
    }
    Splay2Focus(h, t, path);
  }

  lemma Twice(h: Heap, g: SplayNode, p: SplayNode, c: SplayNode, left: bool)
    requires g in h && p in h && c in h && g != p && g != c
    requires Link(h[p], left) == c && Link(h[p], !left) != c
    ensures var r := Rotated(h, g, p, left);
            Link(r[p], left) == c && Link(r[p], !left) != c
  {
  }

  // case 3 of splaytree_splay2
  method ZigZag(child: SplayNode, parent: SplayNode, grandparent: SplayNode, ghost left: bool,
                ghost nodes: set<SplayNode>)
    requires child in nodes && parent in nodes && grandparent in nodes
    requires child != parent && grandparent != parent && child != grandparent
    requires Link(Snap(nodes)[parent], left) == child && Link(Snap(nodes)[parent], !left) != child
    requires Link(Snap(nodes)[grandparent], !left) == parent
    requires Link(Snap(nodes)[grandparent], left) != parent && Link(Snap(nodes)[grandparent], left) != child
    modifies child, parent, grandparent
    ensures Snap(nodes) == ZigZagged(old(Snap(nodes)), grandparent, parent, child, left)
  {
    ghost var h := Snap(nodes);
    ghost var h1 := Rotated(h, parent, child, left);
    if grandparent.left == parent {
      Rotate(parent, child, left, nodes);
      grandparent.left := child;
      assert Snap(nodes) == h1[grandparent := Turn(h1[grandparent], !left, child)];
      Rotate(grandparent, child, !left, nodes);
    } else {
      Rotate(parent, child, left, nodes);
      grandparent.right := child;
      assert Snap(nodes) == h1[grandparent := Turn(h1[grandparent], !left, child)];
      Rotate(grandparent, child, !left, nodes);
    }
  }

  /** Memory holds the tree, and nothing else. */
  ghost predicate Holds(h: Heap, nodes: set<SplayNode>, t: NodeTree, head: SplayNode?) {
    Rep(h, t, head) && Nodes(t) == nodes && Distinct(t) && Bst(t)
  }

  // A splay that began with t0 below path0 in the heap h0 and has come to t
  // below path; keep still hangs where t belongs.
  ghost predicate Midway(h0: Heap, t0: NodeTree, path0: Path, h: Heap, t: NodeTree, path: Path, keep: SplayNode?,
                         calls: nat)
  {
    && t0.Node? && t.Node? && t.node == t0.node && Focus(h, t, t.node, path, keep)
    && (path != [] ==> keep in Nodes(t))
    && SplayTree.Splay(t, path) == SplayTree.Splay(t0, path0)
    && calls + Calls(|path|) == Calls(|path0|)
    && Nodes(t) + PathNodes(path) == Nodes(t0) + PathNodes(path0)
    && SameBut(h0, h, Nodes(t0) + PathNodes(path0))
  }

  lemma MidwayStep(h0: Heap, t0: NodeTree, path0: Path, h: Heap, t: NodeTree, path: Path, keep: SplayNode?,
                   calls: nat, g: Heap)
    requires Midway(h0, t0, path0, h, t, path, keep, calls) && path != []
    requires SameBut(h, g, Nodes(t) + PathNodes(path))
    requires Focus(g, SplayOnce(t, path), t.node, Rest(path), Grandparent(path))
    ensures Midway(h0, t0, path0, g, SplayOnce(t, path), Rest(path), Grandparent(path), calls + 1)
  {
    hide SplayOnce, Nodes, PathNodes, Rep, PathRep, Distinct, DistinctPath, SplayTree.Splay;
    assert Apart(t, path);
    ApartOnce(t, path);
    SplayUnfold(t, path);
  }

  lemma MidwayDone(h0: Heap, t0: NodeTree, path0: Path, h: Heap, t: NodeTree, keep: SplayNode?, calls: nat)
    requires Midway(h0, t0, path0, h, t, [], keep, calls)
    ensures Rep(h, SplayTree.Splay(t0, path0), t0.node) && calls == Calls(|path0|)
    ensures SameBut(h0, h, Nodes(t0) + PathNodes(path0))
  {
    SplayUnfold(t, []);
  }

  lemma MidwayFocus(h0: Heap, t0: NodeTree, path0: Path, h: Heap, t: NodeTree, path: Path, keep: SplayNode?, calls: nat)
    requires Midway(h0, t0, path0, h, t, path, keep, calls)
    ensures Focus(h, t, t.node, path, keep)
  {
  }

  lemma MidwayStart(h: Heap, t: NodeTree, path: Path)
    requires t.Node? && Focus(h, t, t.node, path, t.node)
    ensures Midway(h, t, path, h, t, path, t.node, 0)
  {
  }

  lemma TrailLast(path: Path)
    ensures path == [] ==> Trail(path) == []
    ensures path != [] ==> Trail(path) == Trail(path[..|path| - 1]) + [Parent(path)]
  {
  }

  lemma TrailTwo(path: Path)
    ensures path == [] ==> Trail(path) == []
    ensures |path| == 1 ==> Trail(path) == [Parent(path)]
    ensures |path| >= 2 ==> Trail(path) == Trail(Rest(path)) + [Grandparent(path)] + [Parent(path)]
  {
    hide Trail;
    TrailLast(path);
    if path != [] {
      var up := path[..|path| - 1];
      TrailLast(up);
      if |path| >= 2 {
        assert up[..|up| - 1] == Rest(path) && up[|up| - 1] == path[|path| - 2];
      }
    }
  }

  method PopNode(stack: Stack<SplayNode>) returns (n: SplayNode?)
    requires stack.Valid()
    modifies stack.Repr
    ensures stack.Valid() && stack.Repr == old(stack.Repr)
    ensures var s := old(stack.contents);
            if s == [] then n == null && stack.contents == [] else n == s[|s| - 1] && stack.contents == s[..|s| - 1]
  {
    var r := stack.Pop();
    n := if r.Some? then r.value else null;
  }

  // The two pops that bring the next parent and grandparent.
  method PopPair(stack: Stack<SplayNode>, ghost path: Path) returns (parent: SplayNode?, grandparent: SplayNode?)
    requires stack.Valid() && stack.contents == Trail(path)
    modifies stack.Repr
    ensures stack.Valid() && stack.Repr == old(stack.Repr) && stack.contents == Trail(Rest(path))
    ensures parent == Parent(path) && grandparent == Grandparent(path)
  {
    hide *;
    TrailTwo(path);
    TrailTwo(Rest(path));
    ParentsShort(path);
    parent := PopNode(stack);
    grandparent := PopNode(stack);
  }

  lemma ParentsShort(path: Path)
    ensures path == [] <==> Parent(path) == null
    ensures |path| < 2 <==> Grandparent(path) == null
    ensures |path| < 2 ==> Rest(path) == []
  {
  }

  class Splaytree {
    var head: SplayNode?
    var size: int
    ghost var nodes: set<SplayNode>
    ghost var tree: NodeTree

    ghost predicate Valid()
      reads this, nodes
    {
      Holds(Snap(nodes), nodes, tree, head) && size == |Items(tree)|
    }

    ghost function Contents(): seq<Item>
      reads this
    {
      Items(tree)
    }

    constructor ()
      ensures Valid() && Contents() == [] && tree.Leaf?
    {
      head, size := null, 0;
      nodes, tree := {}, Leaf;
    }

    /** splaytree_splay: brings the node on top of the stack up along the path
        below it. The node becomes the head of the tree; calls counts the calls
        of splaytree_splay2. */
    method SplayUp(stack: Stack<SplayNode>, ghost t: NodeTree, ghost path: Path) returns (ghost calls: nat)
      requires t.Node? && Focus(Snap(nodes), t, t.node, path, t.node)
      requires stack.Valid() && stack.contents == Trail(path) + [t.node]
      requires stack.Repr !! nodes && this !in stack.Repr
      modifies this`head, nodes, stack.Repr
      ensures head == t.node && Rep(Snap(nodes), SplayTree.Splay(t, path), head)
      ensures SameBut(old(Snap(nodes)), Snap(nodes), Nodes(t) + PathNodes(path))
      ensures stack.Valid() && stack.Repr == old(stack.Repr) && stack.contents == []
      ensures calls == Calls(|path|)
    {
      hide *;
      ghost var h0 := Snap(nodes);
      MidwayStart(h0, t, path);
      ghost var sub, up := t, path;
      calls := 0;
      var child := PopNode(stack);
      var parent, grandparent := PopPair(stack, path);
      ParentsShort(path);
      TrailLast([]);
      if parent == null {
        MidwayDone(h0, t, path, h0, t, t.node, 0);
        head := child;
        return;
      }
      SplayTwo(child, parent, grandparent, sub, up, nodes);
      calls := calls + 1;
      MidwayStep(h0, t, path, h0, sub, up, child, 0, Snap(nodes));
      sub, up := SplayOnce(sub, up), Rest(up);
      if grandparent == null {
        MidwayDone(h0, t, path, Snap(nodes), sub, null, calls);
        head := child;
        return;
      }
      calls := SplayOn(stack, child, grandparent, h0, t, path, sub, up, calls);
      head := child;
    }

    // The loop of splaytree_splay, from a splay that is midway.
    method SplayOn(stack: Stack<SplayNode>, child: SplayNode, grandparent: SplayNode, ghost h0: Heap, ghost t: NodeTree,
                   ghost path: Path, ghost sub0: NodeTree, ghost up0: Path, ghost calls0: nat)
      returns (ghost calls: nat)
      requires Midway(h0, t, path, Snap(nodes), sub0, up0, grandparent, calls0) && sub0.Node? &&
               child == sub0.node == t.node
      requires stack.Valid() && stack.contents == Trail(up0) && stack.Repr !! nodes && this !in stack.Repr
      modifies nodes, stack.Repr
      ensures Rep(Snap(nodes), SplayTree.Splay(t, path), child)
      ensures SameBut(h0, Snap(nodes), Nodes(t) + PathNodes(path))
      ensures stack.Valid() && stack.Repr == old(stack.Repr) && stack.contents == []
      ensures calls == Calls(|path|)
    {
      hide *;
      ghost var sub, up := sub0, up0;
      calls := calls0;
      var keep: SplayNode := grandparent;
      ghost var hung: SplayNode? := keep;
      TrailLast([]);
      while true
        invariant stack.Valid() && stack.Repr == old(stack.Repr) && stack.contents == Trail(up)
        invariant Midway(h0, t, path, Snap(nodes), sub, up, hung, calls)
        invariant sub.Node? && sub.node == child && hung == keep
        decreases |up|
      {
        var parent, grandparent := PopPair(stack, up);
        ParentsShort(up);
        if parent == null {
          break;
        }
        SplayNext(h0, t, path, parent, grandparent, keep, child, sub, up, calls);
        calls := calls + 1;
        sub, up, hung := SplayOnce(sub, up), Rest(up), grandparent;
        if grandparent == null {
          break;
        }
        keep := grandparent;
      }
      MidwayDone(h0, t, path, Snap(nodes), sub, hung, calls);
    }

    // One iteration: relinks the child and splays it over its next two nodes.
    method SplayNext(ghost h0: Heap, ghost t0: NodeTree, ghost path0: Path, parent: SplayNode, grandparent: SplayNode?,
                     keep: SplayNode, child: SplayNode, ghost t: NodeTree, ghost path: Path, ghost calls: nat)
      requires path != [] && parent == Parent(path) && grandparent == Grandparent(path) && t.Node? && child == t.node
      requires Midway(h0, t0, path0, Snap(nodes), t, path, keep, calls)
      modifies nodes
      ensures Midway(h0, t0, path0, Snap(nodes), SplayOnce(t, path), Rest(path), grandparent, calls + 1)
    {
      hide *;
      MidwayLinks(h0, t0, path0, Snap(nodes), t, path, keep, calls);
      Hang(h0, t0, path0, parent, keep, child, t, path, calls);
      ghost var h := Snap(nodes);
      MidwayFocus(h0, t0, path0, h, t, path, child, calls);
      SplayTwo(child, parent, grandparent, t, path, nodes);
      MidwayStep(h0, t0, path0, h, t, path, child, calls, Snap(nodes));
    }

    // Figures out where to relink the child to: keep is now down the tree.
    method Hang(ghost h0: Heap, ghost t0: NodeTree, ghost path0: Path, parent: SplayNode, keep: SplayNode,
                child: SplayNode, ghost t: NodeTree, ghost path: Path, ghost calls: nat)
      requires path != [] && parent == Parent(path) && parent in nodes && t.Node? && child == t.node
      requires Midway(h0, t0, path0, Snap(nodes), t, path, keep, calls)
      modifies parent
      ensures Midway(h0, t0, path0, Snap(nodes), t, path, child, calls)
    {
      hide Midway;
      ghost var h := Snap(nodes);
      MidwayLinks(h0, t0, path0, h, t, path, keep, calls);
      ghost var left := path[|path| - 1].wentLeft;
      if parent.left == keep {
        parent.left := child;
      } else {
        parent.right := child;
      }
      assert Snap(nodes) == h[parent := Turn(h[parent], left, child)];
    }

    // What a descent knows that has come to the node tn with the path behind it.
    ghost predicate Reached(sub: NodeTree, path: Path, tn: SplayNode?, key: int)
      reads this, nodes
    {
      && Focus(Snap(nodes), sub, tn, path, tn) && Bst(sub)
      && SplayTree.Find(sub, key) == SplayTree.Find(tree, key)
      && FindPath(sub, key, path) == FindPath(tree, key, [])
    }

    lemma ReachedStart(key: int)
      requires Valid()
      ensures Reached(tree, [], head, key)
    {
    }

    lemma ReachedStep(sub: NodeTree, path: Path, tn: SplayNode?, key: int)
      requires Reached(sub, path, tn, key)
      ensures tn == null ==> sub.Leaf?
      ensures tn != null ==> tn in nodes && sub.Node? && sub.node == tn && sub.item == tn.item
      ensures tn != null && key < tn.item.key ==>
                Reached(sub.left, path + [Frame(tn, tn.item, true, sub.right)], tn.left, key)
      ensures tn != null && key > tn.item.key ==>
                Reached(sub.right, path + [Frame(tn, tn.item, false, sub.left)], tn.right, key)
      ensures tn == null || key == tn.item.key ==>
                SplayTree.Find(tree, key) == sub && FindPath(tree, key, []) == path
    {
      if tn != null {
        BstParts(sub);
        GoDown(Snap(nodes), sub, path, true);
        GoDown(Snap(nodes), sub, path, false);
      }
    }

    /** splaytree_find2. */
    method Find2(key: int, stack: Stack<SplayNode>) returns (node: SplayNode?)
      requires Valid() && stack.Valid() && stack.contents == [] && stack.Repr !! nodes && this !in stack.Repr
      modifies stack.Repr
      ensures stack.Valid() && fresh(stack.Repr - old(stack.Repr))
      ensures Valid()
      ensures var sub, path := SplayTree.Find(tree, key), FindPath(tree, key, []);
              Focus(Snap(nodes), sub, node, path, node) && (node == null <==> sub.Leaf?) &&
              (node != null ==> node in nodes && node == sub.node && node.item == sub.item) &&
              stack.contents == Trail(path) + if node == null then [] else [node]
    {
      hide *;
      node := head;
      ghost var sub, path := tree, [];
      ReachedStart(key);
      TrailLast([]);
      while node != null
        invariant Reached(sub, path, node, key) && Valid()
        invariant stack.Valid() && fresh(stack.Repr - old(stack.Repr)) && stack.contents == Trail(path)
        decreases sub
      {
        ReachedStep(sub, path, node, key);
        stack.Push(node);
        if key < node.item.key {
          path := path + [Frame(node, node.item, true, sub.right)];
          TrailGrows(path);
          node, sub := node.left, sub.left;
        } else if key > node.item.key {
          path := path + [Frame(node, node.item, false, sub.left)];
          TrailGrows(path);
          node, sub := node.right, sub.right;
        } else {
          break;
        }
      }
      ReachedStep(sub, path, node, key);
      ReachedFocus(sub, path, node, key);
    }

    lemma ReachedFocus(sub: NodeTree, path: Path, tn: SplayNode?, key: int)
      requires Reached(sub, path, tn, key)
      ensures Focus(Snap(nodes), sub, tn, path, tn)
    {
    }

    // After find2 has found the node: splays the tree on it.
    method Lift(key: int, node: SplayNode, stack: Stack<SplayNode>) returns (ghost calls: nat)
      requires Valid() && stack.Valid() && stack.Repr !! nodes && this !in stack.Repr
      requires var sub, path := SplayTree.Find(tree, key), FindPath(tree, key, []);
               sub.Node? && node == sub.node && Focus(Snap(nodes), sub, node, path, node) &&
               stack.contents == Trail(path) + [node]
      modifies this, nodes, stack.Repr
      ensures Valid() && nodes == old(nodes) && head == node
      ensures tree == AfterFind(old(tree), key) && calls == FindCalls(old(tree), key)
      ensures Contents() == old(Contents())
    {
      hide *;
      ghost var sub, path := SplayTree.Find(tree, key), FindPath(tree, key, []);
      UnfoldValid();
      FoundTree(Snap(nodes), nodes, tree, head, key);
      calls := SplayUp(stack, sub, path);
      tree := AfterFind(tree, key);
      Conclude(Snap(nodes));
    }

    lemma UnfoldValid()
      requires Valid()
      ensures Holds(Snap(nodes), nodes, tree, head) && Nodes(tree) == nodes
      ensures size == |Items(tree)| && Contents() == Items(tree)
    {
    }

    lemma Conclude(h: Heap)
      requires h == Snap(nodes) && Rep(h, tree, head) && Nodes(tree) == nodes && Distinct(tree) && Bst(tree)
      requires size == |Items(tree)|
      ensures Valid() && Contents() == Items(tree)
    {
    }

    /** splaytree_find: None stands for its NULL. */
    method Find(key: int) returns (r: Option<Item>, ghost calls: nat)
      requires Valid()
      modifies this, nodes
      ensures Valid() && nodes == old(nodes)
      ensures tree == AfterFind(old(tree), key) && calls == FindCalls(old(tree), key)
      ensures Contents() == old(Contents())
      ensures r.Some? <==> HasKey(Contents(), key)
      ensures r.Some? ==> r.value in Contents() && r.value.key == key && head != null && head.item == r.value
    {
      hide *;
      r, calls := None, 0;
      UnfoldValid();
      FoundTree(Snap(nodes), nodes, tree, head, key);
      var stack := new Stack();
      var node := Find2(key, stack);
      if node == null {
        return;
      }
      calls := Lift(key, node, stack);
      r := Some(node.item);
    }

    /** splaytree_insert2: the new node, on top of its path, or null when the
        key is already in the tree. */
    method Insert2(item: Item, stack: Stack<SplayNode>) returns (node: SplayNode?)
      requires Valid() && head != null
      requires stack.Valid() && stack.contents == [] && stack.Repr !! nodes && this !in stack.Repr
      modifies nodes, stack.Repr
      ensures stack.Valid() && fresh(stack.Repr - old(stack.Repr))
      ensures node == null <==> SplayTree.Find(tree, item.key).Node?
      ensures node == null ==> Valid()
      ensures node != null ==>
                fresh(node) && node.item == item && node !in stack.Repr && fresh(stack.Repr - old(stack.Repr)) &&
                var path := FindPath(tree, item.key, []);
                stack.contents == Trail(path) + [node] &&
                Focus(Snap(nodes + {node}), Single(node), node, path, node)
    {
      hide *;
      var tn: SplayNode := head;
      ghost var sub, path := tree, [];
      ReachedStart(item.key);
      TrailLast([]);
      while true
        invariant Reached(sub, path, tn, item.key) && Valid()
        invariant stack.Valid() && fresh(stack.Repr - old(stack.Repr)) && stack.contents == Trail(path)
        decreases sub
      {
        ReachedStep(sub, path, tn, item.key);
        stack.Push(tn);
        var left := item.key < tn.item.key;
        if left {
          path := path + [Frame(tn, tn.item, true, sub.right)];
          sub := sub.left;
          TrailGrows(path);
          if tn.left != null {
            tn := tn.left;
            continue;
          }
        } else if item.key > tn.item.key {
          path := path + [Frame(tn, tn.item, false, sub.left)];
          sub := sub.right;
          TrailGrows(path);
          if tn.right != null {
            tn := tn.right;
            continue;
          }
        } else {
          return null;
        }
        ReachedStep(sub, path, null, item.key);
        ReachedFocus(sub, path, null, item.key);
        node := Attach(tn, left, item, stack, path);
        return;
      }
    }

    // insert the item into the tree here
    method Attach(tn: SplayNode, left: bool, item: Item, stack: Stack<SplayNode>, ghost path: Path)
      returns (node: SplayNode)
      requires path != [] && tn == Parent(path) && left == path[|path| - 1].wentLeft && tn in nodes
      requires var leaf: NodeTree := Leaf; Focus(Snap(nodes), leaf, null, path, null)
      requires stack.Valid() && stack.Repr !! nodes && this !in stack.Repr
      modifies tn, stack.Repr
      ensures fresh(node) && node.item == item && node !in stack.Repr
      ensures stack.Valid() && fresh(stack.Repr - old(stack.Repr)) && stack.contents == old(stack.contents) + [node]
      ensures Focus(Snap(nodes + {node}), Single(node), node, path, node)
    {
      hide Focus, Trail;
      node := new SplayNode(item);
      ghost var h := Snap(nodes);
      AttachFocus(h, node, path);
      assert node !in stack.Repr;
      stack.Push(node);
      assert Snap(nodes) == h && node.left == null && node.right == null;
      if left {
        tn.left := node;
      } else {
        tn.right := node;
      }
      assert Snap(nodes + {node}) == Attached(h, tn, left, node);
    }

    // After insert2 has linked the node: splays the tree on it.
    method LiftNew(ghost h: Heap, item: Item, node: SplayNode, stack: Stack<SplayNode>) returns (ghost calls: nat)
      requires Holds(h, nodes, tree, head) && node.item == item && SplayTree.Find(tree, item.key).Leaf? &&
               node !in nodes
      requires stack.Valid() && stack.Repr !! nodes && this !in stack.Repr && node !in stack.Repr
      requires var path := FindPath(tree, item.key, []);
               stack.contents == Trail(path) + [node] && Focus(Snap(nodes + {node}), Single(node), node, path, node)
      modifies this`nodes, this`tree, this`head, nodes, node, stack.Repr
      ensures nodes == old(nodes) + {node} && head == node && Rep(Snap(nodes), tree, head)
      ensures Grown(old(tree), tree, node)
      ensures tree == AfterInsert(old(tree), node, item) && calls == InsertCalls(old(tree), item)
    {
      hide *;
      ghost var path := FindPath(tree, item.key, []);
      GrownTree(h, nodes, tree, head, node);
      InsertIs(tree, node, item);
      nodes := nodes + {node};
      calls := SplayUp(stack, Single(node), path);
      tree := SplayTree.Splay(Single(node), path);
    }

    /** splaytree_insert: null stands for its NULL. */
    method Insert(item: Item) returns (r: SplayNode?, ghost calls: nat)
      requires Valid()
      modifies this, nodes
      ensures Valid() && calls == InsertCalls(old(tree), item)
      ensures r == null <==> HasKey(old(Contents()), item.key)
      ensures r == null ==> tree == old(tree) && nodes == old(nodes)
      ensures r != null ==> fresh(r) && r.item == item && head == r && nodes == old(nodes) + {r}
      ensures r != null ==> tree == AfterInsert(old(tree), r, item)
      ensures r != null ==> var s, p := old(Contents()), Position(old(Contents()), item.key);
                            Contents() == s[..p] + [item] + s[p..]
    {
      hide *;
      UnfoldValid();
      ghost var h := Snap(nodes);
      FoundTree(h, nodes, tree, head, item.key);
      calls := 0;
      if head != null {
        var stack := new Stack();
        r := Insert2(item, stack);
        if r == null {
          RefusedCalls(tree, item);
          return;
        }
        calls := LiftNew(h, item, r, stack);
      } else {
        r := new SplayNode(item);
        GrownAlone(h, nodes, tree, r);
        AloneIs(tree, r, item);
        assert Snap({r}) == map[r := Rec(r.item, null, null)];
        head := r;
        nodes, tree := {r}, Single(r);
      }
      size := size + 1;
      ConcludeGrown(old(tree), r);
    }

    lemma ConcludeGrown(t: NodeTree, n: SplayNode)
      requires Grown(t, tree, n) && nodes == Nodes(t) + {n} && Rep(Snap(nodes), tree, head)
      requires size == |Items(t)| + 1
      ensures Valid()
      ensures var s, p := Items(t), Position(Items(t), n.item.key);
              Contents() == s[..p] + [n.item] + s[p..]
    {
      hide Nodes, Items, Distinct, Bst, Rep, Position;
    }

    /** splaytree_remove: removes the head of the tree. */
    method Remove() returns (ghost calls: nat)
      requires Valid() && head != null
      modifies this, nodes
      ensures Valid() && nodes == old(nodes) - {old(head)}
      ensures old(tree.Node?) && tree == WithoutRoot(old(tree)) && calls == RootCalls(old(tree))
      ensures var s, p := old(Contents()), Position(old(Contents()), old(head.item.key));
              p < |s| && s[p] == old(head.item) && Contents() == s[..p] + s[p + 1..]
    {
      hide *;
      UnfoldValid();
      ghost var h, t := Snap(nodes), tree;
      var node: SplayNode := head;
      var l, r := node.left, node.right;
      HeadParts(h, nodes, t, node);
      WithoutRootIs(t);
      if l != null {
        calls := JoinParts(node, l, r);
      } else {
        calls := 0;
        head := r;
        nodes, tree := nodes - {node}, t.right;
        RemovedAlone(h, Snap(nodes), t);
      }
      size := size - 1;
      ConcludeHolds();
    }

    lemma ConcludeHolds()
      requires Holds(Snap(nodes), nodes, tree, head) && size == |Items(tree)|
      ensures Valid() && Contents() == Items(tree)
    {
    }

    // Brings the right-most node of the left part to the top and connects the
    // right part to it.
    method JoinParts(node: SplayNode, l: SplayNode, r: SplayNode?) returns (ghost calls: nat)
      requires Valid() && head == node && node in nodes && l == node.left && r == node.right
      modifies this`head, this`nodes, this`tree, nodes
      ensures nodes == old(nodes) - {node} && Holds(Snap(nodes), nodes, tree, head)
      ensures old(tree.Node?) && Items(tree) == old(Items(tree.left) + Items(tree.right))
      ensures old(tree.left.Node?) && tree == WithoutRoot(old(tree)) && calls == RootCalls(old(tree))
    {
      hide *;
      UnfoldValid();
      ghost var h, t := Snap(nodes), tree;
      HeadParts(h, nodes, t, node);
      WithoutRootIs(t);
      ghost var top;
      top, calls := RaiseRightmost(l, t.left);
      ghost var g, rest := Snap(nodes), nodes - {node};
      HangRight(head, r, nodes);
      RemovedJoin(h, g, Snap(rest), t, top);
      nodes, tree := rest, Joined(top, t.right);
    }

    // Splays the left part on its right-most node.
    method RaiseRightmost(l: SplayNode, ghost t: NodeTree) returns (ghost top: NodeTree, ghost calls: nat)
      requires Rep(Snap(nodes), t, l) && Distinct(t) && Nodes(t) <= nodes
      modifies this`head, nodes
      ensures top.Node? && head == top.node && head in nodes && Rep(Snap(nodes), top, head) && top.right.Leaf?
      ensures Items(top) == Items(t) && Nodes(top) == Nodes(t) && Distinct(top)
      ensures SameBut(old(Snap(nodes)), Snap(nodes), Nodes(t))
      ensures t.Node? && top == SplayTree.Splay(RightEnd(t), RightPath(t, [])) && calls == Calls(|RightPath(t, [])|)
    {
      hide *;
      var stack := new Stack();
      ghost var sub, path := Rightmost(l, stack, t);
      LeftSplayed(t, sub, path);
      ApexNode(sub);
      calls := SplayUp(stack, sub, path);
      top := SplayTree.Splay(sub, path);
    }

    method HangRight(n: SplayNode, r: SplayNode?, ghost all: set<SplayNode>)
      requires n in all
      modifies n
      ensures forall m :: m in all ==>
                Snap(all)[m] == if m == n then Turn(old(Snap(all))[m], false, r) else old(Snap(all))[m]
    {
      n.right := r;
    }

    // Pushes the way to the right-most node of the left subtree.
    method Rightmost(l: SplayNode, stack: Stack<SplayNode>, ghost t: NodeTree)
      returns (ghost sub: NodeTree, ghost path: Path)
      requires Rep(Snap(nodes), t, l) && Distinct(t)
      requires stack.Valid() && stack.contents == [] && stack.Repr !! nodes && this !in stack.Repr
      modifies stack.Repr
      ensures stack.Valid() && fresh(stack.Repr - old(stack.Repr))
      ensures sub.Node? && sub.right.Leaf? && Plug(sub, path) == t && AllRight(path)
      ensures t.Node? && sub == RightEnd(t) && path == RightPath(t, [])
      ensures stack.contents == Trail(path) + [sub.node]
      ensures Focus(Snap(nodes), sub, sub.node, path, sub.node) && Apart(sub, path)
    {
      hide *;
      sub, path := t, [];
      var temp := l;
      RightStart(Snap(nodes), t, l);
      stack.Push(l);
      while temp.right != null
        invariant stack.Valid() && fresh(stack.Repr - old(stack.Repr)) && stack.contents == Trail(path) + [temp]
        invariant temp in nodes && sub.Node? && sub.node == temp && OnRight(Snap(nodes), t, sub, path)
        decreases sub
      {
        RightStep(Snap(nodes), t, sub, path);
        stack.Push(temp.right);
        path := path + [Frame(temp, temp.item, false, sub.left)];
        TrailGrows(path);
        temp, sub := temp.right, sub.right;
      }
      RightStep(Snap(nodes), t, sub, path);
    }

    /** splaytree_remove_item. */
    method RemoveItem(key: int) returns (r: int, ghost calls: nat)
      requires Valid()
      modifies this, nodes
      ensures Valid() && (r == 0 || r == -1)
      ensures tree == AfterRemove(old(tree), key) && calls == RemoveCalls(old(tree), key)
      ensures r == 0 <==> HasKey(old(Contents()), key)
      ensures r == -1 ==> tree == old(tree) && nodes == old(nodes)
      ensures r == 0 ==> var s, p := old(Contents()), Position(old(Contents()), key);
                         p < |s| && s[p].key == key && Contents() == s[..p] + s[p + 1..]
    {
      hide *;
      UnfoldValid();
      FoundTree(Snap(nodes), nodes, tree, head, key);
      var stack := new Stack();
      var node := Find2(key, stack);
      RemoveIs(tree, key);
      if node == null {
        return -1, 0;
      }
      calls := Lift(key, node, stack);
      ghost var more := Remove();
      r, calls := 0, calls + more;
    }

    /** splaytree_remove_node. */
    method RemoveNode(node: SplayNode) returns (r: int, ghost calls: nat)
      requires Valid()
      modifies this, nodes
      ensures Valid() && (r == 0 || r == -1)
      ensures r == 0 <==> node in old(nodes)
      ensures r == -1 ==> tree == old(tree) && nodes == old(nodes)
      ensures r == 0 ==> nodes == old(nodes) - {node}
      ensures r == 0 ==> tree == AfterRemove(old(tree), node.item.key) && calls == RemoveCalls(old(tree), node.item.key)
      ensures r == 0 ==> var s, p := old(Contents()), Position(old(Contents()), node.item.key);
                         p < |s| && s[p] == node.item && Contents() == s[..p] + s[p + 1..]
    {
      hide *;
      UnfoldValid();
      FoundTree(Snap(nodes), nodes, tree, head, node.item.key);
      var stack := new Stack();
      var found := Find2(node.item.key, stack);
      if node in nodes {
        NodeFound(Snap(nodes), tree, head, node);
      }
      if found != node {
        return -1, 0;
      }
      RemoveIs(tree, node.item.key);
      calls := Lift(node.item.key, node, stack);
      ghost var more := Remove();
      r, calls := 0, calls + more;
    }

    /** splaytree_inorder: the items that func is called on. */
    method Inorder() returns (visited: seq<Item>)
      requires Valid()
      ensures visited == Contents()
    {
      hide *;
      visited := [];
      UnfoldValid();
      var stack := new Stack<SplayNode>();
      var tn := head;
      ghost var sub, waiting: seq<NodeTree> := tree, [];
      ghost var h := Snap(nodes);
      WalkStart(h, tree, head);
      while true
        invariant forall w :: w in waiting ==> w.Node?
        invariant stack.Valid() && fresh(stack.Repr) && stack.contents == Tops(waiting) && Snap(nodes) == h
        invariant Walking(h, tree, visited, sub, tn, waiting) && |visited| <= |Items(tree)|
        decreases |Items(tree)| - |visited|, sub
      {
        WalkStep(h, tree, visited, sub, tn, waiting);
        if tn != null {
          stack.Push(tn);
          waiting := waiting + [sub];
          tn, sub := tn.left, sub.left;
        } else {
          var top := PopNode(stack);
          if top == null {
            break;
          }
          visited := visited + [top.item];
          tn, sub := top.right, waiting[|waiting| - 1].right;
          waiting := waiting[..|waiting| - 1];
        }
      }
    }
  }

  // The nodes waiting for their left parts, and what is still to visit with them.
  function Tops(waiting: seq<NodeTree>): seq<SplayNode>
    requires forall t :: t in waiting ==> t.Node?
  {
    if waiting == [] then [] else Tops(waiting[..|waiting| - 1]) + [waiting[|waiting| - 1].node]
  }

  function Later(waiting: seq<NodeTree>): seq<Item>
    requires forall t :: t in waiting ==> t.Node?
  {
    if waiting == [] then []
    else
      var t := waiting[|waiting| - 1];
      [t.item] + Items(t.right) + Later(waiting[..|waiting| - 1])
  }

  ghost predicate Walking(h: Heap, t: NodeTree, visited: seq<Item>, sub: NodeTree, tn: SplayNode?,
                          waiting: seq<NodeTree>)
  {
    && Rep(h, sub, tn)
    && (forall w :: w in waiting ==> w.Node? && Rep(h, w, w.node))
    && Items(t) == visited + Items(sub) + Later(waiting)
  }

  lemma WalkStart(h: Heap, t: NodeTree, head: SplayNode?)
    requires Rep(h, t, head)
    ensures Walking(h, t, [], t, head, []) && Tops([]) == []
  {
  }

  lemma WalkStep(h: Heap, t: NodeTree, visited: seq<Item>, sub: NodeTree, tn: SplayNode?, waiting: seq<NodeTree>)
    requires Walking(h, t, visited, sub, tn, waiting)
    ensures forall w :: w in waiting ==> w.Node?
    ensures tn != null ==>
              tn in h && sub.Node? && sub.node == tn &&
              Walking(h, t, visited, sub.left, h[tn].left, waiting + [sub]) &&
              Tops(waiting + [sub]) == Tops(waiting) + [tn]
    ensures tn == null && waiting == [] ==> visited == Items(t)
    ensures tn == null && waiting != [] ==>
              var w, up := waiting[|waiting| - 1], waiting[..|waiting| - 1];
              w.node in h && Tops(waiting) == Tops(up) + [w.node] && |visited| < |Items(t)| &&
              Walking(h, t, visited + [h[w.node].item], w.right, h[w.node].right, up)
  {
    if tn != null {
      WalkDown(h, t, visited, sub, tn, waiting);
    } else if waiting != [] {
      WalkUp(h, t, visited, sub, waiting);
    }
  }

  lemma WalkDown(h: Heap, t: NodeTree, visited: seq<Item>, sub: NodeTree, tn: SplayNode, waiting: seq<NodeTree>)
    requires Walking(h, t, visited, sub, tn, waiting)
    ensures tn in h && sub.Node? && sub.node == tn
    ensures Walking(h, t, visited, sub.left, h[tn].left, waiting + [sub])
    ensures Tops(waiting + [sub]) == Tops(waiting) + [tn]
  {
    assert (waiting + [sub])[..|waiting|] == waiting;
    assert visited + (Items(sub.left) + [sub.item] + Items(sub.right)) + Later(waiting) ==
           visited + Items(sub.left) + ([sub.item] + Items(sub.right) + Later(waiting));
  }

  lemma WalkUp(h: Heap, t: NodeTree, visited: seq<Item>, sub: NodeTree, waiting: seq<NodeTree>)
    requires Walking(h, t, visited, sub, null, waiting) && waiting != []
    ensures var w, up := waiting[|waiting| - 1], waiting[..|waiting| - 1];
            w.Node? && w.node in h && (forall v :: v in up ==> v.Node?) &&
            Tops(waiting) == Tops(up) + [w.node] && |visited| < |Items(t)| &&
            Walking(h, t, visited + [h[w.node].item], w.right, h[w.node].right, up)
  {
    var w, up := waiting[|waiting| - 1], waiting[..|waiting| - 1];
    assert visited + [] + ([w.item] + Items(w.right) + Later(up)) == visited + [w.item] + Items(w.right) + Later(up);
  }

  // The walk along the right links of t has come to sub.
  ghost predicate OnRight(h: Heap, t: NodeTree, sub: NodeTree, path: Path) {
    && sub.Node? && Focus(h, sub, sub.node, path, sub.node) && Plug(sub, path) == t && AllRight(path)
    && t.Node? && RightEnd(sub) == RightEnd(t) && RightPath(sub, path) == RightPath(t, [])
  }

  lemma RightStart(h: Heap, t: NodeTree, l: SplayNode)
    requires Rep(h, t, l) && Distinct(t)
    ensures OnRight(h, t, t, []) && l in h && t.Node? && t.node == l && Trail([]) == []
  {
  }

  lemma RightStep(h: Heap, t: NodeTree, sub: NodeTree, path: Path)
    requires OnRight(h, t, sub, path)
    ensures sub.node in h && h[sub.node].item == sub.item && (h[sub.node].right == null <==> sub.right.Leaf?)
    ensures Focus(h, sub, sub.node, path, sub.node) && Apart(sub, path) && Plug(sub, path) == t && AllRight(path)
    ensures t.Node? && (sub.right.Leaf? ==> sub == RightEnd(t) && path == RightPath(t, []))
    ensures sub.right.Node? ==>
              OnRight(h, t, sub.right, path + [Frame(sub.node, sub.item, false, sub.left)]) &&
              sub.right.node in h && sub.right.node == h[sub.node].right
  {
    var f := Frame(sub.node, sub.item, false, sub.left);
    RepNodes(h, sub.right, h[sub.node].right);
    if sub.right.Node? {
      GoDown(h, sub, path, false);
      assert (path + [f])[..|path|] == path;
    }
  }

  lemma HeadParts(h: Heap, nodes: set<SplayNode>, t: NodeTree, head: SplayNode)
    requires Holds(h, nodes, t, head)
    ensures t.Node? && t.node == head && head in h && head in nodes && h[head].item == t.item
    ensures Rep(h, t.left, h[head].left) && Rep(h, t.right, h[head].right)
    ensures Distinct(t.left) && (h[head].left == null <==> t.left.Leaf?)
    ensures Nodes(t.left) <= nodes
    ensures var s, p := Items(t), Position(Items(t), t.item.key);
            p < |s| && s[p] == t.item && s[..p] + s[p + 1..] == Items(t.left) + Items(t.right) &&
            |s| == |Items(t.left) + Items(t.right)| + 1
  {
    hide Position, Sorted;
    RootPosition(t);
    ItemsOfNode(t);
  }

  lemma LeftSplayed(t: NodeTree, sub: NodeTree, path: Path)
    requires sub.Node? && sub.right.Leaf? && Plug(sub, path) == t && AllRight(path) && Apart(sub, path)
    ensures var s := SplayTree.Splay(sub, path);
            Items(s) == Items(t) && Nodes(s) == Nodes(t) && Distinct(s) && s.right.Leaf?
    ensures Nodes(sub) + PathNodes(path) == Nodes(t)
  {
    hide Nodes, PathNodes, Distinct, DistinctPath, SplayTree.Splay, Plug, Items;
    SplayItems(sub, path);
    SplayNodes(sub, path);
    SplayDistinct(sub, path);
    PlugNodes(sub, path);
    RightmostSplay(sub, path);
  }

  // The head of t has gone; s is its left part, splayed on its right-most node.
  lemma RemovedJoin(h: Heap, g: Heap, k: Heap, t: NodeTree, s: NodeTree)
    requires t.Node? && Holds(h, h.Keys, t, t.node) && SameBut(h, g, Nodes(t.left))
    requires s.Node? && Rep(g, s, s.node) && s.right.Leaf?
    requires Items(s) == Items(t.left) && Nodes(s) == Nodes(t.left) && Distinct(s)
    requires k.Keys == h.Keys - {t.node} && s.node in g
    requires k.Keys <= g.Keys && forall n :: n in k ==>
               k[n] == if n == s.node then Turn(g[n], false, h[t.node].right) else g[n]
    ensures Holds(k, h.Keys - {t.node}, Joined(s, t.right), s.node)
    ensures Items(Joined(s, t.right)) == Items(t.left) + Items(t.right)
  {
    hide Sorted;
    var l, r := Items(t.left), Items(t.right);
    assert Items(s) == Items(s.left) + [s.item];
    ItemsOfNode(t);
    SortedParts(l, [t.item], r);
    assert s.node in Nodes(s);
    RepKeep(g, k, s.left, g[s.node].left);
    RepKeep(h, k, t.right, h[t.node].right);
  }

  lemma RemovedAlone(h: Heap, k: Heap, t: NodeTree)
    requires t.Node? && Holds(h, h.Keys, t, t.node) && t.left.Leaf?
    requires k.Keys == h.Keys - {t.node} && forall n :: n in k ==> k[n] == h[n]
    ensures Holds(k, h.Keys - {t.node}, t.right, h[t.node].right)
    ensures Items(t.right) == Items(t.left) + Items(t.right)
  {
    hide Sorted;
    BstParts(t);
    RepKeep(h, k, t.right, h[t.node].right);
  }

  lemma {:induction false} NodeItem(h: Heap, t: NodeTree, x: SplayNode?, n: SplayNode)
    requires Rep(h, t, x) && n in Nodes(t)
    ensures n in h && h[n].item in Items(t)
  {
    if n == t.node {
      assert Items(t)[|Items(t.left)|] == t.item;
    } else if n in Nodes(t.left) {
      NodeItem(h, t.left, h[t.node].left, n);
    } else {
      NodeItem(h, t.right, h[t.node].right, n);
    }
  }

  // A node of the tree is the one that the search for its item ends at.
  lemma {:induction false} NodeFound(h: Heap, t: NodeTree, x: SplayNode?, n: SplayNode)
    requires Rep(h, t, x) && Bst(t) && n in Nodes(t)
    ensures n in h
    ensures var sub := SplayTree.Find(t, h[n].item.key);
            sub.Node? && sub.node == n
  {
    hide Bst, Items;
    if n != t.node {
      BstParts(t);
      var left := n in Nodes(t.left);
      NodeItem(h, if left then t.left else t.right, if left then h[t.node].left else h[t.node].right, n);
      NodeFound(h, if left then t.left else t.right, if left then h[t.node].left else h[t.node].right, n);
    }
  }

  ghost predicate HasKey(s: seq<Item>, key: int) {
    exists i :: 0 <= i < |s| && s[i].key == key
  }

  // What a search finds in a tree, and what splaying on it gives.
  lemma FoundTree(h: Heap, nodes: set<SplayNode>, t: NodeTree, head: SplayNode?, key: int)
    requires Holds(h, nodes, t, head)
    ensures var sub := SplayTree.Find(t, key);
            && (sub.Leaf? ==> !HasKey(Items(t), key) && AfterFind(t, key) == t && FindCalls(t, key) == 0)
            && (sub.Node? ==> HasKey(Items(t), key) && sub.item.key == key && sub.item in Items(t))
    ensures var sub, path, u := SplayTree.Find(t, key), FindPath(t, key, []), AfterFind(t, key);
            sub.Node? ==>
              u == SplayTree.Splay(sub, path) && FindCalls(t, key) == Calls(|path|) && Items(u) == Items(t) &&
              Nodes(u) == nodes && Distinct(u) && Bst(u) && Nodes(sub) + PathNodes(path) == nodes
  {
    hide Nodes, PathNodes, Distinct, DistinctPath, Sorted, SplayTree.Splay, Plug, Items, Rep, HasKey, SplayTree.Find,
         FindPath;
    var sub, path := SplayTree.Find(t, key), FindPath(t, key, []);
    FindPlug(t, key, []);
    FindCorrect(t, key);
    PlugNothing(t);
    if sub.Node? {
      var i :| 0 <= i < |Items(t)| && Items(t)[i] == sub.item;
      HasKeyAt(Items(t), i);
      NoPath(t);
      FindApart(t, key, []);
      SplayItems(sub, path);
      SplayNodes(sub, path);
      SplayDistinct(sub, path);
      PlugNodes(sub, path);
    } else {
      NoKey(Items(t), key);
    }
  }

  lemma NoPath(t: NodeTree)
    ensures PathNodes<SplayNode>([]) == {} && DistinctPath<SplayNode>([]) && Nodes(t) !! PathNodes([])
  {
  }

  lemma HasKeyAt(s: seq<Item>, i: nat)
    requires i < |s|
    ensures HasKey(s, s[i].key)
  {
  }

  lemma NoKey(s: seq<Item>, key: int)
    requires forall i :: i in s ==> i.key != key
    ensures !HasKey(s, key)
  {
  }

  lemma TrailGrows(path: Path)
    requires path != []
    ensures Trail(path) == Trail(path[..|path| - 1]) + [Parent(path)] && Parent(path) == path[|path| - 1].node
  {
  }

  function Single(n: SplayNode): (t: NodeTree)
    ensures t.Node? && t.node == n
  {
    Node(n, n.item, Leaf, Leaf)
  }

  /** Memory after a new node has been linked below another. */
  function Attached(h: Heap, p: SplayNode, left: bool, n: SplayNode): Heap
    requires p in h
  {
    var h1 := h[n := Rec(n.item, null, null)];
    h1[p := Turn(h1[p], left, n)]
  }

  lemma AttachFocus(h: Heap, n: SplayNode, path: Path)
    requires path != [] && n !in h
    requires var leaf: NodeTree := Leaf; Focus(h, leaf, null, path, null)
    ensures Parent(path) in h
    ensures Focus(Attached(h, Parent(path), path[|path| - 1].wentLeft, n), Single(n), n, path, n)
  {
    hide PathRep, PathNodes, DistinctPath;
    var h1 := h[n := Rec(n.item, null, null)];
    PathInHeap(h, path, null);
    assert path[|path| - 1] in path;
    PathKeep(h, h1, path, null);
    assert Nodes(Single(n)) == {n};
    Relink(h1, Single(n), path, null);
  }

  // The tree after an insertion.
  ghost predicate Grown(t: NodeTree, u: NodeTree, n: SplayNode) {
    && Nodes(u) == Nodes(t) + {n} && Distinct(u) && Bst(u) && |Items(u)| == |Items(t)| + 1
    && var s, p := Items(t), Position(Items(t), n.item.key);
       Items(u) == s[..p] + [n.item] + s[p..]
  }

  lemma GrownTree(h: Heap, nodes: set<SplayNode>, t: NodeTree, head: SplayNode?, n: SplayNode)
    requires Holds(h, nodes, t, head) && SplayTree.Find(t, n.item.key).Leaf? && n !in nodes
    ensures var path := FindPath(t, n.item.key, []);
            Nodes(Single(n)) + PathNodes(path) == nodes + {n} &&
            Grown(t, SplayTree.Splay(Single(n), path), n)
  {
    hide PathNodes, DistinctPath, Sorted, SplayTree.Splay, Plug, Items, Rep, SplayTree.Find, FindPath, Position;
    var path, leaf: NodeTree := FindPath(t, n.item.key, []), Leaf;
    NoPath(t);
    PlugNothing(t);
    FindPlug(t, n.item.key, []);
    FindApart(t, n.item.key, []);
    PlugNodes(leaf, path);
    InsertItems(t, n, n.item);
    SplayItems(Single(n), path);
    SplayNodes(Single(n), path);
    SplayDistinct(Single(n), path);
  }

  lemma InsertIs(t: NodeTree, n: SplayNode, item: Item)
    requires SplayTree.Find(t, item.key).Leaf? && n.item == item
    ensures AfterInsert(t, n, item) == SplayTree.Splay(Single(n), FindPath(t, item.key, []))
    ensures InsertCalls(t, item) == Calls(|FindPath(t, item.key, [])|)
  {
  }

  lemma RefusedCalls(t: NodeTree, item: Item)
    requires SplayTree.Find(t, item.key).Node?
    ensures InsertCalls(t, item) == 0
  {
  }

  lemma AloneIs(t: NodeTree, n: SplayNode, item: Item)
    requires t.Leaf? && n.item == item
    ensures AfterInsert(t, n, item) == Single(n) && InsertCalls(t, item) == 0
  {
  }

  lemma WithoutRootIs(t: NodeTree)
    requires t.Node?
    ensures t.left.Leaf? ==> WithoutRoot(t) == t.right && RootCalls(t) == 0
    ensures t.left.Node? ==>
              var path := RightPath(t.left, []);
              WithoutRoot(t) == Joined(SplayTree.Splay(RightEnd(t.left), path), t.right) &&
                RootCalls(t) == Calls(|path|)
  {
  }

  lemma RemoveIs(t: NodeTree, key: int)
    ensures SplayTree.Find(t, key).Leaf? ==> AfterRemove(t, key) == t && RemoveCalls(t, key) == 0
    ensures SplayTree.Find(t, key).Node? ==>
              var u := AfterFind(t, key);
              u.Node? && AfterRemove(t, key) == WithoutRoot(u) &&
                RemoveCalls(t, key) == FindCalls(t, key) + RootCalls(u)
  {
  }

  lemma GrownAlone(h: Heap, nodes: set<SplayNode>, t: NodeTree, n: SplayNode)
    requires Holds(h, nodes, t, null)
    ensures Grown(t, Single(n), n)
    ensures SplayTree.Find(t, n.item.key).Leaf?
    ensures nodes == {} && t.Leaf? && Rep(map[n := Rec(n.item, null, null)], Single(n), n)
  {
  }

  // One step down from the node in focus.
  lemma GoDown(h: Heap, t: NodeTree, path: Path, left: bool)
    requires t.Node? && Focus(h, t, t.node, path, t.node)
    ensures var f := Frame(t.node, t.item, left, if left then t.right else t.left);
            var x := Link(h[t.node], left);
            Focus(h, if left then t.left else t.right, x, path + [f], x)
  {
    var f := Frame(t.node, t.item, left, if left then t.right else t.left);
    assert (path + [f])[..|path|] == path;
    assert PathNodes(path + [f]) == {f.node} + Nodes(f.other) + PathNodes(path);
  }

  // Turning the stale link of the parent takes a splay from keep to its node.
  lemma MidwayLinks(h0: Heap, t0: NodeTree, path0: Path, h: Heap, t: NodeTree, path: Path, keep: SplayNode?, calls: nat)
    requires Midway(h0, t0, path0, h, t, path, keep, calls) && path != []
    ensures var p, left := Parent(path), path[|path| - 1].wentLeft;
            p in h && Link(h[p], left) == keep && Link(h[p], !left) != keep &&
            Midway(h0, t0, path0, h[p := Turn(h[p], left, t.node)], t, path, t.node, calls)
  {
    hide Rep, PathRep, Distinct, DistinctPath, SplayTree.Splay, PathNodes, Calls;
    Relink(h, t, path, keep);
    OtherLink(h, t, t.node, path, keep);
    ApexNode(t);
  }
}
