/** Splaying as a function on trees. A node on the way down is kept as a frame:
    the node, which side the search went, and the subtree on the other side. */
module SplayTree {

  // An item is ordered by its key; two items with one key are duplicates.
  datatype Item = Item(key: int, tag: nat)

  datatype Tree<N> = Leaf | Node(node: N, item: Item, left: Tree<N>, right: Tree<N>)

  datatype Frame<N> = Frame(node: N, item: Item, wentLeft: bool, other: Tree<N>)

  /** The items in order. */
  function Items<N>(t: Tree<N>): seq<Item> {
    match t
    case Leaf => []
    case Node(_, item, l, r) => Items(l) + [item] + Items(r)
  }

  function Nodes<N>(t: Tree<N>): set<N> {
    match t
    case Leaf => {}
    case Node(n, _, l, r) => {n} + Nodes(l) + Nodes(r)
  }

  function Size<N>(t: Tree<N>): nat {
    match t
    case Leaf => 0
    case Node(_, _, l, r) => Size(l) + 1 + Size(r)
  }

  ghost predicate Sorted(items: seq<Item>) {
    forall i, j :: 0 <= i < j < |items| ==> items[i].key < items[j].key
  }

  ghost predicate Distinct<N>(t: Tree<N>) {
    match t
    case Leaf => true
    case Node(n, _, l, r) =>
      Distinct(l) && Distinct(r) && n !in Nodes(l) && n !in Nodes(r) && Nodes(l) !! Nodes(r)
  }

  /** A frame with the subtree that hangs below it. */
  function Under<N>(f: Frame<N>, t: Tree<N>): Tree<N> {
    if f.wentLeft then Node(f.node, f.item, t, f.other) else Node(f.node, f.item, f.other, t)
  }

  /** The tree that a subtree and the path above it, root first, make up. */
  function Plug<N>(t: Tree<N>, path: seq<Frame<N>>): Tree<N>
    decreases |path|
  {
    if path == [] then t else Plug(Under(path[|path| - 1], t), path[..|path| - 1])
  }

  function PathNodes<N>(path: seq<Frame<N>>): set<N> {
    if path == [] then {}
    else {path[|path| - 1].node} + Nodes(path[|path| - 1].other) + PathNodes(path[..|path| - 1])
  }

  ghost predicate DistinctPath<N>(path: seq<Frame<N>>) {
    path != [] ==>
      var f := path[|path| - 1];
      DistinctPath(path[..|path| - 1]) && Distinct(f.other) && f.node !in Nodes(f.other) &&
      PathNodes(path[..|path| - 1]) !! ({f.node} + Nodes(f.other))
  }

  // ---------- One call of splay2 ----------

  /** Case 1: the parent is the root. */
  function Zig<N>(t: Tree<N>, p: Frame<N>): Tree<N>
    requires t.Node?
  {
    if p.wentLeft then
      Node(t.node, t.item, t.left, Node(p.node, p.item, t.right, p.other))
    else
      Node(t.node, t.item, Node(p.node, p.item, p.other, t.left), t.right)
  }

  /** Case 2: child and parent are on the same side. */
  function ZigZig<N>(t: Tree<N>, p: Frame<N>, g: Frame<N>): Tree<N>
    requires t.Node?
  {
    if p.wentLeft then
      Node(t.node, t.item, t.left,
           Node(p.node, p.item, t.right, Node(g.node, g.item, p.other, g.other)))
    else
      Node(t.node, t.item,
           Node(p.node, p.item, Node(g.node, g.item, g.other, p.other), t.left), t.right)
  }

  /** Case 3: child and parent are on different sides. */
  function ZigZag<N>(t: Tree<N>, p: Frame<N>, g: Frame<N>): Tree<N>
    requires t.Node?
  {
    if p.wentLeft then
      Node(t.node, t.item, Node(g.node, g.item, g.other, t.left), Node(p.node, p.item, t.right, p.other))
    else
      Node(t.node, t.item, Node(p.node, p.item, p.other, t.left), Node(g.node, g.item, t.right, g.other))
  }

  function Splay2<N>(t: Tree<N>, p: Frame<N>, g: Frame<N>): (r: Tree<N>)
    requires t.Node?
    ensures r.Node? && r.node == t.node && r.item == t.item
  {
    if p.wentLeft == g.wentLeft then ZigZig(t, p, g) else ZigZag(t, p, g)
  }

  // ---------- The whole splay ----------

  /** Splaying a subtree to the top of the path above it. */
  function Splay<N>(t: Tree<N>, path: seq<Frame<N>>): (r: Tree<N>)
    requires t.Node?
    ensures r.Node? && r.node == t.node && r.item == t.item
    decreases |path|
  {
    var k := |path|;
    if k == 0 then t
    else if k == 1 then Zig(t, path[0])
    else Splay(Splay2(t, path[k - 1], path[k - 2]), path[..k - 2])
  }

  lemma {:induction false} PlugItems<N>(t: Tree<N>, u: Tree<N>, path: seq<Frame<N>>)
    requires Items(t) == Items(u)
    ensures Items(Plug(t, path)) == Items(Plug(u, path))
    decreases |path|
  {
    if path != [] {
      var f := path[|path| - 1];
      PlugItems(Under(f, t), Under(f, u), path[..|path| - 1]);
    }
  }

  lemma ItemsOfNode<N>(t: Tree<N>)
    requires t.Node?
    ensures Items(t) == Items(t.left) + [t.item] + Items(t.right)
  {
  }

  lemma Chain(a: seq<Item>, b: seq<Item>, c: seq<Item>, d: seq<Item>, e: seq<Item>, f: seq<Item>, g: seq<Item>)
    ensures ((a + b + c) + d + e) + f + g == a + b + (c + d + (e + f + g))
    ensures (a + b + c) + d + (e + f + g) == ((a + b + c) + d + e) + f + g
    ensures (a + b + c) + d + (e + f + g) == a + b + ((c + d + e) + f + g)
  {
    var all := a + b + c + d + e + f + g;
    assert ((a + b + c) + d + e) + f + g == all;
    assert a + b + (c + d + (e + f + g)) == all;
    assert (a + b + c) + d + (e + f + g) == all;
    assert a + b + ((c + d + e) + f + g) == all;
  }

  lemma ZigZigItems<N>(t: Tree<N>, p: Frame<N>, g: Frame<N>)
    requires t.Node? && p.wentLeft == g.wentLeft
    ensures Items(ZigZig(t, p, g)) == Items(Under(g, Under(p, t)))
  {
    hide Items;
    var l, r, x, y, a, b := Items(t.left), Items(t.right), Items(p.other), Items(g.other), [p.item], [g.item];
    var z := ZigZig(t, p, g);
    ItemsOfNode(t);
    ItemsOfNode(Under(p, t));
    ItemsOfNode(Under(g, Under(p, t)));
    ItemsOfNode(z);
    if p.wentLeft {
      ItemsOfNode(z.right);
      ItemsOfNode(z.right.right);
      Chain(l, [t.item], r, a, x, b, y);
    } else {
      ItemsOfNode(z.left);
      ItemsOfNode(z.left.left);
      Chain(y, b, x, a, l, [t.item], r);
    }
  }

  lemma ZigZagItems<N>(t: Tree<N>, p: Frame<N>, g: Frame<N>)
    requires t.Node? && p.wentLeft != g.wentLeft
    ensures Items(ZigZag(t, p, g)) == Items(Under(g, Under(p, t)))
  {
    hide Items;
    var l, r, x, y, a, b := Items(t.left), Items(t.right), Items(p.other), Items(g.other), [p.item], [g.item];
    var z := ZigZag(t, p, g);
    ItemsOfNode(t);
    ItemsOfNode(Under(p, t));
    ItemsOfNode(Under(g, Under(p, t)));
    ItemsOfNode(z);
    ItemsOfNode(z.left);
    ItemsOfNode(z.right);
    if p.wentLeft {
      Chain(y, b, l, [t.item], r, a, x);
    } else {
      Chain(x, a, l, [t.item], r, b, y);
    }
  }

  lemma ZigItems<N>(t: Tree<N>, p: Frame<N>)
    requires t.Node?
    ensures Items(Zig(t, p)) == Items(Under(p, t))
  {
    var l, r, x, a := Items(t.left), Items(t.right), Items(p.other), [p.item];
    if p.wentLeft {
      assert l + [t.item] + (r + a + x) == (l + [t.item] + r) + a + x;
    } else {
      assert (x + a + l) + [t.item] + r == x + a + (l + [t.item] + r);
    }
  }

  lemma PlugTwo<N>(t: Tree<N>, path: seq<Frame<N>>)
    requires |path| >= 2
    ensures var k := |path|;
            Plug(t, path) == Plug(Under(path[k - 2], Under(path[k - 1], t)), path[..k - 2])
  {
    var k := |path|;
    assert path[..k - 1][..k - 2] == path[..k - 2];
  }

  /** Splaying keeps the items and their order. */
  lemma {:induction false} SplayItems<N>(t: Tree<N>, path: seq<Frame<N>>)
    requires t.Node?
    ensures Items(Splay(t, path)) == Items(Plug(t, path))
    decreases |path|
  {
    var k := |path|;
    if k == 1 {
      ZigItems(t, path[0]);
      assert path[..0] == [];
    } else if k >= 2 {
      var p, g := path[k - 1], path[k - 2];
      if p.wentLeft == g.wentLeft {
        ZigZigItems(t, p, g);
      } else {
        ZigZagItems(t, p, g);
      }
      SplayItems(Splay2(t, p, g), path[..k - 2]);
      PlugItems(Splay2(t, p, g), Under(g, Under(p, t)), path[..k - 2]);
      PlugTwo(t, path);
    }
  }

  // ---------- Sets of nodes ----------

  lemma {:induction false} PlugNodes<N>(t: Tree<N>, path: seq<Frame<N>>)
    ensures Nodes(Plug(t, path)) == Nodes(t) + PathNodes(path)
    ensures Distinct(t) && DistinctPath(path) && Nodes(t) !! PathNodes(path) ==> Distinct(Plug(t, path))
    decreases |path|
  {
    if path != [] {
      var f := path[|path| - 1];
      PlugNodes(Under(f, t), path[..|path| - 1]);
    }
  }

  lemma Splay2Nodes<N>(t: Tree<N>, p: Frame<N>, g: Frame<N>)
    requires t.Node?
    ensures Nodes(Splay2(t, p, g)) == Nodes(t) + {p.node} + Nodes(p.other) + {g.node} + Nodes(g.other)
  {
    var r := Splay2(t, p, g);
    if p.wentLeft == g.wentLeft {
      var e := if p.wentLeft then r.right else r.left;
      var d := if p.wentLeft then e.right else e.left;
      assert Nodes(d) == {g.node} + Nodes(p.other) + Nodes(g.other);
      assert Nodes(e) == {p.node} + Nodes(d) + Nodes(if p.wentLeft then t.right else t.left);
    }
  }

  lemma {:induction false} SplayNodes<N>(t: Tree<N>, path: seq<Frame<N>>)
    requires t.Node?
    ensures Nodes(Splay(t, path)) == Nodes(t) + PathNodes(path)
    decreases |path|
  {
    var k := |path|;
    if k >= 2 {
      assert path[..k - 1][..k - 2] == path[..k - 2];
      Splay2Nodes(t, path[k - 1], path[k - 2]);
      SplayNodes(Splay2(t, path[k - 1], path[k - 2]), path[..k - 2]);
    }
  }

  // Splay2 keeps the nodes apart.
  lemma Splay2Distinct<N>(t: Tree<N>, p: Frame<N>, g: Frame<N>)
    requires t.Node? && Distinct(t) && Distinct(p.other) && Distinct(g.other)
    requires p.node !in Nodes(p.other) && g.node !in Nodes(g.other)
    requires Nodes(t) !! ({p.node} + Nodes(p.other)) && Nodes(t) !! ({g.node} + Nodes(g.other))
    requires ({p.node} + Nodes(p.other)) !! ({g.node} + Nodes(g.other))
    ensures Distinct(Splay2(t, p, g))
  {
  }

  lemma {:induction false} SplayDistinct<N>(t: Tree<N>, path: seq<Frame<N>>)
    requires t.Node? && Distinct(t) && DistinctPath(path) && Nodes(t) !! PathNodes(path)
    ensures Distinct(Splay(t, path))
    decreases |path|
  {
    var k := |path|;
    if k >= 2 {
      assert path[..k - 1][..k - 2] == path[..k - 2];
      Splay2Distinct(t, path[k - 1], path[k - 2]);
      Splay2Nodes(t, path[k - 1], path[k - 2]);
      SplayDistinct(Splay2(t, path[k - 1], path[k - 2]), path[..k - 2]);
    }
  }

  // ---------- Searching ----------

  /** A search tree: every item on the left is smaller, on the right larger. */
  ghost predicate Bst<N>(t: Tree<N>) {
    Sorted(Items(t))
  }

  lemma BstParts<N>(t: Tree<N>)
    requires Bst(t) && t.Node?
    ensures Bst(t.left) && Bst(t.right)
    ensures forall i :: i in Items(t.left) ==> i.key < t.item.key
    ensures forall i :: i in Items(t.right) ==> t.item.key < i.key
  {
    var l, r, s := Items(t.left), Items(t.right), Items(t);
    var k := |l|;
    assert s[k] == t.item;
    assert forall i :: 0 <= i < k ==> s[i] == l[i];
    assert forall i :: 0 <= i < |r| ==> s[k + 1 + i] == r[i];
  }

  /** The subtree that a search for a key ends at. */
  function Find<N>(t: Tree<N>, key: int): Tree<N> {
    if t.Leaf? || key == t.item.key then t
    else if key < t.item.key then Find(t.left, key)
    else Find(t.right, key)
  }

  /** The path that it takes, below the frames already passed. */
  function FindPath<N>(t: Tree<N>, key: int, above: seq<Frame<N>>): seq<Frame<N>> {
    if t.Leaf? || key == t.item.key then above
    else if key < t.item.key then FindPath(t.left, key, above + [Frame(t.node, t.item, true, t.right)])
    else FindPath(t.right, key, above + [Frame(t.node, t.item, false, t.left)])
  }

  lemma {:induction false} FindPlug<N>(t: Tree<N>, key: int, above: seq<Frame<N>>)
    ensures Plug(Find(t, key), FindPath(t, key, above)) == Plug(t, above)
  {
    if t.Node? && key != t.item.key {
      var f := if key < t.item.key then Frame(t.node, t.item, true, t.right)
               else Frame(t.node, t.item, false, t.left);
      assert (above + [f])[..|above|] == above;
      FindPlug(if key < t.item.key then t.left else t.right, key, above + [f]);
    }
  }

  // The path of a search and the subtree it ends at share no nodes.
  lemma {:induction false} FindApart<N>(t: Tree<N>, key: int, above: seq<Frame<N>>)
    requires Distinct(t) && DistinctPath(above) && Nodes(t) !! PathNodes(above)
    ensures var sub, path := Find(t, key), FindPath(t, key, above);
            Distinct(sub) && DistinctPath(path) && Nodes(sub) !! PathNodes(path)
  {
    if t.Node? && key != t.item.key {
      var f := if key < t.item.key then Frame(t.node, t.item, true, t.right)
               else Frame(t.node, t.item, false, t.left);
      assert (above + [f])[..|above|] == above;
      FindApart(if key < t.item.key then t.left else t.right, key, above + [f]);
    }
  }

  /** In a search tree the search ends at the item with the key, if any. */
  lemma {:induction false} FindCorrect<N>(t: Tree<N>, key: int)
    requires Bst(t)
    ensures var s := Find(t, key);
            if s.Node? then s.item.key == key && s.item in Items(t)
            else forall i :: i in Items(t) ==> i.key != key
  {
    if t.Node? {
      BstParts(t);
      if key < t.item.key {
        FindCorrect(t.left, key);
      } else if key > t.item.key {
        FindCorrect(t.right, key);
      }
    }
  }

  // ---------- Positions ----------

  // The items to the left and to the right of what hangs below a path.
  function PathLeft<N>(path: seq<Frame<N>>): seq<Item> {
    if path == [] then []
    else
      var f := path[|path| - 1];
      PathLeft(path[..|path| - 1]) + if f.wentLeft then [] else Items(f.other) + [f.item]
  }

  function PathRight<N>(path: seq<Frame<N>>): seq<Item> {
    if path == [] then []
    else
      var f := path[|path| - 1];
      (if f.wentLeft then [f.item] + Items(f.other) else []) + PathRight(path[..|path| - 1])
  }

  lemma Regroup(a: seq<Item>, b: seq<Item>, c: seq<Item>, d: seq<Item>, e: seq<Item>)
    ensures a + (b + c + d) + e == (a + []) + b + ((c + d) + e)
    ensures a + (b + c + d) + e == (a + (b + c)) + d + ([] + e)
  {
    assert a + (b + c + d) + e == a + b + c + d + e;
    assert (a + []) + b + ((c + d) + e) == a + b + c + d + e;
    assert (a + (b + c)) + d + ([] + e) == a + b + c + d + e;
  }

  lemma {:induction false} PlugSplit<N>(t: Tree<N>, path: seq<Frame<N>>)
    ensures Items(Plug(t, path)) == PathLeft(path) + Items(t) + PathRight(path)
    decreases |path|
  {
    if path == [] {
      assert [] + Items(t) + [] == Items(t);
    } else {
      var f, up := path[|path| - 1], path[..|path| - 1];
      PlugSplit(Under(f, t), up);
      if f.wentLeft {
        assert Items(Under(f, t)) == Items(t) + [f.item] + Items(f.other);
        hide Items;
        Regroup(PathLeft(up), Items(t), [f.item], Items(f.other), PathRight(up));
      } else {
        assert Items(Under(f, t)) == Items(f.other) + [f.item] + Items(t);
        hide Items;
        Regroup(PathLeft(up), Items(f.other), [f.item], Items(t), PathRight(up));
      }
    }
  }

  ghost predicate AllBelow(s: seq<Item>, key: int) {
    forall i :: i in s ==> i.key < key
  }

  ghost predicate AllAbove(s: seq<Item>, key: int) {
    forall i :: i in s ==> key < i.key
  }

  /** How many items a key would come after. */
  function Position(s: seq<Item>, key: int): (p: nat)
    ensures p <= |s|
  {
    if s == [] || s[0].key >= key then 0 else 1 + Position(s[1..], key)
  }

  lemma {:induction false} PositionIs(l: seq<Item>, r: seq<Item>, key: int)
    requires AllBelow(l, key) && (r == [] || r[0].key >= key)
    ensures Position(l + r, key) == |l|
  {
    if l == [] {
      assert l + r == r;
    } else {
      assert (l + r)[1..] == l[1..] + r;
      PositionIs(l[1..], r, key);
    }
  }

  // Along its path a search for a key keeps the smaller items to the left and
  // the larger ones to the right.
  ghost predicate Splits<N>(path: seq<Frame<N>>, key: int) {
    AllBelow(PathLeft(path), key) && AllAbove(PathRight(path), key)
  }

  lemma SplitsStep<N>(path: seq<Frame<N>>, key: int, t: Tree<N>)
    requires Splits(path, key) && t.Node? && Bst(t) && key != t.item.key
    ensures var left := key < t.item.key;
            Splits(path + [Frame(t.node, t.item, left, if left then t.right else t.left)], key)
  {
    BstParts(t);
    var left := key < t.item.key;
    var f := Frame(t.node, t.item, left, if left then t.right else t.left);
    assert (path + [f])[..|path|] == path;
  }

  lemma {:induction false} FindPathSplits<N>(t: Tree<N>, key: int, above: seq<Frame<N>>)
    requires Bst(t) && Splits(above, key)
    ensures Splits(FindPath(t, key, above), key)
  {
    if t.Node? && key != t.item.key {
      var left := key < t.item.key;
      SplitsStep(above, key, t);
      BstParts(t);
      FindPathSplits(if left then t.left else t.right, key,
                     above + [Frame(t.node, t.item, left, if left then t.right else t.left)]);
    }
  }

  lemma SortedJoin(l: seq<Item>, item: Item, r: seq<Item>)
    requires Sorted(l) && Sorted(r) && AllBelow(l, item.key) && AllAbove(r, item.key)
    ensures Sorted(l + [item] + r)
  {
    var s := l + [item] + r;
    forall i, j | 0 <= i < j < |s|
      ensures s[i].key < s[j].key
    {
      assert i < |l| ==> s[i] == l[i] && s[i] in l;
      assert j > |l| ==> s[j] == r[j - |l| - 1] && s[j] in r;
      assert i > |l| ==> s[i] == r[i - |l| - 1] && s[i] in r;
      assert j < |l| ==> s[j] == l[j];
    }
  }

  lemma SortedParts(l: seq<Item>, m: seq<Item>, r: seq<Item>)
    requires Sorted(l + m + r)
    ensures Sorted(l) && Sorted(m) && Sorted(r) && Sorted(l + r)
  {
    var s := l + m + r;
    assert forall i :: 0 <= i < |l| ==> l[i] == s[i];
    assert forall i :: 0 <= i < |m| ==> m[i] == s[|l| + i];
    assert forall i :: 0 <= i < |r| ==> r[i] == s[|l| + |m| + i];
    forall i, j | 0 <= i < j < |l + r|
      ensures (l + r)[i].key < (l + r)[j].key
    {
      var i', j' := if i < |l| then i else i + |m|, if j < |l| then j else j + |m|;
      assert (l + r)[i] == s[i'] && (l + r)[j] == s[j'];
    }
  }

  /** A new item below the path of its search comes at its position. */
  lemma InsertItems<N>(t: Tree<N>, n: N, item: Item)
    requires Bst(t) && Find(t, item.key).Leaf?
    ensures var path := FindPath(t, item.key, []);
            var u, s, p := Plug(Node(n, item, Leaf, Leaf), path), Items(t), Position(Items(t), item.key);
            Items(u) == s[..p] + [item] + s[p..] && Bst(u)
  {
    hide *;
    var path := FindPath(t, item.key, []);
    var l, r := PathLeft(path), PathRight(path);
    var gone: Tree<N> := Leaf;
    FindPlug(t, item.key, []);
    FoundSplits(t, item.key);
    PlugSplit(gone, path);
    PlugSplit(Node(n, item, Leaf, Leaf), path);
    SmallItems(n, item);
    assert Plug(gone, path) == t by {
      assert Find(t, item.key) == gone;
      PlugNothing(t);
    }
    assert l + [] + r == l + r;
    SortedItems(t);
    SplicedIn(l, item, r);
    SortedItems(Plug(Node(n, item, Leaf, Leaf), path));
  }

  lemma PlugNothing<N>(t: Tree<N>)
    ensures Plug(t, []) == t
  {
  }

  lemma SortedItems<N>(t: Tree<N>)
    ensures Bst(t) <==> Sorted(Items(t))
  {
  }

  lemma SmallItems<N>(n: N, item: Item)
    ensures var gone: Tree<N> := Leaf;
            Items(gone) == [] && Items(Node(n, item, Leaf, Leaf)) == [item]
  {
  }

  lemma FoundSplits<N>(t: Tree<N>, key: int)
    requires Bst(t)
    ensures var path := FindPath(t, key, []);
            AllBelow(PathLeft(path), key) && AllAbove(PathRight(path), key)
  {
    FindPathSplits(t, key, []);
  }

  lemma SplicedIn(l: seq<Item>, item: Item, r: seq<Item>)
    requires AllBelow(l, item.key) && AllAbove(r, item.key) && Sorted(l + r)
    ensures var s, p := l + r, Position(l + r, item.key);
            s[..p] + [item] + s[p..] == l + [item] + r && Sorted(l + [item] + r)
  {
    hide Position, Sorted;
    PositionIs(l, r, item.key);
    assert (l + r)[..|l|] == l && (l + r)[|l|..] == r;
    assert l + [] + r == l + r;
    SortedParts(l, [], r);
    SortedJoin(l, item, r);
  }

  lemma PositionOf(l: seq<Item>, item: Item, r: seq<Item>)
    requires AllBelow(l, item.key)
    ensures var s := l + [item] + r;
            Position(s, item.key) == |l| && s[|l|] == item && s[..|l|] == l && s[|l| + 1..] == r
  {
    hide Position;
    assert l + [item] + r == l + ([item] + r);
    PositionIs(l, [item] + r, item.key);
  }

  /** The item of the root stands at the position of its key. */
  lemma RootPosition<N>(t: Tree<N>)
    requires Bst(t) && t.Node?
    ensures var s, p := Items(t), Position(Items(t), t.item.key);
            p < |s| && s[p] == t.item && s[..p] == Items(t.left) && s[p + 1..] == Items(t.right)
  {
    hide Items, Position, Bst, Sorted;
    BstParts(t);
    ItemsOfNode(t);
    PositionOf(Items(t.left), t.item, Items(t.right));
  }

  // ---------- Removing the root ----------

  ghost predicate AllRight<N>(path: seq<Frame<N>>) {
    forall i :: 0 <= i < |path| ==> !path[i].wentLeft
  }

  /** The subtree of the right-most node, and the path to it. */
  function RightEnd<N>(t: Tree<N>): (r: Tree<N>)
    requires t.Node?
    ensures r.Node? && r.right.Leaf?
  {
    if t.right.Leaf? then t else RightEnd(t.right)
  }

  function RightPath<N>(t: Tree<N>, above: seq<Frame<N>>): seq<Frame<N>>
    requires t.Node?
  {
    if t.right.Leaf? then above else RightPath(t.right, above + [Frame(t.node, t.item, false, t.left)])
  }

  lemma {:induction false} RightPlug<N>(t: Tree<N>, above: seq<Frame<N>>)
    requires t.Node? && AllRight(above)
    ensures Plug(RightEnd(t), RightPath(t, above)) == Plug(t, above) && AllRight(RightPath(t, above))
  {
    if t.right.Node? {
      var f := Frame(t.node, t.item, false, t.left);
      assert (above + [f])[..|above|] == above;
      RightPlug(t.right, above + [f]);
    }
  }

  /** The left part of a removed root, with its right part hung to the right. */
  function Joined<N>(s: Tree<N>, r: Tree<N>): Tree<N>
    requires s.Node?
  {
    Node(s.node, s.item, s.left, r)
  }

  /** What remains when the root goes: the left part, splayed on its right-most
      node, takes the right part. */
  function WithoutRoot<N>(t: Tree<N>): Tree<N>
    requires t.Node?
  {
    if t.left.Leaf? then t.right else Joined(Splay(RightEnd(t.left), RightPath(t.left, [])), t.right)
  }

  // Splaying a node that nothing hangs off to the right of, along a path that
  // always went right, leaves it so.
  lemma {:induction false} RightmostSplay<N>(t: Tree<N>, path: seq<Frame<N>>)
    requires t.Node? && t.right.Leaf? && AllRight(path)
    ensures Splay(t, path).right.Leaf?
    decreases |path|
  {
    var k := |path|;
    if k >= 2 {
      RightmostSplay(Splay2(t, path[k - 1], path[k - 2]), path[..k - 2]);
    }
  }
}
