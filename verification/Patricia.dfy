/** mjl_patricia.c: the patricia trie, with its nodes linked in memory. The
    contract of every operation is stated on Contents, a map from addresses to
    the node and the item filed under each. */
module Patricia {
  import opened Wrappers
  import opened PatriciaTree
  import opened PatriciaHeap

  class Node {
    var item: Option<Item>
    var bit: nat
    var left: Node?
    var right: Node?

    constructor (item: Option<Item>, bit: nat)
      ensures this.item == item && this.bit == bit && left == null && right == null
    {
      this.item := item;
      this.bit := bit;
      left, right := null, null;
    }
  }

  ghost predicate Linked(nodes: set<Node>)
    reads nodes
  {
    forall n :: n in nodes ==> n.left != null && n.right != null
  }

  /** The fields of the nodes as a value. */
  ghost function Snap(nodes: set<Node>): (h: Heap<Node>)
    requires Linked(nodes)
    reads nodes
    ensures h.Keys == nodes
  {
    map n | n in nodes :: Rec(n.item, n.bit, n.left as Node, n.right as Node)
  }

  // The nodes hold the trie of the given root.
  ghost predicate Represents(nodes: set<Node>, head: Node, root: Option<Tree<Node>>, low: Node)
    reads nodes
  {
    Linked(nodes) && TrieOk(Snap(nodes), head, root, low)
  }

  class Patricia {
    var head: Node
    var count: int
    const width: nat
    ghost var nodes: set<Node>
    ghost var root: Option<Tree<Node>>
    ghost var low: Node

    ghost predicate Valid()
      reads this, nodes
    {
      Represents(nodes, head, root, low) &&
      count == |Contents()| &&
      (forall a :: a in Contents() ==> |a| == width)
    }

    ghost function Contents(): map<Addr, Entry<Node>>
      reads this
    {
      Held(root)
    }

    constructor (width: nat)
      ensures Valid() && fresh(nodes) && Contents() == map[] && this.width == width
    {
      var h := new Node(None, 0);
      h.left, h.right := h, h;
      head, low := h, h;
      count := 0;
      this.width := width;
      nodes, root := {h}, None;
    }

    /** The link that the descents follow. */
    method Follow(x: Node, a: Addr) returns (y: Node)
      requires Linked(nodes) && x in nodes
      ensures y == Next(Snap(nodes), x, a)
    {
      if x.bit != 0 && !Bit(a, x.bit) {
        y := x.left;
      } else {
        y := x.right;
      }
    }

    // What a descent knows about the node x that it has come to from p: it
    // stands for the trie sub, below which the search of the root goes on.
    ghost predicate Reached(sub: Tree<Node>, p: Node, x: Node, a: Addr)
      requires Linked(nodes)
      reads this, nodes
    {
      && root.Some? && p in nodes && Below(Snap(nodes), sub, p.bit, x)
      && Search(sub, a) == Search(root.value, a)
    }

    lemma Start(a: Addr)
      requires Valid()
      ensures head in nodes && head.bit == 0 && head.item == None
      ensures root.None? ==> Next(Snap(nodes), head, a) == head
      ensures root.Some? ==> Reached(root.value, head, Next(Snap(nodes), head, a), a)
    {
    }

    lemma Step(sub: Tree<Node>, p: Node, x: Node, a: Addr)
      requires Valid() && Reached(sub, p, x, a)
      ensures x in nodes && x == sub.node && (p.bit < x.bit <==> sub.Branch?)
      ensures sub.Branch? ==> x.bit == sub.bit && Reached(Child(sub, a), x, Next(Snap(nodes), x, a), a)
      ensures sub.Tip? ==> x == Search(root.value, a).node && x.item == Some(Search(root.value, a).item)
    {
      StepDown(Snap(nodes), sub, p.bit, x, a);
    }

    // Both descents of find and insert begin with this one: to the end of the
    // search, which is the head when the trie is empty.
    method Descend(a: Addr) returns (x: Node)
      requires Valid()
      ensures x in nodes
      ensures root.None? ==> x == head && x.item == None
      ensures root.Some? ==> x == Search(root.value, a).node && x.item == Some(Search(root.value, a).item)
    {
      hide TrieOk, Reached, Snap, Search;
      var p := head;
      Start(a);
      x := Follow(p, a);
      ghost var sub := if root.Some? then root.value else Tip(head, Item([], 0));
      if root.Some? {
        Step(sub, p, x, a);
      }
      while p.bit < x.bit
        invariant p in nodes && x in nodes
        invariant root.None? ==> p == head && x == head
        invariant root.Some? ==> Reached(sub, p, x, a) && (p.bit < x.bit <==> sub.Branch?)
        decreases sub
      {
        Step(sub, p, x, a);
        p := x;
        x := Follow(x, a);
        sub := Child(sub, a);
        Step(sub, p, x, a);
      }
      if root.Some? {
        Step(sub, p, x, a);
      }
    }

    /** patricia_find. */
    method Find(item: Item) returns (r: Option<Item>)
      requires Valid()
      ensures r == if item.addr in Contents() then Some(Contents()[item.addr].item) else None
    {
      var x := Descend(item.addr);
      if root.Some? {
        SearchFinds(root.value, 0, item.addr);
      }
      if x.item.Some? && x.item.value.addr == item.addr {
        r := x.item;
      } else {
        r := None;
      }
    }

    /** patricia_insert: None stands for its NULL. */
    method Insert(item: Item) returns (r: Option<Node>)
      requires Valid() && |item.addr| == width
      modifies this, nodes
      ensures Valid() && fresh(nodes - old(nodes))
      ensures r.None? <==> item.addr in old(Contents())
      ensures r.None? ==> Contents() == old(Contents())
      ensures r.Some? ==> fresh(r.value) && Contents() == old(Contents())[item.addr := Entry(r.value, item)]
    {
      hide TrieOk, Snap, Search, Entries, InsertPoint, SplitsAt;
      var a := item.addr;
      var x := Descend(a);
      var b := 0;
      if x.item.Some? {
        Found(a);
        if x.item.value.addr == a {
          return None;
        }
        // the first bit in which the two items differ
        b := Fbd(x.item.value.addr, a);
        Splits(a, b);
      }
      // travel down the trie to that point
      var p;
      p, x := Travel(a, b);
      var t := LinkNew(p, x, item, b);
      r := Some(t);
    }

    // What the end of a search says about the contents.
    lemma Found(a: Addr)
      requires Valid() && root.Some?
      ensures var found := Search(root.value, a).item;
              |found.addr| == width && (a in Contents() <==> found.addr == a) &&
              (a in Contents() ==> Contents()[a].item == found && Contents()[a].node == Search(root.value, a).node)
    {
      SearchFinds(root.value, 0, a);
      assert Search(root.value, a).item.addr in Contents();
    }

    lemma Splits(a: Addr, b: nat)
      requires Valid() && root.Some?
      requires var found := Search(root.value, a).item.addr;
               |found| == |a| && found != a && b == Fbd(found, a)
      ensures b > 0 && SplitsAt(root.value, a, b)
    {
    }

    // insert a new node at this point
    method LinkNew(p: Node, x: Node, item: Item, b: nat) returns (t: Node)
      requires Valid() && p in nodes && x in nodes && |item.addr| == width
      requires GrowsAt(root, head, p, x, item.addr, b)
      modifies this, nodes
      ensures Valid() && fresh(nodes - old(nodes)) && fresh(t)
      ensures Contents() == old(Contents())[item.addr := Entry(t, item)]
    {
      hide *;
      t := new Node(Some(item), b);
      ghost var root', low' := PlanInsert(p, x, t, item, b);
      ghost var all := nodes;
      nodes, root, low, count := nodes + {t}, root', low', count + 1;
      Splice(t, p, x, item, b, all);
      Conclude();
    }

    // What the trie will be once t has been linked into memory.
    lemma PlanInsert(p: Node, x: Node, t: Node, item: Item, b: nat) returns (root': Option<Tree<Node>>, low': Node)
      requires Valid() && p in nodes && x in nodes && |item.addr| == width && t !in nodes
      requires GrowsAt(root, head, p, x, item.addr, b)
      ensures Linked(nodes) && TrieOk(Inserted(Snap(nodes), p, x, t, item, b), head, root', low')
      ensures Held(root') == Contents()[item.addr := Entry(t, item)]
      ensures |Held(root')| == count + 1 && forall k :: k in Held(root') ==> |k| == width
    {
      hide TrieOk, Inserted, Snap, GrowsAt, Held;
      root', low' := Grown(root, t, item, b), if root.None? then t else low;
      GrownOk(Snap(nodes), head, root, low, p, x, t, item, b);
    }

    // The memory operations of the insertion.
    method Splice(t: Node, p: Node, x: Node, item: Item, b: nat, ghost all: set<Node>)
      requires Linked(all) && p in all && x in all && t !in all && t.item == Some(item) && t.bit == b
      modifies t, p
      ensures Linked(all + {t}) && Snap(all + {t}) == Inserted(old(Snap(all)), p, x, t, item, b)
    {
      ghost var h := Snap(all);
      if t.bit != 0 && !Bit(item.addr, t.bit) {
        t.left, t.right := t, x;
      } else {
        t.left, t.right := x, t;
      }
      assert Snap(all + {t}) == h[t := Rec(t.item, t.bit, t.left as Node, t.right as Node)];
      Turn(p, item.addr, t, all + {t});
    }

    // Turns the link of p that the search for an address follows.
    method Turn(p: Node, a: Addr, v: Node, ghost all: set<Node>)
      requires Linked(all) && p in all
      modifies p
      ensures Linked(all) && Snap(all) == SetNext(old(Snap(all)), p, a, v)
    {
      if p.bit != 0 && !Bit(a, p.bit) {
        p.left := v;
      } else {
        p.right := v;
      }
    }

    method Travel(a: Addr, b: nat) returns (p: Node, x: Node)
      requires Valid()
      ensures p in nodes && x in nodes
      ensures root.None? ==> p == head && x == head
      ensures root.None? && b == 0 ==> GrowsAt(root, head, p, x, a, b)
      ensures root.Some? && b > 0 && SplitsAt(root.value, a, b) ==> GrowsAt(root, head, p, x, a, b)
    {
      hide TrieOk, Reached, Snap, Search;
      p := head;
      Start(a);
      x := Follow(p, a);
      ghost var sub := if root.Some? then root.value else Tip(head, Item([], 0));
      if root.Some? {
        Step(sub, p, x, a);
      }
      while p.bit < x.bit && x.bit < b
        invariant p in nodes && x in nodes
        invariant root.None? ==> p == head && x == head
        invariant root.Some? ==>
                    Reached(sub, p, x, a) && InsertPoint(sub, p, a, b) == InsertPoint(root.value, head, a, b)
        invariant root.Some? ==> x == sub.node && (p.bit < x.bit <==> sub.Branch?) && (sub.Branch? ==> x.bit == sub.bit)
        decreases sub
      {
        Step(sub, p, x, a);
        p := x;
        x := Follow(x, a);
        sub := Child(sub, a);
        Step(sub, p, x, a);
      }
    }

    // gpx_node and gpx_item: the search for an address that is to be removed.
    method Locate(a: Addr) returns (g: Node, p: Node, x: Node)
      requires Valid()
      ensures g in nodes && p in nodes && x in nodes && Located(root, head, a, g, p, x)
      ensures root.None? ==> x.item == None
      ensures root.Some? ==> x == Search(root.value, a).node && x.item == Some(Search(root.value, a).item)
    {
      hide TrieOk, Reached, Snap, Search;
      g, p := head, head;
      Start(a);
      x := Follow(p, a);
      ghost var sub := if root.Some? then root.value else Tip(head, Item([], 0));
      if root.Some? {
        Step(sub, p, x, a);
      }
      while p.bit < x.bit
        invariant g in nodes && p in nodes && x in nodes
        invariant root.None? ==> g == head && p == head && x == head
        invariant root.Some? ==> Reached(sub, p, x, a) && (p.bit < x.bit <==> sub.Branch?)
        invariant root.Some? ==>
                    (if root.value.Tip? then (head, head) else Parents(root.value, head, a)) ==
                    if sub.Tip? then (g, p) else Parents(sub, p, a)
        decreases sub
      {
        Step(sub, p, x, a);
        g := p;
        p := x;
        x := Follow(x, a);
        sub := Child(sub, a);
        Step(sub, p, x, a);
      }
      if root.Some? {
        Step(sub, p, x, a);
      }
    }

    // The node whose link first leads the search to x.
    method FindOwner(x: Node, a: Addr) returns (z: Node)
      requires Valid() && root.Some? && Search(root.value, a).node == x
      ensures z == LinkOwner(root.value, head, a, x)
    {
      hide TrieOk, Reached, Snap, Search;
      z := head;
      Start(a);
      var y := Follow(z, a);
      ghost var sub := root.value;
      Step(sub, z, y, a);
      while y != x
        invariant z in nodes && y in nodes && y == sub.node
        invariant Reached(sub, z, y, a) && Search(sub, a).node == x
        invariant LinkOwner(sub, z, a, x) == LinkOwner(root.value, head, a, x)
        decreases sub
      {
        SearchStep(sub, a);
        Step(sub, z, y, a);
        z := y;
        y := Follow(y, a);
        sub := Child(sub, a);
        Step(sub, z, y, a);
      }
    }

    static lemma SearchStep(t: Tree<Node>, a: Addr)
      ensures Search(t, a) == if t.Tip? then t else Search(Child(t, a), a)
    {
    }

    // The memory operations of the removal.
    method Unlink(g: Node, p: Node, x: Node, z: Node, a: Addr, ghost all: set<Node>)
      requires Linked(all) && g in all && p in all && x in all && z in all
      modifies all
      ensures Linked(all - {x}) && Snap(all - {x}) == Removed(old(Snap(all)), a, x, g, p, z)
    {
      hide Snap, SetNext, Other;
      if x == p {
        var c := Opposite(x, a, all);
        Turn(z, a, c, all);
      } else {
        var c := Opposite(p, a, all);
        Turn(g, a, c, all);
        Turn(z, a, p, all);
        TakeOver(p, x, all);
      }
      SnapLess(all, x);
    }

    // The link that the search does not follow.
    method Opposite(x: Node, a: Addr, ghost all: set<Node>) returns (c: Node)
      requires Linked(all) && x in all
      ensures c == Other(Snap(all), x, a)
    {
      if x.bit != 0 && !Bit(a, x.bit) {
        c := x.right;
      } else {
        c := x.left;
      }
    }

    static lemma SnapLess(all: set<Node>, x: Node)
      requires Linked(all)
      ensures Snap(all - {x}) == Snap(all) - {x}
    {
    }

    // Set the trie up for when x is removed; x may point to itself.
    method TakeOver(p: Node, x: Node, ghost all: set<Node>)
      requires Linked(all) && p in all && x in all && x != p
      modifies p
      ensures Linked(all)
      ensures var h := old(Snap(all));
              Snap(all) == h[p := Rec(h[p].item, h[x].bit, if h[x].left != x then h[x].left else p,
                                        if h[x].right != x then h[x].right else p)]
    {
      if x.left != x {
        p.left := x.left;
      } else {
        p.left := p;
      }
      if x.right != x {
        p.right := x.right;
      } else {
        p.right := p;
      }
      p.bit := x.bit;
    }

    // gpx_remove, for the search of the address a of an item in the trie.
    method GpxRemove(g: Node, p: Node, x: Node, a: Addr)
      requires Valid() && g in nodes && p in nodes && x in nodes
      requires root.Some? && Located(root, head, a, g, p, x) && Search(root.value, a).item.addr == a
      modifies this, nodes
      ensures Valid() && nodes == old(nodes) - {x}
      ensures a in old(Contents()) && Contents() == old(Contents()) - {a}
    {
      Detach(g, p, x, a);
      ShrunkLinks(Snap(nodes), head, root, low);
      if count == 0 {
        ResetHead();
      }
    }

    method Detach(g: Node, p: Node, x: Node, a: Addr)
      requires Valid() && g in nodes && p in nodes && x in nodes
      requires root.Some? && Located(root, head, a, g, p, x) && Search(root.value, a).item.addr == a
      modifies this, nodes
      ensures Valid() && nodes == old(nodes) - {x}
      ensures a in old(Contents()) && Contents() == old(Contents()) - {a}
    {
      hide *;
      LocatedEnd(root.value, head, a, g, p, x);
      var z := FindOwner(x, a);
      ghost var root', low' := Plan(g, p, x, z, a);
      ghost var all := nodes;
      nodes, root, low, count := nodes - {x}, root', low', count - 1;
      Unlink(g, p, x, z, a, all);
      Conclude();
    }

    // What the trie will be once x has been removed from memory.
    lemma Plan(g: Node, p: Node, x: Node, z: Node, a: Addr) returns (root': Option<Tree<Node>>, low': Node)
      requires Valid() && g in nodes && p in nodes && x in nodes
      requires root.Some? && Located(root, head, a, g, p, x) && Search(root.value, a).item.addr == a
      requires Search(root.value, a).node == x && z == LinkOwner(root.value, head, a, x)
      ensures Linked(nodes) && z in nodes && TrieOk(Removed(Snap(nodes), a, x, g, p, z), head, root', low')
      ensures a in Contents() && Held(root') == Contents() - {a}
      ensures |Held(root')| == count - 1 && forall k :: k in Held(root') ==> |k| == width
    {
      root', low' := Shrunk(root, head, a), if x == low then p else low;
      ShrunkOk(Snap(nodes), head, root, low, a, g, p, x, z);
      OneLess(Held(root), a);
    }

    lemma Conclude()
      requires Linked(nodes) && TrieOk(Snap(nodes), head, root, low)
      requires count == |Held(root)| && forall k :: k in Held(root) ==> |k| == width
      ensures Valid() && Contents() == Held(root)
    {
    }

    static lemma OneLess(m: map<Addr, Entry<Node>>, a: Addr)
      requires a in m
      ensures |m - {a}| == |m| - 1
    {
      assert (m - {a}).Keys == m.Keys - {a};
    }

    static lemma LocatedEnd(t: Tree<Node>, head: Node, a: Addr, g: Node, p: Node, x: Node)
      requires Located(Some(t), head, a, g, p, x)
      ensures Search(t, a).node == x
    {
    }

    // When the trie is empty, reset it to how it was at initialisation.
    method ResetHead()
      requires Valid() && root.None?
      modifies head
      ensures Valid() && Snap(nodes) == old(Snap(nodes))
    {
      head.left := head;
      head.right := head;
      head.bit := 0;
      head.item := None;
      assert Snap(nodes) == old(Snap(nodes));
    }

    /** patricia_remove_item: whether it returned zero. */
    method RemoveItem(item: Item) returns (ok: bool)
      requires Valid()
      modifies this, nodes
      ensures Valid() && nodes <= old(nodes)
      ensures ok <==> item.addr in old(Contents())
      ensures Contents() == old(Contents()) - {item.addr}
    {
      hide TrieOk, Located, Search, Snap;
      var g, p, x := Locate(item.addr);
      if root.Some? {
        Found(item.addr);
      }
      if x.item.None? || x.item.value.addr != item.addr {
        return false;
      }
      GpxRemove(g, p, x, item.addr);
      ok := true;
    }

    /** patricia_remove_node: removes the item of that very node. */
    method RemoveNode(node: Node) returns (ok: bool)
      requires Valid() && node.item.Some?
      modifies this, nodes
      ensures Valid() && nodes <= old(nodes)
      ensures var a := old(node.item.value.addr);
              (ok <==> a in old(Contents()) && old(Contents())[a].node == node) &&
              Contents() == if ok then old(Contents()) - {a} else old(Contents())
    {
      hide TrieOk, Located, Search, Snap;
      var a := node.item.value.addr;
      var g, p, x := Locate(a);
      if root.Some? {
        Found(a);
      }
      if node != x {
        return false;
      }
      GpxRemove(g, p, x, a);
      ok := true;
    }
  }
}
