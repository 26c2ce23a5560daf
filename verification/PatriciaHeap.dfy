/** The trie of mjl_patricia.c in memory, seen as a map from nodes to their
    fields, and how the relinking of insert and remove changes the trie that
    the map represents. Rep says that a link stands for a trie; each relinking
    is a function on maps, and a lemma says which trie the new map represents.
    The methods of Patricia are proved to relink the nodes as these functions
    say. */
module PatriciaHeap {
  import opened Wrappers
  import opened PatriciaTree

  datatype Rec<N> = Rec(item: Option<Item>, bit: nat, left: N, right: N)

  type Heap<!N(==)> = map<N, Rec<N>>

  /** The link that a search for an address follows out of a node; the nodes
      of bit zero lead to the right. */
  function Next<N>(h: Heap<N>, n: N, a: Addr): N
    requires n in h
  {
    if h[n].bit != 0 && !Bit(a, h[n].bit) then h[n].left else h[n].right
  }

  function Other<N>(h: Heap<N>, n: N, a: Addr): N
    requires n in h
  {
    if h[n].bit != 0 && !Bit(a, h[n].bit) then h[n].right else h[n].left
  }

  /** Setting the link that the search follows. */
  function SetNext<N>(h: Heap<N>, n: N, a: Addr, v: N): Heap<N>
    requires n in h
  {
    h[n := if h[n].bit != 0 && !Bit(a, h[n].bit) then h[n].(left := v) else h[n].(right := v)]
  }

  /** The link x stands for the trie t. */
  ghost predicate Rep<N>(h: Heap<N>, t: Tree<N>, x: N) {
    x == t.node && x in h &&
    match t
    case Tip(_, item) => h[x].item == Some(item)
    case Branch(_, b, l, r) => h[x].bit == b && b > 0 && Rep(h, l, h[x].left) && Rep(h, r, h[x].right)
  }

  // The nodes that tip below t without branching there have bits up to pb: to
  // a search that comes from bit pb, their links point upwards.
  ghost predicate UpLinks<N>(h: Heap<N>, t: Tree<N>, pb: nat) {
    forall n :: n in Tips(t) && n !in Inner(t) ==> n in h && h[n].bit <= pb
  }

  ghost predicate Below<N>(h: Heap<N>, t: Tree<N>, pb: nat, x: N) {
    Rep(h, t, x) && Wf(t, pb) && UpLinks(h, t, pb)
  }

  /** The bits tell branches from up-links, and the search goes on below. */
  lemma StepDown<N>(h: Heap<N>, t: Tree<N>, pb: nat, x: N, a: Addr)
    requires Below(h, t, pb, x)
    ensures t.Branch? <==> pb < h[x].bit
    ensures t.Branch? ==> Below(h, Child(t, a), t.bit, Next(h, x, a))
  {
    if t.Branch? {
      InnerAreTips(t.left, t.bit);
      InnerAreTips(t.right, t.bit);
    }
  }

  lemma {:induction false} RepFrame<N>(h: Heap<N>, h': Heap<N>, t: Tree<N>, x: N)
    requires Rep(h, t, x)
    requires forall n :: n in Inner(t) ==> n in h && n in h' && h'[n] == h[n]
    requires forall n :: n in Tips(t) && n in h ==> n in h' && h'[n].item == h[n].item
    ensures Rep(h', t, x)
  {
    if t.Branch? {
      RepFrame(h, h', t.left, h[x].left);
      RepFrame(h, h', t.right, h[x].right);
    }
  }

  lemma {:induction false} RepItems<N>(h: Heap<N>, t: Tree<N>, x: N)
    requires Rep(h, t, x)
    ensures forall n :: n in Tips(t) ==> n in h && h[n].item.Some?
    ensures forall n :: n in Inner(t) ==> n in h && h[n].bit > 0
  {
    if t.Branch? {
      RepItems(h, t.left, h[x].left);
      RepItems(h, t.right, h[x].right);
    }
  }

  // ---------- Insertion ----------

  /** Where insert stops going down: the node above, and what is below. */
  function InsertPoint<N>(t: Tree<N>, q: N, a: Addr, b: nat): (N, Tree<N>) {
    if t.Tip? || t.bit >= b then (q, t) else InsertPoint(Child(t, a), t.node, a, b)
  }

  /** The new node, linked above x, and the link of q turned to it. */
  function Inserted<N>(h: Heap<N>, q: N, x: N, n: N, item: Item, b: nat): Heap<N>
    requires q in h
  {
    var rec := if b != 0 && !Bit(item.addr, b) then Rec(Some(item), b, n, x) else Rec(Some(item), b, x, n);
    SetNext(h[n := rec], q, item.addr, n)
  }

  lemma {:induction false} InsertPointIs<N>(t: Tree<N>, q: N, a: Addr, b: nat)
    ensures var (p, s) := InsertPoint(t, q, a, b);
            if t.Tip? || t.bit >= b then p == q && s == t else p in Inner(t)
  {
    if t.Branch? && t.bit < b {
      InsertPointIs(Child(t, a), t.node, a, b);
    }
  }

  /** After insertion the same link, or the new node where the link was turned,
      stands for the trie with the new item. */
  lemma {:induction false} InsertRep<N>(h: Heap<N>, t: Tree<N>, pb: nat, q: N, x: N, n: N, item: Item, b: nat)
    requires Rep(h, t, x) && Wf(t, pb) && q in h && q !in Inner(t) && n !in h && b > 0
    ensures var (p, s) := InsertPoint(t, q, item.addr, b);
            p in h && s.node in h &&
            Rep(Inserted(h, p, s.node, n, item, b), Insert(t, n, item, b),
                if t.Tip? || t.bit >= b then n else x)
  {
    var a := item.addr;
    RepItems(h, t, x);
    InsertPointIs(t, q, a, b);
    var (p, s) := InsertPoint(t, q, a, b);
    if t.Tip? || t.bit >= b {
      var h' := Inserted(h, q, x, n, item, b);
      RepFrame(h, h', t, x);
      assert Rep(h', Tip(n, item), n);
    } else {
      InsertRep(h, Child(t, a), t.bit, t.node, Next(h, x, a), n, item, b);
      InsertRepDown(h, t, pb, x, n, item, b);
    }
  }

  // The step at a branch, once the searched side is known to be right.
  lemma InsertRepDown<N>(h: Heap<N>, t: Tree<N>, pb: nat, x: N, n: N, item: Item, b: nat)
    requires Rep(h, t, x) && Wf(t, pb) && n !in h && t.Branch? && t.bit < b
    requires var (p, s) := InsertPoint(Child(t, item.addr), t.node, item.addr, b);
             var c := Child(t, item.addr);
             p in h && s.node in h &&
             Rep(Inserted(h, p, s.node, n, item, b), Insert(c, n, item, b),
                 if c.Tip? || c.bit >= b then n else Next(h, x, item.addr))
    ensures var (p, s) := InsertPoint(t, t.node, item.addr, b);
            Rep(Inserted(h, p, s.node, n, item, b), Insert(t, n, item, b), x)
  {
    var a := item.addr;
    var c := Child(t, a);
    RepItems(h, t, x);
    InsertPointIs(c, t.node, a, b);
    var (p, s) := InsertPoint(c, t.node, a, b);
    var h' := Inserted(h, p, s.node, n, item, b);
    SiblingKept(h, t, pb, x, p, s.node, n, item, b);
    InsertRepStep(h, h', t, x, a, Insert(c, n, item, b), if c.Tip? || c.bit >= b then n else Next(h, x, a));
  }

  // The other side is not touched.
  lemma SiblingKept<N>(h: Heap<N>, t: Tree<N>, pb: nat, x: N, p: N, y: N, n: N, item: Item, b: nat)
    requires Rep(h, t, x) && Wf(t, pb) && n !in h && t.Branch? && p in h
    requires p == t.node || p in Inner(Child(t, item.addr))
    ensures Rep(Inserted(h, p, y, n, item, b), Sibling(t, item.addr), Other(h, x, item.addr))
  {
    RepItems(h, t, x);
    RepFrame(h, Inserted(h, p, y, n, item, b), Sibling(t, item.addr), Other(h, x, item.addr));
  }

  // A branch whose searched side became c, linked by v, in a changed heap.
  lemma InsertRepStep<N>(h: Heap<N>, h': Heap<N>, t: Tree<N>, x: N, a: Addr, c: Tree<N>, v: N)
    requires Rep(h, t, x) && t.Branch? && x in h'
    requires Rep(h', c, v) && Rep(h', Sibling(t, a), Other(h, x, a))
    requires h'[x].bit == h[x].bit && Next(h', x, a) == v && Other(h', x, a) == Other(h, x, a)
    ensures Rep(h', WithChild(t, a, c), x)
  {
  }

  // ---------- Removal ----------

  /** Turning the link of the grandparent past the last branch cuts off the tip
      that the search ends at. The link x of t itself only changes if t is the
      last branch. */
  lemma {:induction false} CutRep<N>(h: Heap<N>, t: Tree<N>, pb: nat, q: N, x: N, a: Addr)
    requires Rep(h, t, x) && Wf(t, pb) && t.Branch? && q in h && q !in Inner(t)
    ensures var (g, p) := Parents(t, q, a);
            g in h && p in h && p in Inner(t) &&
            (if Child(t, a).Tip? then g == q else g in Inner(t)) &&
            Rep(SetNext(h, g, a, Other(h, p, a)), Cut(t, a),
                if Child(t, a).Tip? then Other(h, x, a) else x)
  {
    RepItems(h, t, x);
    var c := Child(t, a);
    var (g, p) := Parents(t, q, a);
    if c.Tip? {
      RepFrame(h, SetNext(h, g, a, Other(h, p, a)), Sibling(t, a), Other(h, x, a));
    } else {
      CutRep(h, c, t.bit, t.node, Next(h, x, a), a);
      var h' := SetNext(h, g, a, Other(h, p, a));
      RepFrame(h, h', Sibling(t, a), Other(h, x, a));
      InsertRepStep(h, h', t, x, a, Cut(c, a), if Child(c, a).Tip? then Other(h, p, a) else Next(h, x, a));
    }
  }

  /** The node whose link leads the search to the branch, or the tip, of x. */
  function LinkOwner<N(==)>(t: Tree<N>, q: N, a: Addr, x: N): N
    requires Search(t, a).node == x
  {
    if t.node == x then q else LinkOwner(Child(t, a), t.node, a, x)
  }

  /** When the last branch is that of x itself, its link is the one of the
      grandparent. */
  lemma {:induction false} SelfLinkOwner<N>(t: Tree<N>, pb: nat, q: N, a: Addr, x: N)
    requires Wf(t, pb) && t.Branch? && Search(t, a).node == x && Parents(t, q, a).1 == x
    ensures LinkOwner(t, q, a, x) == Parents(t, q, a).0
  {
    if Child(t, a).Branch? {
      CutSets(Child(t, a), t.bit, t.node, a);
      SelfLinkOwner(Child(t, a), t.bit, t.node, a, x);
    }
  }

  /** A tip that branches nowhere is linked from the last branch. */
  lemma {:induction false} TipLinkOwner<N>(t: Tree<N>, pb: nat, q: N, a: Addr, x: N)
    requires Wf(t, pb) && t.Branch? && Search(t, a).node == x && x !in Inner(t)
    ensures LinkOwner(t, q, a, x) == Parents(t, q, a).1
  {
    if Child(t, a).Branch? {
      TipLinkOwner(Child(t, a), t.bit, t.node, a, x);
    }
  }

  /** Node p, with the bit and the links of x, in the place of x. */
  function Replaced<N>(h: Heap<N>, z: N, a: Addr, x: N, p: N): Heap<N>
    requires z in h && x in h && p in h
  {
    var h' := SetNext(h, z, a, p);
    if x in h' && p in h' then h'[p := Rec(h'[p].item, h'[x].bit, h'[x].left, h'[x].right)] else h'
  }

  // The owner of the link to the branch of x, in the trie that the tip of x
  // has been cut from.
  ghost predicate Owner<N>(t: Tree<N>, q: N, a: Addr, x: N, z: N) {
    t.Branch? && if t.node == x then z == q else Owner(Child(t, a), t.node, a, x, z)
  }

  ghost predicate Distinct<N>(t: Tree<N>) {
    t.Branch? ==>
      Distinct(t.left) && Distinct(t.right) &&
      t.node !in Inner(t.left) + Inner(t.right) && Inner(t.left) !! Inner(t.right)
  }

  lemma {:induction false} OwnerIs<N>(t: Tree<N>, q: N, a: Addr, x: N, z: N)
    requires Owner(t, q, a, x, z)
    ensures x in Inner(t) && if t.node == x then z == q else z in Inner(t)
  {
    if t.node != x {
      OwnerIs(Child(t, a), t.node, a, x, z);
    }
  }

  // At the branch of x itself.
  lemma RenameHere<N>(h: Heap<N>, t: Tree<N>, v: N, a: Addr, z: N, p: N)
    requires Rep(h, t, v) && Distinct(t) && t.Branch?
    requires z in h && z !in Inner(t) && z != p && p in h && p !in Inner(t) && v !in Tips(t)
    ensures Rep(Replaced(h, z, a, v, p), Rename(t, v, p), p)
  {
    var h' := Replaced(h, z, a, v, p);
    RepItems(h, t, v);
    RenameAbsent(t.left, v, p);
    RenameAbsent(t.right, v, p);
    RepFrame(h, h', t.left, h[v].left);
    RepFrame(h, h', t.right, h[v].right);
  }

  /** Replacing x by p in the heap renames the branch of x in the trie. */
  lemma {:induction false} RenameRep<N>(h: Heap<N>, t: Tree<N>, q: N, v: N, a: Addr, x: N, z: N, p: N)
    requires Rep(h, t, v) && Distinct(t) && Owner(t, q, a, x, z)
    requires q in h && q !in Inner(t) && q != p && p in h && p !in Inner(t) && x !in Tips(t)
    ensures z in h && x in h
    ensures Rep(Replaced(h, z, a, x, p), Rename(t, x, p), if t.node == x then p else v)
  {
    if t.node == x {
      RenameHere(h, t, v, a, z, p);
    } else {
      RepItems(h, t, v);
      var c, s := Child(t, a), Sibling(t, a);
      OwnerIs(c, t.node, a, x, z);
      RenameRep(h, c, t.node, Next(h, v, a), a, x, z, p);
      RenameAbsent(s, x, p);
      RenameAbove(h, t, v, a, x, z, p);
    }
  }

  // At a branch above that of x.
  lemma RenameAbove<N>(h: Heap<N>, t: Tree<N>, v: N, a: Addr, x: N, z: N, p: N)
    requires Rep(h, t, v) && Distinct(t) && t.Branch? && t.node != x && t.node != p
    requires z in h && x in h && p in h && x in Inner(Child(t, a)) && p !in Inner(t) && x !in Tips(t)
    requires var c := Child(t, a); if c.node == x then z == t.node else z in Inner(c)
    requires Rename(Sibling(t, a), x, p) == Sibling(t, a)
    requires var c := Child(t, a);
             Rep(Replaced(h, z, a, x, p), Rename(c, x, p), if c.node == x then p else Next(h, v, a))
    ensures Rep(Replaced(h, z, a, x, p), Rename(t, x, p), v)
  {
    hide Rename;
    var h' := Replaced(h, z, a, x, p);
    var c, s := Child(t, a), Sibling(t, a);
    RepItems(h, t, v);
    RepFrame(h, h', s, Other(h, v, a));
    InsertRepStep(h, h', t, v, a, Rename(c, x, p), if c.node == x then p else Next(h, v, a));
    RenameStep(t, a, x, p);
  }

  lemma RenameStep<N>(t: Tree<N>, a: Addr, x: N, p: N)
    requires t.Branch? && t.node != x && Rename(Sibling(t, a), x, p) == Sibling(t, a)
    ensures Rename(t, x, p) == WithChild(t, a, Rename(Child(t, a), x, p))
  {
  }

  // After the cut, z still owns the link to the branch of x.
  lemma {:induction false} OwnerAfterCut<N>(t: Tree<N>, pb: nat, q: N, a: Addr, x: N)
    requires Wf(t, pb) && t.Branch? && Search(t, a).node == x && x in Inner(t) && Parents(t, q, a).1 != x
    ensures Owner(Cut(t, a), q, a, x, LinkOwner(t, q, a, x))
  {
    var c := Child(t, a);
    InnerAreTips(t.left, t.bit);
    InnerAreTips(t.right, t.bit);
    if t.node != x {
      OwnerAfterCut(c, t.bit, t.node, a, x);
    }
  }

  lemma {:induction false} CutDistinct<N>(t: Tree<N>, pb: nat, a: Addr)
    requires Wf(t, pb) && t.Branch?
    ensures Distinct(Cut(t, a))
  {
    WfDistinct(t.left, t.bit);
    WfDistinct(t.right, t.bit);
    if Child(t, a).Branch? {
      CutDistinct(Child(t, a), t.bit, a);
      CutSets(Child(t, a), t.bit, t.node, a);
    }
  }

  lemma {:induction false} WfDistinct<N>(t: Tree<N>, pb: nat)
    requires Wf(t, pb)
    ensures Distinct(t)
  {
    if t.Branch? {
      WfDistinct(t.left, t.bit);
      WfDistinct(t.right, t.bit);
    }
  }

  // ---------- The whole trie ----------

  /** The head, a node of bit zero without an item, links to the root. Every
      other node holds an item, tips once and, except for the low node of bit
      zero, branches once. */
  ghost predicate TrieOk<N>(h: Heap<N>, head: N, root: Option<Tree<N>>, low: N) {
    head in h && h[head].bit == 0 && h[head].item == None && h[head].left == head &&
    match root
    case None => h.Keys == {head} && h[head].right == head && low == head
    case Some(t) =>
      && Wf(t, 0) && Rep(h, t, h[head].right)
      && head !in Tips(t) && h.Keys == {head} + Tips(t)
      && low in Tips(t) && Inner(t) == Tips(t) - {low}
      && h[low].bit == 0 && h[low].left == head && h[low].right == low
  }

  lemma FirstOk<N>(h: Heap<N>, head: N, low: N, n: N, item: Item)
    requires TrieOk(h, head, None, low) && n !in h
    ensures TrieOk(Inserted(h, head, head, n, item, 0), head, Some(Tip(n, item)), n)
  {
  }

  lemma InsertOk<N>(h: Heap<N>, head: N, t: Tree<N>, low: N, n: N, item: Item, b: nat)
    requires TrieOk(h, head, Some(t), low) && n !in h
    requires b > 0 && SplitsAt(t, item.addr, b)
    ensures var (p, s) := InsertPoint(t, head, item.addr, b);
            p in h && TrieOk(Inserted(h, p, s.node, n, item, b), head, Some(Insert(t, n, item, b)), low)
  {
    InsertPointIs(t, head, item.addr, b);
    InsertRep(h, t, 0, head, h[head].right, n, item, b);
    InsertWf(t, 0, n, item, b);
    InsertSets(t, n, item, b);
    RepItems(h, t, h[head].right);
  }

  function Held<N>(root: Option<Tree<N>>): map<Addr, Entry<N>> {
    if root.None? then map[] else Entries(root.value)
  }

  function Grown<N>(root: Option<Tree<N>>, n: N, item: Item, b: nat): Option<Tree<N>> {
    Some(if root.None? then Tip(n, item) else Insert(root.value, n, item, b))
  }

  // Where a new item goes and on which bit it branches; the first item goes
  // to the head, with bit zero.
  ghost predicate GrowsAt<N>(root: Option<Tree<N>>, head: N, p: N, x: N, a: Addr, b: nat) {
    match root
    case None => p == head && x == head && b == 0
    case Some(t) =>
      b > 0 && SplitsAt(t, a, b) && var (q, s) := InsertPoint(t, head, a, b); p == q && x == s.node
  }

  lemma GrownOk<N>(h: Heap<N>, head: N, root: Option<Tree<N>>, low: N, p: N, x: N, n: N, item: Item, b: nat)
    requires TrieOk(h, head, root, low) && n !in h && p in h && GrowsAt(root, head, p, x, item.addr, b)
    ensures TrieOk(Inserted(h, p, x, n, item, b), head, Grown(root, n, item, b), if root.None? then n else low)
    ensures item.addr !in Held(root) && Held(Grown(root, n, item, b)) == Held(root)[item.addr := Entry(n, item)]
  {
    if root.None? {
      FirstOk(h, head, low, n, item);
    } else {
      InsertOk(h, head, root.value, low, n, item, b);
      InsertEntries(root.value, 0, n, item, b);
    }
  }

  /** What gpx_remove leaves in memory. */
  function Removed<N(==)>(h: Heap<N>, a: Addr, x: N, g: N, p: N, z: N): Heap<N>
    requires x in h && g in h && p in h && z in h
  {
    if x == p then SetNext(h, z, a, Other(h, x, a)) - {x}
    else
      var h1 := SetNext(h, g, a, Other(h, p, a));
      var h2 := SetNext(h1, z, a, p);
      h2[p := Rec(h2[p].item, h2[x].bit,
                  if h2[x].left != x then h2[x].left else p,
                  if h2[x].right != x then h2[x].right else p)] - {x}
  }

  function RemovedTree<N(==)>(t: Tree<N>, head: N, a: Addr): Tree<N>
    requires t.Branch?
  {
    Rename(Cut(t, a), Search(t, a).node, Parents(t, head, a).1)
  }

  lemma RemovedTreeSets<N>(t: Tree<N>, head: N, low: N, a: Addr)
    requires Wf(t, 0) && t.Branch? && head !in Tips(t)
    requires low in Tips(t) && Inner(t) == Tips(t) - {low}
    ensures var u, x, p := RemovedTree(t, head, a), Search(t, a).node, Parents(t, head, a).1;
            var low' := if x == low then p else low;
            Wf(u, 0) && Tips(u) == Tips(t) - {x} && low' in Tips(u) && Inner(u) == Tips(u) - {low'} &&
            Keys(u) == Keys(t) - {Search(t, a).item.addr} && Entries(u) == Entries(t) - {Search(t, a).item.addr}
  {
    var x, p := Search(t, a).node, Parents(t, head, a).1;
    CutSets(t, 0, head, a);
    RenameSets(Cut(t, a), x, p);
    RemoveWf(t, 0, head, a);
    CutEntries(t, 0, a);
  }

  // The memory after each way of removing represents the remaining trie.
  lemma SelfRemoved<N>(h: Heap<N>, head: N, t: Tree<N>, low: N, a: Addr)
    requires TrieOk(h, head, Some(t), low) && t.Branch?
    requires Search(t, a).node == Parents(t, head, a).1
    ensures var x, (g, p) := Search(t, a).node, Parents(t, head, a);
            var z := LinkOwner(t, head, a, x);
            x in h && g in h && p in h && z in h &&
            var h' := Removed(h, a, x, g, p, z);
            head in h' && Rep(h', RemovedTree(t, head, a), h'[head].right)
  {
    var x := Search(t, a).node;
    var (g, p) := Parents(t, head, a);
    SelfLinkOwner(t, 0, head, a, x);
    CutRep(h, t, 0, head, h[head].right, a);
    CutSets(t, 0, head, a);
    RenameAbsent(Cut(t, a), x, p);
    var h1 := SetNext(h, g, a, Other(h, p, a));
    RepFrame(h1, h1 - {x}, Cut(t, a), h1[head].right);
  }

  lemma LowRemoved<N>(h: Heap<N>, head: N, t: Tree<N>, low: N, a: Addr)
    requires TrieOk(h, head, Some(t), low) && t.Branch?
    requires Search(t, a).node == low
    ensures var x, (g, p) := Search(t, a).node, Parents(t, head, a);
            var z := LinkOwner(t, head, a, x);
            x in h && g in h && p in h && z in h &&
            var h' := Removed(h, a, x, g, p, z);
            head in h' && p in h' && Rep(h', RemovedTree(t, head, a), h'[head].right) &&
            h'[p].bit == 0 && h'[p].left == head && h'[p].right == p && x != p
  {
    var x := Search(t, a).node;
    var (g, p) := Parents(t, head, a);
    CutRep(h, t, 0, head, h[head].right, a);
    CutSets(t, 0, head, a);
    TipLinkOwner(t, 0, head, a, x);
    RenameAbsent(Cut(t, a), x, p);
    var h1 := SetNext(h, g, a, Other(h, p, a));
    assert h1[x] == h[x];
    RepFrame(h1, Removed(h, a, x, g, p, p), Cut(t, a), h1[head].right);
  }

  lemma OtherRemoved<N>(h: Heap<N>, head: N, t: Tree<N>, low: N, a: Addr)
    requires TrieOk(h, head, Some(t), low) && t.Branch?
    requires Search(t, a).node != low && Search(t, a).node != Parents(t, head, a).1
    ensures var x, (g, p) := Search(t, a).node, Parents(t, head, a);
            var z := LinkOwner(t, head, a, x);
            x in h && g in h && p in h && z in h &&
            var h' := Removed(h, a, x, g, p, z);
            head in h' && Rep(h', RemovedTree(t, head, a), h'[head].right)
  {
    var x := Search(t, a).node;
    var (g, p) := Parents(t, head, a);
    var z := LinkOwner(t, head, a, x);
    CutRep(h, t, 0, head, h[head].right, a);
    CutSets(t, 0, head, a);
    OwnerAfterCut(t, 0, head, a, x);
    CutDistinct(t, 0, a);
    var h1 := SetNext(h, g, a, Other(h, p, a));
    RenameRep(h1, Cut(t, a), head, h1[head].right, a, x, z, p);
    OwnerIs(Cut(t, a), head, a, x, z);
    NoSelfLink(h1, Cut(t, a), h1[head].right, x);
    RenameSets(Cut(t, a), x, p);
    OtherEnds(h, head, t, low, a, x, g, p, z);
  }

  lemma OtherEnds<N>(h: Heap<N>, head: N, t: Tree<N>, low: N, a: Addr, x: N, g: N, p: N, z: N)
    requires x in h && g in h && p in h && z in h && head in h && h[head].bit == 0
    requires t.Branch? && x != p && head != x && head != p && x == Search(t, a).node && p == Parents(t, head, a).1
    requires var h1, u := SetNext(h, g, a, Other(h, p, a)), RemovedTree(t, head, a);
             h1[x].left != x && h1[x].right != x && x !in Inner(u) && x !in Tips(u) &&
             Rep(Replaced(h1, z, a, x, p), u, if z == head then p else h1[head].right)
    ensures var h' := Removed(h, a, x, g, p, z);
            head in h' && Rep(h', RemovedTree(t, head, a), h'[head].right)
  {
    hide RemovedTree;
    var h1 := SetNext(h, g, a, Other(h, p, a));
    var h2 := Replaced(h1, z, a, x, p);
    var u := RemovedTree(t, head, a);
    assert Removed(h, a, x, g, p, z) == h2 - {x};
    RepItems(h2, u, h2[head].right);
    RepFrame(h2, h2 - {x}, u, h2[head].right);
  }

  // A branching node without a tip of its own has no link to itself.
  lemma {:induction false} NoSelfLink<N>(h: Heap<N>, t: Tree<N>, v: N, x: N)
    requires Rep(h, t, v) && Distinct(t) && x in Inner(t) && x !in Tips(t)
    ensures x in h && h[x].left != x && h[x].right != x
  {
    RepItems(h, t, v);
    if t.node != x {
      if x in Inner(t.left) {
        NoSelfLink(h, t.left, h[v].left, x);
      } else {
        NoSelfLink(h, t.right, h[v].right, x);
      }
    } else {
      RootIsMember(t.left);
      RootIsMember(t.right);
    }
  }

  lemma RootIsMember<N>(t: Tree<N>)
    ensures t.node in Inner(t) || t.node in Tips(t)
  {
  }

  // What removing does to the fields of a node that stays in its place.
  lemma RemovedFields<N>(h: Heap<N>, a: Addr, x: N, g: N, p: N, z: N, n: N)
    requires x in h && g in h && p in h && z in h && n in h && n != x && n != p
    ensures var h' := Removed(h, a, x, g, p, z);
            h'.Keys == h.Keys - {x} && h'[n].bit == h[n].bit && h'[n].item == h[n].item &&
            (h[n].bit == 0 ==> h'[n].left == h[n].left) && (n != g && n != z ==> h'[n] == h[n])
  {
  }

  /** Removing keeps the trie: also when the node of bit zero goes and its
      search parent takes over that part. */
  lemma RemoveOk<N>(h: Heap<N>, head: N, t: Tree<N>, low: N, a: Addr)
    requires TrieOk(h, head, Some(t), low) && t.Branch?
    ensures var x, (g, p) := Search(t, a).node, Parents(t, head, a);
            var z := LinkOwner(t, head, a, x);
            x in h && g in h && p in h && z in h && x != head && p != head &&
            TrieOk(Removed(h, a, x, g, p, z), head, Some(RemovedTree(t, head, a)), if x == low then p else low)
  {
    var x := Search(t, a).node;
    var (g, p) := Parents(t, head, a);
    var z := LinkOwner(t, head, a, x);
    hide RemovedTree, Removed, SetNext, Rep, Wf, Search, Parents, LinkOwner, Inner, Tips, Keys, Entries;
    RemoveLinks(h, head, t, low, a);
    RemovedTreeSets(t, head, low, a);
    if x == low {
      LowRemoved(h, head, t, low, a);
    } else if x == p {
      SelfRemoved(h, head, t, low, a);
    } else {
      OtherRemoved(h, head, t, low, a);
    }
    RemovedFields(h, a, x, g, p, z, head);
    if x != low {
      RemovedFields(h, a, x, g, p, z, low);
    }
  }

  lemma RemoveLinks<N>(h: Heap<N>, head: N, t: Tree<N>, low: N, a: Addr)
    requires TrieOk(h, head, Some(t), low) && t.Branch?
    ensures var x, (g, p) := Search(t, a).node, Parents(t, head, a);
            var z := LinkOwner(t, head, a, x);
            x in h && g in h && p in h && z in h && x != head && p != head && g != low &&
            (x != low ==> z != low) && p != low
  {
    var x := Search(t, a).node;
    var (g, p) := Parents(t, head, a);
    CutRep(h, t, 0, head, h[head].right, a);
    CutSets(t, 0, head, a);
    LinkOwnerInner(t, head, a, x);
  }

  lemma {:induction false} LinkOwnerInner<N>(t: Tree<N>, q: N, a: Addr, x: N)
    requires Search(t, a).node == x
    ensures LinkOwner(t, q, a, x) == q || LinkOwner(t, q, a, x) in Inner(t)
  {
    if t.node != x {
      LinkOwnerInner(Child(t, a), t.node, a, x);
    }
  }

  // What gpx_node and gpx_item find: the end x of the search, its search
  // parent p and grandparent g.
  ghost predicate Located<N>(root: Option<Tree<N>>, head: N, a: Addr, g: N, p: N, x: N) {
    match root
    case None => g == head && p == head && x == head
    case Some(t) => x == Search(t, a).node && (g, p) == if t.Tip? then (head, head) else Parents(t, head, a)
  }

  function Shrunk<N(==)>(root: Option<Tree<N>>, head: N, a: Addr): Option<Tree<N>>
    requires root.Some?
  {
    if root.value.Tip? then None else Some(RemovedTree(root.value, head, a))
  }

  lemma ShrunkOk<N>(h: Heap<N>, head: N, root: Option<Tree<N>>, low: N, a: Addr, g: N, p: N, x: N, z: N)
    requires TrieOk(h, head, root, low) && root.Some? && Located(root, head, a, g, p, x)
    requires z == LinkOwner(root.value, head, a, x)
    ensures x in h && g in h && p in h && z in h && x != head
    ensures var h' := Removed(h, a, x, g, p, z);
            h'.Keys == h.Keys - {x} && TrieOk(h', head, Shrunk(root, head, a), if x == low then p else low)
    ensures Search(root.value, a).item.addr in Held(root)
    ensures Held(Shrunk(root, head, a)) == Held(root) - {Search(root.value, a).item.addr}
  {
    var t := root.value;
    if t.Tip? {
      assert x == low;
      assert g == head && p == head && z == head;
    } else {
      RemoveOk(h, head, t, low, a);
      RemovedTreeSets(t, head, low, a);
      RemovedFields(h, a, x, g, p, z, head);
    }
  }

  lemma ShrunkLinks<N>(h: Heap<N>, head: N, root: Option<Tree<N>>, low: N)
    requires TrieOk(h, head, root, low)
    ensures h[head].left in h && h[head].right in h
    ensures root.None? <==> |Held(root)| == 0
  {
    if root.Some? {
      assert Search(root.value, []).item.addr in Held(root);
    }
  }
}
