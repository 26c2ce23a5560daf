/** The trie of mjl_patricia.c as a value. */
module PatriciaTree {

  // Each item node plays two parts: it branches on a bit somewhere in the trie,
  // and it is the end of exactly one up-link, met when a search has run out of
  // bits to test. A Tip is such an up-link; the node of bit zero only ever plays
  // that part.

  type Addr = seq<bool>

  // An item is filed under its address; the tag tells items apart.
  datatype Item = Item(addr: Addr, tag: nat)

  /** Bit i of an address, from bit 1 at the left. */
  predicate Bit(a: Addr, i: int) {
    1 <= i <= |a| && a[i - 1]
  }

  /** The first bit in which two addresses differ. */
  function Fbd(a: Addr, b: Addr): (d: nat)
    requires |a| == |b| && a != b
    ensures 1 <= d <= |a| && Bit(a, d) != Bit(b, d)
    ensures forall i :: i < d ==> Bit(a, i) == Bit(b, i)
  {
    FirstDifference(a, b, 1)
  }

  function FirstDifference(a: Addr, b: Addr, i: nat): (d: nat)
    requires |a| == |b| && a != b && 1 <= i <= |a| + 1
    requires forall j :: j < i ==> Bit(a, j) == Bit(b, j)
    ensures i <= d <= |a| && Bit(a, d) != Bit(b, d)
    ensures forall j :: j < d ==> Bit(a, j) == Bit(b, j)
    decreases |a| + 1 - i
  {
    assert i <= |a| by {
      if i == |a| + 1 {
        forall j | 0 <= j < |a|
          ensures a[j] == b[j]
        {
          assert Bit(a, j + 1) == Bit(b, j + 1);
        }
      }
    }
    if Bit(a, i) != Bit(b, i) then i else FirstDifference(a, b, i + 1)
  }

  datatype Tree<N> =
    | Tip(node: N, item: Item)
    | Branch(node: N, bit: nat, left: Tree<N>, right: Tree<N>)

  datatype Entry<N> = Entry(node: N, item: Item)

  function Inner<N>(t: Tree<N>): set<N> {
    match t
    case Tip(_, _) => {}
    case Branch(n, _, l, r) => {n} + Inner(l) + Inner(r)
  }

  function Tips<N>(t: Tree<N>): set<N> {
    match t
    case Tip(n, _) => {n}
    case Branch(_, _, l, r) => Tips(l) + Tips(r)
  }

  function Keys<N>(t: Tree<N>): set<Addr> {
    match t
    case Tip(_, item) => {item.addr}
    case Branch(_, _, l, r) => Keys(l) + Keys(r)
  }

  /** What the trie holds: for each address its node and its item. */
  function Entries<N>(t: Tree<N>): (m: map<Addr, Entry<N>>)
    ensures m.Keys == Keys(t)
  {
    match t
    case Tip(n, item) => map[item.addr := Entry(n, item)]
    case Branch(_, _, l, r) => Entries(l) + Entries(r)
  }

  function Child<N>(t: Tree<N>, a: Addr): Tree<N>
    requires t.Branch?
  {
    if Bit(a, t.bit) then t.right else t.left
  }

  function Sibling<N>(t: Tree<N>, a: Addr): Tree<N>
    requires t.Branch?
  {
    if Bit(a, t.bit) then t.left else t.right
  }

  function WithChild<N>(t: Tree<N>, a: Addr, c: Tree<N>): Tree<N>
    requires t.Branch?
  {
    if Bit(a, t.bit) then t.(right := c) else t.(left := c)
  }

  /** Where the search for an address ends. */
  function Search<N>(t: Tree<N>, a: Addr): (tip: Tree<N>)
    ensures tip.Tip? && tip.node in Tips(t) && tip.item.addr in Keys(t)
  {
    if t.Tip? then t else Search(Child(t, a), a)
  }

  ghost predicate AgreeBelow(keys: set<Addr>, b: nat) {
    forall k, k', i :: k in keys && k' in keys && i < b ==> Bit(k, i) == Bit(k', i)
  }

  // Bits grow on the way down from pb; a branch separates the keys below it at
  // its bit and they agree before it; nodes branch once and tip once, and the
  // tip of a branching node lies below its branch.
  ghost predicate Wf<N>(t: Tree<N>, pb: nat) {
    match t
    case Tip(_, _) => true
    case Branch(n, b, l, r) =>
      && pb < b && Wf(l, b) && Wf(r, b)
      && n !in Inner(l) + Inner(r) && Inner(l) !! Inner(r) && Tips(l) !! Tips(r)
      && n in Tips(l) + Tips(r)
      && (forall k :: k in Keys(l) ==> !Bit(k, b)) && (forall k :: k in Keys(r) ==> Bit(k, b))
      && AgreeBelow(Keys(l) + Keys(r), b)
  }

  lemma {:induction false} InnerAreTips<N>(t: Tree<N>, pb: nat)
    requires Wf(t, pb)
    ensures Inner(t) <= Tips(t)
  {
    if t.Branch? {
      InnerAreTips(t.left, t.bit);
      InnerAreTips(t.right, t.bit);
    }
  }

  /** The search finds every address that the trie holds, and its entry. */
  lemma {:induction false} SearchFinds<N>(t: Tree<N>, pb: nat, a: Addr)
    requires Wf(t, pb)
    ensures var tip := Search(t, a);
            (a in Keys(t) <==> tip.item.addr == a) &&
            Entries(t)[tip.item.addr] == Entry(tip.node, tip.item)
  {
    if t.Branch? {
      SearchFinds(Child(t, a), t.bit, a);
    }
  }

  // ---------- Insertion ----------

  /** A new item branches off at bit b on the search path of its address. */
  function Insert<N>(t: Tree<N>, n: N, item: Item, b: nat): Tree<N> {
    if t.Tip? || t.bit >= b then
      if Bit(item.addr, b) then Branch(n, b, t, Tip(n, item)) else Branch(n, b, Tip(n, item), t)
    else
      WithChild(t, item.addr, Insert(Child(t, item.addr), n, item, b))
  }

  // b is the first bit in which the address differs from what its search finds.
  ghost predicate SplitsAt<N>(t: Tree<N>, a: Addr, b: nat) {
    var s := Search(t, a).item.addr;
    Bit(a, b) != Bit(s, b) && forall i :: i < b ==> Bit(a, i) == Bit(s, i)
  }

  lemma {:induction false} InsertSets<N>(t: Tree<N>, n: N, item: Item, b: nat)
    ensures var u := Insert(t, n, item, b);
            Inner(u) == Inner(t) + {n} && Tips(u) == Tips(t) + {n} && Keys(u) == Keys(t) + {item.addr}
  {
    if t.Branch? && t.bit < b {
      InsertSets(Child(t, item.addr), n, item, b);
    }
  }

  // Where the new branch goes, every key below agrees with the found one up to
  // and including bit b.
  lemma {:induction false} KeysBelowSplit<N>(t: Tree<N>, pb: nat, a: Addr, b: nat)
    requires Wf(t, pb) && SplitsAt(t, a, b) && (t.Tip? || t.bit >= b)
    ensures forall k :: k in Keys(t) ==> Bit(k, b) != Bit(a, b)
    ensures AgreeBelow(Keys(t) + {a}, b)
  {
    var s := Search(t, a).item.addr;
    if t.Branch? {
      assert Search(t, a) == Search(Child(t, a), a);
      assert s in Keys(Child(t, a));
      assert Bit(s, t.bit) == Bit(a, t.bit);
      assert t.bit != b;
    }
  }

  lemma {:induction false} InsertWf<N>(t: Tree<N>, pb: nat, n: N, item: Item, b: nat)
    requires Wf(t, pb) && pb < b && SplitsAt(t, item.addr, b)
    requires n !in Inner(t) && n !in Tips(t)
    ensures Wf(Insert(t, n, item, b), pb)
  {
    var a := item.addr;
    if t.Tip? || t.bit >= b {
      KeysBelowSplit(t, pb, a, b);
    } else {
      var c := Child(t, a);
      InsertWf(c, t.bit, n, item, b);
      InsertSets(c, n, item, b);
      SplitAgrees(t, pb, a, b);
      InsertAboveWf(t, pb, a, n, Insert(c, n, item, b));
    }
  }

  // Above the split, the new address agrees with the keys that it joins.
  lemma SplitAgrees<N>(t: Tree<N>, pb: nat, a: Addr, b: nat)
    requires Wf(t, pb) && SplitsAt(t, a, b) && t.Branch? && t.bit < b
    ensures AgreeBelow(Keys(t) + {a}, t.bit)
  {
    var s := Search(t, a).item.addr;
    forall k, i | k in Keys(t) && i < t.bit
      ensures Bit(k, i) == Bit(a, i)
    {
      assert Bit(k, i) == Bit(s, i);
    }
  }

  lemma InsertAboveWf<N>(t: Tree<N>, pb: nat, a: Addr, n: N, c: Tree<N>)
    requires Wf(t, pb) && t.Branch? && Wf(c, t.bit)
    requires n !in Inner(t) && n !in Tips(t)
    requires Inner(c) == Inner(Child(t, a)) + {n} && Tips(c) == Tips(Child(t, a)) + {n}
    requires Keys(c) == Keys(Child(t, a)) + {a} && AgreeBelow(Keys(t) + {a}, t.bit)
    ensures Wf(WithChild(t, a, c), pb)
  {
  }

  /** Inserting files the new entry and leaves every other one alone. */
  lemma {:induction false} InsertEntries<N>(t: Tree<N>, pb: nat, n: N, item: Item, b: nat)
    requires Wf(t, pb) && pb < b && SplitsAt(t, item.addr, b)
    ensures item.addr !in Keys(t)
    ensures Entries(Insert(t, n, item, b)) == Entries(t)[item.addr := Entry(n, item)]
  {
    var a := item.addr;
    SearchFinds(t, pb, a);
    if t.Branch? && t.bit < b {
      InsertEntries(Child(t, a), t.bit, n, item, b);
      hide Insert;
      ChildEntries(t, pb, a, Insert(Child(t, a), n, item, b), Entry(n, item));
      InsertStep(t, n, item, b);
    }
  }

  lemma InsertStep<N>(t: Tree<N>, n: N, item: Item, b: nat)
    requires t.Branch? && t.bit < b
    ensures Insert(t, n, item, b) == WithChild(t, item.addr, Insert(Child(t, item.addr), n, item, b))
  {
  }

  lemma ChildEntries<N>(t: Tree<N>, pb: nat, a: Addr, c: Tree<N>, e: Entry<N>)
    requires Wf(t, pb) && t.Branch?
    requires Entries(c) == Entries(Child(t, a))[a := e] && a !in Keys(t)
    ensures Entries(WithChild(t, a, c)) == Entries(t)[a := e]
  {
  }

  lemma KeysDisjoint<N>(t: Tree<N>, pb: nat)
    requires Wf(t, pb) && t.Branch?
    ensures Keys(t.left) !! Keys(t.right)
  {
  }

  // ---------- Removal ----------

  /** The last branching node on the search path of an address, and the node
      before it, with q the node before t. */
  function Parents<N>(t: Tree<N>, q: N, a: Addr): (N, N)
    requires t.Branch?
  {
    var c := Child(t, a);
    if c.Tip? then (q, t.node) else Parents(c, t.node, a)
  }

  /** Cutting off the tip that the search for an address ends at: the last
      branch gives way to its other side. */
  function Cut<N>(t: Tree<N>, a: Addr): Tree<N>
    requires t.Branch?
  {
    var c := Child(t, a);
    if c.Tip? then Sibling(t, a) else WithChild(t, a, Cut(c, a))
  }

  /** Node p takes over the branch of node x. */
  function Rename<N(==)>(t: Tree<N>, x: N, p: N): Tree<N> {
    match t
    case Tip(_, _) => t
    case Branch(n, b, l, r) => Branch(if n == x then p else n, b, Rename(l, x, p), Rename(r, x, p))
  }

  lemma {:induction false} CutSets<N>(t: Tree<N>, pb: nat, q: N, a: Addr)
    requires Wf(t, pb) && t.Branch?
    ensures var u, (g, p) := Cut(t, a), Parents(t, q, a);
            p in Inner(t) && Inner(u) == Inner(t) - {p} &&
            Tips(u) == Tips(t) - {Search(t, a).node} &&
            Keys(u) == Keys(t) - {Search(t, a).item.addr}
  {
    var c := Child(t, a);
    KeysDisjoint(t, pb);
    if c.Branch? {
      CutSets(c, t.bit, t.node, a);
    }
  }

  lemma {:induction false} RenameInner<N>(t: Tree<N>, x: N, p: N)
    ensures Inner(Rename(t, x, p)) == (if x in Inner(t) then Inner(t) - {x} + {p} else Inner(t))
  {
    if t.Branch? {
      RenameInner(t.left, x, p);
      RenameInner(t.right, x, p);
      var l, r := Rename(t.left, x, p), Rename(t.right, x, p);
      assert Inner(Rename(t, x, p)) == {if t.node == x then p else t.node} + Inner(l) + Inner(r);
    }
  }

  lemma {:induction false} RenameTips<N>(t: Tree<N>, x: N, p: N)
    ensures var u := Rename(t, x, p);
            Tips(u) == Tips(t) && Keys(u) == Keys(t) && Entries(u) == Entries(t)
  {
    if t.Branch? {
      RenameTips(t.left, x, p);
      RenameTips(t.right, x, p);
    }
  }

  lemma RenameSets<N>(t: Tree<N>, x: N, p: N)
    ensures var u := Rename(t, x, p);
            Inner(u) == (if x in Inner(t) then Inner(t) - {x} + {p} else Inner(t)) &&
            Tips(u) == Tips(t) && Keys(u) == Keys(t) && Entries(u) == Entries(t)
  {
    RenameInner(t, x, p);
    RenameTips(t, x, p);
  }

  lemma {:induction false} RenameAbsent<N>(t: Tree<N>, x: N, p: N)
    requires x !in Inner(t)
    ensures Rename(t, x, p) == t
  {
    if t.Branch? {
      RenameAbsent(t.left, x, p);
      RenameAbsent(t.right, x, p);
    }
  }

  lemma {:induction false} WfWeaken<N>(t: Tree<N>, pb: nat, pb': nat)
    requires Wf(t, pb) && pb' <= pb
    ensures Wf(t, pb')
  {
  }

  /** Cutting off the tip of x and letting the last branching node p take over
      the branch of x, if x has one left, gives a well-formed trie again. */
  lemma {:induction false} RemoveWf<N>(t: Tree<N>, pb: nat, q: N, a: Addr)
    requires Wf(t, pb) && t.Branch?
    ensures Wf(Rename(Cut(t, a), Search(t, a).node, Parents(t, q, a).1), pb)
  {
    var c, x, p := Child(t, a), Search(t, a).node, Parents(t, q, a).1;
    var u := Rename(Cut(t, a), x, p);
    InnerAreTips(t.left, t.bit);
    InnerAreTips(t.right, t.bit);
    if c.Tip? {
      // x tips here, so a branch of x in the sibling would have a second tip
      assert x !in Inner(Sibling(t, a));
      RenameAbsent(Sibling(t, a), x, p);
      WfWeaken(Sibling(t, a), t.bit, pb);
    } else {
      RemoveWf(c, t.bit, t.node, a);
      CutSets(c, t.bit, t.node, a);
      RenameSets(Cut(c, a), x, p);
      RenameAbsent(Sibling(t, a), x, p);
      RemoveBranchWf(t, pb, a, x, p, Rename(Cut(c, a), x, p));
    }
  }

  // The step of RemoveWf at a branch above the one that goes.
  lemma RemoveBranchWf<N>(t: Tree<N>, pb: nat, a: Addr, x: N, p: N, c: Tree<N>)
    requires Wf(t, pb) && t.Branch?
    requires Inner(t.left) <= Tips(t.left) && Inner(t.right) <= Tips(t.right)
    requires x in Tips(Child(t, a)) && p in Inner(Child(t, a)) && Wf(c, t.bit)
    requires Tips(c) == Tips(Child(t, a)) - {x} && Keys(c) <= Keys(Child(t, a))
    requires Inner(c) == (if x in Inner(Child(t, a)) then Inner(Child(t, a)) - {x}
                          else Inner(Child(t, a)) - {p})
    ensures var n := if t.node == x then p else t.node;
            Wf(WithChild(t, a, c).(node := n), pb)
  {
  }

  /** Removing takes away the entry at the end of the search and no other. */
  lemma {:induction false} CutEntries<N>(t: Tree<N>, pb: nat, a: Addr)
    requires Wf(t, pb) && t.Branch?
    ensures Entries(Cut(t, a)) == Entries(t) - {Search(t, a).item.addr}
  {
    var c, k := Child(t, a), Search(t, a).item.addr;
    KeysDisjoint(t, pb);
    if c.Branch? {
      CutEntries(c, t.bit, a);
      assert k in Keys(c);
      hide Wf;
      CutChildEntries(t, a, Cut(c, a), k);
    } else {
      OneEntry(t, a);
    }
  }

  lemma OneEntry<N>(t: Tree<N>, a: Addr)
    requires t.Branch? && Child(t, a).Tip? && Keys(t.left) !! Keys(t.right)
    ensures Entries(Sibling(t, a)) == Entries(t) - {Child(t, a).item.addr}
  {
  }

  lemma CutChildEntries<N>(t: Tree<N>, a: Addr, c: Tree<N>, k: Addr)
    requires t.Branch? && Keys(t.left) !! Keys(t.right)
    requires k in Keys(Child(t, a)) && Entries(c) == Entries(Child(t, a)) - {k}
    ensures Entries(WithChild(t, a, c)) == Entries(t) - {k}
  {
  }
}
