/** The amortised cost of splaying, counted in calls of splaytree_splay2. The
    rank of a tree is the integer logarithm of its size, and the potential of a
    tree is the sum of the ranks of its subtrees. */
module SplayCost {
  import opened Wrappers
  import opened SplayTree

  function Log2(n: nat): (k: nat)
    requires n > 0
    ensures Pow2(k) <= n < Pow2(k + 1)
  {
    if n == 1 then 0 else Log2(n / 2) + 1
  }

  lemma {:induction false} Pow2Grows(j: nat, k: nat)
    requires j <= k
    ensures Pow2(j) <= Pow2(k)
    decreases k
  {
    if j < k {
      Pow2Grows(j, k - 1);
    }
  }

  lemma Log2Grows(m: nat, n: nat)
    requires 0 < m <= n
    ensures Log2(m) <= Log2(n)
  {
    if Log2(m) > Log2(n) {
      Pow2Grows(Log2(n) + 1, Log2(m));
    }
  }

  /** Two parts of the same rank make up a whole of a higher rank. */
  lemma Log2Joins(a: nat, b: nat, n: nat)
    requires a > 0 && b > 0 && a + b <= n && Log2(a) == Log2(b)
    ensures Log2(n) > Log2(a)
  {
    if Log2(n) <= Log2(a) {
      Pow2Grows(Log2(n) + 1, Log2(a) + 1);
    }
  }

  function Rank<N>(t: Tree<N>): nat {
    if t.Leaf? then 0 else Log2(Size(t))
  }

  function Potential<N>(t: Tree<N>): nat {
    match t
    case Leaf => 0
    case Node(_, _, l, r) => Potential(l) + Rank(t) + Potential(r)
  }

  // The arithmetic of one call: x and g are parts of the whole n, with the old
  // ranks of the child and its parent and the new ones of the two others.
  lemma StepBound(x: nat, p: nat, g: nat, n: nat, rp: nat, r1: nat, r2: nat)
    requires 0 < x <= p <= n && 0 < g && x + g <= n
    requires rp == Log2(p) && r1 <= Log2(n) && r2 == Log2(g)
    ensures 1 + r1 + r2 - Log2(x) - rp <= 3 * (Log2(n) - Log2(x))
  {
    hide Log2, Pow2;
    Log2Grows(x, p);
    Log2Grows(g, n);
    Log2Grows(x, n);
    if Log2(n) == Log2(x) && Log2(g) == Log2(x) {
      Log2Joins(x, g, n);
    }
  }

  // For a zig-zag the two nodes that go down are both parts of the whole.
  lemma StepBoundApart(x: nat, p: nat, a: nat, b: nat, n: nat)
    requires 0 < x <= p <= n && 0 < a && 0 < b && a + b <= n
    ensures 1 + Log2(a) + Log2(b) - Log2(x) - Log2(p) <= 3 * (Log2(n) - Log2(x))
  {
    hide *;
    Grow(x, p, n);
    Part(a, b, n);
    Ranks(Log2(x), Log2(p), Log2(a), Log2(b), Log2(n));
  }

  lemma Grow(x: nat, p: nat, n: nat)
    requires 0 < x <= p <= n
    ensures Log2(x) <= Log2(p) && Log2(x) <= Log2(n)
  {
    hide *;
    Log2Grows(x, p);
    Log2Grows(x, n);
  }

  lemma Part(a: nat, b: nat, n: nat)
    requires 0 < a && 0 < b && a + b <= n
    ensures Log2(a) <= Log2(n) && Log2(b) <= Log2(n) && (Log2(a) == Log2(b) ==> Log2(a) < Log2(n))
  {
    hide *;
    Log2Grows(a, n);
    Log2Grows(b, n);
    if Log2(a) == Log2(b) {
      Log2Joins(a, b, n);
    }
  }

  lemma Ranks(x: nat, p: nat, a: nat, b: nat, n: nat)
    requires x <= p && x <= n && a <= n && b <= n && (a == b ==> a < n)
    ensures 1 + a + b - x - p <= 3 * (n - x)
  {
  }

  /** One call costs at most three times the rank that the child gains. */
  lemma Splay2Cost<N>(t: Tree<N>, p: Frame<N>, g: Frame<N>)
    requires t.Node?
    ensures var before, after := Under(g, Under(p, t)), Splay2(t, p, g);
            Size(after) == Size(before) &&
            1 + Potential(after) - Potential(before) <= 3 * (Rank(after) - Rank(t))
  {
    hide Log2, Pow2;
    var before, after := Under(g, Under(p, t)), Splay2(t, p, g);
    var n := Size(before);
    var x, pp := Size(t), Size(Under(p, t));
    assert Potential(Under(p, t)) == Potential(t) + Rank(Under(p, t)) + Potential(p.other);
    assert Potential(before) == Potential(Under(p, t)) + Rank(before) + Potential(g.other);
    assert Potential(t) == Potential(t.left) + Rank(t) + Potential(t.right);
    if p.wentLeft == g.wentLeft {
      var e := if p.wentLeft then after.right else after.left;
      var d := if p.wentLeft then e.right else e.left;
      var s := if p.wentLeft then t.right else t.left;
      assert Size(e) == Size(d) + 1 + Size(s);
      assert Potential(d) == Potential(p.other) + Rank(d) + Potential(g.other);
      assert Potential(e) == Potential(d) + Rank(e) + Potential(s);
      Log2Grows(Size(e), n);
      StepBound(x, pp, Size(d), n, Log2(pp), Log2(Size(e)), Log2(Size(d)));
    } else {
      var a, b := after.left, after.right;
      assert Potential(a) == Potential(a.left) + Rank(a) + Potential(a.right);
      assert Potential(b) == Potential(b.left) + Rank(b) + Potential(b.right);
      StepBoundApart(x, pp, Size(a), Size(b), n);
    }
  }

  lemma {:induction false} PlugPotential<N>(t: Tree<N>, u: Tree<N>, path: seq<Frame<N>>)
    requires Size(t) == Size(u)
    ensures Size(Plug(t, path)) == Size(Plug(u, path))
    ensures Potential(Plug(t, path)) - Potential(t) == Potential(Plug(u, path)) - Potential(u)
    decreases |path|
  {
    if path != [] {
      var f := path[|path| - 1];
      PlugPotential(Under(f, t), Under(f, u), path[..|path| - 1]);
    }
  }

  /** How many calls of splaytree_splay2 a splay makes, for a node that has the
      given number of nodes above it. */
  function Calls(depth: nat): nat {
    (depth + 1) / 2
  }

  /** The access lemma: the cost of a splay is paid by the rank that the node
      gains and by the potential that the tree loses. */
  lemma {:induction false} AccessLemma<N>(t: Tree<N>, path: seq<Frame<N>>)
    requires t.Node?
    ensures var before, after := Plug(t, path), Splay(t, path);
            Size(after) == Size(before) &&
            Calls(|path|) <= 3 * (Rank(before) - Rank(t)) + 1 + Potential(before) - Potential(after)
    decreases |path|
  {
    hide Log2, Pow2;
    var k := |path|;
    if k == 1 {
      var before, after := Under(path[0], t), Zig(t, path[0]);
      assert path[..0] == [];
      assert Plug(t, path) == before;
      Log2Grows(Size(t), Size(before));
      Log2Grows(Size(if path[0].wentLeft then after.right else after.left), Size(before));
    } else if k >= 2 {
      var p, g := path[k - 1], path[k - 2];
      var u := Splay2(t, p, g);
      Splay2Cost(t, p, g);
      AccessLemma(u, path[..k - 2]);
      PlugTwo(t, path);
      PlugPotential(u, Under(g, Under(p, t)), path[..k - 2]);
    }
  }

  // ---------- Runs of finds ----------

  /** The tree after a find: splayed on the key if it is there. */
  function AfterFind<N>(t: Tree<N>, key: int): Tree<N> {
    var s := Find(t, key);
    if s.Leaf? then t else Splay(s, FindPath(t, key, []))
  }

  function FindCalls<N>(t: Tree<N>, key: int): nat {
    if Find(t, key).Leaf? then 0 else Calls(|FindPath(t, key, [])|)
  }

  function RunCalls<N>(t: Tree<N>, keys: seq<int>): nat
    decreases |keys|
  {
    if keys == [] then 0 else FindCalls(t, keys[0]) + RunCalls(AfterFind(t, keys[0]), keys[1..])
  }

  function AfterRun<N>(t: Tree<N>, keys: seq<int>): Tree<N>
    decreases |keys|
  {
    if keys == [] then t else AfterRun(AfterFind(t, keys[0]), keys[1..])
  }

  lemma FindCost<N>(t: Tree<N>, key: int)
    requires t.Node?
    ensures Size(AfterFind(t, key)) == Size(t)
    ensures FindCalls(t, key) <= 3 * Log2(Size(t)) + 1 + Potential(t) - Potential(AfterFind(t, key))
  {
    var s, path := Find(t, key), FindPath(t, key, []);
    if s.Node? {
      FindPlug(t, key, []);
      AccessLemma(s, path);
    }
  }

  lemma {:induction false} RunCost<N>(t: Tree<N>, keys: seq<int>)
    requires t.Node?
    ensures Size(AfterRun(t, keys)) == Size(t)
    ensures RunCalls(t, keys) <= |keys| * (3 * Log2(Size(t)) + 1) + Potential(t) - Potential(AfterRun(t, keys))
    decreases |keys|
  {
    if keys != [] {
      FindCost(t, keys[0]);
      RunCost(AfterFind(t, keys[0]), keys[1..]);
      MulStep(|keys|, 3 * Log2(Size(t)) + 1);
    }
  }

  lemma MulStep(n: nat, c: nat)
    requires n > 0
    ensures n * c == c + (n - 1) * c
  {
  }

  lemma {:induction false} PotentialBound<N>(t: Tree<N>, n: nat)
    requires n > 0 && Size(t) <= n
    ensures Potential(t) <= Size(t) * Log2(n)
  {
    if t.Node? {
      PotentialBound(t.left, n);
      PotentialBound(t.right, n);
      Log2Grows(Size(t), n);
      SumOfProducts(Size(t.left), Size(t.right), Log2(n));
    }
  }

  lemma SumOfProducts(a: nat, b: nat, c: nat)
    ensures (a + 1 + b) * c == a * c + c + b * c
  {
  }

  /** m finds on a tree of n nodes, whatever its shape and whatever they look
      for, make at most m * (3 log n + 1) + n log n calls. */
  lemma FindsAreLogarithmic<N>(t: Tree<N>, keys: seq<int>)
    requires t.Node?
    ensures var n := Size(t);
            RunCalls(t, keys) <= |keys| * (3 * Log2(n) + 1) + n * Log2(n)
  {
    hide Log2;
    RunCost(t, keys);
    PotentialBound(t, Size(t));
  }

  // ---------- Runs of finds, insertions and removals ----------

  /** The tree after an insertion of an item in a new node n. */
  function AfterInsert<N>(t: Tree<N>, n: N, item: Item): Tree<N> {
    if Find(t, item.key).Node? then t else Splay(Node(n, item, Leaf, Leaf), FindPath(t, item.key, []))
  }

  function InsertCalls<N>(t: Tree<N>, item: Item): nat {
    if Find(t, item.key).Node? then 0 else Calls(|FindPath(t, item.key, [])|)
  }

  function RootCalls<N>(t: Tree<N>): nat
    requires t.Node?
  {
    if t.left.Leaf? then 0 else Calls(|RightPath(t.left, [])|)
  }

  function AfterRemove<N>(t: Tree<N>, key: int): Tree<N> {
    if Find(t, key).Leaf? then t else WithoutRoot(AfterFind(t, key))
  }

  function RemoveCalls<N>(t: Tree<N>, key: int): nat {
    if Find(t, key).Leaf? then 0 else FindCalls(t, key) + RootCalls(AfterFind(t, key))
  }

  // A larger subtree below a path makes the potential grow by at most a rank.
  lemma {:induction false} PlugLarger<N>(t: Tree<N>, u: Tree<N>, path: seq<Frame<N>>)
    requires u.Node? && Size(u) == Size(t) + 1
    ensures Plug(u, path).Node? && Size(Plug(u, path)) == Size(Plug(t, path)) + 1
    ensures Potential(Plug(u, path)) - Potential(u) <=
            Potential(Plug(t, path)) - Potential(t) + Rank(Plug(u, path)) - Rank(u)
    decreases |path|
  {
    hide Log2;
    if path != [] {
      var f := path[|path| - 1];
      var t', u' := Under(f, t), Under(f, u);
      PlugLarger(t', u', path[..|path| - 1]);
      Log2Grows(Size(u), Size(t'));
    }
  }

  lemma InsertCost<N>(t: Tree<N>, n: N, item: Item)
    requires Find(t, item.key).Leaf?
    ensures var after := AfterInsert(t, n, item);
            Size(after) == Size(t) + 1 &&
            InsertCalls(t, item) <= 4 * Log2(Size(t) + 1) + 1 + Potential(t) - Potential(after)
  {
    hide Log2, Splay;
    var path, leaf: Tree<N> := FindPath(t, item.key, []), Leaf;
    var small := Node(n, item, leaf, leaf);
    FindPlug(t, item.key, []);
    PlugLarger(leaf, small, path);
    AccessLemma(small, path);
  }

  lemma RootCost<N>(t: Tree<N>)
    requires t.Node?
    ensures var after := WithoutRoot(t);
            Size(after) == Size(t) - 1 &&
            RootCalls(t) <= 3 * Log2(Size(t)) + 1 + Potential(t) - Potential(after)
  {
    hide *;
    RootParts(t);
    var l, r := t.left, t.right;
    if l.Node? {
      var end, path := RightEnd(l), RightPath(l, []);
      PlugNone(l);
      RightPlug(l, []);
      AccessLemma(end, path);
      RightmostSplay(end, path);
      JoinedCost(Splay(end, path), r);
      SizeSome(l);
      Log2Grows(Size(l), Size(t));
      Log2Grows(Size(l) + Size(r), Size(t));
    }
  }

  lemma RootParts<N>(t: Tree<N>)
    requires t.Node?
    ensures Size(t) == Size(t.left) + 1 + Size(t.right)
    ensures Potential(t) == Potential(t.left) + Log2(Size(t)) + Potential(t.right)
    ensures t.left.Leaf? ==> WithoutRoot(t) == t.right && RootCalls(t) == 0 && Size(t.left) == 0
    ensures t.left.Node? ==>
              var path := RightPath(t.left, []);
              WithoutRoot(t) == Joined(Splay(RightEnd(t.left), path), t.right) && RootCalls(t) == Calls(|path|) &&
              Rank(t.left) == Log2(Size(t.left))
  {
    hide Log2;
  }

  lemma PlugNone<N>(t: Tree<N>)
    ensures Plug(t, []) == t
    ensures var above: seq<Frame<N>> := []; AllRight(above)
  {
  }

  lemma SizeSome<N>(t: Tree<N>)
    requires t.Node?
    ensures Size(t) > 0
  {
  }

  lemma JoinedCost<N>(s: Tree<N>, r: Tree<N>)
    requires s.Node? && s.right.Leaf?
    ensures Size(Joined(s, r)) == Size(s) + Size(r)
    ensures Potential(Joined(s, r)) <= Potential(s) + Potential(r) + Log2(Size(s) + Size(r))
  {
    hide Log2;
  }

  lemma RemoveCost<N>(t: Tree<N>, key: int)
    requires Find(t, key).Node?
    ensures var after := AfterRemove(t, key);
            Size(after) == Size(t) - 1 &&
            RemoveCalls(t, key) <= 6 * Log2(Size(t)) + 2 + Potential(t) - Potential(after)
  {
    hide Log2, Splay, WithoutRoot;
    FindCost(t, key);
    RootCost(AfterFind(t, key));
  }

  datatype Op<N> = FindOp(key: int) | InsertOp(node: N, item: Item) | RemoveOp(key: int)

  function AfterOp<N>(t: Tree<N>, op: Op<N>): Tree<N> {
    match op
    case FindOp(key) => AfterFind(t, key)
    case InsertOp(n, item) => AfterInsert(t, n, item)
    case RemoveOp(key) => AfterRemove(t, key)
  }

  function OpCalls<N>(t: Tree<N>, op: Op<N>): nat {
    match op
    case FindOp(key) => FindCalls(t, key)
    case InsertOp(_, item) => InsertCalls(t, item)
    case RemoveOp(key) => RemoveCalls(t, key)
  }

  function OpsCalls<N>(t: Tree<N>, ops: seq<Op<N>>): nat
    decreases |ops|
  {
    if ops == [] then 0 else OpCalls(t, ops[0]) + OpsCalls(AfterOp(t, ops[0]), ops[1..])
  }

  // One operation, in a tree that never has more than n nodes.
  lemma OpCost<N>(t: Tree<N>, op: Op<N>, n: nat)
    requires Size(t) < n
    ensures Size(AfterOp(t, op)) <= Size(t) + 1
    ensures OpCalls(t, op) <= 6 * Log2(n) + 2 + Potential(t) - Potential(AfterOp(t, op))
  {
    hide Log2, AfterInsert, AfterRemove, FindCalls, InsertCalls, RemoveCalls, AfterFind;
    Unchanged(t, op);
    if t.Node? {
      Log2Grows(Size(t), n);
    }
    Log2Grows(Size(t) + 1, n);
    match op
    case FindOp(key) =>
      if t.Node? {
        FindCost(t, key);
      }
    case InsertOp(node, item) =>
      if Find(t, item.key).Leaf? {
        InsertCost(t, node, item);
      }
    case RemoveOp(key) =>
      if Find(t, key).Node? {
        RemoveCost(t, key);
      }
  }

  // The operations that have nothing to do.
  lemma Unchanged<N>(t: Tree<N>, op: Op<N>)
    ensures t.Leaf? && op.FindOp? ==> AfterOp(t, op) == t && OpCalls(t, op) == 0
    ensures op.InsertOp? && Find(t, op.item.key).Node? ==> AfterOp(t, op) == t && OpCalls(t, op) == 0
    ensures op.RemoveOp? && Find(t, op.key).Leaf? ==> AfterOp(t, op) == t && OpCalls(t, op) == 0
    ensures op.RemoveOp? && Find(t, op.key).Node? ==> t.Node?
  {
  }

  lemma {:induction false} OpsCost<N>(t: Tree<N>, ops: seq<Op<N>>, n: nat)
    requires Size(t) + |ops| <= n && n > 0
    ensures OpsCalls(t, ops) <= |ops| * (6 * Log2(n) + 2) + Potential(t)
    decreases |ops|
  {
    hide Log2, AfterOp, OpCalls, Size, Potential;
    if ops != [] {
      OpCost(t, ops[0], n);
      OpsCost(AfterOp(t, ops[0]), ops[1..], n);
      MulStep(|ops|, 6 * Log2(n) + 2);
    }
  }

  /** Finds, insertions and removals in any order: m of them on a tree of n nodes
      make at most m * (6 log (n + m) + 2) + n log (n + m) calls. */
  lemma RunsAreLogarithmic<N>(t: Tree<N>, ops: seq<Op<N>>)
    requires ops != []
    ensures var n, m := Size(t), |ops|;
            OpsCalls(t, ops) <= m * (6 * Log2(n + m) + 2) + n * Log2(n + m)
  {
    hide *;
    OpsCost(t, ops, Size(t) + |ops|);
    PotentialBound(t, Size(t) + |ops|);
  }
}
