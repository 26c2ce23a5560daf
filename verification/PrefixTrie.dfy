/** The tree of mjl_prefixtree.c as a value. A node stands for the first bit
    bits of an address, which net gives; it may hold the prefix of that length,
    and a node that holds none has two children. */
module PrefixTrie {
  import opened Wrappers
  import opened Ip4Bits

  datatype Tree<N> =
    | Leaf
    | Node(node: N, net: Ip, bit: nat, pref: Option<Prefix>, left: Tree<N>, right: Tree<N>)

  datatype Frame<N> = Frame(node: N, net: Ip, bit: nat, pref: Option<Prefix>, wentLeft: bool, other: Tree<N>)

  // Which way an address goes at a node: to the left after the last bit.
  predicate GoesLeft(a: Ip, bit: nat) {
    bit >= 32 || !IpBit(a, bit)
  }

  function Child<N>(t: Tree<N>, left: bool): Tree<N>
    requires t.Node?
  {
    if left then t.left else t.right
  }

  /** The prefixes in the tree. */
  function Prefixes<N>(t: Tree<N>): set<Prefix> {
    match t
    case Leaf => {}
    case Node(_, _, _, pref, l, r) => Own(pref) + Prefixes(l) + Prefixes(r)
  }

  function Own(pref: Option<Prefix>): set<Prefix> {
    if pref.Some? then {pref.value} else {}
  }

  function Nodes<N>(t: Tree<N>): set<N> {
    match t
    case Leaf => {}
    case Node(n, _, _, _, l, r) => {n} + Nodes(l) + Nodes(r)
  }

  ghost predicate Distinct<N>(t: Tree<N>) {
    match t
    case Leaf => true
    case Node(n, _, _, _, l, r) =>
      Distinct(l) && Distinct(r) && n !in Nodes(l) && n !in Nodes(r) && Nodes(l) !! Nodes(r)
  }

  // A subtree with the bits that it adds after those of its parent.
  ghost predicate Fits<N>(c: Tree<N>, net: Ip, bit: nat, left: bool) {
    c.Node? ==> bit < c.bit <= 32 && Agree(c.net, net, bit) && GoesLeft(c.net, bit) == left
  }

  // What a node alone must satisfy.
  ghost predicate NodeOk(net: Ip, bit: nat, pref: Option<Prefix>) {
    && bit <= 32
    && (pref.Some? ==> pref.value.len == bit && IsValid(pref.value.net, bit) && Agree(pref.value.net, net, bit))
  }

  ghost predicate Wf<N>(t: Tree<N>) {
    match t
    case Leaf => true
    case Node(_, net, bit, pref, l, r) =>
      && NodeOk(net, bit, pref) && (pref.None? ==> l.Node? && r.Node?)
      && Fits(l, net, bit, true) && Fits(r, net, bit, false) && Wf(l) && Wf(r)
  }

  lemma AgreeTrans(a: Ip, b: Ip, c: Ip, m: nat, k: nat, n: nat)
    requires m <= k <= 32 && m <= n <= 32 && Agree(a, b, k) && Agree(b, c, n)
    ensures Agree(a, c, m)
  {
    hide IpBit;
  }

  /** The prefixes below a node are at least as long and begin with its bits. */
  lemma {:induction false} Members<N>(t: Tree<N>, p: Prefix)
    requires Wf(t) && p in Prefixes(t)
    ensures t.bit <= p.len <= 32 && IsValid(p.net, p.len) && Agree(p.net, t.net, t.bit)
    ensures p.len == t.bit ==> t.pref == Some(p)
    ensures p.len > t.bit ==> p in Prefixes(Child(t, GoesLeft(p.net, t.bit)))
  {
    hide IpBit, IsValid, Agree, Mask, GoesLeft;
    if t.pref != Some(p) {
      var left := p in Prefixes(t.left);
      var c := Child(t, left);
      Members(c, p);
      AgreeTrans(p.net, c.net, t.net, t.bit, c.bit, t.bit);
      AgreeSide(p.net, c.net, t.bit, c.bit);
    }
  }

  lemma AgreeSide(a: Ip, b: Ip, bit: nat, n: nat)
    requires bit < n <= 32 && Agree(a, b, n)
    ensures GoesLeft(a, bit) == GoesLeft(b, bit)
  {
    hide IpBit;
  }

  // ---------- Searching ----------

  /** The prefix contains the address. */
  ghost predicate Contains(p: Prefix, a: Ip) {
    p.len <= 32 && Agree(p.net, a, p.len)
  }

  /** A longest prefix of the set among those of at most len bits that contain
      the address. */
  ghost predicate Longest(s: set<Prefix>, a: Ip, len: nat, r: Option<Prefix>) {
    match r
    case None => forall q :: q in s && q.len <= len ==> !Contains(q, a)
    case Some(p) =>
      && p in s && p.len <= len && Contains(p, a)
      && forall q :: q in s && q.len <= len && Contains(q, a) ==> q.len <= p.len
  }

  /** A prefix that contains the address is at the node or on the way that the
      address takes from there. */
  lemma OnTheWay<N>(t: Tree<N>, a: Ip, p: Prefix)
    requires Wf(t) && p in Prefixes(t) && Contains(p, a)
    ensures p.len == t.bit ==> t.pref == Some(p)
    ensures p.len > t.bit ==> p in Prefixes(Child(t, GoesLeft(a, t.bit)))
    ensures t.bit <= p.len <= 32
  {
    hide IpBit, IsValid, Agree, Mask, GoesLeft;
    Members(t, p);
    if p.len > t.bit {
      AgreeSide(p.net, a, t.bit, p.len);
    }
  }

  // ---------- Paths ----------

  function Under<N>(f: Frame<N>, t: Tree<N>): Tree<N> {
    if f.wentLeft then Node(f.node, f.net, f.bit, f.pref, t, f.other)
    else Node(f.node, f.net, f.bit, f.pref, f.other, t)
  }

  /** The tree that a subtree and the path above it, root first, make up. */
  function Plug<N>(t: Tree<N>, path: seq<Frame<N>>): Tree<N>
    decreases |path|
  {
    if path == [] then t else Plug(Under(path[|path| - 1], t), path[..|path| - 1])
  }

  function PathNodes<N>(path: seq<Frame<N>>): set<N> {
    if path == [] then {}
    else {path[|path| - 1].node} + Nodes(path[|path| - 1].other) + PathNodes(path[..|path| - 1])
  }

  function PathPrefixes<N>(path: seq<Frame<N>>): set<Prefix> {
    if path == [] then {}
    else Own(path[|path| - 1].pref) + Prefixes(path[|path| - 1].other) + PathPrefixes(path[..|path| - 1])
  }

  ghost predicate DistinctPath<N>(path: seq<Frame<N>>) {
    path != [] ==>
      var f := path[|path| - 1];
      DistinctPath(path[..|path| - 1]) && Distinct(f.other) && f.node !in Nodes(f.other) &&
      PathNodes(path[..|path| - 1]) !! ({f.node} + Nodes(f.other))
  }

  // What stands for the address bits net can hang below the path.
  ghost predicate Slot<N>(path: seq<Frame<N>>, net: Ip, bit: nat) {
    path != [] ==>
      var f := path[|path| - 1];
      f.bit < bit <= 32 && Agree(net, f.net, f.bit) && GoesLeft(net, f.bit) == f.wentLeft
  }

  ghost predicate WfPath<N>(path: seq<Frame<N>>) {
    path != [] ==>
      var f, up := path[|path| - 1], path[..|path| - 1];
      && NodeOk(f.net, f.bit, f.pref) && Wf(f.other) && Fits(f.other, f.net, f.bit, !f.wentLeft)
      && (f.pref.None? ==> f.other.Node?) && WfPath(up) && Slot(up, f.net, f.bit)
  }

  ghost predicate Good<N>(t: Tree<N>, path: seq<Frame<N>>) {
    t.Node? && Wf(t) && WfPath(path) && Slot(path, t.net, t.bit)
  }

  lemma {:induction false} PlugWf<N>(t: Tree<N>, path: seq<Frame<N>>)
    requires Good(t, path)
    ensures Plug(t, path).Node? && Wf(Plug(t, path))
    decreases |path|
  {
    hide Agree, GoesLeft, IsValid;
    if path != [] {
      PlugWf(Under(path[|path| - 1], t), path[..|path| - 1]);
    }
  }

  lemma {:induction false} PlugPrefixes<N>(t: Tree<N>, path: seq<Frame<N>>)
    ensures Prefixes(Plug(t, path)) == Prefixes(t) + PathPrefixes(path)
    decreases |path|
  {
    if path != [] {
      PlugPrefixes(Under(path[|path| - 1], t), path[..|path| - 1]);
    }
  }

  lemma {:induction false} PlugNodes<N>(t: Tree<N>, path: seq<Frame<N>>)
    ensures Nodes(Plug(t, path)) == Nodes(t) + PathNodes(path)
    ensures Distinct(t) && DistinctPath(path) && Nodes(t) !! PathNodes(path) ==> Distinct(Plug(t, path))
    decreases |path|
  {
    if path != [] {
      PlugNodes(Under(path[|path| - 1], t), path[..|path| - 1]);
    }
  }

  function FrameOf<N>(t: Tree<N>, left: bool): Frame<N>
    requires t.Node?
  {
    Frame(t.node, t.net, t.bit, t.pref, left, Child(t, !left))
  }

  // A step down to a child that is there.
  lemma GoodDown<N>(t: Tree<N>, path: seq<Frame<N>>, left: bool)
    requires Good(t, path) && Child(t, left).Node?
    ensures Good(Child(t, left), path + [FrameOf(t, left)])
  {
    hide Agree, GoesLeft, IsValid, NodeOk;
    var f, c := FrameOf(t, left), Child(t, left);
    assert (path + [f])[..|path|] == path;
    assert Wf(c) && Wf(f.other) && Fits(f.other, t.net, t.bit, !left) && Fits(c, t.net, t.bit, left);
    assert WfPath(path + [f]);
  }

  lemma GoodUp<N>(t: Tree<N>, path: seq<Frame<N>>)
    requires Good(t, path) && path != []
    ensures Good(Under(path[|path| - 1], t), path[..|path| - 1])
  {
    hide Agree, GoesLeft, IsValid;
  }

  // ---------- Where an insertion goes ----------

  // All steps of the path are those that the address takes.
  ghost predicate Follows<N>(path: seq<Frame<N>>, a: Ip) {
    forall i :: 0 <= i < |path| ==> path[i].wentLeft == GoesLeft(a, path[i].bit)
  }

  // The descent of an insertion of p has come to t.
  ghost predicate Going<N>(root: Tree<N>, p: Prefix, t: Tree<N>, path: seq<Frame<N>>) {
    && t.Node? && Good(t, path) && Plug(t, path) == root && Follows(path, p.net)
    && (p in Prefixes(root) ==> p in Prefixes(t))
  }

  // It goes on from there to the child on the side of p.
  predicate GoesOn<N>(p: Prefix, t: Tree<N>)
    requires t.Node?
  {
    (t.bit < p.len || t.pref.None?) && Child(t, GoesLeft(p.net, t.bit)).Node?
  }

  lemma GoingDown<N>(root: Tree<N>, p: Prefix, t: Tree<N>, path: seq<Frame<N>>)
    requires Going(root, p, t, path) && GoesOn(p, t)
    ensures var left := GoesLeft(p.net, t.bit);
            Going(root, p, Child(t, left), path + [FrameOf(t, left)])
  {
    hide Agree, GoesLeft, IsValid, Good, Wf, Prefixes;
    var left := GoesLeft(p.net, t.bit);
    var f := FrameOf(t, left);
    GoodDown(t, path, left);
    assert (path + [f])[..|path|] == path;
    if p in Prefixes(root) {
      GoodWf(t, path);
      Members(t, p);
    }
  }

  lemma GoodWf<N>(t: Tree<N>, path: seq<Frame<N>>)
    requires Good(t, path)
    ensures Wf(t) && t.bit <= 32
  {
  }

  function Min(a: nat, b: nat): nat {
    if a < b then a else b
  }

  /** The first bit in which the prefix of the last node differs from p, or the
      place where one of them ends. */
  function Parting(w: Ip, bit: nat, p: Prefix): nat {
    Min(Fbd(w, p.net), Min(bit, p.len))
  }

  // The way back up has come to x: last is the node where the descent ended,
  // with the prefix w.
  ghost predicate Rising<N>(root: Tree<N>, p: Prefix, last: Tree<N>, w: Ip, x: Tree<N>, path: seq<Frame<N>>) {
    && last.Node? && last.pref.Some? && w == last.pref.value.net && last.bit <= 32
    && Good(x, path) && Plug(x, path) == root && Follows(path, p.net)
    && Agree(w, x.net, x.bit) && Parting(w, last.bit, p) <= x.bit <= last.bit
    && (x.bit == last.bit ==> x == last)
    && (x.bit < last.bit ==> GoesLeft(w, x.bit) == GoesLeft(p.net, x.bit))
    && (last.bit < p.len ==> Child(last, GoesLeft(p.net, last.bit)).Leaf?)
    && (p in Prefixes(root) ==> last.bit == p.len && last.pref == Some(p))
  }

  lemma RisingStart<N>(root: Tree<N>, p: Prefix, t: Tree<N>, path: seq<Frame<N>>)
    requires Going(root, p, t, path) && !GoesOn(p, t)
    ensures t.pref.Some? && Rising(root, p, t, t.pref.value.net, t, path)
  {
    hide Agree, GoesLeft, IsValid, Prefixes, Fbd;
    if p in Prefixes(root) {
      Members(t, p);
      if p.len > t.bit {
        assert p in Prefixes(Child(t, GoesLeft(p.net, t.bit)));
        NoPrefixes<N>();
      }
    }
  }

  lemma NoPrefixes<N>()
    ensures var leaf: Tree<N> := Leaf; Prefixes(leaf) == {}
  {
  }

  lemma RisingUp<N>(root: Tree<N>, p: Prefix, last: Tree<N>, w: Ip, x: Tree<N>, path: seq<Frame<N>>)
    requires Rising(root, p, last, w, x, path) && path != [] && path[|path| - 1].bit >= Parting(w, last.bit, p)
    ensures Rising(root, p, last, w, Under(path[|path| - 1], x), path[..|path| - 1])
  {
    hide Agree, GoesLeft, IsValid, Prefixes, Fbd, Wf;
    var f := path[|path| - 1];
    GoodUp(x, path);
    AgreeTrans(w, x.net, f.net, f.bit, x.bit, f.bit);
    AgreeSide(w, x.net, f.bit, x.bit);
  }

  // ---------- The four cases of an insertion ----------

  function Fresh<N>(n: N, p: Prefix): Tree<N> {
    Node(n, p.net, p.len, Some(p), Leaf, Leaf)
  }

  /** The subtree that takes the place of x; n is the new node for p, and g a
      new branch node. */
  function Placed<N>(x: Tree<N>, p: Prefix, w: Ip, fbd: nat, n: N, g: N): Tree<N>
    requires x.Node?
  {
    if fbd == p.len && x.bit == p.len then Node(x.node, x.net, x.bit, Some(p), x.left, x.right)
    else if x.bit == fbd then
      if GoesLeft(p.net, x.bit) then Node(x.node, x.net, x.bit, x.pref, Fresh(n, p), x.right)
      else Node(x.node, x.net, x.bit, x.pref, x.left, Fresh(n, p))
    else if p.len == fbd then
      if GoesLeft(w, p.len) then Node(n, p.net, p.len, Some(p), x, Leaf) else Node(n, p.net, p.len, Some(p), Leaf, x)
    else Forked(x, p, fbd, n, g)
  }

  // A new branch node above x and the new prefix.
  function Forked<N>(x: Tree<N>, p: Prefix, fbd: nat, n: N, g: N): Tree<N> {
    if GoesLeft(p.net, fbd) then Node(g, p.net, fbd, None, Fresh(n, p), x)
    else Node(g, p.net, fbd, None, x, Fresh(n, p))
  }

  // The end of the way up: the place of the insertion.
  ghost predicate AtPlace<N>(root: Tree<N>, p: Prefix, last: Tree<N>, w: Ip, x: Tree<N>, path: seq<Frame<N>>) {
    Rising(root, p, last, w, x, path) && (path != [] ==> path[|path| - 1].bit < Parting(w, last.bit, p))
  }

  predicate Duplicate<N>(x: Tree<N>, p: Prefix, fbd: nat)
    requires x.Node?
  {
    fbd == p.len && x.bit == p.len && x.pref.Some?
  }

  // p begins with the bits of the path, so what stands for it can hang there.
  lemma PlaceSlot<N>(root: Tree<N>, p: Prefix, last: Tree<N>, w: Ip, x: Tree<N>, path: seq<Frame<N>>, bit: nat)
    requires AtPlace(root, p, last, w, x, path) && Parting(w, last.bit, p) <= bit <= 32
    ensures Slot(path, p.net, bit)
  {
    hide IpBit, IsValid, Wf, GoesLeft, Fbd, Agree;
    FbdAgrees(w, p.net);
    if path != [] {
      var f, fbd := path[|path| - 1], Parting(w, last.bit, p);
      AgreeTrans(w, x.net, f.net, f.bit, x.bit, f.bit);
      AgreeSym(w, p.net, Fbd(w, p.net));
      AgreeTrans(p.net, w, f.net, f.bit, Fbd(w, p.net), f.bit);
      assert path[|path| - 1].wentLeft == GoesLeft(p.net, f.bit);
    }
  }

  lemma AgreeSym(a: Ip, b: Ip, n: nat)
    requires n <= 32 && Agree(a, b, n)
    ensures Agree(b, a, n)
  {
    hide IpBit;
  }

  lemma Differ(a: Ip, b: Ip)
    requires Fbd(a, b) < 32
    ensures GoesLeft(a, Fbd(a, b)) != GoesLeft(b, Fbd(a, b))
  {
    hide IpBit, Fbd;
    FbdAgrees(a, b);
  }

  lemma DuplicateIs<N>(root: Tree<N>, p: Prefix, last: Tree<N>, w: Ip, x: Tree<N>, path: seq<Frame<N>>)
    requires AtPlace(root, p, last, w, x, path) && IsValid(p.net, p.len)
    ensures Duplicate(x, p, Parting(w, last.bit, p)) <==> p in Prefixes(root)
  {
    hide IpBit, IsValid, Wf, GoesLeft, Fbd, Agree;
    FbdAgrees(w, p.net);
    var fbd := Parting(w, last.bit, p);
    if p in Prefixes(root) {
      SameParts(p.net);
    }
    if Duplicate(x, p, fbd) {
      var q := x.pref.value;
      GoodNode(x, path);
      PlugPrefixes(x, path);
      AgreeSym(w, x.net, x.bit);
      AgreeTrans(q.net, x.net, w, p.len, p.len, p.len);
      AgreeTrans(q.net, w, p.net, p.len, p.len, Fbd(w, p.net));
      ValidSame(q.net, p.net, p.len);
      assert q == p && q in Prefixes(x);
    }
  }

  lemma SameParts(a: Ip)
    ensures Fbd(a, a) == 32
  {
    hide IpBit;
    FbdAgrees(a, a);
  }

  lemma GoodNode<N>(x: Tree<N>, path: seq<Frame<N>>)
    requires Good(x, path)
    ensures NodeOk(x.net, x.bit, x.pref) && Wf(x)
  {
  }

  lemma PlaceHere<N>(x: Tree<N>, p: Prefix)
    requires x.Node? && Wf(x) && x.pref.None? && x.bit == p.len && IsValid(p.net, p.len) && Agree(p.net, x.net, x.bit)
    ensures var u := Node(x.node, x.net, x.bit, Some(p), x.left, x.right);
            Wf(u) && Prefixes(u) == Prefixes(x) + {p}
  {
    hide Agree, GoesLeft, IsValid;
  }

  lemma PlaceBelow<N>(x: Tree<N>, p: Prefix, n: N)
    requires x.Node? && Wf(x) && x.bit < p.len && IsValid(p.net, p.len) && Agree(p.net, x.net, x.bit)
    requires Child(x, GoesLeft(p.net, x.bit)).Leaf?
    ensures var u := if GoesLeft(p.net, x.bit) then Node(x.node, x.net, x.bit, x.pref, Fresh(n, p), x.right)
                     else Node(x.node, x.net, x.bit, x.pref, x.left, Fresh(n, p));
            Wf(u) && Prefixes(u) == Prefixes(x) + {p}
  {
    assert p.len <= 32;
    FreshOk(n, p);
    hide Agree, GoesLeft, IsValid;
  }

  lemma PlaceAbove<N>(x: Tree<N>, p: Prefix, n: N, left: bool)
    requires x.Node? && Wf(x) && p.len < x.bit && IsValid(p.net, p.len)
    requires Agree(x.net, p.net, p.len) && left == GoesLeft(x.net, p.len)
    ensures var u := if left then Node(n, p.net, p.len, Some(p), x, Leaf) else Node(n, p.net, p.len, Some(p), Leaf, x);
            Wf(u) && Prefixes(u) == Prefixes(x) + {p}
  {
    AgreeRefl(p.net, p.len);
    hide Agree, GoesLeft, IsValid;
  }

  lemma PlaceBranch<N>(x: Tree<N>, p: Prefix, fbd: nat, n: N, g: N)
    requires x.Node? && Wf(x) && fbd < x.bit && fbd < p.len && IsValid(p.net, p.len)
    requires Agree(x.net, p.net, fbd) && GoesLeft(x.net, fbd) != GoesLeft(p.net, fbd)
    ensures var u := Forked(x, p, fbd, n, g);
            Wf(u) && Prefixes(u) == Prefixes(x) + {p}
  {
    assert p.len <= 32;
    FreshOk(n, p);
    AgreeRefl(p.net, fbd);
    hide Agree, GoesLeft, IsValid, Fresh;
    FreshRoot(n, p);
  }

  lemma FreshRoot<N>(n: N, p: Prefix)
    ensures var t := Fresh(n, p); t.Node? && t.net == p.net && t.bit == p.len
  {
  }

  // What the place of the insertion and p have in common.
  lemma PlaceBits<N>(root: Tree<N>, p: Prefix, last: Tree<N>, w: Ip, x: Tree<N>, path: seq<Frame<N>>)
    requires AtPlace(root, p, last, w, x, path) && IsValid(p.net, p.len)
    ensures var fbd := Parting(w, last.bit, p);
            && fbd <= p.len <= 32 && fbd <= x.bit <= 32
            && Agree(p.net, x.net, fbd) && Agree(x.net, p.net, fbd)
            && (x.bit == fbd < p.len ==> Child(x, GoesLeft(p.net, x.bit)).Leaf?)
            && (fbd < x.bit ==> GoesLeft(w, fbd) == GoesLeft(x.net, fbd))
            && (fbd < x.bit && fbd < p.len ==> GoesLeft(w, fbd) != GoesLeft(p.net, fbd))
  {
    assert p.len <= 32;
    hide IpBit, IsValid, GoesLeft, Fbd, Agree, Wf;
    var fbd, n := Parting(w, last.bit, p), Fbd(w, p.net);
    FbdAgrees(w, p.net);
    GoodNode(x, path);
    AgreeSym(w, x.net, x.bit);
    AgreeTrans(x.net, w, p.net, fbd, x.bit, n);
    AgreeSym(x.net, p.net, fbd);
    if fbd < x.bit {
      AgreeSide(w, x.net, fbd, x.bit);
    }
    if fbd < last.bit && fbd < p.len {
      Differ(w, p.net);
    }
  }

  /** The subtree put in place is in order and holds one more prefix. */
  lemma PlacedOk<N>(root: Tree<N>, p: Prefix, last: Tree<N>, w: Ip, x: Tree<N>, path: seq<Frame<N>>, n: N, g: N)
    requires AtPlace(root, p, last, w, x, path) && IsValid(p.net, p.len)
    requires !Duplicate(x, p, Parting(w, last.bit, p))
    ensures var u := Placed(x, p, w, Parting(w, last.bit, p), n, g);
            Good(u, path) && Prefixes(u) == Prefixes(x) + {p}
  {
    hide IpBit, IsValid, GoesLeft, Fbd, Agree, Wf, Prefixes, WfPath, Parting;
    var fbd := Parting(w, last.bit, p);
    PlaceBits(root, p, last, w, x, path);
    PlaceSlot(root, p, last, w, x, path, fbd);
    if fbd == p.len && x.bit == p.len {
      PlaceHere(x, p);
    } else if x.bit == fbd {
      PlaceBelow(x, p, n);
    } else if p.len == fbd {
      PlaceAbove(x, p, n, GoesLeft(w, p.len));
    } else {
      PlaceBranch(x, p, fbd, n, g);
    }
  }

  lemma FreshOk<N>(n: N, p: Prefix)
    requires IsValid(p.net, p.len)
    ensures Wf(Fresh(n, p)) && Prefixes(Fresh(n, p)) == {p} && Nodes(Fresh(n, p)) == {n} && Distinct(Fresh(n, p))
  {
    hide IpBit, HostWord;
    AgreeRefl(p.net, p.len);
  }

  lemma AgreeRefl(a: Ip, n: nat)
    requires n <= 32
    ensures Agree(a, a, n)
  {
    hide IpBit;
  }
}
