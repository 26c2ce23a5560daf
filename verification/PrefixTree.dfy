/** mjl_prefixtree.c for IPv4: the tree of prefixes, with its nodes linked in
    memory. Contents is the set of prefixes that have been inserted. A search is
    proved to keep on its stack, or below it, every prefix that it can still
    return. An insertion goes down with a path of frames behind it, back up to
    the place of the first differing bit, and relinks there in one of four ways;
    the ghost field tree is the tree that the nodes hold, and PrefixHeap says
    what each relinking does to it. */
module PrefixTree {
  import opened Wrappers
  import opened Ip4Bits
  import opened PrefixTrie
  import opened PrefixHeap

  /** prefix4_fbd, with the count of leading zeroes in its portable form. */
  method PrefixFbd(a: Ip, b: Ip) returns (n: nat)
    ensures n == Fbd(a, b)
  {
    hide Clz;
    var v := Xor(a, b);
    if v == 0 {
      return 32;
    }
    var r := LeadingZeroes(v);
    n := r as int;
  }

  method LeadingZeroes(v0: bv32) returns (r: bv6)
    requires v0 != 0
    ensures r == Clz(v0)
  {
    var v := v0;
    r := 0;
    if v & 0xFFFF_0000 != 0 { v := v >> 16; r := r + 16; }
    if v & 0xFF00 != 0 { v := v >> 8; r := r + 8; }
    if v & 0xF0 != 0 { v := v >> 4; r := r + 4; }
    if v & 0xC != 0 { v := v >> 2; r := r + 2; }
    if v & 0x2 != 0 { r := r + 1; }
    r := 31 - r;
  }

  /** Memory holds the tree, and nothing else. */
  ghost predicate Holds(h: Heap, nodes: set<PrefixNode>, t: NodeTree, head: PrefixNode?) {
    Rep(h, t, head, null) && Nodes(t) == nodes && Distinct(t) && Wf(t)
  }

  // ---------- What a search keeps ----------

  // The search for an address has come to t, with s on its stack: the prefixes
  // of at most len bits that contain the address are on the stack or below t.
  ghost predicate Searching(all: set<Prefix>, t: NodeTree, a: Ip, len: nat, s: seq<Prefix>) {
    && Wf(t) && Prefixes(t) <= all
    && (forall q :: q in all && q.len <= len && Contains(q, a) ==> q in s || q in Prefixes(t))
    && Stacked(all, len, s)
    && (if t.Node? then |s| <= t.bit <= 32 && forall q :: q in s ==> q.len < t.bit else |s| <= 32)
  }

  ghost predicate Stacked(all: set<Prefix>, len: nat, s: seq<Prefix>) {
    && (forall q :: q in s ==> q in all && q.len <= len <= 32)
    && (forall i, j :: 0 <= i < j < |s| ==> s[i].len < s[j].len)
  }

  function Pushed(t: NodeTree, s: seq<Prefix>): seq<Prefix> {
    if t.Node? && t.pref.Some? then s + [t.pref.value] else s
  }

  lemma SearchStep(all: set<Prefix>, t: NodeTree, a: Ip, len: nat, s: seq<Prefix>)
    requires Searching(all, t, a, len, s) && t.Node? && t.bit < len <= 32
    ensures Searching(all, Child(t, GoesLeft(a, t.bit)), a, len, Pushed(t, s))
    ensures t.pref.Some? ==> t.pref.value.len == t.bit
    ensures GoesLeft(a, t.bit) <==> !IpBit(a, t.bit)
    ensures |s| <= t.bit && |Pushed(t, s)| <= 32
    ensures Pushed(t, s) == if t.pref.Some? then s + [t.pref.value] else s
  {
    hide Agree, IsValid, IpBit;
    var c, s' := Child(t, GoesLeft(a, t.bit)), Pushed(t, s);
    forall q | q in all && q.len <= len && Contains(q, a)
      ensures q in s' || q in Prefixes(c)
    {
      if q !in s {
        OnTheWay(t, a, q);
      }
    }
    assert t.pref.Some? ==> t.pref.value in Prefixes(t);
  }

  lemma SearchNode(all: set<Prefix>, t: NodeTree, a: Ip, len: nat, s: seq<Prefix>)
    requires Searching(all, t, a, len, s) && t.Node?
    ensures t.bit <= 32
  {
  }

  lemma ChildIs(t: NodeTree)
    requires t.Node?
    ensures Child(t, true) == t.left && Child(t, false) == t.right
  {
  }

  // The way of an address comes to a node of 32 bits.
  predicate MeetsAddress(t: NodeTree, a: Ip) {
    t.Node? && (t.bit == 32 || MeetsAddress(Child(t, GoesLeft(a, t.bit)), a))
  }

  lemma MeetsStep(t: NodeTree, a: Ip)
    ensures t.Leaf? ==> !MeetsAddress(t, a)
    ensures t.Node? && t.bit == 32 ==> MeetsAddress(t, a)
    ensures t.Node? && t.bit != 32 ==> (MeetsAddress(t, a) <==> MeetsAddress(Child(t, GoesLeft(a, t.bit)), a))
  {
    hide GoesLeft;
  }

  lemma ValidLen(net: Ip, len: nat)
    ensures IsValid(net, len) ==> len <= 32
  {
  }

  lemma SearchEnd(all: set<Prefix>, t: NodeTree, a: Ip, len: nat, s: seq<Prefix>)
    requires Searching(all, t, a, len, s) && (t.Node? ==> t.bit >= len)
    ensures t.Node? && t.pref.Some? ==> t.pref.value.len == t.bit
    ensures |s| <= 32 && (t.Node? ==> t.bit <= 32 && Pushed(t, s) == if t.pref.Some? then s + [t.pref.value] else s)
    ensures var s' := if t.Node? && t.bit <= len then Pushed(t, s) else s;
            Stacked(all, len, s') && |s'| <= 33 &&
            forall q :: q in all && q.len <= len && Contains(q, a) ==> q in s'
  {
    hide Agree, IsValid, IpBit, GoesLeft;
    var s' := if t.Node? && t.bit <= len then Pushed(t, s) else s;
    forall q | q in all && q.len <= len && Contains(q, a)
      ensures q in s'
    {
      if q !in s {
        OnTheWay(t, a, q);
      }
    }
    assert t.Node? && t.pref.Some? ==> t.pref.value in Prefixes(t);
  }

  // go from the top of the stack, looking for the longest prefix match
  method Pick(stack: array<Prefix>, n: nat, a: Ip, ghost all: set<Prefix>, ghost len: nat) returns (r: Option<Prefix>)
    requires n <= stack.Length && Stacked(all, len, stack[..n])
    requires forall q :: q in all && q.len <= len && Contains(q, a) ==> q in stack[..n]
    ensures Longest(all, a, len, r)
  {
    hide IpIn, Agree;
    var i := n;
    while i > 0
      invariant 0 <= i <= n
      invariant forall j :: i <= j < n ==> !Contains(stack[j], a)
    {
      i := i - 1;
      assert stack[i] == stack[..n][i] && stack[i] in stack[..n];
      IpInAgrees(stack[i], a);
      if IpIn(stack[i], a) {
        LongestIs(all, a, len, stack[..n], i);
        return Some(stack[i]);
      }
    }
    NoneIs(all, a, len, stack[..n]);
    r := None;
  }

  lemma LongestIs(all: set<Prefix>, a: Ip, len: nat, s: seq<Prefix>, i: nat)
    requires i < |s| && Stacked(all, len, s) && Contains(s[i], a)
    requires forall q :: q in all && q.len <= len && Contains(q, a) ==> q in s
    requires forall j :: i < j < |s| ==> !Contains(s[j], a)
    ensures Longest(all, a, len, Some(s[i]))
  {
    hide Contains;
    forall q | q in all && q.len <= len && Contains(q, a)
      ensures q.len <= s[i].len
    {
      var j :| 0 <= j < |s| && s[j] == q;
    }
  }

  lemma NoneIs(all: set<Prefix>, a: Ip, len: nat, s: seq<Prefix>)
    requires forall q :: q in all && q.len <= len && Contains(q, a) ==> q in s
    requires forall j :: 0 <= j < |s| ==> !Contains(s[j], a)
    ensures Longest(all, a, len, None)
  {
    hide Contains;
  }

  class Prefixtree {
    var head: PrefixNode?
    ghost var nodes: set<PrefixNode>
    ghost var tree: NodeTree

    ghost predicate Valid()
      reads this, nodes
    {
      Holds(Snap(nodes), nodes, tree, head)
    }

    ghost function Contents(): set<Prefix>
      reads this
    {
      Prefixes(tree)
    }

    constructor ()
      ensures Valid() && Contents() == {}
    {
      head := null;
      nodes, tree := {}, Leaf;
    }

    // A search has come to x, which stands for t, from the node above.
    ghost predicate At(t: NodeTree, x: PrefixNode?, above: PrefixNode?)
      reads this, nodes
    {
      (t.Leaf? <==> x == null) && Rep(Snap(nodes), t, x, above)
    }

    lemma AtHead()
      requires Valid()
      ensures At(tree, head, null) && (head == null <==> tree.Leaf?)
    {
      RepNodes(Snap(nodes), tree, head, null);
    }

    lemma AtNode(t: NodeTree, x: PrefixNode?, above: PrefixNode?)
      requires At(t, x, above) && x != null
      ensures x in nodes && t.Node? && t.bit == x.bit && t.pref == x.pref
      ensures At(t.left, x.left, x) && (x.left == null <==> t.left.Leaf?)
      ensures At(t.right, x.right, x) && (x.right == null <==> t.right.Leaf?)
    {
      var h := Snap(nodes);
      RepNodes(h, t.left, h[t.node].left, t.node);
      RepNodes(h, t.right, h[t.node].right, t.node);
    }

    lemma SearchStart(a: Ip, len: nat)
      requires Valid() && len <= 32
      ensures Searching(Contents(), tree, a, len, [])
    {
    }

    /** prefixtree_find_ip4. */
    method FindIp4(ip4: Ip) returns (r: Option<Prefix>)
      requires Valid()
      ensures Longest(Contents(), ip4, 32, r)
    {
      hide *;
      var x := head;
      var stack := new Prefix[33];
      var i := 0;
      ghost var t, above: PrefixNode? := tree, null;
      AtHead();
      SearchStart(ip4, 32);
      assert stack[..0] == [];
      while x != null && x.bit < 32
        invariant At(t, x, above) && (x == null <==> t.Leaf?) && i <= 32 &&
                  Searching(Contents(), t, ip4, 32, stack[..i])
        decreases t
      {
        AtNode(t, x, above);
        SearchStep(Contents(), t, ip4, 32, stack[..i]);
        if x.pref.Some? {
          Push(stack, i, x.pref.value);
          i := i + 1;
        }
        ChildIs(t);
        if !IpBit(ip4, x.bit) {
          x, t, above := x.left, t.left, x;
        } else {
          x, t, above := x.right, t.right, x;
        }
      }
      if x != null {
        AtNode(t, x, above);
      }
      SearchEnd(Contents(), t, ip4, 32, stack[..i]);
      if x != null && x.pref.Some? {
        Push(stack, i, x.pref.value);
        i := i + 1;
      }
      r := Pick(stack, i, ip4, Contents(), 32);
    }

    /** prefixtree_find_best4. It is meant for queries of at most 32 bits; ok is
        false if the assertion of ip4_bit fails. */
    method FindBest4(item: Prefix) returns (ok: bool, r: Option<Prefix>)
      requires Valid()
      ensures ok <==> item.len <= 32 || !MeetsAddress(tree, item.net)
      ensures ok ==> Longest(Contents(), item.net, item.len, r)
    {
      hide *;
      ghost var len := if item.len > 32 then 32 else item.len;
      var x := head;
      var stack := new Prefix[33];
      var i := 0;
      ghost var t, above: PrefixNode? := tree, null;
      AtHead();
      SearchStart(item.net, len);
      assert stack[..0] == [];
      while x != null && x.bit < item.len
        invariant At(t, x, above) && (x == null <==> t.Leaf?) && i <= 32
        invariant Searching(Contents(), t, item.net, len, stack[..i])
        invariant MeetsAddress(t, item.net) <==> MeetsAddress(tree, item.net)
        decreases t
      {
        AtNode(t, x, above);
        MeetsStep(t, item.net);
        SearchNode(Contents(), t, item.net, len, stack[..i]);
        if x.bit == 32 {
          return false, None;
        }
        SearchStep(Contents(), t, item.net, len, stack[..i]);
        if x.pref.Some? && x.pref.value.len <= item.len {
          Push(stack, i, x.pref.value);
          i := i + 1;
        }
        ChildIs(t);
        if !IpBit(item.net, x.bit) {
          x, t, above := x.left, t.left, x;
        } else {
          x, t, above := x.right, t.right, x;
        }
      }
      ok := true;
      MeetsStep(t, item.net);
      if x != null {
        AtNode(t, x, above);
        SearchNode(Contents(), t, item.net, len, stack[..i]);
      }
      SearchEnd(Contents(), t, item.net, len, stack[..i]);
      if x != null && x.pref.Some? && x.pref.value.len <= item.len {
        Push(stack, i, x.pref.value);
        i := i + 1;
      }
      r := Pick(stack, i, item.net, Contents(), len);
      LongestWide(item.net, item.len, r);
    }

    // No prefix has more than 32 bits.
    lemma LongestWide(a: Ip, len: nat, r: Option<Prefix>)
      requires Valid() && Longest(Contents(), a, if len > 32 then 32 else len, r)
      ensures Longest(Contents(), a, len, r)
    {
      hide Contains, Rep;
      forall q | q in Contents() ensures q.len <= 32 {
        Members(tree, q);
      }
    }

    /** prefixtree_find_exact4, with ok as above. */
    method FindExact4(net: Ip, len: nat) returns (ok: bool, r: Option<Prefix>)
      requires Valid()
      ensures ok <==> len <= 32 || !MeetsAddress(tree, net)
      ensures ok && r.Some? ==> r.value in Contents() && r.value.len == len && Contains(r.value, net)
      ensures ok && r.None? ==> forall q :: q in Contents() && q.len == len ==> !Contains(q, net)
      ensures IsValid(net, len) ==> ok && r == if Prefix(net, len) in Contents() then Some(Prefix(net, len)) else None
    {
      ValidLen(net, len);
      hide IsValid, Rep, Wf, MeetsAddress;
      ok, r := FindBest4(Prefix(net, len));
      if r.None? || r.value.len != len {
        r := None;
      }
      if IsValid(net, len) {
        ExactIs(Contents(), net, len, r);
      }
    }

    lemma ExactIs(all: set<Prefix>, net: Ip, len: nat, r: Option<Prefix>)
      requires Valid() && all == Contents() && len <= 32 && IsValid(net, len)
      requires r.Some? ==> r.value in all && r.value.len == len && Contains(r.value, net)
      requires r.None? ==> forall q :: q in all && q.len == len ==> !Contains(q, net)
      ensures r == if Prefix(net, len) in all then Some(Prefix(net, len)) else None
    {
      hide IsValid, Agree, Rep;
      AgreeRefl(net, len);
      if r.Some? {
        Members(tree, r.value);
        ValidSame(r.value.net, net, len);
      }
    }

    // The descent and the way back up have come to x, which stands for t.
    ghost predicate Standing(t: NodeTree, x: PrefixNode, path: Path)
      reads this, nodes
    {
      && t.Node? && t.node == x && x in nodes && Focus(Snap(nodes), t, x, path)
      && head == Root(path, x) && Plug(t, path) == tree
    }

    lemma StandsAtHead(pref: Prefix)
      requires Valid() && head != null
      ensures Standing(tree, head, []) && Going(tree, pref, tree, []) && tree.bit == head.bit && tree.pref == head.pref
    {
      RepNodes(Snap(nodes), tree, head, null);
    }

    // go through the tree until we get to the appropriate level
    method Descend(pref: Prefix) returns (x: PrefixNode, ghost t: NodeTree, ghost path: Path)
      requires Valid() && head != null
      ensures t.Node? && Standing(t, x, path) && Going(tree, pref, t, path) && !GoesOn(pref, t)
      ensures t.bit == x.bit && t.pref == x.pref
    {
      hide *;
      x, t, path := head, tree, [];
      StandsAtHead(pref);
      while x.bit < pref.len || x.pref.None?
        invariant t.Node? && Standing(t, x, path) && Going(tree, pref, t, path) && t.bit == x.bit && t.pref == x.pref
        decreases t
      {
        ghost var left := GoesLeft(pref.net, t.bit);
        LevelOk(t, path, pref);
        StandDown(t, x, path, left);
        if x.bit == 32 || !IpBit(pref.net, x.bit) {
          if x.left == null {
            break;
          }
          GoingDown(tree, pref, t, path);
          path := path + [FrameOf(t, true)];
          x, t := x.left, t.left;
        } else {
          if x.right == null {
            break;
          }
          GoingDown(tree, pref, t, path);
          path := path + [FrameOf(t, false)];
          x, t := x.right, t.right;
        }
      }
      LevelOk(t, path, pref);
    }

    lemma LevelOk(t: NodeTree, path: Path, pref: Prefix)
      requires Going(tree, pref, t, path)
      ensures t.bit <= 32
      ensures GoesLeft(pref.net, t.bit) <==> t.bit == 32 || !IpBit(pref.net, t.bit)
      ensures GoesOn(pref, t) <==> (t.bit < pref.len || t.pref.None?) && Child(t, GoesLeft(pref.net, t.bit)).Node?
      ensures Child(t, true) == t.left && Child(t, false) == t.right
    {
      hide IpBit;
      GoodWf(t, path);
    }

    lemma StandDown(t: NodeTree, x: PrefixNode, path: Path, left: bool)
      requires Standing(t, x, path)
      ensures Child(t, left) == if left then t.left else t.right
      ensures (if left then x.left else x.right) == null <==> Child(t, left).Leaf?
      ensures var c := Child(t, left);
              c.Node? ==> (if left then x.left else x.right) == c.node && c.node in nodes && c.bit == c.node.bit &&
                          c.pref == c.node.pref && Standing(c, c.node, path + [FrameOf(t, left)])
    {
      hide Plug;
      FocusDown(Snap(nodes), t, path, left);
      var c, f := Child(t, left), FrameOf(t, left);
      RepNodes(Snap(nodes), c, Link(Snap(nodes)[x], left), x);
      assert (path + [f])[..|path|] == path;
      PlugOne(c, f, path);
    }

    lemma StandUp(t: NodeTree, x: PrefixNode, path: Path)
      requires Standing(t, x, path)
      ensures t.Node? && x.parent == Top(path) && (path == [] <==> x.parent == null) && x.bit == t.bit &&
              x.pref == t.pref
      ensures path != [] ==>
                var f := path[|path| - 1];
                f.node == x.parent && f.bit == f.node.bit && Standing(Under(f, t), f.node, path[..|path| - 1])
    {
      if path != [] {
        hide Rep, PathRep, Apart, Plug;
        FocusUp(Snap(nodes), t, x, path);
        PlugOne(t, path[|path| - 1], path[..|path| - 1]);
        assert path == path[..|path| - 1] + [path[|path| - 1]];
      }
    }

    // back up to the first node that is not above the place
    method Ascend(x0: PrefixNode, fbd: nat, pref: Prefix, ghost last: NodeTree, ghost w: Ip, ghost path0: Path)
      returns (x: PrefixNode, ghost t: NodeTree, ghost path: Path)
      requires Standing(last, x0, path0) && Rising(tree, pref, last, w, last, path0) &&
               fbd == Parting(w, last.bit, pref)
      ensures t.Node? && Standing(t, x, path) && AtPlace(tree, pref, last, w, t, path) && t.bit == x.bit &&
              t.pref == x.pref
    {
      hide *;
      x, t, path := x0, last, path0;
      var p := x.parent;
      StandUp(t, x, path);
      while p != null && p.bit >= fbd
        invariant Standing(t, x, path) && Rising(tree, pref, last, w, t, path) && p == x.parent
        decreases |path|
      {
        StandUp(t, x, path);
        RisingUp(tree, pref, last, w, t, path);
        t, path := Under(path[|path| - 1], t), path[..|path| - 1];
        x := p;
        p := x.parent;
      }
      StandUp(t, x, path);
      PlaceIs(tree, pref, last, w, t, path);
    }

    // the node gets its prefix
    method SetPrefix(x: PrefixNode, pref: Prefix, ghost t: NodeTree, ghost path: Path)
      requires Standing(t, x, path)
      modifies x
      ensures Focus(Snap(nodes), Node(t.node, t.net, t.bit, Some(pref), t.left, t.right), x, path)
      ensures x.pref == Some(pref)
    {
      hide Focus;
      ghost var h := Snap(nodes);
      SetFocus(h, t, path, pref);
      x.pref := Some(pref);
      assert Snap(nodes) == h[x := h[x].(pref := Some(pref))];
    }

    method AddBelow(x: PrefixNode, n: PrefixNode, pref: Prefix, ghost t: NodeTree, ghost path: Path)
      requires Standing(t, x, path) && n !in nodes && IsNew(n, pref) && x.bit <= 32
      requires Child(t, GoesLeft(pref.net, x.bit)).Leaf?
      modifies x, n
      ensures var u := if GoesLeft(pref.net, t.bit) then Node(t.node, t.net, t.bit, t.pref, Fresh(n, pref), t.right)
                       else Node(t.node, t.net, t.bit, t.pref, t.left, Fresh(n, pref));
              Focus(Snap(nodes + {n}), u, x, path) && Nodes(u) == Nodes(t) + {n} && n.pref == Some(pref)
    {
      hide Focus, IpBit, Nodes, Fresh;
      ghost var h, left := Snap(nodes), GoesLeft(pref.net, x.bit);
      StandUp(t, x, path);
      BelowFocus(h, t, path, pref, n, left);
      n.parent := x;
      if x.bit == 32 || !IpBit(pref.net, x.bit) {
        x.left := n;
      } else {
        x.right := n;
      }
      assert Snap(nodes + {n}) == Below(h, x, left, n, pref);
    }

    // links v to the parent of x in place of it
    method HangInstead(x: PrefixNode, v: PrefixNode, ghost all: set<PrefixNode>, ghost path: Path)
      requires x in all && x.parent == Top(path)
      requires path != [] ==>
                 var f := path[|path| - 1];
                 f.node in all && Link(Snap(all)[f.node], f.wentLeft) == x && Link(Snap(all)[f.node], !f.wentLeft) != x
      modifies this`head, x.parent
      ensures x.parent == old(x.parent) && Snap(all) == Hung(old(Snap(all)), path, v)
      ensures head == if path == [] then v else old(head)
    {
      if x.parent == null {
        head := v;
      } else if x.parent.left == x {
        x.parent.left := v;
      } else {
        x.parent.right := v;
      }
    }

    // What the node above the place links to.
    lemma LinkAbove(t: NodeTree, x: PrefixNode, path: Path)
      requires Standing(t, x, path)
      ensures x.parent == Top(path) && x.parent == if path == [] then null else path[|path| - 1].node
      ensures t.Node? && t.node == x && x in nodes && Focus(Snap(nodes), t, x, path)
      ensures path != [] ==>
                var f := path[|path| - 1];
                f.node in nodes && f.node != x && Link(Snap(nodes)[f.node], f.wentLeft) == x &&
                Link(Snap(nodes)[f.node], !f.wentLeft) != x
    {
      if path != [] {
        var f := path[|path| - 1];
        RepNodes(Snap(nodes), f.other, Link(Snap(nodes)[f.node], !f.wentLeft), f.node);
        assert x in Nodes(t);
      }
    }

    method AddAbove(x: PrefixNode, n: PrefixNode, a: Ip, pref: Prefix, ghost t: NodeTree, ghost path: Path)
      requires Standing(t, x, path) && n !in nodes && IsNew(n, pref) && pref.len < 32
      modifies this`head, nodes, n
      ensures var u: NodeTree := if GoesLeft(a, pref.len) then Node(n, pref.net, pref.len, Some(pref), t, Leaf)
                                 else Node(n, pref.net, pref.len, Some(pref), Leaf, t);
              Focus(Snap(nodes + {n}), u, n, path) && Nodes(u) == Nodes(t) + {n}
      ensures n.pref == Some(pref) && head == if path == [] then n else old(head)
    {
      hide *;
      ghost var h, left, all := Snap(nodes), GoesLeft(a, pref.len), nodes + {n};
      LinkAbove(t, x, path);
      AboveFocus(h, t, path, pref, n, left);
      ghost var r := WriteAbove(n, x, pref, a, nodes);
      HangInstead(x, n, all, path);
      SetParent(x, n, all);
      SameAbove(h, x, path, n, r, h[x].(parent := n));
      AboveIs(h, x, path, left, n, pref);
    }

    method AddBranch(x: PrefixNode, n: PrefixNode, g: PrefixNode, fbd: nat, pref: Prefix, ghost t: NodeTree,
                     ghost path: Path)
      requires Standing(t, x, path) && n !in nodes && IsNew(n, pref) && fbd <= 32
      requires g !in nodes && g != n && g.pref == None && g.bit == fbd && g.left == null && g.right == null
      modifies this`head, nodes, n, g
      ensures var u: NodeTree := Forked(t, pref, fbd, n, g);
              Focus(Snap(nodes + {n, g}), u, g, path) && Nodes(u) == Nodes(t) + {n, g}
      ensures n.pref == Some(pref) && head == if path == [] then g else old(head)
    {
      hide *;
      ghost var h, left, all := Snap(nodes), GoesLeft(pref.net, fbd), nodes + {n, g};
      LinkAbove(t, x, path);
      BranchedFocus(h, t, path, pref, fbd, n, g, left);
      ghost var h1, r := WriteBranch(g, n, x, pref, fbd, nodes);
      HangInstead(x, g, all, path);
      SetParent(x, g, all);
      SameBranched(h1, x, path, g, r, h[x].(parent := g));
      BranchedIs(h, x, path, left, n, g, pref, fbd);
      assert Snap(all) == Branched(h, x, path, left, n, g, pref, fbd);
    }

    /** prefixtree_insert4: null stands for its NULL. */
    method Insert(pref: Prefix) returns (r: PrefixNode?)
      requires Valid()
      modifies this, nodes
      ensures Valid() && fresh(nodes - old(nodes))
      ensures r == null <==> !IsValid(pref.net, pref.len) || pref in old(Contents())
      ensures Contents() == if r == null then old(Contents()) else old(Contents()) + {pref}
      ensures r != null ==> r in nodes && r.pref == Some(pref)
    {
      hide *;
      if !IsValid(pref.net, pref.len) {
        return null;
      }
      if head == null {
        var t := new PrefixNode(Some(pref), pref.len);
        EmptyIs();
        head := t;
        nodes, tree := {t}, Fresh(t, pref);
        ConcludeFirst(t, pref);
        return t;
      }
      var x; ghost var t, path;
      x, t, path := Descend(pref);
      ghost var last := t;
      RisingStart(tree, pref, t, path);
      var bit := if x.bit < pref.len then x.bit else pref.len;
      var a := x.pref.value.net;
      var fbd := PrefixFbd(a, pref.net);
      if fbd > bit {
        fbd := bit;
      }
      PartingIs(a, last.bit, pref);
      x, t, path := Ascend(x, fbd, pref, last, a, path);
      assert Placing(x, fbd, a, pref, last, t, path) by {
        PlacingIs(x, fbd, a, pref, last, t, path);
      }
      r := InsertAt(x, fbd, a, pref, last, t, path);
    }

    lemma PlacingIs(x: PrefixNode, fbd: nat, a: Ip, pref: Prefix, last: NodeTree, t: NodeTree, path: Path)
      requires Valid() && Standing(t, x, path) && AtPlace(tree, pref, last, a, t, path) && IsValid(pref.net, pref.len)
      requires last.Node? && t.Node? && t.bit == x.bit && t.pref == x.pref && fbd == Parting(a, last.bit, pref)
      ensures Placing(x, fbd, a, pref, last, t, path)
    {
    }

    // The insertion has found its place.
    ghost predicate Placing(x: PrefixNode, fbd: nat, a: Ip, pref: Prefix, last: NodeTree, t: NodeTree, path: Path)
      reads this, nodes
    {
      && Valid() && Standing(t, x, path) && AtPlace(tree, pref, last, a, t, path) && IsValid(pref.net, pref.len)
      && t.bit == x.bit && t.pref == x.pref && fbd == Parting(a, last.bit, pref)
    }

    lemma PlacingFacts(x: PrefixNode, fbd: nat, a: Ip, pref: Prefix, last: NodeTree, t: NodeTree, path: Path)
      requires Placing(x, fbd, a, pref, last, t, path)
      ensures Standing(t, x, path) && t.Node? && x in nodes && t.node == x && t.bit == x.bit && t.pref == x.pref
      ensures fbd == pref.len && x.bit == pref.len && x.pref.Some? <==> pref in Contents()
      ensures head == Root(path, x) && Contents() == Prefixes(t) + PathPrefixes(path) &&
              nodes == Nodes(t) + PathNodes(path)
      ensures fbd <= pref.len <= 32 && fbd <= x.bit <= 32
      ensures x.bit == fbd < pref.len ==> Child(t, GoesLeft(pref.net, x.bit)).Leaf?
    {
      hide Wf, Rep, PathRep, Distinct, DistinctPath, Prefixes, Nodes, Plug, Good, Parting, IsValid;
      DuplicateIs(tree, pref, last, a, t, path);
      PlaceBits(tree, pref, last, a, t, path);
      PlugPrefixes(t, path);
      PlugNodes(t, path);
    }

    // What takes the place of t, when pref is not in the tree.
    lemma PlacingTree(x: PrefixNode, fbd: nat, a: Ip, pref: Prefix, last: NodeTree, t: NodeTree, path: Path,
                      n: PrefixNode, g: PrefixNode)
      requires Placing(x, fbd, a, pref, last, t, path) && pref !in Contents() && t.Node?
      ensures var u := Placed(t, pref, a, fbd, n, g);
              Good(u, path) && Prefixes(u) == Prefixes(t) + {pref}
    {
      hide Wf, Rep, PathRep, Distinct, DistinctPath, Prefixes, Nodes, Plug, Good, Parting, IsValid;
      DuplicateIs(tree, pref, last, a, t, path);
      PlacedOk(tree, pref, last, a, t, path, n, g);
    }

    lemma ConcludePlaced(u: NodeTree, v: PrefixNode, path: Path)
      requires Focus(Snap(nodes), u, v, path) && Good(u, path)
      requires tree == Plug(u, path) && head == Root(path, v) && nodes == Nodes(u) + PathNodes(path)
      ensures Valid() && Contents() == Prefixes(u) + PathPrefixes(path)
    {
      hide Wf, Rep, PathRep, Apart, Prefixes, Nodes, Plug, WfPath;
      FocusPlug(Snap(nodes), u, v, path);
      PlugWf(u, path);
      PlugPrefixes(u, path);
    }

    // The part of the insertion from its place on.
    method InsertAt(x: PrefixNode, fbd: nat, a: Ip, pref: Prefix, ghost last: NodeTree, ghost t: NodeTree,
                    ghost path: Path)
      returns (r: PrefixNode?)
      requires Placing(x, fbd, a, pref, last, t, path)
      modifies this, nodes
      ensures Valid() && fresh(nodes - old(nodes))
      ensures r == null <==> pref in old(Contents())
      ensures Contents() == if r == null then old(Contents()) else old(Contents()) + {pref}
      ensures r != null ==> r in nodes && r.pref == Some(pref)
    {
      hide *;
      PlacingFacts(x, fbd, a, pref, last, t, path);
      PlacingValid(x, fbd, a, pref, last, t, path);
      if fbd == pref.len && x.bit == pref.len {
        // not going to insert the same prefix twice
        if x.pref.Some? {
          return null;
        }
        InsertHere(x, fbd, a, pref, last, t, path);
        return x;
      }
      var n := new PrefixNode(Some(pref), pref.len);
      NewIs(n, pref);
      if x.bit == fbd {
        InsertBelow(x, n, fbd, a, pref, last, t, path);
      } else if pref.len == fbd {
        InsertAbove(x, n, fbd, a, pref, last, t, path);
      } else {
        var g := new PrefixNode(None, fbd);
        InsertBranch(x, n, g, fbd, a, pref, last, t, path);
      }
      r := n;
    }

    lemma PlacingValid(x: PrefixNode, fbd: nat, a: Ip, pref: Prefix, last: NodeTree, t: NodeTree, path: Path)
      requires Placing(x, fbd, a, pref, last, t, path)
      ensures Valid()
    {
    }

    method InsertHere(x: PrefixNode, fbd: nat, a: Ip, pref: Prefix, ghost last: NodeTree, ghost t: NodeTree,
                      ghost path: Path)
      requires Placing(x, fbd, a, pref, last, t, path) && pref !in Contents() && fbd == x.bit == pref.len
      modifies this, x
      ensures Valid() && nodes == old(nodes) && Contents() == old(Contents()) + {pref} && x.pref == Some(pref)
    {
      hide *;
      PlacingFacts(x, fbd, a, pref, last, t, path);
      PlacingTree(x, fbd, a, pref, last, t, path, x, x);
      PlacedIs(t, pref, a, fbd, x, x);
      ghost var u := Placed(t, pref, a, fbd, x, x);
      HereNodes(t, pref);
      SetPrefix(x, pref, t, path);
      tree := Plug(u, path);
      ConcludePlaced(u, x, path);
    }

    method InsertBelow(x: PrefixNode, n: PrefixNode, fbd: nat, a: Ip, pref: Prefix, ghost last: NodeTree,
                       ghost t: NodeTree, ghost path: Path)
      requires Placing(x, fbd, a, pref, last, t, path) && pref !in Contents() && fbd == x.bit < pref.len
      requires n !in nodes && IsNew(n, pref)
      modifies this, nodes, n
      ensures Valid() && nodes == old(nodes) + {n} && Contents() == old(Contents()) + {pref} && n.pref == Some(pref)
    {
      hide *;
      PlacingFacts(x, fbd, a, pref, last, t, path);
      PlacingTree(x, fbd, a, pref, last, t, path, n, n);
      PlacedIs(t, pref, a, fbd, n, n);
      ghost var u := Placed(t, pref, a, fbd, n, n);
      AddBelow(x, n, pref, t, path);
      nodes, tree := nodes + {n}, Plug(u, path);
      ConcludePlaced(u, x, path);
    }

    method InsertAbove(x: PrefixNode, n: PrefixNode, fbd: nat, a: Ip, pref: Prefix, ghost last: NodeTree,
                       ghost t: NodeTree, ghost path: Path)
      requires Placing(x, fbd, a, pref, last, t, path) && pref !in Contents() && fbd == pref.len < x.bit
      requires n !in nodes && IsNew(n, pref)
      modifies this, nodes, n
      ensures Valid() && nodes == old(nodes) + {n} && Contents() == old(Contents()) + {pref} && n.pref == Some(pref)
    {
      hide *;
      PlacingFacts(x, fbd, a, pref, last, t, path);
      PlacingTree(x, fbd, a, pref, last, t, path, n, n);
      PlacedIs(t, pref, a, fbd, n, n);
      RootIs(path, x, n);
      ghost var u := Placed(t, pref, a, fbd, n, n);
      AddAbove(x, n, a, pref, t, path);
      nodes, tree := nodes + {n}, Plug(u, path);
      ConcludePlaced(u, n, path);
    }

    method InsertBranch(x: PrefixNode, n: PrefixNode, g: PrefixNode, fbd: nat, a: Ip, pref: Prefix,
                        ghost last: NodeTree, ghost t: NodeTree, ghost path: Path)
      requires Placing(x, fbd, a, pref, last, t, path) && pref !in Contents() && fbd < pref.len && fbd < x.bit
      requires n !in nodes && IsNew(n, pref)
      requires g !in nodes && g != n && g.pref == None && g.bit == fbd && g.parent == null && g.left == null &&
               g.right == null
      modifies this, nodes, n, g
      ensures Valid() && nodes == old(nodes) + {n, g} && Contents() == old(Contents()) + {pref} && n.pref == Some(pref)
    {
      hide *;
      PlacingFacts(x, fbd, a, pref, last, t, path);
      PlacingTree(x, fbd, a, pref, last, t, path, n, g);
      PlacedIs(t, pref, a, fbd, n, g);
      RootIs(path, x, g);
      ghost var u := Placed(t, pref, a, fbd, n, g);
      AddBranch(x, n, g, fbd, pref, t, path);
      nodes, tree := nodes + {n, g}, Plug(u, path);
      ConcludePlaced(u, g, path);
    }

    lemma EmptyIs()
      requires Valid() && head == null
      ensures Contents() == {} && nodes == {}
    {
    }

    lemma ConcludeFirst(t: PrefixNode, pref: Prefix)
      requires head == t && nodes == {t} && tree == Fresh(t, pref) && IsValid(pref.net, pref.len)
      requires t.pref == Some(pref) && t.bit == pref.len && t.parent == null && t.left == null && t.right == null
      ensures Valid() && Contents() == {pref}
    {
      hide IsValid, Rep, Wf, Nodes, Prefixes, Distinct;
      FirstOne(t, pref);
      assert Snap(nodes) == map[t := Rec(Some(pref), null, null, null, pref.len)];
    }
  }

  lemma RootIs(path: Path, x: PrefixNode, v: PrefixNode)
    ensures Root(path, v) == if path == [] then v else Root(path, x)
  {
  }

  lemma NewIs(n: PrefixNode, pref: Prefix)
    requires n.pref == Some(pref) && n.bit == pref.len && n.parent == null && n.left == null && n.right == null
    ensures IsNew(n, pref)
  {
  }

  lemma HereNodes(t: NodeTree, pref: Prefix)
    requires t.Node?
    ensures var u: NodeTree := Node(t.node, t.net, t.bit, Some(pref), t.left, t.right); Nodes(u) == Nodes(t)
  {
  }

  // Placed, case by case.
  lemma PlacedIs(x: NodeTree, p: Prefix, w: Ip, fbd: nat, n: PrefixNode, g: PrefixNode)
    requires x.Node?
    ensures var u := Placed(x, p, w, fbd, n, g);
            && (fbd == p.len == x.bit ==> u == Node(x.node, x.net, x.bit, Some(p), x.left, x.right))
            && (fbd != p.len && x.bit == fbd ==>
                  u == if GoesLeft(p.net, x.bit) then Node(x.node, x.net, x.bit, x.pref, Fresh(n, p), x.right)
                       else Node(x.node, x.net, x.bit, x.pref, x.left, Fresh(n, p)))
            && (fbd == p.len != x.bit ==>
                  u == if GoesLeft(w, p.len) then Node(n, p.net, p.len, Some(p), x, Leaf)
                    else Node(n, p.net, p.len, Some(p), Leaf, x))
            && (fbd != p.len && fbd != x.bit ==>
                  u == Forked(x, p, fbd, n, g))
  {
    hide IpBit;
  }

  lemma FirstOne(t: PrefixNode, pref: Prefix)
    requires IsValid(pref.net, pref.len)
    ensures Nodes(Fresh(t, pref)) == {t} && Distinct(Fresh(t, pref)) && Wf(Fresh(t, pref)) &&
            Prefixes(Fresh(t, pref)) == {pref}
    ensures Rep(map[t := Rec(Some(pref), null, null, null, pref.len)], Fresh(t, pref), t, null)
  {
    FreshOk(t, pref);
  }

  lemma PartingIs(a: Ip, bit: nat, pref: Prefix)
    ensures var m := if bit < pref.len then bit else pref.len;
            Parting(a, bit, pref) == if Fbd(a, pref.net) > m then m else Fbd(a, pref.net)
  {
  }

  // t->left or t->right, and t->parent
  method WriteAbove(n: PrefixNode, x: PrefixNode, pref: Prefix, a: Ip, ghost nodes: set<PrefixNode>)
    returns (ghost r: Rec)
    requires x in nodes && n !in nodes && IsNew(n, pref) && pref.len < 32
    modifies n
    ensures r == Turn(Rec(Some(pref), x.parent, null, null, pref.len), GoesLeft(a, pref.len), x)
    ensures Snap(nodes + {n}) == old(Snap(nodes))[n := r] && n.pref == Some(pref)
  {
    hide IpBit;
    if pref.len == 32 || !IpBit(a, pref.len) {
      n.left := x;
    } else {
      n.right := x;
    }
    n.parent := x.parent;
    r := Rec(n.pref, n.parent, n.left, n.right, n.bit);
  }

  // the links of the branch node, and t->parent
  method WriteBranch(g: PrefixNode, n: PrefixNode, x: PrefixNode, pref: Prefix, fbd: nat, ghost nodes: set<PrefixNode>)
    returns (ghost h1: Heap, ghost r: Rec)
    requires x in nodes && n !in nodes && g !in nodes && n != g && IsNew(n, pref) && fbd <= 32
    requires g.pref == None && g.bit == fbd && g.left == null && g.right == null
    modifies n, g
    ensures h1 == old(Snap(nodes))[n := Rec(Some(pref), g, null, null, pref.len)]
    ensures var left := GoesLeft(pref.net, fbd);
            r == Turn(Turn(Rec(None, x.parent, null, null, fbd), left, n), !left, x)
    ensures Snap(nodes + {n, g}) == h1[g := r] && n.pref == Some(pref)
  {
    hide IpBit;
    h1 := Snap(nodes)[n := Rec(Some(pref), g, null, null, pref.len)];
    g.parent := x.parent;
    if fbd == 32 || !IpBit(pref.net, fbd) {
      g.left := n;
      g.right := x;
    } else {
      g.left := x;
      g.right := n;
    }
    n.parent := g;
    r := Rec(g.pref, g.parent, g.left, g.right, g.bit);
  }

  method SetParent(x: PrefixNode, v: PrefixNode, ghost all: set<PrefixNode>)
    requires x in all
    modifies x
    ensures Snap(all) == old(Snap(all))[x := old(Snap(all)[x]).(parent := v)]
  {
    x.parent := v;
  }

  lemma AboveIs(h: Heap, x: PrefixNode, path: Path, left: bool, n: PrefixNode, p: Prefix)
    requires x in h && (path != [] ==> path[|path| - 1].node in h)
    ensures Above(h, x, path, left, n, p) ==
            Hung(h[n := Turn(Rec(Some(p), Top(path), null, null, p.len), left, x)][x := h[x].(parent := n)], path, n)
  {
  }

  lemma BranchedIs(h: Heap, x: PrefixNode, path: Path, left: bool, n: PrefixNode, g: PrefixNode, p: Prefix, bit: nat)
    requires x in h && n !in h && g !in h && n != g && (path != [] ==> path[|path| - 1].node in h)
    ensures Branched(h, x, path, left, n, g, p, bit) ==
            Hung(h[n := Rec(Some(p), g, null, null, p.len)][x := h[x].(parent := g)]
                 [g := Turn(Turn(Rec(None, Top(path), null, null, bit), left, n), !left, x)], path, g)
  {
  }

  // The order in which the links are turned makes no difference.
  lemma SameAbove(h: Heap, x: PrefixNode, path: Path, n: PrefixNode, r: Rec, s: Rec)
    requires x in h && n !in h && (path != [] ==> path[|path| - 1].node in h && path[|path| - 1].node != x)
    ensures var k := Hung(h[n := r], path, n);
            k[x := s] == Hung(h[n := r][x := s], path, n) && x in k && k[x] == h[x]
  {
  }

  lemma SameBranched(h: Heap, x: PrefixNode, path: Path, g: PrefixNode, r: Rec, s: Rec)
    requires x in h && g !in h && (path != [] ==> path[|path| - 1].node in h && path[|path| - 1].node != x)
    ensures var k := Hung(h[g := r], path, g);
            k[x := s] == Hung(h[x := s][g := r], path, g) && x in k && k[x] == h[x]
  {
  }

  predicate IsNew(n: PrefixNode, pref: Prefix)
    reads n
  {
    n.pref == Some(pref) && n.bit == pref.len && n.parent == null && n.left == null && n.right == null
  }

  lemma PlaceIs(root: NodeTree, p: Prefix, last: NodeTree, w: Ip, x: NodeTree, path: Path)
    requires Rising(root, p, last, w, x, path)
    requires path != [] ==> path[|path| - 1].bit < Parting(w, last.bit, p)
    ensures AtPlace(root, p, last, w, x, path)
  {
  }

  lemma PlugOne(t: NodeTree, f: Frame<PrefixNode>, path: Path)
    ensures Plug(t, path + [f]) == Plug(Under(f, t), path)
  {
    assert (path + [f])[..|path|] == path;
  }

  method Push(stack: array<Prefix>, i: nat, p: Prefix)
    requires i < stack.Length
    modifies stack
    ensures stack[..i + 1] == old(stack[..i]) + [p]
  {
    stack[i] := p;
  }
}
