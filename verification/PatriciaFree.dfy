/** patricia_free_rec of mjl_patricia.c: the recursion that frees a trie. It
    follows a link if it leads downwards or to the node of bit zero, clears the
    link first, and frees the node last. */
module PatriciaFree {
  import opened Wrappers
  import opened PatriciaTree
  import opened PatriciaHeap
  import opened Patricia

  /** The nodes in the order in which they are freed. */
  function Visits<N(==)>(t: Tree<N>, low: N): seq<N> {
    match t
    case Tip(n, _) => if n == low then [n] else []
    case Branch(n, _, l, r) => Visits(l, low) + Visits(r, low) + [n]
  }

  ghost predicate NoDuplicates<T>(s: seq<T>) {
    forall i, j :: 0 <= i < j < |s| ==> s[i] != s[j]
  }

  lemma {:induction false} VisitsMembers<N>(t: Tree<N>, pb: nat, low: N)
    requires Wf(t, pb)
    ensures forall n :: n in Visits(t, low) <==> n in Inner(t) || (n == low && low in Tips(t))
    ensures forall n :: n in Visits(t, low) ==> n in Tips(t)
  {
    InnerAreTips(t, pb);
    if t.Branch? {
      VisitsMembers(t.left, t.bit, low);
      VisitsMembers(t.right, t.bit, low);
    }
  }

  lemma {:induction false} VisitsDistinct<N>(t: Tree<N>, pb: nat, low: N)
    requires Wf(t, pb) && low !in Inner(t)
    ensures NoDuplicates(Visits(t, low))
  {
    if t.Branch? {
      VisitsDistinct(t.left, t.bit, low);
      VisitsDistinct(t.right, t.bit, low);
      VisitsMembers(t.left, t.bit, low);
      VisitsMembers(t.right, t.bit, low);
      JoinDistinct(Visits(t.left, low), Visits(t.right, low));
      JoinDistinct(Visits(t.left, low) + Visits(t.right, low), [t.node]);
    }
  }

  lemma JoinDistinct<T>(s: seq<T>, u: seq<T>)
    requires NoDuplicates(s) && NoDuplicates(u) && forall x :: x in s ==> x !in u
    ensures NoDuplicates(s + u)
  {
    forall i, j | 0 <= i < j < |s + u|
      ensures (s + u)[i] != (s + u)[j]
    {
      if i < |s| <= j {
        assert s[i] in s && u[j - |s|] in u;
      }
    }
  }

  // What a call is for: the head of an empty trie or with its link cleared, the
  // head of a whole trie, or a part of the trie.
  datatype Job = Cleared | Whole(t: Tree<Node>) | Part(t: Tree<Node>)

  ghost function JobVisits(job: Job, low: Node): seq<Node> {
    if job.Cleared? then [] else Visits(job.t, low)
  }

  ghost predicate Intact(h: Heap<Node>, n: Node)
    reads n
  {
    n in h && n.left == h[n].left && n.right == h[n].right
  }

  // What never changes: bits, the link of the head to itself, and that only
  // the head and the low node have bit zero.
  ghost predicate Stable(h: Heap<Node>, head: Node, low: Node)
    reads h.Keys
  {
    && head in h && low in h && head.left == head
    && h[head].bit == 0 && h[low].bit == 0 && h[low].left == head && h[low].right == low
    && (forall n :: n in h ==> n.bit == h[n].bit)
    && (forall n :: n in h && n != head && n != low ==> h[n].bit > 0)
  }

  // A part that is to be freed, apart from the links in memory.
  ghost predicate Shape(h: Heap<Node>, head: Node, low: Node, t: Tree<Node>, pb: nat, freed: set<Node>) {
    && Below(h, t, pb, t.node) && (t.Tip? ==> t.node == low)
    && head !in Tips(t) && low !in Inner(t) && low != head && Tips(t) !! freed
  }

  // Its links in memory are untouched so far.
  ghost predicate Untouched(h: Heap<Node>, low: Node, t: Tree<Node>)
    reads h.Keys
  {
    && (forall n :: n in Inner(t) ==> n in h && Intact(h, n))
    && (low in Tips(t) ==> low in h && Intact(h, low))
  }

  ghost predicate Ready(h: Heap<Node>, head: Node, low: Node, job: Job, node: Node, pb: nat, freed: set<Node>)
    reads h.Keys
  {
    Stable(h, head, low) && head !in freed &&
    match job
    case Cleared => node == head && (head.right == null || head.right == head)
    case Whole(t) => node == head && head.right == t.node && Shape(h, head, low, t, 0, freed) && Untouched(h, low, t)
    case Part(t) => head.right == null && node == t.node && Shape(h, head, low, t, pb, freed) && Untouched(h, low, t)
  }

  // Which of the two links a call goes down, and what for.
  ghost function SideJob(job: Job, left: bool, low: Node): Option<Job> {
    match job
    case Cleared => None
    case Whole(t) => if left then None else Some(Part(t))
    case Part(t) =>
      if t.Tip? then (if left then Some(Cleared) else None)
      else
        var c := if left then t.left else t.right;
        if c.Branch? || c.node == low then Some(Part(c)) else None
  }

  function Link(n: Node, left: bool): Node?
    reads n
  {
    if left then n.left else n.right
  }

  // One of the two links of a node at the time when it is looked at: it leads
  // to where SideJob says, or it is null, the node itself or an up-link.
  ghost predicate SideReady(h: Heap<Node>, head: Node, low: Node, job: Job, node: Node, left: bool,
                            freed: set<Node>)
    reads h.Keys
  {
    Stable(h, head, low) && head !in freed && node in h &&
    var x := Link(node, left);
    match SideJob(job, left, low)
    case None =>
      x == null || x == node || (x in h && x !in freed && x.bit < node.bit && x.bit != 0)
    case Some(Cleared) =>
      x == head && node == low && low != head && head.right == null
    case Some(Part(c)) =>
      x == c.node && x != node && (node == head || head.right == null) && (node == head ==> !left) &&
      node !in Inner(c) && node != low &&
      Shape(h, head, low, c, node.bit, freed) && Untouched(h, low, c)
    case Some(Whole(_)) => false
  }

  // Bits and items stay, and so do the links of all nodes but those named.
  twostate predicate Others(h: Heap<Node>, new changed: set<Node>)
    reads h.Keys
  {
    (forall n :: n in h ==> n.bit == old(n.bit) && n.item == old(n.item)) &&
    (forall n :: n in h && n !in changed ==> n.left == old(n.left) && n.right == old(n.right))
  }

  ghost function Rank(job: Job): nat {
    match job
    case Cleared => 0
    case Part(_) => 1
    case Whole(_) => 2
  }

  ghost function Trie(job: Job, node: Node): Tree<Node> {
    if job.Cleared? then Tip(node, Item([], 0)) else job.t
  }

  function Side(t: Tree<Node>, left: bool): Tree<Node>
    requires t.Branch?
  {
    if left then t.left else t.right
  }

  // Where a link of a branch leads.
  lemma ChildShape(h: Heap<Node>, head: Node, low: Node, t: Tree<Node>, pb: nat, freed: set<Node>, left: bool)
    requires Shape(h, head, low, t, pb, {}) && t.Branch? && Tips(Side(t, left)) !! freed
    requires head in h && low in h && h[low].bit == 0
    requires forall n :: n in h && n != head && n != low ==> h[n].bit > 0
    ensures var c, n := Side(t, left), t.node;
            n in h && c.node in h && h[n].bit == t.bit && (if left then h[n].left else h[n].right) == c.node &&
            n !in Inner(c) && n != low && c.node !in freed &&
            if c.Branch? || c.node == low then Shape(h, head, low, c, t.bit, freed)
            else c.node == n || (h[c.node].bit < t.bit && h[c.node].bit != 0)
  {
    InnerAreTips(t.left, t.bit);
    InnerAreTips(t.right, t.bit);
    assert Rep(h, t.left, h[t.node].left) && Rep(h, t.right, h[t.node].right);
    if left {
      RepItems(h, t.left, t.left.node);
      RootIsMember(t.left);
      assert t.left.node in Tips(t);
    } else {
      RepItems(h, t.right, t.right.node);
      RootIsMember(t.right);
      assert t.right.node in Tips(t);
    }
  }

  // What the left half frees is not needed by the right half.
  lemma HalvesApart(t: Tree<Node>, pb: nat, low: Node)
    requires Wf(t, pb) && t.Branch? && low !in Inner(t)
    ensures forall n :: n in Visits(t.left, low) ==>
                          n in Tips(t) && n !in Tips(t.right) && n !in Inner(t.right) && n != t.node
    ensures t.node in Inner(t) && Inner(t.right) <= Inner(t) && Tips(t.right) <= Tips(t)
    ensures low in Tips(t.right) ==> low !in Visits(t.left, low)
    ensures t.node !in Inner(t.right) && t.node != low
  {
    VisitsMembers(t.left, t.bit, low);
    InnerAreTips(t.right, t.bit);
  }

  lemma ChildReady(h: Heap<Node>, head: Node, low: Node, job: Job, pb: nat, freed: set<Node>, left: bool)
    requires Stable(h, head, low) && head !in freed && head.right == null
    requires job.Part? && job.t.Branch? && Shape(h, head, low, job.t, pb, {})
    requires Tips(Side(job.t, left)) !! freed && Untouched(h, low, Side(job.t, left))
    requires job.t.node in h && Link(job.t.node, left) == (if left then h[job.t.node].left else h[job.t.node].right)
    ensures SideReady(h, head, low, job, job.t.node, left, freed)
  {
    ChildShape(h, head, low, job.t, pb, freed, left);
    hide Shape, Untouched, Wf;
  }

  lemma LeftReady(node: Node, head: Node, h: Heap<Node>, low: Node, job: Job, pb: nat, freed: set<Node>)
    requires Ready(h, head, low, job, node, pb, freed)
    ensures SideReady(h, head, low, job, node, true, freed)
  {
    if job.Part? && job.t.Branch? {
      assert node in Inner(job.t);
      ChildReady(h, head, low, job, pb, freed, true);
    }
  }

  ghost function ToSet<T>(s: seq<T>): set<T> {
    set x | x in s
  }

  ghost function SideVisits(job: Job, left: bool, low: Node): seq<Node> {
    match SideJob(job, left, low)
    case None => []
    case Some(j) => JobVisits(j, low)
  }

  /** patricia_free_rec; the log lists the nodes it frees, for which free_cb is
      called. No node that has been freed is looked at. */
  method FreeRec(node: Node, head: Node, ghost h: Heap<Node>, ghost low: Node, ghost job: Job, ghost pb: nat,
                 ghost freed: set<Node>)
    returns (log: seq<Node>)
    requires Ready(h, head, low, job, node, pb, freed) && node !in freed
    modifies h.Keys
    ensures log == JobVisits(job, low)
    ensures Others(h, ToSet(log) + if job.Whole? then {node} else {})
    ensures job.Whole? ==> head.right == null
    decreases Rank(job), Trie(job, node), 2
  {
    hide Ready, SideReady, SideJob, Visits;
    JobParts(h, head, low, job, node, pb, freed);
    log := LeftHalf(node, head, h, low, job, pb, freed);
    var more := FreeSide(node, false, head, h, low, job, freed + ToSet(log));
    log := log + more;
    if node != head {
      log := log + [node];
    }
  }

  lemma JobParts(h: Heap<Node>, head: Node, low: Node, job: Job, node: Node, pb: nat, freed: set<Node>)
    requires Ready(h, head, low, job, node, pb, freed)
    ensures JobVisits(job, low) ==
            SideVisits(job, true, low) + SideVisits(job, false, low) + if node == head then [] else [node]
    ensures node in h && (job.Cleared? ==> SideJob(job, true, low).None? && SideJob(job, false, low).None?)
    ensures node == head <==> !job.Part?
    ensures job.Whole? ==> SideJob(job, false, low).Some?
  {
    if job.Part? {
      RootIsMember(job.t);
      InnerAreTips(job.t, pb);
      if job.t.Branch? {
        assert SideVisits(job, true, low) == Visits(job.t.left, low);
        assert SideVisits(job, false, low) == Visits(job.t.right, low);
      }
    }
  }

  lemma PartWf(h: Heap<Node>, head: Node, low: Node, t: Tree<Node>, pb: nat, freed: set<Node>)
    requires Shape(h, head, low, t, pb, freed)
    ensures Wf(t, pb) && Inner(t) <= Tips(t) && low !in Inner(t)
    ensures Shape(h, head, low, t, pb, {}) && Tips(t) !! freed && head !in Tips(t)
  {
    InnerAreTips(t, pb);
  }

  // The left half, which leaves the right one ready.
  method LeftHalf(node: Node, head: Node, ghost h: Heap<Node>, ghost low: Node, ghost job: Job, ghost pb: nat,
                  ghost freed: set<Node>)
    returns (log: seq<Node>)
    requires Ready(h, head, low, job, node, pb, freed) && node !in freed
    modifies h.Keys
    ensures log == SideVisits(job, true, low) && node !in ToSet(log)
    ensures SideReady(h, head, low, job, node, false, freed + ToSet(log))
    ensures Others(h, ToSet(log) + {node})
    ensures SideJob(job, true, low).None? ==> node.left == old(node.left)
    ensures node.right == old(node.right)
    decreases Rank(job), Trie(job, node), 1
  {
    hide Shape, Wf, Visits;
    LeftReady(node, head, h, low, job, pb, freed);
    if job.Part? && job.t.Branch? {
      PartWf(h, head, low, job.t, pb, freed);
      HalvesApart(job.t, pb, low);
    } else if job.Whole? {
      PartWf(h, head, low, job.t, 0, freed);
    }
    log := FreeSide(node, true, head, h, low, job, freed);
    if job.Part? && job.t.Branch? {
      ChildReady(h, head, low, job, pb, freed + ToSet(log), false);
    } else {
      assert freed + ToSet([]) == freed;
    }
  }

  // One of the two halves of patricia_free_rec.
  method FreeSide(node: Node, left: bool, head: Node, ghost h: Heap<Node>, ghost low: Node, ghost job: Job,
                  ghost freed: set<Node>)
    returns (log: seq<Node>)
    requires SideReady(h, head, low, job, node, left, freed) && node !in freed
    modifies h.Keys
    ensures log == SideVisits(job, left, low)
    ensures Others(h, ToSet(log) + {node})
    ensures SideJob(job, left, low).None? ==> Link(node, left) == old(Link(node, left))
    ensures SideJob(job, left, low).Some? ==> Link(node, left) == null
    ensures Link(node, !left) == old(Link(node, !left))
    decreases Rank(job), Trie(job, node), 0
  {
    hide SideReady, Ready, SideJob, Visits, Stable;
    log := [];
    SideFacts(h, head, low, job, node, left, freed);
    var tmp := if left then node.left else node.right;
    if node != tmp && tmp != null {
      assert tmp !in freed;
      if node.bit <= tmp.bit || tmp.bit == 0 {
        ghost var side := SideJob(job, left, low).value;
        ClearLink(node, left, tmp, head, h, low, job, freed);
        log := FreeRec(tmp, head, h, low, side, node.bit, freed);
      }
    }
  }

  // The test of the source follows exactly the links of SideJob.
  lemma SideFacts(h: Heap<Node>, head: Node, low: Node, job: Job, node: Node, left: bool, freed: set<Node>)
    requires SideReady(h, head, low, job, node, left, freed)
    ensures var x, side := Link(node, left), SideJob(job, left, low);
            node in h &&
            (side.Some? <==> x != null && x != node && (node.bit <= x.bit || x.bit == 0)) &&
            (x != null && x != node ==> x in h && x !in freed) &&
            (side.Some? ==> node !in JobVisits(side.value, low) && !side.value.Whole? &&
                            (Rank(job) > Rank(side.value) ||
                             (Rank(job) == Rank(side.value) && job.Part? && job.t.Branch? &&
                              side.value.t in {job.t.left, job.t.right})))
  {
    if SideJob(job, left, low).Some? {
      var side := SideJob(job, left, low).value;
      if side.Part? {
        VisitsMembers(side.t, node.bit, low);
        RepItems(h, side.t, side.t.node);
        RootIsMember(side.t);
        InnerAreTips(side.t, node.bit);
        assert side.t.node in Tips(side.t);
      }
    }
  }

  method ClearLink(node: Node, left: bool, tmp: Node, head: Node, ghost h: Heap<Node>, ghost low: Node,
                   ghost job: Job, ghost freed: set<Node>)
    requires SideReady(h, head, low, job, node, left, freed) && SideJob(job, left, low).Some?
    requires tmp == Link(node, left)
    modifies node
    ensures Link(node, left) == null && Link(node, !left) == old(Link(node, !left))
    ensures node.bit == old(node.bit) && node.item == old(node.item)
    ensures Ready(h, head, low, SideJob(job, left, low).value, tmp, node.bit, freed)
  {
    hide Shape;
    if left {
      node.left := null;
    } else {
      node.right := null;
    }
  }

  /** patricia_free_cb: every node of the trie but the head is freed, and with
      it its item handed to the callback, exactly once. */
  method FreeCb(trie: Patricia) returns (log: seq<Node>)
    requires trie.Valid()
    modifies trie.nodes
    ensures NoDuplicates(log)
    ensures ToSet(log) == old(trie.nodes) - {trie.head}
    ensures forall n :: n in old(trie.nodes) ==> n.item == old(n.item)
  {
    hide Ready, JobVisits, NoDuplicates, TrieOk;
    ghost var h := Snap(trie.nodes);
    ghost var job := if trie.root.None? then Cleared else Whole(trie.root.value);
    ghost var low := trie.low;
    var head := trie.head;
    WholeReady(trie, h, job);
    log := FreeRec(head.left, head, h, low, job, 0, {});
    if head.right != head.left && head.right != null {
      assert false;
    }
  }

  lemma WholeShape(h: Heap<Node>, head: Node, t: Tree<Node>, low: Node)
    requires TrieOk(h, head, Some(t), low)
    ensures Shape(h, head, low, t, 0, {}) && h[head].right == t.node
    ensures forall n :: n in h && n != head && n != low ==> h[n].bit > 0
    ensures NoDuplicates(Visits(t, low))
    ensures ToSet(Visits(t, low)) == h.Keys - {head}
  {
    VisitsDistinct(t, 0, low);
    VisitsMembers(t, 0, low);
    RepItems(h, t, h[head].right);
  }

  lemma TriePart(h: Heap<Node>, head: Node, t: Tree<Node>, low: Node)
    requires TrieOk(h, head, Some(t), low) && forall n :: n in h ==> Intact(h, n)
    ensures Untouched(h, low, t)
  {
  }

  lemma WholeReady(trie: Patricia, h: Heap<Node>, job: Job)
    requires trie.Valid() && h == Snap(trie.nodes)
    requires job == if trie.root.None? then Cleared else Whole(trie.root.value)
    ensures trie.head.left == trie.head
    ensures trie.root.None? ==> trie.head.right == trie.head
    ensures Ready(h, trie.head, trie.low, job, trie.head, 0, {})
    ensures NoDuplicates(JobVisits(job, trie.low))
    ensures ToSet(JobVisits(job, trie.low)) == trie.nodes - {trie.head}
  {
    hide Shape, Visits, Rep, Wf, Entries, Inner, Tips, Keys;
    if trie.root.Some? {
      WholeShape(h, trie.head, trie.root.value, trie.low);
      assert forall n :: n in h ==> Intact(h, n);
      TriePart(h, trie.head, trie.root.value, trie.low);
    }
  }
}
