/** The order of the array of mjl_heap.c, from index 1 on: what it is, and what
    one step up or down does to an array that is out of order in one place. */
module HeapOrder {

  class HeapNode {
    const item: int  // its priority is all that matters
    var id: nat

    constructor (item: int, id: nat)
      ensures this.item == item && this.id == id
    {
      this.item, this.id := item, id;
    }
  }

  type Nodes = seq<HeapNode>

  /** No node comes before a node above it. */
  ghost predicate Ordered(s: Nodes, n: nat)
    requires n < |s|
  {
    forall i :: 2 <= i <= n ==> s[i / 2].item >= s[i].item
  }

  // In order but for node k, which may belong further up.
  ghost predicate UpOk(s: Nodes, n: nat, k: nat)
    requires n < |s|
  {
    && 1 <= k <= n
    && (forall i :: 2 <= i <= n && i != k ==> s[i / 2].item >= s[i].item)
    && (k > 1 ==> forall i :: 2 <= i <= n && i / 2 == k ==> s[k / 2].item >= s[i].item)
  }

  // In order but for node k, which may belong further down.
  ghost predicate DownOk(s: Nodes, n: nat, k: nat)
    requires n < |s|
  {
    && 1 <= k <= n
    && (forall i :: 2 <= i <= n && i / 2 != k ==> s[i / 2].item >= s[i].item)
    && (k > 1 ==> forall i :: 2 <= i <= n && i / 2 == k ==> s[k / 2].item >= s[i].item)
  }

  function Swap(s: Nodes, i: nat, j: nat): (r: Nodes)
    requires i < |s| && j < |s|
    ensures |r| == |s|
  {
    s[i := s[j]][j := s[i]]
  }

  lemma UpStep(s: Nodes, n: nat, k: nat)
    requires n < |s| && UpOk(s, n, k) && k > 1 && s[k / 2].item <= s[k].item
    ensures UpOk(Swap(s, k, k / 2), n, k / 2)
  {
  }

  lemma UpDone(s: Nodes, n: nat, k: nat)
    requires n < |s| && UpOk(s, n, k) && (k == 1 || s[k / 2].item > s[k].item)
    ensures Ordered(s, n)
  {
  }

  // The child with the higher priority.
  function Larger(s: Nodes, n: nat, k: nat): (j: nat)
    requires 1 <= k && 2 * k <= n < |s|
    ensures j / 2 == k && 2 <= j <= n
  {
    if 2 * k < n && s[2 * k].item < s[2 * k + 1].item then 2 * k + 1 else 2 * k
  }

  lemma DownStep(s: Nodes, n: nat, k: nat)
    requires n < |s| && DownOk(s, n, k) && 2 * k <= n && s[k].item < s[Larger(s, n, k)].item
    ensures DownOk(Swap(s, k, Larger(s, n, k)), n, Larger(s, n, k))
  {
    var j := Larger(s, n, k);
    var r := Swap(s, k, j);
    forall i | 2 <= i <= n && i / 2 != j
      ensures r[i / 2].item >= r[i].item
    {
      assert i / 2 == k ==> i == 2 * k || i == 2 * k + 1;
    }
  }

  lemma DownDone(s: Nodes, n: nat, k: nat)
    requires n < |s| && DownOk(s, n, k) && (2 * k > n || s[k].item >= s[Larger(s, n, k)].item)
    ensures Ordered(s, n)
  {
    forall i | 2 <= i <= n && i / 2 == k
      ensures s[i / 2].item >= s[i].item
    {
      assert i == 2 * k || i == 2 * k + 1;
    }
  }

  /** The first node of an array in order has the highest priority. */
  lemma {:induction false} FirstIsHighest(s: Nodes, n: nat, i: nat)
    requires n < |s| && Ordered(s, n) && 1 <= i <= n
    ensures s[1].item >= s[i].item
  {
    if i > 1 {
      FirstIsHighest(s, n, i / 2);
    }
  }

  // ---------- Which nodes ----------

  ghost predicate Inj(s: Nodes, n: nat)
    requires n < |s|
  {
    forall i, j :: 1 <= i < j <= n ==> s[i] != s[j]
  }

  ghost function Range(s: Nodes, n: nat): set<HeapNode>
    requires n < |s|
  {
    set i | 1 <= i <= n :: s[i]
  }

  lemma SwapRange(s: Nodes, n: nat, i: nat, j: nat)
    requires n < |s| && 1 <= i <= n && 1 <= j <= n
    ensures Range(Swap(s, i, j), n) == Range(s, n)
    ensures Inj(s, n) ==> Inj(Swap(s, i, j), n)
  {
    var r := Swap(s, i, j);
    forall x ensures x in Range(r, n) <==> x in Range(s, n) {
      if x in Range(r, n) {
        var m :| 1 <= m <= n && r[m] == x;
        assert s[if m == i then j else if m == j then i else m] == x;
      }
      if x in Range(s, n) {
        var m :| 1 <= m <= n && s[m] == x;
        assert r[if m == i then j else if m == j then i else m] == x;
      }
    }
  }

  lemma AppendRange(s: Nodes, r: Nodes, n: nat)
    requires n + 1 < |s| == |r| && (forall i :: 0 <= i <= n ==> r[i] == s[i])
    ensures Range(r, n + 1) == Range(s, n) + {r[n + 1]}
    ensures Inj(s, n) && r[n + 1] !in Range(s, n) ==> Inj(r, n + 1)
  {
    assert forall i :: 1 <= i <= n ==> s[i] in Range(s, n);
  }

  // The last node takes the place of another.
  lemma ReplaceRange(s: Nodes, r: Nodes, n: nat, k: nat)
    requires 1 <= k <= n < |s| && Inj(s, n) && r == s[k := s[n]]
    ensures Range(r, n - 1) == Range(s, n) - {s[k]} && Inj(r, n - 1)
  {
    forall x ensures x in Range(r, n - 1) <==> x in Range(s, n) - {s[k]} {
      if x in Range(r, n - 1) {
        var m :| 1 <= m <= n - 1 && r[m] == x;
        assert s[if m == k then n else m] == x;
      }
      if x in Range(s, n) - {s[k]} {
        var m :| 1 <= m <= n && s[m] == x;
        assert r[if m == n then k else m] == x;
      }
    }
  }

  /** Which way the last node has to go from there depends on how it compares
      with the node that it replaces. */
  lemma ReplaceOrder(s: Nodes, r: Nodes, n: nat, k: nat)
    requires 1 <= k < n < |s| && Ordered(s, n) && r == s[k := s[n]]
    ensures s[n].item > s[k].item ==> UpOk(r, n - 1, k)
    ensures s[n].item < s[k].item ==> DownOk(r, n - 1, k)
    ensures s[n].item == s[k].item ==> Ordered(r, n - 1)
    ensures k == 1 ==> DownOk(r, n - 1, 1)
  {
    forall i | 2 <= i <= n - 1 && i / 2 == k && k > 1
      ensures s[k / 2].item >= s[i].item
    {
      assert s[k / 2].item >= s[k].item && s[k].item >= s[i].item;
    }
  }
}
