/** mjl_heap.c: a binary heap in an array from index 1 on, whose nodes know their
    places, so that any of them can be deleted. The contracts speak of the nodes
    that are in the heap, and of Ordered, the order of the heap;
    what one step up or down does to that order is proved on sequences in
    HeapOrder. */
module Heap {
  import opened Wrappers
  import opened HeapOrder

  /** growby. */
  function GrowBy(max: nat): (n: nat)
    requires max >= 4
    ensures 4 <= n <= 256 && (max <= 256 ==> n <= max)
  {
    if max >= 256 then 256
    else if max >= 128 then 128
    else if max >= 64 then 64
    else if max >= 32 then 32
    else if max >= 16 then 16
    else if max >= 8 then 8
    else 4
  }

  class Heap {
    var a: array<HeapNode>
    var N: nat
    var max: nat
    ghost var nodes: set<HeapNode>  // those in the heap

    // All but the order.
    ghost predicate Shape()
      reads this, a, nodes
    {
      && 4 <= max == a.Length && N < max && nodes == Range(a[..], N) && Inj(a[..], N)
      && (forall i :: 1 <= i <= N ==> a[i].id == i)
    }

    /** The heap order holds, and node i of the array has the number i. */
    ghost predicate Valid()
      reads this, a, nodes
    {
      Shape() && Ordered(a[..], N)
    }

    // The memory of the array is unspecified; any node will do.
    constructor (any: HeapNode)
      ensures Valid() && fresh(a) && nodes == {}
    {
      N, max, nodes := 0, 4, {};
      a := new HeapNode[4](_ => any);
    }

    // The array with v in place of what is at k: what the array would be if the
    // loops of upheap and downheap swapped nodes.
    ghost predicate Moving(s: Nodes, k: nat, v: HeapNode)
      reads this, a, nodes
    {
      && 4 <= max == a.Length && N < max && 1 <= k <= N && |s| == max && s[k] == v && s == a[..][k := v]
      && nodes == Range(s, N) && Inj(s, N) && (forall i :: 1 <= i <= N && i != k ==> s[i].id == i)
    }

    /** upheap: node k goes up to its place among the first n. */
    method UpHeap(k0: nat, ghost n: nat)
      requires Shape() && n <= N && UpOk(a[..], n, k0)
      modifies a, nodes`id
      ensures Shape() && Ordered(a[..], n)
    {
      hide Ordered, UpOk, Range, Inj;
      var k: nat := k0;
      assert 1 <= k <= n by {
        UpRange(a[..], n, k0);
      }
      var v := a[k];
      ghost var s := a[..];
      while k > 1 && a[k / 2].item <= v.item
        invariant Moving(s, k, v) && k <= n && UpOk(s, n, k)
      {
        UpStep(s, n, k);
        s := Pull(s, k, k / 2, v);
        k := k / 2;
      }
      UpDone(s, n, k);
      Drop(s, k, v);
    }

    lemma UpRange(s: Nodes, n: nat, k: nat)
      requires n < |s| && UpOk(s, n, k)
      ensures 1 <= k <= n
    {
    }

    // heap->a[k] = heap->a[j], and its id
    method Pull(ghost s: Nodes, k: nat, j: nat, v: HeapNode) returns (ghost r: Nodes)
      requires Moving(s, k, v) && 1 <= j <= N && j != k
      modifies a, nodes`id
      ensures r == Swap(s, k, j) && Moving(r, j, v)
    {
      r := Swap(s, k, j);
      SwapRange(s, N, k, j);
      InNodes(s, j);
      a[k] := a[j];
      a[k].id := k;
    }

    lemma InNodes(s: Nodes, j: nat)
      requires N < |s| && nodes == Range(s, N) && 1 <= j <= N
      ensures s[j] in nodes
    {
    }

    // heap->a[k] = v, and its id
    method Drop(ghost s: Nodes, k: nat, v: HeapNode)
      requires Moving(s, k, v)
      modifies a, nodes`id
      ensures Shape() && a[..] == s
    {
      InNodes(s, k);
      a[k] := v;
      v.id := k;
    }

    /** downheap: node k goes down to its place. */
    method DownHeap(k0: nat)
      requires Shape() && DownOk(a[..], N, k0)
      modifies a, nodes`id
      ensures Valid()
    {
      hide Ordered, DownOk, Range, Inj;
      var k: nat := k0;
      assert 1 <= k <= N by {
        DownRange(a[..], N, k0);
      }
      var v := a[k];
      ghost var s := a[..];
      while k <= N / 2
        invariant Moving(s, k, v) && DownOk(s, N, k)
        decreases N - k
      {
        var j := k + k;
        if j < N && a[j].item < a[j + 1].item {
          j := j + 1;
        }
        assert j == Larger(s, N, k);
        if v.item >= a[j].item {
          break;
        }
        DownStep(s, N, k);
        s := Pull(s, k, j, v);
        k := j;
      }
      DownDone(s, N, k);
      Drop(s, k, v);
    }

    lemma DownRange(s: Nodes, n: nat, k: nat)
      requires n < |s| && DownOk(s, n, k)
      ensures 1 <= k <= n
    {
    }

    /** heap_remake: restores the order from any arrangement of the nodes. */
    method Remake()
      requires Shape()
      modifies a, nodes`id
      ensures Valid()
    {
      hide Range, Inj;
      var i := 1;
      while i <= N
        invariant 1 <= i <= N + 1 && Shape() && Ordered(a[..], i - 1)
      {
        OneMore(a[..], i);
        UpHeap(i, i);
        i := i + 1;
      }
    }

    lemma OneMore(s: Nodes, i: nat)
      requires 1 <= i < |s| && Ordered(s, i - 1)
      ensures UpOk(s, i, i)
    {
    }

    /** heap_insert. */
    method Insert(item: int) returns (node: HeapNode)
      requires Valid()
      modifies this, a, nodes`id
      ensures Valid() && fresh(node) && node.item == item && nodes == old(nodes) + {node}
      ensures a == old(a) || fresh(a)
    {
      hide Ordered, Range, Inj, UpOk;
      node := new HeapNode(item, N + 1);
      if node.id >= max {
        Grow(node);
      }
      Append(node);
      UpHeap(N, N);
    }

    // realloc: the old contents, and unspecified memory behind them
    method Grow(any: HeapNode)
      requires Valid()
      modifies this`a, this`max
      ensures Valid() && fresh(a) && max > old(max) && N == old(N)
    {
      var gb := GrowBy(max);
      var b := new HeapNode[max + gb](i requires i >= 0 reads this, a => if i < a.Length then a[i] else any);
      SameStart(a[..], b[..], N);
      max := max + gb;
      a := b;
    }

    lemma SameStart(s: Nodes, r: Nodes, n: nat)
      requires n < |s| && n < |r| && forall i :: 0 <= i <= n ==> r[i] == s[i]
      ensures Ordered(s, n) ==> Ordered(r, n)
      ensures Inj(s, n) ==> Inj(r, n)
      ensures Range(r, n) == Range(s, n)
    {
    }

    method Append(node: HeapNode)
      requires Valid() && N + 1 < max && node !in nodes && node.id == N + 1
      modifies this`N, this`nodes, a
      ensures Shape() && N == old(N) + 1 && nodes == old(nodes) + {node} && UpOk(a[..], N, N)
    {
      hide Range, Inj;
      ghost var s := a[..];
      a[node.id] := node;
      AppendRange(s, a[..], N);
      N := N + 1;
      nodes := nodes + {node};
    }

    /** heap_head_item. */
    method HeadItem() returns (r: Option<int>)
      requires Valid()
      ensures r.None? <==> nodes == {}
      ensures r.Some? ==> (exists n :: n in nodes && n.item == r.value) && forall n :: n in nodes ==> n.item <= r.value
    {
      Highest();
      if N == 0 {
        return None;
      }
      r := Some(a[1].item);
    }

    // The node at the top has the highest priority of all.
    lemma Highest()
      requires Valid()
      ensures N == 0 <==> nodes == {}
      ensures N > 0 ==> a[1] in nodes && forall n :: n in nodes ==> n.item <= a[1].item
    {
      if N > 0 {
        InNodes(a[..], 1);
        forall n | n in nodes ensures n.item <= a[1].item {
          var i :| 1 <= i <= N && a[..][i] == n;
          FirstIsHighest(a[..], N, i);
        }
      }
    }

    // Takes the last node out of its place and puts it at k.
    method Replace(k: nat) returns (ghost s: Nodes)
      requires Shape() && 1 <= k <= N
      modifies this`N, this`nodes, a, nodes`id
      ensures Shape() && N == old(N) - 1 && nodes == old(nodes) - {old(a[k])}
      ensures s == old(a[..]) && a[..] == s[k := s[old(N)]]
    {
      hide Range, Inj;
      s := a[..];
      InNodes(s, N);
      a[k] := a[N];
      a[k].id := k;
      ReplaceRange(s, a[..], N, k);
      nodes := nodes - {s[k]};
      N := N - 1;
    }

    /** heap_remove: takes out a node of the highest priority. */
    method Remove() returns (r: Option<int>)
      requires Valid()
      modifies this`N, this`nodes, a, nodes`id
      ensures Valid()
      ensures r.None? <==> old(nodes) == {}
      ensures r.None? ==> nodes == {}
      ensures r.Some? ==> (forall n :: n in old(nodes) ==> n.item <= r.value) &&
                          exists n :: n in old(nodes) && n.item == r.value && nodes == old(nodes) - {n}
    {
      hide Ordered, UpOk, DownOk, Range, Inj;
      Highest();
      if N == 0 {
        return None;
      }
      var v := a[1];
      ghost var n := N;
      ghost var s := Replace(1);
      // downheap has nothing to do in an empty heap
      if N > 0 {
        ReplaceOrder(s, a[..], n, 1);
        DownHeap(1);
      } else {
        NothingOrdered(a[..]);
      }
      r := Some(v.item);
    }

    lemma NothingOrdered(s: Nodes)
      requires |s| > 0
      ensures Ordered(s, 0)
    {
    }

    lemma LessOrdered(s: Nodes, n: nat)
      requires 1 <= n < |s| && Ordered(s, n)
      ensures Ordered(s, n - 1)
    {
    }

    /** heap_delete: takes out any node, through its own number. */
    method Delete(node: HeapNode)
      requires Valid() && node in nodes
      modifies this`N, this`nodes, a, nodes`id
      ensures Valid() && nodes == old(nodes) - {node}
    {
      hide Ordered, UpOk, DownOk, Range, Inj;
      KnowsPlace(node);
      var k := node.id;
      if k == N {
        LessOrdered(a[..], N);
        ghost var s := a[..];
        ReplaceRange(s, s[N := s[N]], N, N);
        assert s[N := s[N]] == s;
        nodes := nodes - {node};
        N := N - 1;
      } else {
        var v := a[N];
        ghost var n := N;
        ghost var s := Replace(k);
        ReplaceOrder(s, a[..], n, k);
        if v.item > node.item {
          UpHeap(k, N);
        } else if v.item < node.item {
          DownHeap(k);
        }
      }
    }

    // The number of a node is its place in the array.
    lemma KnowsPlace(node: HeapNode)
      requires Shape() && node in nodes
      ensures 1 <= node.id <= N && a[node.id] == node
    {
      var i :| 1 <= i <= N && a[..][i] == node;
    }
  }
}
