/** The stack of mjl_splaytree.c: a linked list of blocks of 512 entries, the
    top block first. A block is allocated when the top one is full and freed
    when its last entry is popped. */
module SplayStack {
  import opened Wrappers

  const STACK_NODEC := 512

  class Block<T> {
    const nodes: array<T>
    var next: Block?<T>
    var i: nat

    // The memory of a new block is unspecified; any value will do.
    constructor (any: T, next: Block?<T>)
      ensures fresh(nodes) && nodes.Length == STACK_NODEC && this.next == next && i == 0
    {
      nodes := new T[STACK_NODEC](_ => any);
      this.next := next;
      i := 0;
    }
  }

  class Stack<T> {
    var top: Block?<T>
    ghost var blocks: seq<Block<T>>  // the bottom block first
    ghost var contents: seq<T>       // the last entry on top

    ghost var Repr: set<object>

    // The blocks are linked from the top down, and all below the top are full.
    ghost predicate Shape()
      reads this, Repr
    {
      && this in Repr && (forall k :: 0 <= k < |blocks| ==> blocks[k] in Repr && blocks[k].nodes in Repr)
      && (top == null <==> blocks == [])
      && (blocks != [] ==> top == blocks[|blocks| - 1])
      && (forall k :: 0 <= k < |blocks| ==> blocks[k].nodes.Length == STACK_NODEC)
      && (forall k :: 0 <= k < |blocks| ==> blocks[k].i <= STACK_NODEC)
      && (blocks != [] ==> blocks[0].next == null)
      && (forall j, k :: 0 <= j && k == j + 1 && k < |blocks| ==> blocks[k].next == blocks[j])
      && (forall k :: 0 <= k < |blocks| - 1 ==> blocks[k].i == STACK_NODEC)
      && (forall j, k :: 0 <= j < k < |blocks| ==> blocks[j] != blocks[k] && blocks[j].nodes != blocks[k].nodes)
    }

    // The entries of block k are those of the contents from 512 * k on.
    ghost predicate Holds()
      requires Shape()
      reads this, Repr
    {
      && |contents| == (if blocks == [] then 0 else STACK_NODEC * (|blocks| - 1) + top.i)
      && (forall k, i :: 0 <= k < |blocks| && 0 <= i < blocks[k].i ==>
            STACK_NODEC * k + i < |contents| && blocks[k].nodes[i] == contents[STACK_NODEC * k + i])
    }

    ghost predicate Valid()
      reads this, Repr
    {
      Shape() && Holds() && (blocks != [] ==> top.i > 0)
    }

    constructor ()
      ensures Valid() && fresh(Repr) && contents == []
    {
      top := null;
      blocks, contents, Repr := [], [], {this};
    }

    /** stack_push. */
    method Push(node: T)
      requires Valid()
      modifies Repr
      ensures Valid() && fresh(Repr - old(Repr))
      ensures contents == old(contents) + [node]
    {
      if top == null || top.i == STACK_NODEC {
        AddBlock(node);
      }
      Store(node);
    }

    method Store(node: T)
      requires Shape() && Holds() && top != null && top.i < STACK_NODEC
      modifies this, top, top.nodes
      ensures Valid() && Repr == old(Repr)
      ensures contents == old(contents) + [node]
    {
      top.nodes[top.i] := node;
      top.i := top.i + 1;
      contents := contents + [node];
    }

    method AddBlock(any: T)
      requires Valid() && (top == null || top.i == STACK_NODEC)
      modifies this
      ensures Shape() && Holds() && fresh(Repr - old(Repr)) && top != null && top.i == 0
      ensures contents == old(contents)
    {
      var p := new Block(any, top);
      top := p;
      blocks, Repr := blocks + [p], Repr + {p, p.nodes};
    }

    /** stack_pop: None stands for its NULL. */
    method Pop() returns (r: Option<T>)
      requires Valid()
      modifies Repr
      ensures Valid() && Repr == old(Repr)
      ensures if old(contents) == [] then r == None && contents == []
              else r == Some(old(contents)[|old(contents)| - 1]) &&
                   contents == old(contents)[..|old(contents)| - 1]
    {
      if top == null {
        return None;
      }
      var n := Take();
      if top.i == 0 {
        DropBlock();
      }
      r := Some(n);
    }

    method Take() returns (n: T)
      requires Valid() && top != null
      modifies this, top
      ensures Shape() && Holds() && Repr == old(Repr) && top != null
      ensures old(contents) != [] && n == old(contents)[|old(contents)| - 1]
      ensures contents == old(contents)[..|old(contents)| - 1]
    {
      assert top.nodes[top.i - 1] == contents[|contents| - 1];
      top.i := top.i - 1;
      n := top.nodes[top.i];
      contents := contents[..|contents| - 1];
    }

    method DropBlock()
      requires Shape() && Holds() && top != null && top.i == 0
      modifies this
      ensures Valid() && Repr == old(Repr) && contents == old(contents)
    {
      assert |blocks| > 1 ==> top.next == blocks[|blocks| - 2];
      top := top.next;
      blocks := blocks[..|blocks| - 1];
    }
  }
}
