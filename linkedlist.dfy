/**
 * The singly linked list of src/linkedlist.c and src/linkedlist.h. There is no
 * list object: any node is an entry point, and the list starting at a node is
 * the chain of nodes reached by following `next` until NULL.
 *
 * Operations that walk a list take that chain as a ghost argument `nodes`
 * (nodes[0] is the node passed in); `IsChain` says it really is the list, and
 * `ChainFromNodeUnique` shows it is determined by its first node.
 */
module LinkedList {
  import opened Alloc
  import opened Chains

  /** AsfLlNode: a forward link and the inline value (elemSize bytes). */
  class Node {
    var next: Node?
    var value: seq<bv8>

    constructor (value: seq<bv8>)
      ensures next == null && this.value == value
    {
      next := null;
      this.value := value;
    }
  }

  /** `nodes` is an acyclic list: each node's next is the following one, the last one's is NULL. */
  ghost predicate IsChain(nodes: seq<Node>)
    reads nodes
  {
    && |nodes| > 0
    && Distinct(nodes)
    && (forall i :: 0 <= i < |nodes| - 1 ==> nodes[i].next == nodes[i + 1])
    && nodes[|nodes| - 1].next == null
  }

  /** The list that starts at a node is unique: the ghost chain arguments are not a free choice. */
  lemma {:induction false} ChainFromNodeUnique(a: seq<Node>, b: seq<Node>)
    requires IsChain(a) && IsChain(b) && a[0] == b[0]
    ensures a == b
  {
    assert |a| > 1 ==> a[0].next == a[1];
    assert |b| > 1 ==> b[0].next == b[1];
    if |a| > 1 {
      assert IsChain(a[1..]) && IsChain(b[1..]);
      ChainFromNodeUnique(a[1..], b[1..]);
      assert a == [a[0]] + a[1..];
      assert b == [b[0]] + b[1..];
    }
  }

  /**
   * asfll_createunsafe: NULL if malloc fails; otherwise a fresh, detached node
   * whose elemSize value bytes are unspecified.
   */
  method CreateUnsafe(elemSize: nat, allocOk: bool, heap: Heap) returns (node: Node?)
    modifies heap
    ensures node == null <==> !allocOk
    ensures node == null ==> unchanged(heap)
    ensures node != null ==> fresh(node) && node.next == null && |node.value| == elemSize
    ensures node != null ==> heap.live == old(heap.live) + {node} && heap.freed == old(heap.freed)
  {
    if !allocOk {
      return null;
    }
    var garbage: seq<bv8>;
    assert |Zeros(elemSize)| == elemSize;
    garbage :| |garbage| == elemSize;
    node := new Node(garbage);
    heap.Register(node);
  }

  /** asfll_createzro: as CreateUnsafe, with the value zeroed. */
  method CreateZro(elemSize: nat, allocOk: bool, heap: Heap) returns (node: Node?)
    modifies heap
    ensures node == null <==> !allocOk
    ensures node == null ==> unchanged(heap)
    ensures node != null ==> fresh(node) && node.next == null && node.value == Zeros(elemSize)
    ensures node != null ==> heap.live == old(heap.live) + {node} && heap.freed == old(heap.freed)
  {
    node := CreateUnsafe(elemSize, allocOk, heap);
    if node != null {
      node.value := Zeros(elemSize);
    }
  }

  /** asfll_createcpy: as CreateUnsafe, with the value a copy of the elemSize bytes of elem. */
  method CreateCpy(elemSize: nat, elem: seq<bv8>, allocOk: bool, heap: Heap) returns (node: Node?)
    requires |elem| == elemSize
    modifies heap
    ensures node == null <==> !allocOk
    ensures node == null ==> unchanged(heap)
    ensures node != null ==> fresh(node) && node.next == null && node.value == elem
    ensures node != null ==> heap.live == old(heap.live) + {node} && heap.freed == old(heap.freed)
  {
    node := CreateUnsafe(elemSize, allocOk, heap);
    if node != null {
      node.value := elem;
    }
  }

  /** asfll_last: NULL for NULL, otherwise the final node of the list starting at root. */
  method Last(root: Node?, ghost nodes: seq<Node>) returns (last: Node?)
    requires root != null ==> IsChain(nodes) && nodes[0] == root
    ensures root == null ==> last == null
    ensures root != null ==> last == nodes[|nodes| - 1] && last.next == null
  {
    if root == null {
      return null;
    }
    last := root;
    ghost var i := 0;
    while last.next != null
      invariant 0 <= i < |nodes| && last == nodes[i]
      invariant last.next == if i < |nodes| - 1 then nodes[i + 1] else null
      decreases |nodes| - i
    {
      last := last.next;
      i := i + 1;
    }
  }

  /**
   * asfll_append: link nextnode (a single node or the head of a list) after the
   * last node of root's list and return it. Only that last node's next changes.
   * With a NULL argument nothing changes and NULL is returned.
   */
  method Append(root: Node?, nextnode: Node?, ghost rootNodes: seq<Node>, ghost nextNodes: seq<Node>)
    returns (r: Node?)
    requires root != null ==> IsChain(rootNodes) && rootNodes[0] == root
    modifies rootNodes
    ensures root == null || nextnode == null ==> r == null && unchanged(rootNodes)
    ensures root != null && nextnode != null ==>
      && r == nextnode
      && rootNodes[|rootNodes| - 1].next == nextnode
      && (forall i :: 0 <= i < |rootNodes| - 1 ==> rootNodes[i].next == old(rootNodes[i].next))
      && (forall n :: n in rootNodes ==> n.value == old(n.value))
    ensures root != null && nextnode != null && old(IsChain(nextNodes)) && nextNodes[0] == nextnode &&
            Disjoint(rootNodes, nextNodes) ==>
      IsChain(rootNodes + nextNodes)
  {
    if root == null || nextnode == null {
      return null;
    }
    var last := Last(root, rootNodes);
    last.next := nextnode;
    r := nextnode;
    if old(IsChain(nextNodes)) && nextNodes[0] == nextnode && Disjoint(rootNodes, nextNodes) {
      assert forall n :: n in nextNodes ==> n !in rootNodes;
      DistinctConcat(rootNodes, nextNodes);
      var all := rootNodes + nextNodes;
      forall i | 0 <= i < |all| - 1
        ensures all[i].next == all[i + 1]
      {
        if i >= |rootNodes| {
          assert all[i] == nextNodes[i - |rootNodes|] && all[i] !in rootNodes;
        }
      }
      assert all[|all| - 1] == nextNodes[|nextNodes| - 1] && all[|all| - 1] !in rootNodes;
    }
  }

  /**
   * asfll_free: free every node of the list starting at root, exactly once each,
   * in forward order. No link is changed.
   */
  method FreeAll(root: Node?, ghost nodes: seq<Node>, heap: Heap)
    requires root != null ==> IsChain(nodes) && nodes[0] == root
    requires root != null ==> forall n :: n in nodes ==> n in heap.live
    modifies heap
    ensures root == null ==> unchanged(heap)
    ensures root != null ==> heap.freed == old(heap.freed) + nodes
    ensures root != null ==> heap.live == old(heap.live) - (set n | n in nodes)
  {
    if root == null {
      return;
    }
    var cur: Node? := root;
    ghost var i := 0;
    while cur != null
      invariant 0 <= i <= |nodes|
      invariant cur == if i < |nodes| then nodes[i] else null
      invariant heap.freed == old(heap.freed) + nodes[..i]
      invariant heap.live == old(heap.live) - (set n | n in nodes[..i])
      decreases |nodes| - i
    {
      heap.Access(cur);
      var next := cur.next;
      heap.Free(cur);
      cur := next;
      assert nodes[..i + 1] == nodes[..i] + [nodes[i]];
      i := i + 1;
    }
    assert nodes[..i] == nodes;
  }

  /** asfll_freen: free just this node; no link anywhere is touched. */
  method FreeN(node: Node?, heap: Heap)
    requires node != null ==> node in heap.live
    modifies heap
    ensures node == null ==> unchanged(heap)
    ensures node != null ==> heap.live == old(heap.live) - {node} && heap.freed == old(heap.freed) + [node]
  {
    if node == null {
      return;
    }
    heap.Free(node);
  }
}
