/**
 * The doubly linked list of src/doublylinkedlist.c and src/doublylinkedlist.h.
 * As for the singly linked list there is no list object; a list is the chain
 * of nodes linked both ways, from a first node (previous == NULL) to a last
 * node (next == NULL).
 *
 * Operations that walk or relink a list take that chain as a ghost argument
 * `nodes`, with `k` the position of the node passed in. `IsChain` is the
 * well-formedness of such a list, and `LinksAgree` is the invariant the
 * library documents for every node: if A.next == B then B.previous == A (and
 * the converse). `ChainLinksAgree` shows the first implies the second.
 */
module DoublyLinkedList {
  import opened Alloc
  import opened Chains

  /** AsfDllNode: two links and the inline value (elemSize bytes). */
  class Node {
    var next: Node?
    var previous: Node?
    var value: seq<bv8>

    constructor (value: seq<bv8>)
      ensures next == null && previous == null && this.value == value
    {
      next := null;
      previous := null;
      this.value := value;
    }
  }

  /** `nodes` is a whole list, linked both ways, without repeats, NULL at both ends. */
  ghost predicate IsChain(nodes: seq<Node>)
    reads nodes
  {
    && |nodes| > 0
    && Distinct(nodes)
    && nodes[0].previous == null
    && nodes[|nodes| - 1].next == null
    && (forall i :: 0 <= i < |nodes| - 1 ==> nodes[i].next == nodes[i + 1] && nodes[i + 1].previous == nodes[i])
  }

  /**
   * The documented invariant over a closed set of nodes: A.next == B exactly
   * when B.previous == A.
   */
  ghost predicate LinksAgree(nodes: seq<Node>)
    reads nodes
  {
    forall a :: a in nodes ==>
      && (a.next != null ==> a.next in nodes && a.next.previous == a)
      && (a.previous != null ==> a.previous in nodes && a.previous.next == a)
  }

  /** Every well-formed list satisfies the documented link invariant. */
  lemma ChainLinksAgree(nodes: seq<Node>)
    requires IsChain(nodes)
    ensures LinksAgree(nodes)
  {
    forall a | a in nodes
      ensures a.next != null ==> a.next in nodes && a.next.previous == a
      ensures a.previous != null ==> a.previous in nodes && a.previous.next == a
    {
      var i :| 0 <= i < |nodes| && nodes[i] == a;
      if i < |nodes| - 1 {
        assert a.next == nodes[i + 1];
      }
      if i > 0 {
        assert a.previous == nodes[i - 1];
      }
    }
  }

  /** The nodes in reverse order. */
  function Reversed(s: seq<Node>): (r: seq<Node>)
    ensures |r| == |s|
  {
    if s == [] then [] else Reversed(s[1..]) + [s[0]]
  }

  lemma {:induction false} ReversedMultiset(s: seq<Node>)
    ensures multiset(Reversed(s)) == multiset(s)
  {
    if s != [] {
      ReversedMultiset(s[1..]);
      assert s == [s[0]] + s[1..];
    }
  }

  /**
   * The order in which asfdll_free releases a list entered at position k
   * (forward from k, then backward from k - 1) holds every node of the list
   * exactly once.
   */
  lemma FreeOrderCoversList(nodes: seq<Node>, k: nat)
    requires k <= |nodes|
    ensures multiset(nodes[k..] + Reversed(nodes[..k])) == multiset(nodes)
  {
    ReversedMultiset(nodes[..k]);
    assert nodes == nodes[..k] + nodes[k..];
  }

  /**
   * asfdll_createunsafe: NULL if malloc fails; otherwise a fresh node with both
   * links NULL and elemSize unspecified value bytes.
   */
  method CreateUnsafe(elemSize: nat, allocOk: bool, heap: Heap) returns (node: Node?)
    modifies heap
    ensures node == null <==> !allocOk
    ensures node == null ==> unchanged(heap)
    ensures node != null ==> fresh(node) && node.next == null && node.previous == null
    ensures node != null ==> |node.value| == elemSize
    ensures node != null ==> heap.live == old(heap.live) + {node} && heap.freed == old(heap.freed)
  {
    if !allocOk {
      return null;
    }
    var garbage: seq<bv8>;
    assert |Zeros(elemSize)| == elemSize;
    garbage :| |garbage| == elemSize;
    node := new Node(garbage);
    heap.Register(node);
  }

  /** asfdll_createzro: as CreateUnsafe, with the value zeroed. */
  method CreateZro(elemSize: nat, allocOk: bool, heap: Heap) returns (node: Node?)
    modifies heap
    ensures node == null <==> !allocOk
    ensures node == null ==> unchanged(heap)
    ensures node != null ==> fresh(node) && node.next == null && node.previous == null
    ensures node != null ==> node.value == Zeros(elemSize)
    ensures node != null ==> heap.live == old(heap.live) + {node} && heap.freed == old(heap.freed)
  {
    node := CreateUnsafe(elemSize, allocOk, heap);
    if node != null {
      node.value := Zeros(elemSize);
    }
  }

  /** asfdll_createcpy: as CreateUnsafe, with the value a copy of the elemSize bytes of elem. */
  method CreateCpy(elemSize: nat, elem: seq<bv8>, allocOk: bool, heap: Heap) returns (node: Node?)
    requires |elem| == elemSize
    modifies heap
    ensures node == null <==> !allocOk
    ensures node == null ==> unchanged(heap)
    ensures node != null ==> fresh(node) && node.next == null && node.previous == null
    ensures node != null ==> node.value == elem
    ensures node != null ==> heap.live == old(heap.live) + {node} && heap.freed == old(heap.freed)
  {
    node := CreateUnsafe(elemSize, allocOk, heap);
    if node != null {
      node.value := elem;
    }
  }

  /** asfdll_last: NULL for NULL, otherwise the last node of the list through root. */
  method Last(root: Node?, ghost nodes: seq<Node>, ghost k: nat) returns (last: Node?)
    requires root != null ==> IsChain(nodes) && k < |nodes| && nodes[k] == root
    ensures root == null ==> last == null
    ensures root != null ==> last == nodes[|nodes| - 1] && last.next == null
  {
    if root == null {
      return null;
    }
    last := root;
    ghost var i := k;
    while last.next != null
      invariant k <= i < |nodes| && last == nodes[i]
      invariant last.next == if i < |nodes| - 1 then nodes[i + 1] else null
      decreases |nodes| - i
    {
      last := last.next;
      i := i + 1;
    }
  }

  /** asfdll_first: NULL for NULL, otherwise the first node of the list through root. */
  method First(root: Node?, ghost nodes: seq<Node>, ghost k: nat) returns (first: Node?)
    requires root != null ==> IsChain(nodes) && k < |nodes| && nodes[k] == root
    ensures root == null ==> first == null
    ensures root != null ==> first == nodes[0] && first.previous == null
  {
    if root == null {
      return null;
    }
    first := root;
    ghost var i := k;
    while first.previous != null
      invariant 0 <= i <= k && first == nodes[i]
      invariant first.previous == if i > 0 then nodes[i - 1] else null
      decreases i
    {
      first := first.previous;
      i := i - 1;
    }
  }

  /**
   * asfdll_append: link nextnode after the last node of root's list, both ways,
   * and return it; no other link changes. With a NULL argument nothing changes
   * and NULL is returned. When nextnode heads a separate list, the result is one
   * well-formed list.
   */
  method Append(root: Node?, nextnode: Node?, ghost rootNodes: seq<Node>, ghost k: nat, ghost nextNodes: seq<Node>)
    returns (r: Node?)
    requires root != null ==> IsChain(rootNodes) && k < |rootNodes| && rootNodes[k] == root
    modifies rootNodes, nextnode
    ensures root == null || nextnode == null ==> r == null && unchanged(rootNodes)
    ensures root == null && nextnode != null ==> unchanged(nextnode)
    ensures root != null && nextnode != null ==>
      var last := rootNodes[|rootNodes| - 1];
      && r == nextnode
      && last.next == nextnode && nextnode.previous == last
      && (forall n :: n in rootNodes && n != last ==> n.next == old(n.next))
      && (forall n :: n in rootNodes && n != nextnode ==> n.previous == old(n.previous))
      && (nextnode != last ==> nextnode.next == old(nextnode.next))
      && (forall n :: n in rootNodes ==> n.value == old(n.value))
      && nextnode.value == old(nextnode.value)
    ensures root != null && nextnode != null && old(IsChain(nextNodes)) && nextNodes[0] == nextnode &&
            Disjoint(rootNodes, nextNodes) ==>
      IsChain(rootNodes + nextNodes)
  {
    if root == null || nextnode == null {
      return null;
    }
    var last := Last(root, rootNodes, k);
    last.next := nextnode;
    nextnode.previous := last;
    r := nextnode;
    if old(IsChain(nextNodes)) && nextNodes[0] == nextnode && Disjoint(rootNodes, nextNodes) {
      assert nextnode in nextNodes && nextnode !in rootNodes;
      DistinctConcat(rootNodes, nextNodes);
      var all := rootNodes + nextNodes;
      forall i | 0 <= i < |all| - 1
        ensures all[i].next == all[i + 1] && all[i + 1].previous == all[i]
      {
        if i >= |rootNodes| {
          assert all[i] == nextNodes[i - |rootNodes|] && all[i] !in rootNodes;
          assert all[i + 1] == nextNodes[i + 1 - |rootNodes|] && all[i + 1] !in rootNodes;
        } else if i < |rootNodes| - 1 {
          assert all[i + 1] == rootNodes[i + 1] != nextnode;
        }
      }
      assert all[|all| - 1] == nextNodes[|nextNodes| - 1] && all[|all| - 1] !in rootNodes;
    }
  }

  /**
   * asfdll_prepend: link prevnode itself before the first node of root's list,
   * both ways, and return it; no other link changes. With a NULL argument
   * nothing changes and NULL is returned. When prevnode is the last node of a
   * separate list, the result is one well-formed list.
   */
  method Prepend(root: Node?, prevnode: Node?, ghost rootNodes: seq<Node>, ghost k: nat, ghost prevNodes: seq<Node>)
    returns (r: Node?)
    requires root != null ==> IsChain(rootNodes) && k < |rootNodes| && rootNodes[k] == root
    modifies rootNodes, prevnode
    ensures root == null || prevnode == null ==> r == null && unchanged(rootNodes)
    ensures root == null && prevnode != null ==> unchanged(prevnode)
    ensures root != null && prevnode != null ==>
      var first := rootNodes[0];
      && r == prevnode
      && first.previous == prevnode && prevnode.next == first
      && (forall n :: n in rootNodes && n != first ==> n.previous == old(n.previous))
      && (forall n :: n in rootNodes && n != prevnode ==> n.next == old(n.next))
      && (prevnode != first ==> prevnode.previous == old(prevnode.previous))
      && (forall n :: n in rootNodes ==> n.value == old(n.value))
      && prevnode.value == old(prevnode.value)
    ensures root != null && prevnode != null && old(IsChain(prevNodes)) && prevNodes[|prevNodes| - 1] == prevnode &&
            Disjoint(prevNodes, rootNodes) ==>
      IsChain(prevNodes + rootNodes)
  {
    if root == null || prevnode == null {
      return null;
    }
    var first := First(root, rootNodes, k);
    first.previous := prevnode;
    prevnode.next := first;
    r := prevnode;
    if old(IsChain(prevNodes)) && prevNodes[|prevNodes| - 1] == prevnode && Disjoint(prevNodes, rootNodes) {
      assert prevnode in prevNodes && prevnode !in rootNodes;
      DistinctConcat(prevNodes, rootNodes);
      var all := prevNodes + rootNodes;
      var p := |prevNodes|;
      forall i | 0 <= i < |all| - 1
        ensures all[i].next == all[i + 1] && all[i + 1].previous == all[i]
      {
        if i < p - 1 {
          assert all[i] == prevNodes[i] && all[i] !in rootNodes;
          assert all[i + 1] == prevNodes[i + 1] && all[i + 1] !in rootNodes;
        } else if i >= p {
          assert all[i + 1] == rootNodes[i + 1 - p] != first;
          assert all[i] == rootNodes[i - p] != prevnode;
        }
      }
      assert all[0] == prevNodes[0] && all[0] !in rootNodes;
    }
  }

  /**
   * asfdll_popn: take node out of its list, joining its neighbours to each
   * other (A <-> B <-> C becomes A <-> C), and return it unfreed with both
   * links NULL. NULL gives NULL.
   */
  method PopN(node: Node?, ghost nodes: seq<Node>, ghost k: nat) returns (r: Node?)
    requires node != null ==> IsChain(nodes) && k < |nodes| && nodes[k] == node
    modifies nodes
    ensures r == node
    ensures node == null ==> unchanged(nodes)
    ensures node != null ==> node.next == null && node.previous == null
    ensures node != null && 0 < k < |nodes| - 1 ==>
      nodes[k - 1].next == nodes[k + 1] && nodes[k + 1].previous == nodes[k - 1]
    ensures node != null && |nodes| > 1 ==> IsChain(nodes[..k] + nodes[k + 1..])
    ensures node != null ==> LinksAgree(nodes)
    ensures node != null ==> forall n :: n in nodes ==> n.value == old(n.value)
  {
    if node == null {
      return null;
    }
    assert node.next == if k < |nodes| - 1 then nodes[k + 1] else null;
    assert node.previous == if k > 0 then nodes[k - 1] else null;
    if node.next != null {
      node.next.previous := node.previous;
    }
    if node.previous != null {
      node.previous.next := node.next;
    }
    node.previous := null;
    node.next := null;
    r := node;

    var rest := nodes[..k] + nodes[k + 1..];
    assert forall i :: 0 <= i < |rest| ==> rest[i] == if i < k then nodes[i] else nodes[i + 1];
    if |nodes| > 1 {
      forall i | 0 <= i < |rest| - 1
        ensures rest[i].next == rest[i + 1] && rest[i + 1].previous == rest[i]
      {
        if i < k - 1 {
          assert rest[i] == nodes[i] && rest[i + 1] == nodes[i + 1];
        } else if i == k - 1 {
          assert rest[i] == nodes[k - 1] && rest[i + 1] == nodes[k + 1];
        } else {
          assert rest[i] == nodes[i + 1] && rest[i + 1] == nodes[i + 2];
        }
      }
      assert IsChain(rest);
    }
    IsolatedLinksAgree(nodes, k);
  }

  /**
   * A node with both links NULL, taken out of a list whose other nodes form a
   * list of their own, leaves the link invariant holding for all of them.
   */
  lemma IsolatedLinksAgree(nodes: seq<Node>, k: nat)
    requires k < |nodes| && nodes[k].next == null && nodes[k].previous == null
    requires |nodes| > 1 ==> IsChain(nodes[..k] + nodes[k + 1..])
    ensures LinksAgree(nodes)
  {
    var rest := nodes[..k] + nodes[k + 1..];
    if |nodes| > 1 {
      ChainLinksAgree(rest);
    }
    forall a | a in nodes
      ensures a.next != null ==> a.next in nodes && a.next.previous == a
      ensures a.previous != null ==> a.previous in nodes && a.previous.next == a
    {
      if a != nodes[k] {
        var i :| 0 <= i < |nodes| && nodes[i] == a;
        assert a == rest[if i < k then i else i - 1];
        assert forall b :: b in rest ==> b in nodes;
      }
    }
  }

  /**
   * asfdll_freen: free just this node, setting the next node's previous and the
   * previous node's next to NULL, so the list is cut in two around it (the gap
   * is not closed). The freed node's own links are not touched.
   */
  method FreeN(node: Node?, ghost nodes: seq<Node>, ghost k: nat, heap: Heap)
    requires node != null ==> IsChain(nodes) && k < |nodes| && nodes[k] == node && node in heap.live
    modifies nodes, heap
    ensures node == null ==> unchanged(nodes) && unchanged(heap)
    ensures node != null ==> heap.live == old(heap.live) - {node} && heap.freed == old(heap.freed) + [node]
    ensures node != null ==> node.next == old(node.next) && node.previous == old(node.previous)
    ensures node != null && k > 0 ==> IsChain(nodes[..k])
    ensures node != null && k < |nodes| - 1 ==> IsChain(nodes[k + 1..])
    ensures node != null ==> forall n :: n in nodes ==> n.value == old(n.value)
  {
    if node == null {
      return;
    }
    assert node.next == if k < |nodes| - 1 then nodes[k + 1] else null;
    assert node.previous == if k > 0 then nodes[k - 1] else null;
    if node.next != null {
      node.next.previous := null;
    }
    if node.previous != null {
      node.previous.next := null;
    }
    heap.Free(node);
  }

  /**
   * asfdll_splitn. The source has only the guard (NULL for a NULL node or a
   * last node); the cut itself follows the header's contract: A <-> B <-> C
   * split at B gives A <-> B and C, and C is returned.
   */
  method SplitN(node: Node?, ghost nodes: seq<Node>, ghost k: nat) returns (r: Node?)
    requires node != null ==> IsChain(nodes) && k < |nodes| && nodes[k] == node
    modifies nodes
    ensures node == null || k == |nodes| - 1 ==> r == null && unchanged(nodes)
    ensures node != null && k < |nodes| - 1 ==>
      r == nodes[k + 1] && IsChain(nodes[..k + 1]) && IsChain(nodes[k + 1..])
    ensures node != null ==> forall n :: n in nodes ==> n.value == old(n.value)
  {
    if node == null {
      return null;
    }
    assert node.next == if k < |nodes| - 1 then nodes[k + 1] else null;
    if node.next == null {
      return null;
    }
    r := node.next;
    node.next := null;
    r.previous := null;
  }

  /**
   * asfdll_splitp. The source has no body; this follows the header's
   * contract: A <-> B <-> C split at B gives A and B <-> C, and A is returned
   * (NULL, changing nothing, for a NULL node or a first node).
   */
  method SplitP(node: Node?, ghost nodes: seq<Node>, ghost k: nat) returns (r: Node?)
    requires node != null ==> IsChain(nodes) && k < |nodes| && nodes[k] == node
    modifies nodes
    ensures node == null || k == 0 ==> r == null && unchanged(nodes)
    ensures node != null && k > 0 ==>
      r == nodes[k - 1] && IsChain(nodes[..k]) && IsChain(nodes[k..])
    ensures node != null ==> forall n :: n in nodes ==> n.value == old(n.value)
  {
    if node == null {
      return null;
    }
    assert node.previous == if k > 0 then nodes[k - 1] else null;
    if node.previous == null {
      return null;
    }
    r := node.previous;
    node.previous := null;
    r.next := null;
  }

  /**
   * asfdll_free, with the link to the nodes before root read before root is
   * freed: frees every node of root's list exactly once, first root and the
   * nodes after it in forward order, then the nodes before it going backward.
   * Every node is live whenever one of its links is read.
   */
  method FreeAll(root: Node?, ghost nodes: seq<Node>, ghost k: nat, heap: Heap)
    requires root != null ==> IsChain(nodes) && k < |nodes| && nodes[k] == root
    requires root != null ==> forall n :: n in nodes ==> n in heap.live
    modifies heap
    ensures root == null ==> unchanged(heap)
    ensures root != null ==> heap.freed == old(heap.freed) + nodes[k..] + Reversed(nodes[..k])
    ensures root != null ==> heap.live == old(heap.live) - (set n | n in nodes)
  {
    if root == null {
      return;
    }
    heap.Access(root);
    var before := root.previous;
    FreeForward(root, nodes, k, heap);
    FreeBackward(before, nodes, k, heap);
    assert nodes[0..] == nodes;
  }

  /**
   * asfdll_free as written: the link to the nodes before root is read from
   * root after root has been freed. Frees the same nodes in the same order.
   */
  method FreeAllAsWritten(root: Node?, ghost nodes: seq<Node>, ghost k: nat, heap: Heap)
    returns (ghost readAfterFree: bool)
    requires root != null ==> IsChain(nodes) && k < |nodes| && nodes[k] == root
    requires root != null ==> forall n :: n in nodes ==> n in heap.live
    modifies heap
    ensures root == null ==> unchanged(heap)
    ensures root != null ==> heap.freed == old(heap.freed) + nodes[k..] + Reversed(nodes[..k])
    ensures root != null ==> heap.live == old(heap.live) - (set n | n in nodes)
    ensures readAfterFree <==> root != null
  {
    if root == null {
      return false;
    }
    var originalRoot := root;
    FreeForward(root, nodes, k, heap);
    readAfterFree := originalRoot !in heap.live;
    var before := originalRoot.previous;
    FreeBackward(before, nodes, k, heap);
    assert nodes[0..] == nodes;
  }

  /** The forward pass of asfdll_free: free nodes[k..] in order. */
  method FreeForward(root: Node, ghost nodes: seq<Node>, ghost k: nat, heap: Heap)
    requires IsChain(nodes) && k < |nodes| && nodes[k] == root
    requires forall n :: n in nodes ==> n in heap.live
    modifies heap
    ensures heap.freed == old(heap.freed) + nodes[k..]
    ensures heap.live == old(heap.live) - (set n | n in nodes[k..])
  {
    var cur: Node? := root;
    ghost var i := k;
    while cur != null
      invariant k <= i <= |nodes|
      invariant cur == if i < |nodes| then nodes[i] else null
      invariant heap.freed == old(heap.freed) + nodes[k..i]
      invariant heap.live == old(heap.live) - (set n | n in nodes[k..i])
      decreases |nodes| - i
    {
      assert cur !in nodes[k..i];
      heap.Access(cur);
      var next := cur.next;
      heap.Free(cur);
      cur := next;
      assert nodes[k..i + 1] == nodes[k..i] + [nodes[i]];
      i := i + 1;
    }
    assert nodes[k..i] == nodes[k..];
  }

  /**
   * The backward pass of asfdll_free: starting from the node before position k
   * (or NULL), free nodes[..k] from the back.
   */
  method FreeBackward(start: Node?, ghost nodes: seq<Node>, ghost k: nat, heap: Heap)
    requires IsChain(nodes) && k < |nodes|
    requires start == if k > 0 then nodes[k - 1] else null
    requires forall n :: n in nodes[..k] ==> n in heap.live
    modifies heap
    ensures heap.freed == old(heap.freed) + Reversed(nodes[..k])
    ensures heap.live == old(heap.live) - (set n | n in nodes[..k])
  {
    var cur := start;
    ghost var j := k;
    while cur != null
      invariant 0 <= j <= k
      invariant cur == if j > 0 then nodes[j - 1] else null
      invariant heap.freed == old(heap.freed) + Reversed(nodes[j..k])
      invariant heap.live == old(heap.live) - (set n | n in nodes[j..k])
      decreases j
    {
      assert cur !in nodes[j..k];
      heap.Access(cur);
      var prev := cur.previous;
      heap.Free(cur);
      cur := prev;
      assert nodes[j - 1..k][1..] == nodes[j..k];
      j := j - 1;
    }
    assert nodes[0..k] == nodes[..k];
  }
}
