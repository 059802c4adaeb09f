# asflib containers in Dafny

A model of the three containers of asflib, a small C library that stores
fixed-size elements inline:

- **the growable vector** (`AsfVec`, src/vector.c and src/vector.h). It has one
  buffer of `capacity` element slots, and the first `length` of them are in use.
  Pushes grow it additively: the capacity grows by the number of slots still
  missing, but by at least `ASFVEC_OPT_GROWSIZE` (10 by default).
  `Vector.Vec` is a class with the C record's fields. Its buffer is an array with
  one entry per slot, and each slot is a `seq<bv8>` of `elemSize` bytes. Each
  method says what the new state is, in terms of `Elements()`, the sequence of
  elements in use.
- **the legacy header-only vector** (src/vectors.h). Its `ASF_IMPL` bodies
  (src/vectors.h:58-218) are the functions of src/vector.c line for line, on a
  record named `AsfVector`. The members of module `Vector` model both files.
  `VectorsLegacy` covers the one difference: the error codes are macros there.
- **the singly linked list** (`AsfLlNode`, src/linkedlist.c) and **the doubly
  linked list** (`AsfDllNode`, src/doublylinkedlist.c). Nodes are Dafny
  objects with `next` (and `previous`) fields and an inline `value`. As in C,
  there is no list object. An operation that walks or relinks a list gets the
  list as a ghost sequence of nodes. `IsChain` says that sequence really is the
  list: linked in order, no node twice, NULL at the ends.

malloc, realloc and free are modelled in module `Alloc`:

- Whether an allocation succeeds is a boolean input of each operation that
  allocates.
- `Heap` keeps a ghost set of live nodes and a ghost log of every `free`.
- `Heap.Free` requires its argument to be live, so a verified caller never
  frees twice. Its log shows exactly which nodes were freed, and in what order.

What the code does, in three places where a reader might expect otherwise:

- `asfdll_prepend` links `prevnode` itself before the first node
  (src/doublylinkedlist.c:82-83), not the last node of `prevnode`'s list. A
  list built with it is well formed when `prevnode` is the last node of its
  list.
- Growth adds `max(missing, ASFVEC_OPT_GROWSIZE)` slots to the capacity
  (src/vector.c:88-92).
- After `asfvec_cresize(vec, 0)` succeeds, the buffer pointer may be non-NULL.

Three defects are modelled as the intended behaviour:

- In `asfll_append`, `asfdll_append` and `asfdll_prepend`, a NULL argument hits
  a bare `return;` (src/linkedlist.c:52, src/doublylinkedlist.c:67 and 79).
  This is modelled as returning NULL.
- `createzro` and `createcpy` write through the node even when malloc returned
  NULL (src/linkedlist.c:24 and 31, src/doublylinkedlist.c:25 and 32). The model
  skips the write and returns NULL.
- `asfdll_splitn` has only its guard and `asfdll_splitp` has no body. Both are
  modelled from the contract and the A <-> B <-> C examples in their header
  comments.

## Model

| member | source | states |
|---|---|---|
| `Alloc.Zeros` | src/vector.c:131 | the block memset leaves has the requested length and every byte is 0 |
| `Alloc.Heap.Register` | src/linkedlist.c:13 | a successful malloc adds the new block to the live blocks and frees nothing |
| `Alloc.Heap.Free` | src/linkedlist.c:69 | free takes a live block only (no double free), removes it from the live blocks and logs it as the latest block freed |
| `Vector.Code` | src/vector.h:20-26 | success is 0, it is the only code that is 0, and every error code is negative |
| `Vector.CodesDistinct` | src/vector.h:20-26 | the four codes are pairwise distinct |
| `VectorsLegacy.LegacyCode` | src/vectors.h:16-18 | the legacy macros give each outcome the same value as the enum of vector.h; negative exactly for errors |
| `Vector.GrowCapacity` | src/vector.c:81-95 | for any value of `ASFVEC_OPT_GROWSIZE`: after growth there are at least `extra` free slots. With enough room already, the capacity is unchanged. Otherwise it grows by at least the floor and by no more than the larger of the floor and the missing slots |
| `Vector.FullPushGrowth` | src/vector.h:16-18 | one push onto a full vector grows the capacity by the floor, or by one slot when the floor is overridden to 0; with the default, by exactly 10 |
| `Vector.ItemOffset` | src/vector.h:106 | items are densely packed: item 0 starts at byte 0 and each later item starts `elemSize` bytes after the one before it |
| `Vector.FlattenLength` | src/vector.h:28-38 | n densely packed slots of s bytes fill n * s bytes of buffer |
| `Vector.GetItemAddressesItem` | src/vector.h:102-106 | byte `idx * elemSize + j` of the buffer is byte j of element idx, so the offset addresses exactly that element's bytes |
| `Vector.Vec.Elements` | src/vector.h:28-38 | the vector's elements are `length` slots, each of `elemSize` bytes |
| `Vector.Vec.Item` | src/vector.h:102-106 | the block at slot idx has `elemSize` bytes; below `length` it is element idx |
| `Vector.Vec.GetItemBytes` | src/vector.h:102-106 | on a valid vector, byte `ItemOffset(idx, elemSize) + j` of the buffer is byte j of slot idx, for every slot below the capacity |
| `Vector.Vec.Init` | src/vector.c:18-37 | a fresh record: length 0, the given capacity and element size, buffer NULL exactly when the capacity is 0 |
| `Vector.CCreate` | src/vector.c:12-40 | NULL exactly when the record, or (for a nonzero capacity) the buffer, cannot be allocated. Otherwise an empty valid vector with the given capacity and element size, buffer NULL exactly when the capacity is 0 |
| `Vector.Create` | src/vector.c:42-45 | NULL exactly when the record cannot be allocated. Otherwise an empty vector of capacity 0 with a NULL buffer |
| `Vector.Vec.CResize` | src/vector.c:53-67 | if realloc fails: Memory, and nothing changes. Otherwise the capacity is exactly newCap, the length is min(length, newCap), and the elements kept are the old ones' prefix |
| `Vector.Vec.LResize` | src/vector.c:69-76 | growing the length gives CantGrow and changes nothing. Otherwise the length is newLen, the elements are truncated to it, and the capacity and buffer are untouched |
| `Vector.Vec.OptimizedGrow` | src/vector.c:81-95 | no-op (Ok) when there is room for `extra`. Otherwise the capacity becomes `GrowCapacity(...)`, or it is Memory with nothing changed. Length and elements never change |
| `Vector.Vec.PushUnsafe` | src/vector.c:97-107 | fails (Memory, nothing changed) only when the vector is full and realloc fails. Otherwise the length is one more, the capacity follows the growth rule, the earlier elements are unchanged and length <= capacity still holds |
| `Vector.Vec.PushCpy` | src/vector.c:109-120 | on success the elements are the old ones plus a copy of `element`. On error the record and buffer are unchanged. The buffer afterwards is the old array or a fresh one |
| `Vector.Vec.PushZro` | src/vector.c:122-133 | on success the elements are the old ones plus `elemSize` zero bytes. On error the record and buffer are unchanged. The buffer afterwards is the old array or a fresh one |
| `LinkedList.ChainFromNodeUnique` | src/linkedlist.h:43-46 | two lists that start at the same node are the same list, so the list from a node is determined by that node |
| `LinkedList.CreateUnsafe` | src/linkedlist.c:11-19 | NULL exactly when malloc fails. Otherwise a fresh live node with next NULL and `elemSize` value bytes |
| `LinkedList.CreateZro` | src/linkedlist.c:21-26 | as CreateUnsafe, with the value all zero bytes |
| `LinkedList.CreateCpy` | src/linkedlist.c:28-33 | as CreateUnsafe, with the value equal to `elem` |
| `LinkedList.Last` | src/linkedlist.c:35-47 | NULL for NULL. Otherwise the final node of the list from root (a root or an intermediate node), whose next is NULL |
| `LinkedList.Append` | src/linkedlist.c:49-58 | with a NULL argument, NULL and nothing changes. Otherwise it returns nextnode, and the old last node's next is nextnode. No other node's next or value changes. A disjoint list appended this way gives one list, whose last node is the appended list's last |
| `LinkedList.FreeAll` | src/linkedlist.c:60-72 | frees every node of the list from root exactly once, in forward order. Nothing else is freed |
| `LinkedList.FreeN` | src/linkedlist.c:74-79 | frees only that node and changes no link |
| `Chains.DistinctConcat` | src/linkedlist.h:48-54 | joining two disjoint lists (either kind) repeats no node |
| `DoublyLinkedList.ChainLinksAgree` | src/doublylinkedlist.h:54-72 | in a well-formed list, A.next == B exactly when B.previous == A, and both are in the list |
| `DoublyLinkedList.IsolatedLinksAgree` | src/doublylinkedlist.h:86-100 | a popped node with both links NULL, beside the rest of its list, keeps the link invariant holding for all of the nodes |
| `DoublyLinkedList.ReversedMultiset` | src/doublylinkedlist.c:104-111 | walking nodes backward visits the same nodes |
| `DoublyLinkedList.FreeOrderCoversList` | src/doublylinkedlist.c:88-112 | the nodes from root forward, then backward from root's predecessor, are exactly the list's nodes, each once |
| `DoublyLinkedList.CreateUnsafe` | src/doublylinkedlist.c:11-20 | NULL exactly when malloc fails. Otherwise a fresh live node with both links NULL and `elemSize` value bytes |
| `DoublyLinkedList.CreateZro` | src/doublylinkedlist.c:22-27 | as CreateUnsafe, with the value all zero bytes |
| `DoublyLinkedList.CreateCpy` | src/doublylinkedlist.c:29-34 | as CreateUnsafe, with the value equal to `elem` |
| `DoublyLinkedList.Last` | src/doublylinkedlist.c:36-48 | NULL for NULL. Otherwise the last node of the list through root, whose next is NULL |
| `DoublyLinkedList.First` | src/doublylinkedlist.c:50-62 | NULL for NULL. Otherwise the first node of the list through root, whose previous is NULL |
| `DoublyLinkedList.Append` | src/doublylinkedlist.c:64-74 | with a NULL argument, NULL and nothing changes. Otherwise it returns nextnode, the old last node's next is nextnode and nextnode's previous is that node, and nothing else changes. A disjoint list headed by nextnode gives one well-formed list |
| `DoublyLinkedList.Prepend` | src/doublylinkedlist.c:76-86 | with a NULL argument, NULL and nothing changes. Otherwise it returns prevnode, the first node's previous is prevnode and prevnode's next is the first node, and nothing else changes. A disjoint list whose last node is prevnode gives one well-formed list |
| `DoublyLinkedList.PopN` | src/doublylinkedlist.c:127-141 | NULL for NULL. Otherwise it returns the node, unfreed, with both links NULL, and A <-> B <-> C becomes A <-> C. The remaining nodes form one list and the link invariant holds |
| `DoublyLinkedList.FreeN` | src/doublylinkedlist.c:114-125 | frees only that node and NULLs the neighbours' links toward it, leaving two lists (the gap is not closed). The freed node's links are untouched |
| `DoublyLinkedList.SplitN` | src/doublylinkedlist.h:102-113 | NULL and no change for NULL or a last node (the guard at src/doublylinkedlist.c:146-147). Otherwise A <-> B <-> C split at B gives the lists A <-> B and C, and returns C. No node's value changes |
| `DoublyLinkedList.SplitP` | src/doublylinkedlist.h:115-126 | NULL and no change for NULL or a first node. Otherwise A <-> B <-> C split at B gives the lists A and B <-> C, and returns A. No node's value changes |
| `DoublyLinkedList.FreeAll` | src/doublylinkedlist.c:88-112 | frees every node of root's list exactly once: root and its successors forward, then its predecessors backward. A node's links are read only while it is live |
| `DoublyLinkedList.FreeAllAsWritten` | src/doublylinkedlist.c:88-112 | same nodes freed in the same order, but root's previous link is read after root was freed |
| `DoublyLinkedList.FreeForward` | src/doublylinkedlist.c:96-102 | the first pass frees root and every node after it, in order |
| `DoublyLinkedList.FreeBackward` | src/doublylinkedlist.c:104-111 | the second pass frees the nodes before root, nearest first |

## Left out

- `asfvec_free` (src/vector.c:47-51): it only releases the buffer and the record, and nothing depends on it.
- src/debug.c and src/debug.h: printf-based printers that only read the containers.
- Vector.Vec.OptimizedGrow, Vector.Vec.PushUnsafe, Vector.Vec.PushCpy, Vector.Vec.PushZro: they use the default `ASFVEC_OPT_GROWSIZE` of 10. A build can override it with `-D` (src/vector.h:9-10, 16-18); `GrowCapacity` and `FullPushGrowth` take it as a parameter and cover every value.
- Vector.Vec.PushCpy: `element` is passed as a value, so it cannot alias the vector's own buffer. In C, `asfvec_pushcpy(vec, asfvec_getitem(vec, 0))` on a full vector copies from the old block after the realloc at src/vector.c:55 may have moved it (src/vector.h:62 warns that the contents pointer may change); the model does not capture that hazard.
- Integer width: sizes, capacities and lengths are unbounded naturals. A `size_t` overflow of `capacity * element_size` or `capacity + growth_required` is not modelled.
- Vector.Vec.CResize: a successful realloc always moves the buffer to a fresh block; C's realloc may also resize in place and return the same pointer. No contract depends on the difference, and callers see only that the buffer is the old array or a fresh one.
- Vector.Vec.CResize: a realloc to size 0 is modelled like any other size: it fails, or it succeeds with a non-NULL empty buffer. C leaves the pointer it returns implementation-defined.
- Bytes that malloc or realloc leave uninitialised: the model holds some value there, and no contract promises anything about it.
- Byte addressing, `memcpy` and `memset`: an element is a `seq<bv8>` slot. `_Alignas(max_align_t)` and the flexible array member are not modelled. `GetItemAddressesItem` relates slots to byte offsets.
- Use-after-free outside the free routines: liveness is checked only where `asfdll_free` and `asfll_free` read a node. The other operations do not require their nodes to be live.
- The element size a list's nodes were created with is not tracked across nodes. The library only recommends keeping it consistent.
- DoublyLinkedList.Last, DoublyLinkedList.First, DoublyLinkedList.Append, DoublyLinkedList.Prepend, DoublyLinkedList.PopN, DoublyLinkedList.FreeN, DoublyLinkedList.SplitN, DoublyLinkedList.SplitP, DoublyLinkedList.FreeAll: they require the whole list through the node passed in to be well formed. The C bodies need only the node's neighbours, or for the walks only that the walk in their own direction ends.
- LinkedList.Append, DoublyLinkedList.Append, DoublyLinkedList.Prepend: the contracts say what a cycle-forming call (appending a list to itself) does to the links, but do not describe the cyclic structure it creates.

## Findings

| source | as written | input that shows it | evidently intended | confidence | as-written member | corrected member |
|---|---|---|---|---|---|---|
| src/doublylinkedlist.c:105 | `root = originalroot->previous;` runs after the first loop has freed `originalroot` (the first node it frees), so the link is read from freed memory | any non-NULL root, e.g. a single node | read `root->previous` before the forward pass, while root is still live | high, not executed | `DoublyLinkedList.FreeAllAsWritten` (its `readAfterFree` result holds for every non-NULL root) | `DoublyLinkedList.FreeAll` (every link read goes through `Heap.Access`, which requires a live node) |
