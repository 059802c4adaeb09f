/**
 * The C allocator the containers are written against (malloc, realloc, memset
 * and free), reduced to what the containers' contracts depend on.
 *
 * - Whether an allocation succeeds is an input of each operation that
 *   allocates: the containers only ever test the returned pointer for NULL.
 * - Every list node handed out by the allocator is tracked in a ghost set of
 *   live objects, and every free is logged in order, so that "frees every node
 *   exactly once" and "never touches a freed node" can be stated.
 */
module Alloc {

  /** The bytes memset(p, 0, n) leaves in a block of n bytes. */
  function Zeros(n: nat): (z: seq<bv8>)
    ensures |z| == n
    ensures forall i :: 0 <= i < n ==> z[i] == 0
  {
    if n == 0 then [] else Zeros(n - 1) + [0]
  }

  /** The allocator's bookkeeping: which objects are live, and what was freed, in order. */
  class Heap {
    ghost var live: set<object>
    ghost var freed: seq<object>

    constructor ()
      ensures live == {} && freed == []
    {
      live := {};
      freed := [];
    }

    /** malloc returned the (fresh) object o. */
    method Register(o: object)
      requires o !in live
      modifies this
      ensures live == old(live) + {o}
      ensures freed == old(freed)
    {
      live := live + {o};
    }

    /**
     * A read or write through a pointer: allowed only while the object is live
     * (reading a freed block is undefined behaviour in C).
     */
    ghost method Access(o: object)
      requires o in live
    {
    }

    /** free(o): o must be live (no double free); it is logged and is no longer live. */
    method Free(o: object)
      requires o in live
      modifies this
      ensures live == old(live) - {o}
      ensures freed == old(freed) + [o]
    {
      live := live - {o};
      freed := freed + [o];
    }
  }
}
