/**
 * The growable vector of src/vector.c and src/vector.h: one contiguous buffer of
 * `capacity` element slots, of which the first `length` are in use.
 *
 * The buffer is an array with one entry per slot; each slot holds the
 * `elemSize` bytes of one element. Where the C code computes a byte address
 * (asfvec_getitem), `ItemOffset` and `Flatten` give the byte layout and
 * `GetItemAddressesItem` proves that the offset picks out exactly the bytes of
 * the requested element.
 */
module Vector {
  import opened Alloc

  /** ASFVEC_OPT_GROWSIZE: the minimum number of slots a push-triggered growth adds. */
  const OptGrowSize: nat := 10

  /** AsfVecErr. */
  datatype AsfVecErr = Ok | Unknown | Memory | CantGrow

  /** The integer value of each error code; only success is 0 and every error is negative. */
  function Code(e: AsfVecErr): (c: int)
    ensures c <= 0
    ensures c == 0 <==> e == Ok
  {
    match e
    case Ok => 0
    case Unknown => -1
    case Memory => -2
    case CantGrow => -3
  }

  /** The codes are pairwise distinct. */
  lemma CodesDistinct(a: AsfVecErr, b: AsfVecErr)
    ensures Code(a) == Code(b) ==> a == b
  {
  }

  function Min(a: nat, b: nat): nat { if a <= b then a else b }

  function Max(a: nat, b: nat): nat { if a <= b then b else a }

  /**
   * The capacity asfvec_optimized_grow leaves when `extra` more free slots are
   * needed, for a build whose ASFVEC_OPT_GROWSIZE is `growSize`: enough room
   * afterwards, no growth when there already is room, and otherwise a growth of
   * at least growSize that is no larger than the larger of growSize and what is
   * missing. The vector's methods use the default, OptGrowSize.
   */
  function GrowCapacity(capacity: nat, length: nat, extra: nat, growSize: nat): (c: nat)
    requires length <= capacity
    ensures c >= capacity && c - length >= extra
    ensures capacity - length >= extra ==> c == capacity
    ensures c > capacity ==> c - capacity >= growSize
    ensures c > capacity ==> c - capacity == growSize || c - length == extra
  {
    var space := capacity - length;
    if space >= extra then capacity else capacity + Max(extra - space, growSize)
  }

  /**
   * A push onto a full vector grows its capacity by growSize, or by one slot
   * when growSize is 0; with the default, by exactly OptGrowSize.
   */
  lemma FullPushGrowth(capacity: nat, growSize: nat)
    ensures GrowCapacity(capacity, capacity, 1, growSize) == capacity + Max(1, growSize)
    ensures GrowCapacity(capacity, capacity, 1, OptGrowSize) == capacity + OptGrowSize
  {
  }

  /**
   * asfvec_getitem: the byte offset of item idx from the start of the buffer.
   * Items are densely packed: item 0 is at offset 0 and each later item starts
   * exactly elemSize bytes after the one before it.
   */
  function ItemOffset(idx: nat, elemSize: nat): (o: nat)
    ensures idx == 0 ==> o == 0
    ensures idx > 0 ==> o == ItemOffset(idx - 1, elemSize) + elemSize
  {
    idx * elemSize
  }

  /** Every slot holds exactly `size` bytes. */
  ghost predicate Uniform(slots: seq<seq<bv8>>, size: nat)
  {
    forall i :: 0 <= i < |slots| ==> |slots[i]| == size
  }

  /** The contiguous byte image of a sequence of slots, densely packed. */
  function Flatten(slots: seq<seq<bv8>>): seq<bv8>
  {
    if slots == [] then [] else Flatten(slots[..|slots| - 1]) + slots[|slots| - 1]
  }

  lemma {:induction false} FlattenLength(slots: seq<seq<bv8>>, size: nat)
    requires Uniform(slots, size)
    ensures |Flatten(slots)| == |slots| * size
  {
    if slots != [] {
      FlattenLength(slots[..|slots| - 1], size);
    }
  }

  /**
   * The byte at ItemOffset(idx, size) + j of the buffer is byte j of element
   * idx: asfvec_getitem addresses the element's own bytes.
   */
  lemma {:induction false} GetItemAddressesItem(slots: seq<seq<bv8>>, size: nat, idx: nat, j: nat)
    requires Uniform(slots, size)
    requires idx < |slots| && j < size
    ensures ItemOffset(idx, size) + j < |Flatten(slots)|
    ensures Flatten(slots)[ItemOffset(idx, size) + j] == slots[idx][j]
  {
    var init := slots[..|slots| - 1];
    FlattenLength(init, size);
    FlattenLength(slots, size);
    if idx < |slots| - 1 {
      GetItemAddressesItem(init, size, idx, j);
      assert init[idx] == slots[idx];
    } else {
      assert |Flatten(init)| == ItemOffset(idx, size);
    }
  }

  /** AsfVec. */
  class Vec {
    /** NULL (null) until a buffer is first allocated; one entry per slot. */
    var contents: array?<seq<bv8>>
    var capacity: nat
    var length: nat
    const elemSize: nat

    ghost predicate Valid()
      reads this, contents
    {
      && length <= capacity
      && (contents == null ==> capacity == 0)
      && (contents != null ==>
            contents.Length == capacity &&
            forall i :: 0 <= i < capacity ==> |contents[i]| == elemSize)
    }

    /** The elements in use, in order: slots 0 .. length - 1. */
    function Elements(): (s: seq<seq<bv8>>)
      reads this, contents
      requires Valid()
      ensures |s| == length && Uniform(s, elemSize)
    {
      if contents == null then [] else contents[..length]
    }

    /** The bytes of slot idx (the block asfvec_getitem(vec, idx) points to). */
    function Item(idx: nat): (b: seq<bv8>)
      reads this, contents
      requires Valid() && idx < capacity
      ensures |b| == elemSize
      ensures idx < length ==> b == Elements()[idx]
    {
      contents[idx]
    }

    /**
     * asfvec_getitem on the vector itself: byte ItemOffset(idx, elemSize) + j
     * of the buffer is byte j of slot idx.
     */
    lemma GetItemBytes(idx: nat, j: nat)
      requires Valid() && idx < capacity && j < elemSize
      ensures contents != null
      ensures ItemOffset(idx, elemSize) + j < |Flatten(contents[..capacity])|
      ensures Flatten(contents[..capacity])[ItemOffset(idx, elemSize) + j] == Item(idx)[j]
    {
      GetItemAddressesItem(contents[..capacity], elemSize, idx, j);
    }

    constructor Init(elemSize: nat, capacity: nat)
      ensures Valid()
      ensures this.elemSize == elemSize && this.capacity == capacity && length == 0
      ensures (contents == null) == (capacity == 0)
      ensures contents != null ==> fresh(contents)
    {
      this.elemSize := elemSize;
      this.capacity := capacity;
      length := 0;
      if capacity == 0 {
        contents := null;
      } else {
        // malloc leaves the bytes unspecified; any elemSize bytes will do.
        var garbage := Zeros(elemSize);
        contents := new seq<bv8>[capacity](_ => garbage);
      }
    }

    /**
     * asfvec_cresize: reallocate the buffer to exactly newCap slots, truncating
     * length to newCap if needed. If realloc fails, nothing changes.
     */
    method CResize(newCap: nat, allocOk: bool) returns (err: AsfVecErr)
      requires Valid()
      modifies this
      ensures Valid()
      ensures err == (if allocOk then Ok else Memory)
      ensures !allocOk ==> unchanged(this)
      ensures allocOk ==> capacity == newCap && length == Min(old(length), newCap) && fresh(contents)
      ensures Elements() == old(Elements())[..length]
    {
      if !allocOk {
        return Memory;
      }
      // realloc: a fresh block of newCap slots that keeps the first
      // min(old capacity, newCap) slots of the old block.
      var garbage := Zeros(elemSize);
      var buf := new seq<bv8>[newCap](_ => garbage);
      if contents != null {
        var keep := Min(capacity, newCap);
        var i := 0;
        while i < keep
          modifies buf
          invariant 0 <= i <= keep
          invariant forall j :: 0 <= j < newCap ==> |buf[j]| == elemSize
          invariant forall j :: 0 <= j < i ==> buf[j] == contents[j]
        {
          buf[i] := contents[i];
          i := i + 1;
        }
      }
      contents := buf;
      capacity := newCap;
      if length > newCap {
        length := newCap;
      }
      err := Ok;
    }

    /**
     * asfvec_lresize: only shrinks. Growing is refused with CantGrow and
     * changes nothing; capacity and buffer never change.
     */
    method LResize(newLen: nat) returns (err: AsfVecErr)
      requires Valid()
      modifies this`length
      ensures Valid()
      ensures err == (if old(length) < newLen then CantGrow else Ok)
      ensures length == (if err == Ok then newLen else old(length))
      ensures capacity == old(capacity) && contents == old(contents)
      ensures Elements() == old(Elements())[..length]
    {
      if length < newLen {
        return CantGrow;
      }
      length := newLen;
      err := Ok;
    }

    /**
     * asfvec_optimized_grow: make room for `extra` more elements, growing the
     * capacity to GrowCapacity(capacity, length, extra, OptGrowSize) when there is not
     * enough room. Fails (changing nothing) only if a needed realloc fails.
     */
    method OptimizedGrow(extra: nat, allocOk: bool) returns (err: AsfVecErr)
      requires Valid()
      modifies this
      ensures Valid()
      ensures err == (if old(capacity - length) < extra && !allocOk then Memory else Ok)
      ensures err == Ok ==> capacity == GrowCapacity(old(capacity), old(length), extra, OptGrowSize)
      ensures err == Ok ==> capacity - length >= extra
      ensures err != Ok || capacity == old(capacity) ==> unchanged(this)
      ensures contents == old(contents) || fresh(contents)
      ensures length == old(length) && Elements() == old(Elements())
    {
      var space := capacity - length;
      if space >= extra {
        return Ok;
      }
      var growth := extra - space;
      if growth < OptGrowSize {
        growth := OptGrowSize;
      }
      err := CResize(capacity + growth, allocOk);
    }

    /**
     * asfvec_pushunsafe: one more element at the end, its bytes unspecified;
     * every earlier element is unchanged. Fails, changing nothing, only when
     * the vector is full and the growth's realloc fails.
     */
    method PushUnsafe(allocOk: bool) returns (err: AsfVecErr)
      requires Valid()
      modifies this
      ensures Valid()
      ensures err == (if old(length) == old(capacity) && !allocOk then Memory else Ok)
      ensures err == Ok ==> length == old(length) + 1
      ensures err == Ok ==> capacity == GrowCapacity(old(capacity), old(length), 1, OptGrowSize)
      ensures err == Ok ==> Elements()[..old(length)] == old(Elements())
      ensures err != Ok ==> unchanged(this)
      ensures contents == old(contents) || fresh(contents)
    {
      err := OptimizedGrow(1, allocOk);
      if Code(err) < 0 {
        return;
      }
      length := length + 1;
    }

    /**
     * asfvec_pushcpy: append a copy of the elemSize bytes of `element`.
     * On error the vector, buffer included, is left unchanged.
     */
    method PushCpy(element: seq<bv8>, allocOk: bool) returns (err: AsfVecErr)
      requires Valid() && |element| == elemSize
      modifies this, contents
      ensures Valid()
      ensures err == (if old(length) == old(capacity) && !allocOk then Memory else Ok)
      ensures err == Ok ==> Elements() == old(Elements()) + [element]
      ensures err == Ok ==> capacity == GrowCapacity(old(capacity), old(length), 1, OptGrowSize)
      ensures err != Ok ==> unchanged(this) && (contents != null ==> unchanged(contents))
      ensures contents == old(contents) || fresh(contents)
    {
      err := PushUnsafe(allocOk);
      if Code(err) < 0 {
        return;
      }
      // memcpy(asfvec_getitem(vec, length - 1), element, elemSize)
      contents[length - 1] := element;
    }

    /**
     * asfvec_pushzro: append an element whose elemSize bytes are all zero.
     * On error the vector, buffer included, is left unchanged.
     */
    method PushZro(allocOk: bool) returns (err: AsfVecErr)
      requires Valid()
      modifies this, contents
      ensures Valid()
      ensures err == (if old(length) == old(capacity) && !allocOk then Memory else Ok)
      ensures err == Ok ==> Elements() == old(Elements()) + [Zeros(elemSize)]
      ensures err == Ok ==> capacity == GrowCapacity(old(capacity), old(length), 1, OptGrowSize)
      ensures err != Ok ==> unchanged(this) && (contents != null ==> unchanged(contents))
      ensures contents == old(contents) || fresh(contents)
    {
      err := PushUnsafe(allocOk);
      if Code(err) < 0 {
        return;
      }
      // memset(asfvec_getitem(vec, length - 1), 0, elemSize)
      contents[length - 1] := Zeros(elemSize);
    }
  }

  /**
   * asfvec_ccreate: NULL if allocating the record or (for a nonzero capacity)
   * the buffer fails; otherwise an empty vector of the given capacity whose
   * buffer is NULL exactly when the capacity is 0.
   */
  method CCreate(elemSize: nat, capacity: nat, recordOk: bool, bufferOk: bool) returns (vec: Vec?)
    ensures vec == null <==> !recordOk || (capacity > 0 && !bufferOk)
    ensures vec != null ==> fresh(vec) && vec.Valid()
    ensures vec != null ==> vec.length == 0 && vec.capacity == capacity && vec.elemSize == elemSize
    ensures vec != null ==> (vec.contents == null <==> capacity == 0) && vec.Elements() == []
    ensures vec != null && vec.contents != null ==> fresh(vec.contents)
  {
    if !recordOk {
      return null;
    }
    if capacity > 0 && !bufferOk {
      // the record is freed again before returning NULL
      return null;
    }
    vec := new Vec.Init(elemSize, capacity);
  }

  /** asfvec_create: asfvec_ccreate with capacity 0, so only the record is allocated. */
  method Create(elemSize: nat, recordOk: bool) returns (vec: Vec?)
    ensures vec == null <==> !recordOk
    ensures vec != null ==> fresh(vec) && vec.Valid()
    ensures vec != null ==> vec.length == 0 && vec.capacity == 0 && vec.elemSize == elemSize
    ensures vec != null ==> vec.contents == null && vec.Elements() == []
  {
    vec := CCreate(elemSize, 0, recordOk, true);
  }
}
