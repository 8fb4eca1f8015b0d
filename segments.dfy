/**
 * `BufferSegment` (BufferSegment.cs): a heap node holding one window of a byte
 * array, an `Owned` flag and a mutable link to the next node, and the chains
 * that such nodes form.
 */
module Segments {
  import opened Bytes

  class BufferSegment {
    var buffer: ArraySegment
    var owned: bool
    var next: BufferSegment?

    constructor (buffer: ArraySegment, owned: bool, next: BufferSegment?)
      ensures this.buffer == buffer && this.owned == owned && this.next == next
    {
      this.buffer := buffer;
      this.owned := owned;
      this.next := next;
    }

    /** `End`: the array index one past the last byte of the window. */
    function End(): (e: int)
      reads this
      ensures buffer.Valid() && buffer.arr.Arr? ==> buffer.offset <= e <= |buffer.arr.elems|
      ensures e - buffer.offset == buffer.count
    {
      buffer.offset + buffer.count
    }

    /**
     * `Slice(int offset)`: a new node over the same array that drops the first
     * `offset` bytes and keeps the flag and the rest of the chain, or the
     * exception the window's constructor throws. The receiver is left as it
     * was (the method has no modifies clause).
     */
    method Slice(offset: int) returns (r: Result<BufferSegment>)
      ensures match NewSegment(buffer.arr, buffer.offset + offset, buffer.count - offset)
              case Throws(e) => r == Throws(e)
              case Ok(w) => r.Ok? && fresh(r.value) && r.value.buffer == w && r.value.owned == owned && r.value.next == next
      ensures r.Ok? && buffer.Valid() && 0 <= offset ==> r.value.buffer.Bytes() == buffer.Bytes()[offset..]
    {
      var w := NewSegment(buffer.arr, buffer.offset + offset, buffer.count - offset);
      if w.Throws? {
        return Throws(w.error);
      }
      if buffer.Valid() && 0 <= offset {
        WindowDrop(buffer, offset);
      }
      var n := new BufferSegment(w.value, owned, next);
      return Ok(n);
    }

    /**
     * `Slice(int offset, int length)`: a new node over `length` bytes of the
     * same array starting `offset` bytes into the window, cut off from the rest
     * of the chain, or the exception the window's constructor throws.
     */
    method SliceRange(offset: int, length: int) returns (r: Result<BufferSegment>)
      ensures match NewSegment(buffer.arr, buffer.offset + offset, length)
              case Throws(e) => r == Throws(e)
              case Ok(w) => r.Ok? && fresh(r.value) && r.value.buffer == w && r.value.owned == owned && r.value.next == null
      ensures r.Ok? && buffer.Valid() && 0 <= offset && offset + length <= buffer.count ==>
                r.value.buffer.Bytes() == buffer.Bytes()[offset..offset + length]
    {
      var w := NewSegment(buffer.arr, buffer.offset + offset, length);
      if w.Throws? {
        return Throws(w.error);
      }
      if buffer.Valid() && 0 <= offset && offset + length <= buffer.count {
        WindowSub(buffer, offset, length);
      }
      var n := new BufferSegment(w.value, owned, null);
      return Ok(n);
    }

    /** `Clone`: a new node with the same window, flag and link. */
    method Clone() returns (r: BufferSegment)
      ensures fresh(r)
      ensures r.buffer == buffer && r.owned == owned && r.next == next
    {
      r := new BufferSegment(buffer, owned, next);
    }
  }

  /** The windows of a sequence of nodes. */
  ghost function Buffers(nodes: seq<BufferSegment>): (r: seq<ArraySegment>)
    reads nodes`buffer
    ensures |r| == |nodes|
    ensures forall i :: 0 <= i < |nodes| ==> r[i] == nodes[i].buffer
  {
    if nodes == [] then [] else Buffers(nodes[..|nodes| - 1]) + [nodes[|nodes| - 1].buffer]
  }

  /**
   * `nodes` is the chain that starts at `head` and follows `next` until null;
   * every node holds a window of a real array.
   */
  ghost predicate IsChain(head: BufferSegment?, nodes: seq<BufferSegment>)
    reads nodes
  {
    && (head == null <==> nodes == [])
    && (nodes != [] ==> nodes[0] == head && nodes[|nodes| - 1].next == null)
    && (forall i :: 0 <= i < |nodes| - 1 ==> nodes[i].next == nodes[i + 1])
    && NonNull(Buffers(nodes))
  }

  /** Every window of the chain starts at index 0 of its array. */
  ghost predicate ZeroOffsets(bufs: seq<ArraySegment>)
  {
    forall i :: 0 <= i < |bufs| ==> bufs[i].offset == 0
  }

  /** The first position of `x` in `nodes`. */
  ghost function NodeIndex(nodes: seq<BufferSegment>, x: BufferSegment?): (k: nat)
    requires x in nodes
    ensures k < |nodes| && nodes[k] == x && x !in nodes[..k]
  {
    if nodes[0] == x then 0
    else
      var k := NodeIndex(nodes[1..], x) + 1;
      assert nodes[..k] == [nodes[0]] + nodes[1..][..k - 1];
      k
  }
}
