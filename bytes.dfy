/**
 * Bytes, the .NET `ArraySegment<byte>` value and the two library routines the
 * buffer code relies on (`Array.IndexOf` over a window and `Buffer.BlockCopy`),
 * plus the exceptions the core can raise, as values. The core never writes to
 * an array once a window is over it, so an array is modelled by its elements.
 */
module Bytes {

  newtype byte = b: int | 0 <= b < 0x100

  /** The .NET exceptions that the modelled code can raise. */
  datatype Exception =
    | NullReference        // a member access on a null segment or list
    | ArgumentNull         // an `ArraySegment` or `Array.IndexOf` over a null array
    | ArgumentOutOfRange   // an `ArraySegment` with a negative offset or count
    | Argument             // an `ArraySegment` window that runs past the end of its array
    | InvalidOperation     // the frame decoder dispatched on a field it has no parser for

  /** The outcome of an operation that either returns a value or throws. */
  datatype Result<T> = Ok(value: T) | Throws(error: Exception)

  /** A reference to a `byte[]`: null, or an array with its elements. */
  datatype ArrayRef = Null | Arr(elems: seq<byte>)

  /**
   * `System.ArraySegment<byte>`: `count` bytes of `arr` starting at `offset`.
   * Only the default value has a null array.
   */
  datatype ArraySegment = ArraySegment(arr: ArrayRef, offset: int, count: int) {

    /** What the `ArraySegment` constructor checks before it accepts a window. */
    predicate Valid() {
      match arr
      case Null => offset == 0 && count == 0
      case Arr(elems) => 0 <= offset && 0 <= count && offset + count <= |elems|
    }

    /** The bytes the window shows (none for a window the constructor rejects). */
    function Bytes(): (r: seq<byte>)
      ensures Valid() ==> |r| == count
    {
      if !Valid() || arr.Null? then [] else arr.elems[offset..offset + count]
    }
  }

  /** `default(ArraySegment<byte>)`. */
  const DefaultSegment := ArraySegment(Null, 0, 0)

  /**
   * `new ArraySegment<byte>(arr, offset, count)`: the constructor throws on
   * a null array, on a negative offset or count, and on a window that runs
   * past the end of the array.
   */
  function NewSegment(arr: ArrayRef, offset: int, count: int): (r: Result<ArraySegment>)
    ensures r.Ok? <==> arr.Arr? && ArraySegment(arr, offset, count).Valid()
    ensures r.Ok? ==> r.value == ArraySegment(arr, offset, count)
    ensures arr.Null? ==> r == Throws(ArgumentNull)
    ensures arr.Arr? && (offset < 0 || count < 0) ==> r == Throws(ArgumentOutOfRange)
  {
    if arr.Null? then Throws(ArgumentNull)
    else if offset < 0 || count < 0 then Throws(ArgumentOutOfRange)
    else if offset + count > |arr.elems| then Throws(Argument)
    else Ok(ArraySegment(arr, offset, count))
  }

  /** Every window of the sequence is one the `ArraySegment` constructor accepts. */
  predicate AllValid(segs: seq<ArraySegment>) {
    forall i :: 0 <= i < |segs| ==> segs[i].Valid()
  }

  /** Every window of the sequence is valid and over a real array. */
  predicate NonNull(segs: seq<ArraySegment>) {
    AllValid(segs) && forall i :: 0 <= i < |segs| ==> segs[i].arr.Arr?
  }

  /** The concatenation of the bytes of a sequence of windows, in order. */
  function SegBytes(segs: seq<ArraySegment>): seq<byte>
  {
    if segs == [] then [] else SegBytes(segs[..|segs| - 1]) + segs[|segs| - 1].Bytes()
  }

  /** The total number of bytes in a sequence of windows. */
  function TotalCount(segs: seq<ArraySegment>): int
  {
    if segs == [] then 0 else TotalCount(segs[..|segs| - 1]) + segs[|segs| - 1].count
  }

  lemma {:induction false} SegBytesLength(segs: seq<ArraySegment>)
    requires AllValid(segs)
    ensures |SegBytes(segs)| == TotalCount(segs)
  {
    if segs != [] {
      assert AllValid(segs[..|segs| - 1]);
      SegBytesLength(segs[..|segs| - 1]);
    }
  }

  /** Concatenating windows distributes over splitting the sequence of windows. */
  lemma {:induction false} SegBytesAppend(a: seq<ArraySegment>, b: seq<ArraySegment>)
    ensures SegBytes(a + b) == SegBytes(a) + SegBytes(b)
    decreases |b|
  {
    if b == [] {
      assert a + b == a;
    } else {
      assert (a + b)[..|a + b| - 1] == a + b[..|b| - 1];
      SegBytesAppend(a, b[..|b| - 1]);
      ConcatAssoc(SegBytes(a), SegBytes(b[..|b| - 1]), b[|b| - 1].Bytes());
    }
  }

  /** Concatenation of byte sequences is associative (stated once, for the solver's benefit). */
  lemma ConcatAssoc(a: seq<byte>, b: seq<byte>, c: seq<byte>)
    ensures a + (b + c) == a + b + c
  {
  }

  /** A prefix no longer than `a` of `a + b` is a prefix of `a`. */
  lemma PrefixOfConcat(a: seq<byte>, b: seq<byte>, n: int)
    requires 0 <= n <= |a|
    ensures (a + b)[..n] == a[..n]
  {
  }

  lemma {:induction false} TotalCountAppend(a: seq<ArraySegment>, b: seq<ArraySegment>)
    ensures TotalCount(a + b) == TotalCount(a) + TotalCount(b)
    decreases |b|
  {
    if b == [] {
      assert a + b == a;
    } else {
      assert (a + b)[..|a + b| - 1] == a + b[..|b| - 1];
      TotalCountAppend(a, b[..|b| - 1]);
    }
  }

  /** Dropping `res` bytes from the front of a window is the window that starts `res` later. */
  lemma WindowDrop(w: ArraySegment, res: int)
    requires w.Valid() && w.arr.Arr? && 0 <= res <= w.count
    ensures ArraySegment(w.arr, w.offset + res, w.count - res).Bytes() == w.Bytes()[res..]
  {
    var e := w.arr.elems;
    assert e[w.offset..w.offset + w.count][res..] == e[w.offset + res..w.offset + w.count];
  }

  /** Keeping the first `n` bytes of a window is the window of count `n`. */
  lemma WindowTake(w: ArraySegment, n: int)
    requires w.Valid() && w.arr.Arr? && 0 <= n <= w.count
    ensures ArraySegment(w.arr, w.offset, n).Bytes() == w.Bytes()[..n]
  {
    var e := w.arr.elems;
    assert e[w.offset..w.offset + w.count][..n] == e[w.offset..w.offset + n];
  }

  /** The `n` bytes `o` bytes into a window are the window of count `n` that starts `o` later. */
  lemma WindowSub(w: ArraySegment, o: int, n: int)
    requires w.Valid() && w.arr.Arr? && 0 <= o && 0 <= n && o + n <= w.count
    ensures ArraySegment(w.arr, w.offset + o, n).Bytes() == w.Bytes()[o..o + n]
  {
    var e := w.arr.elems;
    assert e[w.offset..w.offset + w.count][o..o + n] == e[w.offset + o..w.offset + o + n];
  }

  /**
   * `Array.IndexOf(a, value, start, count)`: the first index in
   * `[start, start + count)` that holds `value`, as an index into the whole
   * array, or -1 when there is none.
   */
  function ArrayIndexOf(a: seq<byte>, value: byte, start: int, count: int): (r: int)
    requires 0 <= start && 0 <= count && start + count <= |a|
    ensures r == -1 <==> value !in a[start..start + count]
    ensures r != -1 ==> start <= r < start + count && a[r] == value && value !in a[start..r]
    decreases count
  {
    if count == 0 then -1
    else if a[start] == value then start
    else
      var r := ArrayIndexOf(a, value, start + 1, count - 1);
      assert a[start..start + count] == [a[start]] + a[start + 1..start + count];
      assert r != -1 ==> a[start..r] == [a[start]] + a[start + 1..r];
      r
  }

  /**
   * `Buffer.BlockCopy(src, srcOffset, dst, dstOffset, count)`: the `count`
   * bytes at `srcOffset` of `src` overwrite those at `dstOffset` of `dst`.
   */
  method BlockCopy(src: seq<byte>, srcOffset: int, dst: array<byte>, dstOffset: int, count: int)
    requires 0 <= srcOffset && 0 <= count && srcOffset + count <= |src|
    requires 0 <= dstOffset && dstOffset + count <= dst.Length
    modifies dst
    ensures dst[..] == old(dst[..dstOffset]) + src[srcOffset..srcOffset + count] + old(dst[dstOffset + count..])
  {
    var k := 0;
    while k < count
      invariant 0 <= k <= count
      invariant dst[..dstOffset] == old(dst[..dstOffset])
      invariant dst[dstOffset..dstOffset + k] == src[srcOffset..srcOffset + k]
      invariant dst[dstOffset + k..] == old(dst[dstOffset + k..])
    {
      dst[dstOffset + k] := src[srcOffset + k];
      k := k + 1;
    }
    assert dst[..] == dst[..dstOffset] + dst[dstOffset..dstOffset + count] + dst[dstOffset + count..];
  }
}
