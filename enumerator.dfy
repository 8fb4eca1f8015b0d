/**
 * `ByteBuffer.Enumerator` and `GetArraySegment` (ByteBuffer.cs): the
 * enumeration of a view's windows, and the flattening of a view into one
 * window that copies only when there are several nodes.
 *
 * The enumerator stops on the tail when its `offset` equals the tail's
 * `End`. That `offset` starts as the *first* node's offset and is only set
 * to the tail's `End` after the tail has been yielded, so when the first
 * node's offset already equals the tail's `End` the tail is never yielded
 * (`TailSkipped` below). The model keeps that test as written. A view
 * whose tail is null never meets that test: it yields every window of its
 * chain and stops when `head` runs off the end, since the view's own flat
 * window holds no array.
 */
module Enumeration {
  import opened Bytes
  import opened Segments
  import opened ByteBuffers

  /**
   * The windows an enumerator over the chain windows `ws` still yields when
   * it is at window `i`, the tail is window `t` (there is no tail when `t`
   * is `|ws|`) and its offset is `offset`.
   */
  function Enumerated(ws: seq<ArraySegment>, i: nat, t: nat, offset: int): seq<ArraySegment>
    requires i <= t <= |ws|
    decreases t - i
  {
    if i == t then (if t == |ws| || offset == ws[t].offset + ws[t].count then [] else [ws[t]])
    else [ws[i]] + Enumerated(ws, i + 1, t, offset)
  }

  /**
   * The enumeration yields the windows from `i` to the tail in order, less
   * the tail exactly when `offset` is the tail's end; with no tail, every
   * window from `i` on.
   */
  lemma {:induction false} EnumeratedWindows(ws: seq<ArraySegment>, i: nat, t: nat, offset: int)
    requires i <= t <= |ws|
    ensures t < |ws| && offset != ws[t].offset + ws[t].count ==> Enumerated(ws, i, t, offset) == ws[i..t + 1]
    ensures t == |ws| || offset == ws[t].offset + ws[t].count ==> Enumerated(ws, i, t, offset) == ws[i..t]
    decreases t - i
  {
    if i < t {
      EnumeratedWindows(ws, i + 1, t, offset);
      if t < |ws| {
        assert ws[i..t + 1] == [ws[i]] + ws[i + 1..t + 1];
      }
      assert ws[i..t] == [ws[i]] + ws[i + 1..t];
    }
  }

  /**
   * A chain of two nodes whose first window starts at array index 2 and
   * whose tail ends at array index 2: the enumeration yields only the first
   * window and skips the two bytes of the tail.
   */
  lemma TailSkipped()
    ensures
      var ws := [ArraySegment(Arr([1, 2, 3]), 2, 1), ArraySegment(Arr([4, 5]), 0, 2)];
      NonNull(ws) && Enumerated(ws, 0, 1, ws[0].offset) == [ws[0]]
  {
  }

  class Enumerator {
    var head: BufferSegment?
    const tail: BufferSegment?
    var current: ArraySegment
    var data: ArraySegment
    var offset: int

    /**
     * The chain of the view, its windows, the index of its tail (`|nodes|`
     * when the tail is null), and the index of `head` (`|nodes|` once it has
     * run off the end).
     */
    ghost const nodes: seq<BufferSegment>
    ghost const ws: seq<ArraySegment>
    ghost const last: nat
    ghost var pos: nat

    /**
     * `ws` holds the windows of `nodes`, each node links to the next and the
     * last to null, and `tail` is at index `last` and at no earlier index, or
     * is null with `last` past the end.
     */
    ghost predicate Chain()
      reads nodes
    {
      && 0 < |nodes| == |ws| && last <= |nodes| && (last == |nodes| <==> tail == null)
      && (last < |nodes| ==> nodes[last] == tail)
      && (forall i :: 0 <= i < last ==> nodes[i] != tail)
      && (forall i :: 0 <= i < |nodes| ==> nodes[i].buffer == ws[i])
      && (forall i :: 0 <= i < |nodes| - 1 ==> nodes[i].next == nodes[i + 1])
      && nodes[|nodes| - 1].next == null
    }

    ghost predicate Valid()
      reads this, nodes
    {
      if nodes == [] then head == null && tail == null
      else Chain() && data == DefaultSegment && pos <= last && head == (if pos < |nodes| then nodes[pos] else null)
    }

    /** The windows the enumerator still yields. */
    ghost function Pending(): seq<ArraySegment>
      reads this
    {
      if head == null then (if data.arr.Arr? then [data] else [])
      else if pos <= last <= |ws| then Enumerated(ws, pos, last, offset)
      else []
    }

    /** `new Enumerator(head, tail, data)`, over the view `b` whose chain is `nodes`. */
    constructor (b: ByteBuffer, ghost nodes: seq<BufferSegment>)
      requires ByteBuffers.Valid(b, nodes)
      ensures head == b.head && tail == b.tail && data == b.data && current == DefaultSegment
      ensures offset == if b.head != null then b.head.buffer.offset else b.data.offset
      ensures Valid() && this.nodes == nodes
      ensures b.head == null ==> Pending() == (if b.data.arr.Arr? then [b.data] else [])
      ensures b.head != null ==> Pending() == Enumerated(Segments.Buffers(nodes), 0, TailAt(b, nodes), b.head.buffer.offset)
    {
      head := b.head;
      tail := b.tail;
      current := DefaultSegment;
      data := b.data;
      offset := if b.head != null then b.head.buffer.offset else b.data.offset;
      this.nodes := nodes;
      ws := Segments.Buffers(nodes);
      last := if b.head != null then TailAt(b, nodes) else 0;
      pos := 0;
    }

    /**
     * `MoveNext`. A flat view yields its window once, if it has an array.
     * Over nodes it yields the window of `head` and moves `head` on, except
     * at the tail, where it records the tail's end in `offset` instead; it
     * stops at the tail once `offset` is the tail's end.
     */
    method MoveNext() returns (more: bool)
      requires Valid()
      modifies this
      ensures Valid()
      ensures more <==> old(Pending()) != []
      ensures more ==> current == old(Pending())[0] && Pending() == old(Pending())[1..]
      ensures !more ==> Pending() == [] && unchanged(this)
      ensures old(head) == null && more ==> current == old(data) && data == DefaultSegment && head == null
      ensures old(head) != null && more ==>
                && current == old(head.buffer)
                && data == old(data)
                && (old(head) != tail ==> head == old(head.next) && offset == old(offset))
                && (old(head) == tail ==> head == tail && offset == tail.End())
    {
      if head == null {
        if data.arr.Arr? {
          current := data;
          data := DefaultSegment;
          return true;
        }
        return false;
      }
      EnumeratedStep(ws, pos, last, offset);
      if head == tail && offset == tail.buffer.offset + tail.buffer.count {
        return false;
      }
      current := head.buffer;
      if head != tail {
        head := head.next;
        pos := pos + 1;
      } else {
        offset := tail.buffer.offset + tail.buffer.count;
      }
      return true;
    }
  }

  /** One step of `Enumerated`: what its first window is and what follows it. */
  lemma EnumeratedStep(ws: seq<ArraySegment>, i: nat, t: nat, offset: int)
    requires i <= t <= |ws| && i < |ws|
    ensures i == t && offset == ws[t].offset + ws[t].count ==> Enumerated(ws, i, t, offset) == []
    ensures !(i == t && offset == ws[t].offset + ws[t].count) ==>
              && Enumerated(ws, i, t, offset) != []
              && Enumerated(ws, i, t, offset)[0] == ws[i]
              && Enumerated(ws, i, t, offset)[1..] ==
                   (if i < t then Enumerated(ws, i + 1, t, offset) else Enumerated(ws, t, t, ws[t].offset + ws[t].count))
  {
  }

  /** The windows that enumerating the view `b` yields. */
  ghost function Yields(b: ByteBuffer, nodes: seq<BufferSegment>): seq<ArraySegment>
    reads nodes
    requires ByteBuffers.Valid(b, nodes)
  {
    if b.head == null then (if b.data.arr.Arr? then [b.data] else [])
    else Enumerated(Segments.Buffers(nodes), 0, TailAt(b, nodes), b.head.buffer.offset)
  }

  /**
   * What `GetArraySegment` returns: a flat view's own window; for one node,
   * the first window enumerated, or the `NullReferenceException` of the copy
   * loop over a list never created when none is; for several nodes, a window
   * over a new array holding the bytes of the enumerated windows in order.
   */
  ghost function Flattened(b: ByteBuffer, nodes: seq<BufferSegment>): Result<ArraySegment>
    reads nodes
    requires ByteBuffers.Valid(b, nodes)
  {
    if b.head == null then Ok(b.data)
    else
      var ys := Yields(b, nodes);
      if IsSingleBuffer(b) then (if ys == [] then Throws(NullReference) else Ok(ys[0]))
      else Ok(ArraySegment(Arr(SegBytes(ys)), 0, TotalCount(ys)))
  }

  /** The windows a view over nodes yields are windows of its chain, and a view of several nodes yields some. */
  lemma YieldsOfChain(b: ByteBuffer, nodes: seq<BufferSegment>)
    requires ByteBuffers.Valid(b, nodes) && b.head != null
    ensures NonNull(Yields(b, nodes))
    ensures !IsSingleBuffer(b) ==> Yields(b, nodes) != []
  {
    var ws, t := Segments.Buffers(nodes), TailAt(b, nodes);
    EnumeratedWindows(ws, 0, t, b.head.buffer.offset);
    if t < |ws| {
      assert NonNull(ws[0..t + 1]);
    }
    assert NonNull(ws[0..t]);
    if !IsSingleBuffer(b) {
      EnumeratedStep(ws, 0, t, b.head.buffer.offset);
    }
  }

  /** In a chain, the last node occurs nowhere earlier. */
  lemma TailIndex(nodes: seq<BufferSegment>)
    requires nodes != [] && IsChain(nodes[0], nodes)
    ensures NodeIndex(nodes, nodes[|nodes| - 1]) == |nodes| - 1
  {
    forall i | 0 <= i < |nodes| - 1
      ensures nodes[i].next != null
    {
      assert nodes[i].next == nodes[i + 1];
    }
  }

  /**
   * When the view's tail ends its chain, or is null, and its first window
   * does not start where the tail ends, `GetArraySegment` succeeds with a
   * window holding exactly the view's bytes.
   */
  lemma FlattenedContent(b: ByteBuffer, nodes: seq<BufferSegment>)
    requires ByteBuffers.Valid(b, nodes) && (Tailed(b, nodes) || b.tail == null)
    requires b.head != null && b.tail != null ==> b.head.buffer.offset != b.tail.End()
    ensures Flattened(b, nodes).Ok? && Flattened(b, nodes).value.Bytes() == Content(b, nodes)
  {
    if b.head != null {
      var ws := Segments.Buffers(nodes);
      if b.tail != null {
        TailIndex(nodes);
      }
      EnumeratedWindows(ws, 0, TailAt(b, nodes), b.head.buffer.offset);
      assert ws[0..|nodes|] == ws;
      assert Yields(b, nodes) == ws;
      if IsSingleBuffer(b) {
        assert ws == [ws[0]];
        assert SegBytes(ws) == SegBytes([]) + ws[0].Bytes();
      } else {
        SegBytesLength(ws);
        assert SegBytes(ws)[0..TotalCount(ws)] == SegBytes(ws);
      }
    }
  }

  /**
   * A view of one node: `GetArraySegment` returns that node's window, or
   * throws `NullReferenceException` exactly when the window is empty (the
   * enumeration yields nothing and the copy loop runs over a list that was
   * never created).
   */
  lemma FlattenedSingle(b: ByteBuffer, nodes: seq<BufferSegment>)
    requires ByteBuffers.Valid(b, nodes) && b.head != null && IsSingleBuffer(b)
    ensures b.head.buffer.count == 0 ==> Flattened(b, nodes) == Throws(NullReference)
    ensures b.head.buffer.count != 0 ==> Flattened(b, nodes) == Ok(b.head.buffer)
  {
    assert TailAt(b, nodes) == 0;
  }

  /**
   * A view of several nodes whose first window starts where its last ends:
   * `GetArraySegment` copies every window but the last.
   */
  lemma FlattenedSkipsTail(b: ByteBuffer, nodes: seq<BufferSegment>)
    requires ByteBuffers.Valid(b, nodes) && b.head != null && !IsSingleBuffer(b)
    requires b.tail != null && b.head.buffer.offset == b.tail.End()
    ensures
      var t := TailAt(b, nodes);
      Flattened(b, nodes) == Ok(ArraySegment(Arr(SegBytes(Segments.Buffers(nodes)[..t])), 0, TotalCount(Segments.Buffers(nodes)[..t])))
  {
    var ws, t := Segments.Buffers(nodes), TailAt(b, nodes);
    EnumeratedWindows(ws, 0, t, b.head.buffer.offset);
    assert ws[0..t] == ws[..t];
  }

  /**
   * `GetArraySegment`. A flat view returns its window. Otherwise it
   * enumerates the windows: with one node it returns the first; with
   * several it lists them and their total size, then copies them in order
   * into a new array of that size with `Buffer.BlockCopy`.
   */
  method GetArraySegment(b: ByteBuffer, ghost nodes: seq<BufferSegment>) returns (r: Result<ArraySegment>)
    requires ByteBuffers.Valid(b, nodes)
    ensures r == old(Flattened(b, nodes)) && unchanged(nodes)
  {
    if b.head == null {
      return Ok(b.data);
    }
    ghost var ys := Yields(b, nodes);
    ghost var want := Flattened(b, nodes);
    YieldsOfChain(b, nodes);
    var e := new Enumerator(b, nodes);
    var returned, span, listed, buffers, length := Gather(e, IsSingleBuffer(b));
    if returned {
      r := Ok(span);
    } else if !listed {
      r := Throws(NullReference);
    } else {
      var a := Copy(buffers, length);
      r := Ok(ArraySegment(Arr(a[..]), 0, length));
    }
    assert r == want;
  }

  /**
   * The `foreach` over the enumerator in `GetArraySegment`: with one node its
   * first round returns the first window; otherwise it lists every window,
   * creating the list on the first, and sums their sizes.
   */
  method Gather(e: Enumerator, single: bool)
    returns (returned: bool, span: ArraySegment, listed: bool, buffers: seq<ArraySegment>, length: int)
    requires e.Valid()
    modifies e
    ensures returned <==> single && old(e.Pending()) != []
    ensures returned ==> span == old(e.Pending())[0]
    ensures !returned ==> buffers == (if single then [] else old(e.Pending()))
    ensures !returned ==> length == TotalCount(buffers) && (listed <==> buffers != [])
  {
    if single {
      returned, span := Next(e);
      return returned, span, false, [], 0;
    }
    span := DefaultSegment;
    returned := false;
    listed, buffers, length := ListAll(e);
  }

  /** The `foreach` over several nodes: every window still to come, in order, and their total size. */
  method ListAll(e: Enumerator) returns (listed: bool, buffers: seq<ArraySegment>, length: int)
    requires e.Valid()
    modifies e
    ensures buffers == old(e.Pending()) && length == TotalCount(buffers) && (listed <==> buffers != [])
  {
    ghost var ys := e.Pending();
    ghost var rest := ys;  // what the enumerator still yields
    listed := false;  // whether the list `buffers` has been created
    buffers := [];
    length := 0;
    while true
      invariant e.Valid() && e.Pending() == rest && buffers + rest == ys
      invariant length == TotalCount(buffers) && (listed <==> buffers != [])
      decreases |rest|
    {
      var more, span := Next(e);
      if !more {
        assert rest == [];
        break;
      }
      listed := true;
      Listed(buffers, span, e.Pending(), ys);
      buffers := buffers + [span];
      length := length + span.count;
      rest := e.Pending();
    }
  }

  /** Adding the next window to the list keeps the list and what is to come together the whole enumeration. */
  lemma Listed(buffers: seq<ArraySegment>, span: ArraySegment, rest: seq<ArraySegment>, ys: seq<ArraySegment>)
    requires buffers + ([span] + rest) == ys
    ensures (buffers + [span]) + rest == ys
    ensures TotalCount(buffers + [span]) == TotalCount(buffers) + span.count
  {
    assert (buffers + [span])[..|buffers|] == buffers;
  }

  /** `MoveNext` followed by `Current`, as the `foreach` does, stated by what is still to come. */
  method Next(e: Enumerator) returns (more: bool, span: ArraySegment)
    requires e.Valid()
    modifies e
    ensures e.Valid()
    ensures more <==> old(e.Pending()) != []
    ensures more ==> old(e.Pending()) == [span] + e.Pending()
    ensures !more ==> e.Pending() == []
  {
    more := e.MoveNext();
    span := e.current;
  }

  /** The copy loop of `GetArraySegment`: the windows' bytes, in order, in a new array of their total size. */
  method Copy(buffers: seq<ArraySegment>, length: int) returns (a: array<byte>)
    requires NonNull(buffers) && length == TotalCount(buffers)
    ensures fresh(a) && a[..] == SegBytes(buffers)
  {
    SegBytesLength(buffers);
    a := new byte[length];
    var offset := 0;
    var k := 0;
    while k < |buffers|
      invariant 0 <= k <= |buffers| && a.Length == length
      invariant 0 <= offset <= length && offset == TotalCount(buffers[..k])
      invariant a[..offset] == SegBytes(buffers[..k])
    {
      CopyStep(buffers, k);
      CopyOne(buffers[k], a, offset);
      offset := offset + buffers[k].count;
      k := k + 1;
    }
    assert buffers[..k] == buffers;
  }

  /** One round of the copy loop: `BlockCopy` of the window `span` to `offset`. */
  method CopyOne(span: ArraySegment, a: array<byte>, offset: int)
    requires span.Valid() && span.arr.Arr? && 0 <= offset && offset + span.count <= a.Length
    modifies a
    ensures a[..offset + span.count] == old(a[..offset]) + span.Bytes()
  {
    ghost var pre, post := a[..offset], a[offset + span.count..];
    BlockCopy(span.arr.elems, span.offset, a, offset, span.count);
    CopiedPrefix(a[..], pre, span.Bytes(), post);
  }

  /** What one round of the copy loop adds: the next window, which fits in what is left. */
  lemma CopyStep(buffers: seq<ArraySegment>, k: nat)
    requires NonNull(buffers) && k < |buffers|
    ensures TotalCount(buffers[..k + 1]) == TotalCount(buffers[..k]) + buffers[k].count <= TotalCount(buffers)
    ensures SegBytes(buffers[..k + 1]) == SegBytes(buffers[..k]) + buffers[k].Bytes()
    ensures buffers[k].Bytes() == buffers[k].arr.elems[buffers[k].offset..buffers[k].offset + buffers[k].count]
  {
    assert buffers[..k + 1][..k] == buffers[..k];
    TotalCountBound(buffers, k + 1);
  }

  /** After `BlockCopy` writes `src` just past `pre`, the array up to the copy's end is `pre` followed by `src`. */
  lemma CopiedPrefix(after: seq<byte>, pre: seq<byte>, src: seq<byte>, post: seq<byte>)
    requires after == pre + src + post
    ensures after[..|pre| + |src|] == pre + src
  {
  }
}
